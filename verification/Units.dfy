/** The formatting helpers of cmd/sysmon/main.go: humanBytes, humanKB and the widths of bar. */
module Units {
  import opened Words

  const UNIT: U64 := 1024

  const SUFFIXES: string := "KMGTPE"

  function Power(n: nat): nat {
    if n == 0 then 1 else 1024 * Power(n - 1)
  }

  /** What humanBytes prints: a byte count, or number / div with the prefix of a binary unit. */
  datatype Human = Bytes(b: nat) | Scaled(number: nat, div: nat, prefix: char)

  lemma PowersThatFit()
    ensures Power(6) == 0x1000_0000_0000_0000 && Power(7) > TWO_64
  {
    assert Power(3) == 0x4000_0000;
    assert Power(6) == 1024 * 1024 * 1024 * Power(3);
  }

  lemma {:induction false} PowerMonotone(i: nat, j: nat)
    requires i <= j
    ensures Power(i) <= Power(j)
  {
    if i < j {
      PowerMonotone(i, j - 1);
    }
  }

  /** One turn of the loop: n / unit is the quotient by the next divisor. */
  lemma QuotientStep(b: nat, div: nat, n: nat)
    requires n * div <= b < (n + 1) * div
    ensures n >= 1024 ==> div * 1024 <= b
    ensures n / 1024 * (div * 1024) <= b < (n / 1024 + 1) * (div * 1024)
  {
    var q := n / 1024;
    TimesMonotone(q * 1024, n, div);
    TimesMonotone(n + 1, (q + 1) * 1024, div);
    TimesAssociate(q, div);
    TimesAssociate(q + 1, div);
    if n >= 1024 {
      TimesMonotone(1024, n, div);
    }
  }

  lemma TimesMonotone(a: nat, b: nat, c: nat)
    requires a <= b
    ensures a * c <= b * c
  {
  }

  lemma TimesAssociate(q: nat, div: nat)
    ensures q * 1024 * div == q * (div * 1024)
  {
  }

  lemma {:induction false} FittingPower(k: nat)
    requires Power(k) < TWO_64
    ensures k <= 6
  {
    PowersThatFit();
    if k > 6 {
      PowerMonotone(7, k);
    }
  }

  /** The binary units, from kibi up to exbi. */
  function InUnits(b: U64): Human {
    if b < 0x400 then Bytes(b)
    else if b < 0x10_0000 then Scaled(b, 0x400, 'K')
    else if b < 0x4000_0000 then Scaled(b, 0x10_0000, 'M')
    else if b < 0x100_0000_0000 then Scaled(b, 0x4000_0000, 'G')
    else if b < 0x4_0000_0000_0000 then Scaled(b, 0x100_0000_0000, 'T')
    else if b < 0x1000_0000_0000_0000 then Scaled(b, 0x4_0000_0000_0000, 'P')
    else Scaled(b, 0x1000_0000_0000_0000, 'E')
  }

  lemma PowersAre()
    ensures Power(1) == 0x400 && Power(2) == 0x10_0000 && Power(3) == 0x4000_0000
    ensures Power(4) == 0x100_0000_0000 && Power(5) == 0x4_0000_0000_0000 && Power(6) == 0x1000_0000_0000_0000
    ensures Power(7) > TWO_64
  {
    PowersThatFit();
  }

  lemma {:induction false} UnitIs(b: U64, exp: nat)
    requires exp <= 5 && Power(exp + 1) <= b < Power(exp + 2)
    ensures InUnits(b) == Scaled(b, Power(exp + 1), SUFFIXES[exp])
  {
    PowersAre();
    if exp == 0 {
    } else if exp == 1 {
    } else if exp == 2 {
    } else if exp == 3 {
    } else if exp == 4 {
    } else {
      assert exp == 5;
    }
  }

  lemma NextUnit(b: U64, div: U64, n: U64, exp: nat)
    requires exp <= 5 && div == Power(exp + 1) <= b && n * div <= b < (n + 1) * div && n >= 1024
    ensures exp + 1 <= 5 && Mul64(div, UNIT) == Power(exp + 2) <= b
    ensures n / 1024 * Power(exp + 2) <= b < (n / 1024 + 1) * Power(exp + 2)
  {
    QuotientStep(b, div, n);
    assert Power(exp + 2) == 1024 * Power(exp + 1);
    FittingPower(exp + 2);
    WrapIs(div * UNIT, 0, div * UNIT);
  }

  lemma LastUnit(b: U64, div: U64, n: U64, exp: nat)
    requires div == Power(exp + 1) && b < (n + 1) * div && n < 1024
    ensures b < Power(exp + 2)
  {
    TimesMonotone(n + 1, 1024, div);
    assert Power(exp + 2) == 1024 * Power(exp + 1);
  }

  method HumanBytes(b: U64) returns (h: Human)
    ensures h == InUnits(b)
    ensures b < 1024 ==> h == Bytes(b)
    ensures b >= 1024 ==> exists exp :: 0 <= exp <= 5 && h == Scaled(b, Power(exp + 1), SUFFIXES[exp])
                                        && Power(exp + 1) <= b < Power(exp + 2)
  {
    if b < UNIT {
      return Bytes(b);
    }
    var div: U64, exp := UNIT, 0;
    var n: U64 := b / UNIT;
    assert Power(1) == 1024;
    while n >= UNIT
      invariant 0 <= exp <= 5 && div == Power(exp + 1) <= b
      invariant n * div <= b < (n + 1) * div
      decreases n
    {
      NextUnit(b, div, n, exp);
      div := Mul64(div, UNIT);
      exp := exp + 1;
      n := n / UNIT;
    }
    LastUnit(b, div, n, exp);
    UnitIs(b, exp);
    h := Scaled(b, div, SUFFIXES[exp]);
  }

  /** The unit is determined by the count, and a larger count never gets a smaller unit. */
  lemma UnitIsMonotone(b: nat, e: nat, b': nat, e': nat)
    requires Power(e + 1) <= b < Power(e + 2) && Power(e' + 1) <= b' < Power(e' + 2)
    requires b <= b'
    ensures e <= e'
  {
    if e > e' {
      PowerMonotone(e' + 2, e + 1);
    }
  }

  method HumanKB(kb: U64) returns (h: Human)
    ensures kb < 0x40_0000_0000_0000 ==> h == InUnits(kb * 1024)
    ensures h == InUnits(Mul64(kb, 1024))
  {
    HumanKBExactIff(kb);
    h := HumanBytes(Mul64(kb, UNIT));
  }

  /** humanKB multiplies by 1024 without checking; the product is right only below 2^54 kB. */
  lemma HumanKBExactIff(kb: U64)
    ensures Mul64(kb, 1024) == kb * 1024 <==> kb < 0x40_0000_0000_0000
  {
    if kb < 0x40_0000_0000_0000 {
      WrapIs(kb * 1024, 0, kb * 1024);
    }
  }

  const WIDTH: int := 20

  /** The filled cells of a bar. */
  function Filled(pct: real): int {
    var clamped := if pct < 0.0 then 0.0 else if pct > 100.0 then 100.0 else pct;
    (clamped / 100.0 * WIDTH as real).Floor
  }

  /** Neither repeat count is negative, whatever the percentage; the bar grows with it. */
  lemma BarFits(pct: real, pct': real)
    requires pct <= pct'
    ensures 0 <= Filled(pct) <= Filled(pct') <= 20 == WIDTH
    ensures Filled(pct) == 20 <==> pct >= 100.0
    ensures Filled(pct) == 0 <==> pct < 5.0
    ensures 0.0 <= pct <= 100.0 ==> Filled(pct) as real * 5.0 <= pct < (Filled(pct) + 1) as real * 5.0
  {
  }
}
