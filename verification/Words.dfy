/** Unsigned 64-bit arithmetic of C and Go, written out over the unbounded integers. */
module Words {

  const TWO_64: int := 0x1_0000_0000_0000_0000

  type U64 = x: int | 0 <= x < TWO_64

  function Wrap(x: int): U64 {
    x % TWO_64
  }

  function Add64(a: U64, b: U64): U64 {
    if a + b < TWO_64 then a + b else a + b - TWO_64
  }

  function Sub64(a: U64, b: U64): U64 {
    if a >= b then a - b else a - b + TWO_64
  }

  function Mul64(a: U64, b: U64): U64 {
    Wrap(a * b)
  }

  function Pow2(n: nat): nat {
    if n == 0 then 1 else 2 * Pow2(n - 1)
  }

  /** Machine arithmetic is arithmetic modulo 2^64, and commutes with reducing the operands first. */
  lemma AddWraps(a: int, b: int)
    ensures Add64(Wrap(a), Wrap(b)) == Wrap(a + b)
  {
    WrapIs(Wrap(a) + Wrap(b), (a + b) / TWO_64 - a / TWO_64 - b / TWO_64, Wrap(a + b));
  }

  lemma SubWraps(a: int, b: int)
    ensures Sub64(Wrap(a), Wrap(b)) == Wrap(a - b)
  {
    WrapIs(Wrap(a) - Wrap(b), (a - b) / TWO_64 - a / TWO_64 + b / TWO_64, Wrap(a - b));
  }

  /** Reducing the operands first changes neither a sum nor a difference. */
  lemma WrapIs(x: int, k: int, r: U64)
    requires x == k * TWO_64 + r
    ensures Wrap(x) == r
  {
  }

  lemma EightMore(n: nat)
    ensures Pow2(n + 8) == 256 * Pow2(n)
  {
    FourMore(n);
    FourMore(n + 4);
  }

  lemma FourMore(n: nat)
    ensures Pow2(n + 4) == 16 * Pow2(n)
  {
    assert Pow2(n + 2) == 2 * Pow2(n + 1);
    assert Pow2(n + 4) == 2 * Pow2(n + 3);
  }

  lemma WordSize()
    ensures TWO_64 == Pow2(64)
  {
    EightMore(0);
    EightMore(8);
    EightMore(16);
    EightMore(24);
    EightMore(32);
    EightMore(40);
    EightMore(48);
    EightMore(56);
  }

  lemma {:induction false} Pow2Monotone(i: nat, j: nat)
    requires i <= j
    ensures Pow2(i) <= Pow2(j)
  {
    if i < j {
      Pow2Monotone(i, j - 1);
    }
  }
}
