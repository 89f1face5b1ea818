/** The parser for /proc/meminfo of internal/stats/mem.go. */
module ProcMem {
  import opened Options
  import opened Words
  import opened Text
  import opened Join

  datatype MemInfo = MemInfo(totalKB: U64, freeKB: U64, availableKB: U64, buffersKB: U64, cachedKB: U64,
                             swapTotalKB: U64, swapFreeKB: U64) {
    function UsedKB(): (used: U64)
      ensures used <= totalKB && (availableKB <= totalKB ==> used + availableKB == totalKB)
      ensures availableKB > totalKB ==> used == 0
    {
      if availableKB > totalKB then 0 else totalKB - availableKB
    }

    function SwapUsedKB(): (used: U64)
      ensures used <= swapTotalKB && (swapFreeKB <= swapTotalKB ==> used + swapFreeKB == swapTotalKB)
      ensures swapFreeKB > swapTotalKB ==> used == 0
    {
      if swapFreeKB > swapTotalKB then 0 else swapTotalKB - swapFreeKB
    }
  }

  const KEYS: seq<string> := ["MemTotal", "MemFree", "MemAvailable", "Buffers", "Cached", "SwapTotal", "SwapFree"]

  /** The text before the first colon. */
  function KeyOf(line: string): Option<string> {
    var colon := IndexOf(line, ':');
    if colon < 0 then None else Some(line[..colon])
  }

  /** The number after the first colon, with its unit removed. */
  function ValueOf(line: string): Option<U64> {
    var rest := TrimSpace(line[IndexOf(line, ':') + 1..]);
    ParseUint(TrimSpace(TrimSuffix(rest, " kB")))
  }

  predicate IsTarget(line: string) {
    KeyOf(line).Some? && KeyOf(line).value in KEYS
  }

  predicate IsBad(line: string) {
    IsTarget(line) && ValueOf(line).None?
  }

  /** The value on the last line with this key, or 0. */
  function LastValue(lines: seq<string>, key: string): U64 {
    var byKey := ByName(lines, KeyOf);
    if Some(key) in byKey && ValueOf(byKey[Some(key)]).Some? then ValueOf(byKey[Some(key)]).value else 0
  }

  function LastValues(lines: seq<string>): MemInfo {
    MemInfo(LastValue(lines, "MemTotal"), LastValue(lines, "MemFree"), LastValue(lines, "MemAvailable"),
            LastValue(lines, "Buffers"), LastValue(lines, "Cached"),
            LastValue(lines, "SwapTotal"), LastValue(lines, "SwapFree"))
  }

  function WithFallback(mi: MemInfo): MemInfo {
    if mi.availableKB == 0 then mi.(availableKB := Add64(Add64(mi.freeKB, mi.buffersKB), mi.cachedKB)) else mi
  }

  /** The estimate is the sum modulo 2^64, and a reported value above 0 is never replaced. */
  lemma FallbackIsEstimate(mi: MemInfo)
    ensures WithFallback(mi) == mi.(availableKB := WithFallback(mi).availableKB)
    ensures WithFallback(mi).availableKB
         == if mi.availableKB == 0 then Wrap(mi.freeKB + mi.buffersKB + mi.cachedKB) else mi.availableKB
  {
    AddWraps(mi.freeKB, mi.buffersKB);
    AddWraps(mi.freeKB + mi.buffersKB, mi.cachedKB);
    WrapIs(mi.freeKB, 0, mi.freeKB);
    WrapIs(mi.buffersKB, 0, mi.buffersKB);
    WrapIs(mi.cachedKB, 0, mi.cachedKB);
  }

  /** The write through the pointer that the table of targets holds for key. */
  function Store(mi: MemInfo, key: string, v: U64): MemInfo {
    if key == "MemTotal" then mi.(totalKB := v)
    else if key == "MemFree" then mi.(freeKB := v)
    else if key == "MemAvailable" then mi.(availableKB := v)
    else if key == "Buffers" then mi.(buffersKB := v)
    else if key == "Cached" then mi.(cachedKB := v)
    else if key == "SwapTotal" then mi.(swapTotalKB := v)
    else if key == "SwapFree" then mi.(swapFreeKB := v)
    else mi
  }

  function AfterLine(mi: MemInfo, line: string): MemInfo {
    if IsTarget(line) && ValueOf(line).Some? then Store(mi, KeyOf(line).value, ValueOf(line).value) else mi
  }

  lemma LastValueSnoc(lines: seq<string>, i: nat, key: string)
    requires i < |lines|
    ensures KeyOf(lines[i]) != Some(key) ==> LastValue(lines[..i + 1], key) == LastValue(lines[..i], key)
    ensures KeyOf(lines[i]) == Some(key) && ValueOf(lines[i]).Some? ==>
              LastValue(lines[..i + 1], key) == ValueOf(lines[i]).value
  {
    ByNameSnoc(lines, i, KeyOf);
  }

  lemma KeysDiffer()
    ensures forall i, j :: 0 <= i < j < |KEYS| ==> KEYS[i] != KEYS[j]
  {
    assert KEYS[0][3] != KEYS[1][3] && KEYS[1][3] != KEYS[2][3] && KEYS[0][3] != KEYS[2][3];
    assert |KEYS[0]| == 8 && |KEYS[1]| == 7 && |KEYS[2]| == 12 && |KEYS[3]| == 7 && |KEYS[4]| == 6;
    assert |KEYS[5]| == 9 && |KEYS[6]| == 8;
    assert KEYS[0][0] == 'M' && KEYS[6][0] == 'S' && KEYS[1][0] == 'M' && KEYS[3][0] == 'B';
  }

  lemma StoreIsStep(lines: seq<string>, i: nat)
    requires i < |lines| && !IsBad(lines[i])
    ensures LastValues(lines[..i + 1])
         == AfterLine(LastValues(lines[..i]), lines[i])
  {
    KeysDiffer();
    LastValueSnoc(lines, i, KEYS[0]);
    LastValueSnoc(lines, i, KEYS[1]);
    LastValueSnoc(lines, i, KEYS[2]);
    LastValueSnoc(lines, i, KEYS[3]);
    LastValueSnoc(lines, i, KEYS[4]);
    LastValueSnoc(lines, i, KEYS[5]);
    LastValueSnoc(lines, i, KEYS[6]);
  }

  /** The loop body: skips a line without a colon or with another key, and fails on a bad number. */
  method ReadLine(mi: MemInfo, line: string) returns (next: Option<MemInfo>)
    ensures next == if IsBad(line) then None else Some(AfterLine(mi, line))
  {
    var colon := IndexOf(line, ':');
    if colon < 0 {
      return Some(mi);
    }
    var key := line[..colon];
    if key !in KEYS {
      return Some(mi);
    }
    var valuePart := TrimSpace(line[colon + 1..]);
    valuePart := TrimSuffix(valuePart, " kB");
    valuePart := TrimSpace(valuePart);
    var v := ParseUint(valuePart);
    if v.None? {
      return None;
    }
    next := Some(Store(mi, key, v.value));
  }

  /** Fails exactly when a line with one of the seven keys carries no 64-bit number; otherwise every
      field is the last such number or 0, and available memory is estimated when it would be 0. */
  method ParseMemInfo(lines: seq<string>) returns (result: Option<MemInfo>)
    ensures result.None? <==> exists i :: 0 <= i < |lines| && IsBad(lines[i])
    ensures result.Some? ==> result.value == WithFallback(LastValues(lines))
  {
    var mi := MemInfo(0, 0, 0, 0, 0, 0, 0);
    var i := 0;
    while i < |lines|
      invariant i <= |lines| && mi == LastValues(lines[..i])
      invariant forall k :: 0 <= k < i ==> !IsBad(lines[k])
    {
      var line := lines[i];
      var next := ReadLine(mi, line);
      if next.None? {
        return None;
      }
      StoreIsStep(lines, i);
      mi := next.value;
      i := i + 1;
    }
    assert lines[..i] == lines;
    if mi.availableKB == 0 {
      mi := mi.(availableKB := Add64(Add64(mi.freeKB, mi.buffersKB), mi.cachedKB));
    }
    result := Some(mi);
  }

  /** The order of the lines does not matter when no key occurs twice. */
  lemma OrderIsIrrelevant(lines: seq<string>, lines': seq<string>)
    requires multiset(lines) == multiset(lines')
    requires forall k :: 0 <= k < |KEYS| ==> AtMostOne(lines, KeyOf, Some(KEYS[k]))
    ensures (exists i :: 0 <= i < |lines| && IsBad(lines[i])) <==> (exists i :: 0 <= i < |lines'| && IsBad(lines'[i]))
    ensures LastValues(lines) == LastValues(lines')
  {
    SameMembers(lines, lines');
    forall k | 0 <= k < |KEYS| ensures LastValue(lines, KEYS[k]) == LastValue(lines', KEYS[k]) {
      LookupIgnoresOrder(lines, lines', KeyOf, Some(KEYS[k]));
    }
    assert LastValue(lines, KEYS[0]) == LastValue(lines', KEYS[0]);
    assert LastValue(lines, KEYS[1]) == LastValue(lines', KEYS[1]);
    assert LastValue(lines, KEYS[2]) == LastValue(lines', KEYS[2]);
    assert LastValue(lines, KEYS[3]) == LastValue(lines', KEYS[3]);
    assert LastValue(lines, KEYS[4]) == LastValue(lines', KEYS[4]);
    assert LastValue(lines, KEYS[5]) == LastValue(lines', KEYS[5]);
    assert LastValue(lines, KEYS[6]) == LastValue(lines', KEYS[6]);
    if i :| 0 <= i < |lines| && IsBad(lines[i]) {
      assert lines[i] in lines';
    }
    if i :| 0 <= i < |lines'| && IsBad(lines'[i]) {
      assert lines'[i] in lines;
    }
  }

  // ----- what the lines say -----

  /** rest is a notation of n between blanks, and perhaps a unit. */
  ghost predicate Amount(rest: string, n: nat) {
    || (exists a, digits, b :: Blank(a) && Denotes(digits, n) && Blank(b) && rest == a + digits + b)
    || (exists a, digits, b, c ::
          Blank(a) && Denotes(digits, n) && Blank(b) && Blank(c) && rest == a + (digits + b + " kB") + c)
  }

  /** The first thing on the line, up to a colon, is key. */
  predicate HasKey(line: string, key: string) {
    key + [':'] <= line
  }

  function After(line: string, key: string): string
    requires HasKey(line, key)
  {
    line[|key| + 1..]
  }

  lemma {:induction false} HasKeyIff(line: string, key: string)
    requires ':' !in key
    ensures HasKey(line, key) <==> KeyOf(line) == Some(key)
    ensures HasKey(line, key) ==> IndexOf(line, ':') == |key|
  {
    if HasKey(line, key) {
      IndexOfFirst(key, ':', After(line, key));
      assert line == key + [':'] + After(line, key);
      assert line[..|key|] == key;
    }
    if KeyOf(line) == Some(key) {
      assert line[..|key| + 1] == key + [':'];
    }
  }

  /** What ValueOf makes of the text after the colon. */
  function ValueIn(rest: string): Option<U64> {
    ParseUint(TrimSpace(TrimSuffix(TrimSpace(rest), " kB")))
  }

  lemma DigitsAreTrimmed(digits: string, n: U64)
    requires Denotes(digits, n)
    ensures digits != "" && AllDigits(digits) && Trimmed(digits) && ParseUint(digits) == Some(n)
  {
    ParseUintIff(digits, n);
  }

  lemma AmountIsRead(rest: string, n: U64)
    requires Amount(rest, n)
    ensures ValueIn(rest) == Some(n)
  {
    if a, digits, b :| Blank(a) && Denotes(digits, n) && Blank(b) && rest == a + digits + b {
      DigitsAreTrimmed(digits, n);
      TrimBoth(a, digits, b);
      assert digits[|digits| - 1] != 'B';
      assert " kB"[2] == 'B';
      TrimBoth("", digits, "");
      assert "" + digits + "" == digits;
    } else {
      var a, digits, b, c :| Blank(a) && Denotes(digits, n) && Blank(b) && Blank(c)
                             && rest == a + (digits + b + " kB") + c;
      DigitsAreTrimmed(digits, n);
      UnitIsTrimmed(a, digits, b, c);
    }
  }

  lemma UnitIsTrimmed(a: string, digits: string, b: string, c: string)
    requires Blank(a) && Blank(b) && Blank(c) && digits != "" && Trimmed(digits)
    ensures TrimSpace(TrimSuffix(TrimSpace(a + (digits + b + " kB") + c), " kB")) == digits
  {
    var middle := digits + b + " kB";
    assert middle[0] == digits[0] && middle[|middle| - 1] == 'B';
    TrimBoth(a, middle, c);
    assert middle[|middle| - 3..] == " kB" && middle[..|middle| - 3] == digits + b;
    TrimBoth("", digits, b);
    assert "" + digits + b == digits + b;
  }

  lemma ReadIsAmount(rest: string, n: U64)
    requires ValueIn(rest) == Some(n)
    ensures Amount(rest, n)
  {
    var t := TrimSpace(rest);
    var a, c := TrimSpaceIs(rest);
    var u := TrimSuffix(t, " kB");
    var a', b := TrimSpaceIs(u);
    ParseUintIff(TrimSpace(u), n);
    if u == t {
      NestedBlanks(a, a', TrimSpace(u), b, c);
    } else {
      assert t == u + " kB";
      NestedUnit(a, a', TrimSpace(u), b, c);
    }
  }

  lemma NestedBlanks(a: string, a': string, digits: string, b: string, c: string)
    requires Blank(a) && Blank(a') && Blank(b) && Blank(c)
    ensures Blank(a + a') && Blank(b + c)
    ensures a + (a' + digits + b) + c == a + a' + digits + (b + c)
  {
  }

  lemma NestedUnit(a: string, a': string, digits: string, b: string, c: string)
    requires Blank(a) && Blank(a')
    ensures Blank(a + a')
    ensures a + (a' + digits + b + " kB") + c == a + a' + (digits + b + " kB") + c
  {
  }

  /** The value on a line is n exactly when the text after the colon says so. */
  lemma ValueIff(line: string, key: string, n: U64)
    requires ':' !in key && HasKey(line, key)
    ensures ValueOf(line) == Some(n) <==> Amount(After(line, key), n)
  {
    HasKeyIff(line, key);
    var rest := After(line, key);
    if Amount(rest, n) {
      AmountIsRead(rest, n);
    }
    if ValueIn(rest) == Some(n) {
      ReadIsAmount(rest, n);
    }
  }

  ghost predicate SaysNothing(line: string, key: string) {
    HasKey(line, key) && forall n: U64 :: !Amount(After(line, key), n)
  }

  /** The lines on which the parser fails. */
  lemma BadIff(line: string)
    ensures IsBad(line) <==>
              exists key :: key in {"MemTotal", "MemFree", "MemAvailable", "Buffers", "Cached", "SwapTotal", "SwapFree"}
                            && SaysNothing(line, key)
  {
    forall key | key in KEYS ensures SaysNothing(line, key) <==> KeyOf(line) == Some(key) && ValueOf(line).None? {
      NothingIff(line, key);
    }
  }

  lemma NothingIff(line: string, key: string)
    requires ':' !in key
    ensures SaysNothing(line, key) <==> KeyOf(line) == Some(key) && ValueOf(line).None?
  {
    HasKeyIff(line, key);
    if HasKey(line, key) {
      if ValueOf(line).Some? {
        ValueIff(line, key, ValueOf(line).value);
      }
      forall n: U64 ensures ValueOf(line) == Some(n) <==> Amount(After(line, key), n) {
        ValueIff(line, key, n);
      }
    }
  }

  /** The last line with this key says n; or there is none, and n is 0. */
  ghost predicate Says(lines: seq<string>, key: string, n: U64) {
    || (exists i :: 0 <= i < |lines| && HasKey(lines[i], key) && Amount(After(lines[i], key), n)
                    && forall j :: i < j < |lines| ==> !HasKey(lines[j], key))
    || (n == 0 && forall j :: 0 <= j < |lines| ==> !HasKey(lines[j], key))
  }

  lemma SaidIsRead(lines: seq<string>, key: string, n: U64)
    requires ':' !in key && Says(lines, key, n)
    ensures LastValue(lines, key) == n
  {
    forall j | 0 <= j < |lines| ensures HasKey(lines[j], key) <==> KeyOf(lines[j]) == Some(key) {
      HasKeyIff(lines[j], key);
    }
    if forall j :: 0 <= j < |lines| ==> !HasKey(lines[j], key) {
      ByNameIsLast(lines, KeyOf, Some(key));
    } else {
      var i :| 0 <= i < |lines| && HasKey(lines[i], key) && Amount(After(lines[i], key), n)
               && forall j :: i < j < |lines| ==> !HasKey(lines[j], key);
      ValueIff(lines[i], key, n);
      ByNameAt(lines, KeyOf, i);
    }
  }

  /** The field for each key of the kernel. */
  function FieldsOf(mi: MemInfo): seq<(string, U64)> {
    [("MemTotal", mi.totalKB), ("MemFree", mi.freeKB), ("MemAvailable", mi.availableKB), ("Buffers", mi.buffersKB),
     ("Cached", mi.cachedKB), ("SwapTotal", mi.swapTotalKB), ("SwapFree", mi.swapFreeKB)]
  }

  /** A file that says what a MemInfo holds is parsed to that MemInfo. */
  lemma ParserInvertsKernelFormat(lines: seq<string>, mi: MemInfo)
    requires forall f :: f in FieldsOf(mi) ==> Says(lines, f.0, f.1)
    ensures LastValues(lines) == mi
  {
    NoColons(mi);
    AllSaidIsRead(lines, FieldsOf(mi));
    FieldsDetermine(lines, mi);
  }

  lemma AllSaidIsRead(lines: seq<string>, fields: seq<(string, U64)>)
    requires forall f :: f in fields ==> ':' !in f.0 && Says(lines, f.0, f.1)
    ensures forall f :: f in fields ==> LastValue(lines, f.0) == f.1
  {
    forall f | f in fields ensures LastValue(lines, f.0) == f.1 {
      SaidIsRead(lines, f.0, f.1);
    }
  }

  lemma NoColons(mi: MemInfo)
    ensures forall f :: f in FieldsOf(mi) ==> ':' !in f.0
  {
  }

  lemma FieldsDetermine(lines: seq<string>, mi: MemInfo)
    requires forall f :: f in FieldsOf(mi) ==> LastValue(lines, f.0) == f.1
    ensures LastValues(lines) == mi
  {
    var fields := FieldsOf(mi);
    assert fields[0] in fields && fields[1] in fields && fields[2] in fields && fields[3] in fields;
    assert fields[4] in fields && fields[5] in fields && fields[6] in fields;
  }

  /** A field as the kernel prints it is read back. */
  lemma {:induction false} KernelLineParses(key: string, gap: string, n: U64)
    requires ':' !in key && Blank(gap)
    ensures KeyOf(key + [':'] + (gap + Print(n) + " kB")) == Some(key)
    ensures ValueOf(key + [':'] + (gap + Print(n) + " kB")) == Some(n)
  {
    var rest := gap + Print(n) + " kB";
    var line := key + [':'] + rest;
    IndexOfFirst(key, ':', rest);
    assert line[..|key|] == key && line[|key| + 1..] == rest;
    ParsePrint(n);
    var number := Print(n) + " kB";
    assert rest == gap + number;
    assert number[|number| - 1] == 'B';
    TrimIndented(gap, number);
    assert number[|number| - 3..] == " kB" && number[..|number| - 3] == Print(n);
    TrimIndented("", Print(n));
    assert "" + Print(n) == Print(n);
  }
}
