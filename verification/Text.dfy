/** The string functions of Go that the /proc parsers use, on lines of characters, and a printer for
    the lines they read. */
module Text {
  import opened Options
  import opened Words

  // ----- white space -----

  /** unicode.IsSpace. */
  predicate IsSpace(c: char) {
    || c == ' ' || 9 <= c as int <= 13
    || c as int in {0x85, 0xA0, 0x1680, 0x2028, 0x2029, 0x202F, 0x205F, 0x3000} || 0x2000 <= c as int <= 0x200A
  }

  predicate Blank(s: string) {
    forall i :: 0 <= i < |s| ==> IsSpace(s[i])
  }

  /** A nonempty string without white space. */
  predicate IsToken(s: string) {
    s != "" && forall i :: 0 <= i < |s| ==> !IsSpace(s[i])
  }

  /** How many characters come before the first white space. */
  function TokenLength(s: string): (n: nat)
    ensures n <= |s|
  {
    if s == "" || IsSpace(s[0]) then 0 else 1 + TokenLength(s[1..])
  }

  /** strings.Fields */
  function Fields(s: string): seq<string>
    decreases |s|
  {
    if s == "" then []
    else if IsSpace(s[0]) then Fields(s[1..])
    else [s[..TokenLength(s)]] + Fields(s[TokenLength(s)..])
  }

  lemma {:induction false} FieldsSkipBlank(gap: string, s: string)
    requires Blank(gap)
    ensures Fields(gap + s) == Fields(s)
  {
    if gap == "" {
      assert gap + s == s;
    } else {
      assert (gap + s)[1..] == gap[1..] + s;
      FieldsSkipBlank(gap[1..], s);
    }
  }

  lemma {:induction false} TokenLengthIs(t: string, s: string)
    requires forall i :: 0 <= i < |t| ==> !IsSpace(t[i])
    requires s == "" || IsSpace(s[0])
    ensures TokenLength(t + s) == |t|
  {
    if t == "" {
      assert t + s == s;
    } else {
      assert (t + s)[1..] == t[1..] + s;
      TokenLengthIs(t[1..], s);
    }
  }

  lemma {:induction false} FieldsTakeToken(t: string, s: string)
    requires IsToken(t) && (s == "" || IsSpace(s[0]))
    ensures Fields(t + s) == [t] + Fields(s)
  {
    TokenLengthIs(t, s);
    assert (t + s)[..|t|] == t && (t + s)[|t|..] == s;
    assert (t + s)[0] == t[0];
  }

  /** A line of tokens, each after a gap of white space. */
  function Layout(gaps: seq<string>, tokens: seq<string>): string
    requires |gaps| == |tokens|
  {
    if tokens == [] then "" else gaps[0] + tokens[0] + Layout(gaps[1..], tokens[1..])
  }

  predicate SpacedApart(gaps: seq<string>) {
    && (forall i :: 0 <= i < |gaps| ==> Blank(gaps[i]))
    && (forall i :: 1 <= i < |gaps| ==> gaps[i] != "")
  }

  lemma {:induction false} FieldsOfLayout(gaps: seq<string>, tokens: seq<string>, tail: string)
    requires |gaps| == |tokens| && SpacedApart(gaps) && Blank(tail)
    requires forall i :: 0 <= i < |tokens| ==> IsToken(tokens[i])
    ensures Fields(Layout(gaps, tokens) + tail) == tokens
  {
    if tokens == [] {
      FieldsSkipBlank(tail, "");
      assert Layout(gaps, tokens) + tail == tail + "";
    } else {
      var rest := Layout(gaps[1..], tokens[1..]) + tail;
      FieldsOfLayout(gaps[1..], tokens[1..], tail);
      assert Layout(gaps, tokens) + tail == gaps[0] + (tokens[0] + rest);
      FieldsSkipBlank(gaps[0], tokens[0] + rest);
      if |tokens| > 1 {
        assert gaps[1..][0] == gaps[1] && rest[0] == gaps[1][0];
      }
      FieldsTakeToken(tokens[0], rest);
    }
  }

  lemma {:induction false} LayoutStarts(gaps: seq<string>, tokens: seq<string>, tail: string)
    requires |gaps| == |tokens| > 0 && gaps[0] == ""
    ensures tokens[0] <= Layout(gaps, tokens) + tail
  {
    var rest := Layout(gaps[1..], tokens[1..]);
    assert Layout(gaps, tokens) + tail == tokens[0] + (rest + tail);
  }

  function TrimLeft(s: string): string {
    if s != "" && IsSpace(s[0]) then TrimLeft(s[1..]) else s
  }

  function TrimRight(s: string): string {
    if s != "" && IsSpace(s[|s| - 1]) then TrimRight(s[..|s| - 1]) else s
  }

  /** strings.TrimSpace */
  function TrimSpace(s: string): string {
    TrimRight(TrimLeft(s))
  }

  lemma {:induction false} TrimIndented(indent: string, t: string)
    requires Blank(indent) && t != "" && !IsSpace(t[0]) && !IsSpace(t[|t| - 1])
    ensures TrimSpace(indent + t) == t
  {
    if indent == "" {
      assert indent + t == t;
    } else {
      assert (indent + t)[1..] == indent[1..] + t;
      TrimIndented(indent[1..], t);
    }
  }

  /** White space on neither side. */
  predicate Trimmed(s: string) {
    s == "" || (!IsSpace(s[0]) && !IsSpace(s[|s| - 1]))
  }

  lemma {:induction false} TrimRightIs(s: string) returns (b: string)
    ensures Blank(b) && s == TrimRight(s) + b
    ensures TrimRight(s) == "" || !IsSpace(TrimRight(s)[|TrimRight(s)| - 1])
  {
    if s != "" && IsSpace(s[|s| - 1]) {
      var c := TrimRightIs(s[..|s| - 1]);
      b := c + [s[|s| - 1]];
      assert s == s[..|s| - 1] + [s[|s| - 1]];
    } else {
      b := "";
    }
  }

  lemma {:induction false} TrimLeftIs(s: string) returns (a: string)
    ensures Blank(a) && s == a + TrimLeft(s)
    ensures TrimLeft(s) == "" || !IsSpace(TrimLeft(s)[0])
  {
    if s != "" && IsSpace(s[0]) {
      var c := TrimLeftIs(s[1..]);
      a := [s[0]] + c;
      assert s == [s[0]] + s[1..];
    } else {
      a := "";
    }
  }

  /** TrimSpace takes white space off both sides, and all of it. */
  lemma TrimSpaceIs(s: string) returns (a: string, b: string)
    ensures Blank(a) && Blank(b) && s == a + TrimSpace(s) + b
    ensures Trimmed(TrimSpace(s))
  {
    a := TrimLeftIs(s);
    b := TrimRightIs(TrimLeft(s));
    assert TrimLeft(s) == TrimSpace(s) + b;
    assert s == a + (TrimSpace(s) + b);
    if TrimSpace(s) != "" {
      assert TrimLeft(s)[0] == TrimSpace(s)[0];
    }
  }

  lemma TrimBoth(a: string, t: string, b: string)
    requires Blank(a) && Blank(b) && t != "" && Trimmed(t)
    ensures TrimSpace(a + t + b) == t
  {
    if b == "" {
      TrimIndented(a, t);
      assert a + t + b == a + t;
    } else {
      TrimLeftSkips(a, t + b);
      assert a + t + b == a + (t + b);
      TrimRightSkips(t, b);
    }
  }

  lemma {:induction false} TrimLeftSkips(a: string, s: string)
    requires Blank(a) && s != "" && !IsSpace(s[0])
    ensures TrimLeft(a + s) == s
  {
    if a == "" {
      assert a + s == s;
    } else {
      assert (a + s)[1..] == a[1..] + s;
      TrimLeftSkips(a[1..], s);
    }
  }

  lemma {:induction false} TrimRightSkips(t: string, b: string)
    requires Blank(b) && t != "" && !IsSpace(t[|t| - 1])
    ensures TrimRight(t + b) == t
  {
    if b == "" {
      assert t + b == t;
    } else {
      assert (t + b)[..|t + b| - 1] == t + b[..|b| - 1];
      TrimRightSkips(t, b[..|b| - 1]);
    }
  }

  /** strings.TrimSuffix */
  function TrimSuffix(s: string, suffix: string): string {
    if |suffix| <= |s| && s[|s| - |suffix|..] == suffix then s[..|s| - |suffix|] else s
  }

  /** strings.IndexByte */
  function IndexOf(s: string, c: char): (i: int)
    ensures -1 <= i < |s|
    ensures i >= 0 ==> s[i] == c && c !in s[..i]
    ensures i < 0 ==> c !in s
  {
    if s == "" then -1
    else if s[0] == c then 0
    else
      var i := IndexOf(s[1..], c);
      if i < 0 then -1 else
        assert s[..i + 1] == [s[0]] + s[1..][..i];
        i + 1
  }

  lemma {:induction false} IndexOfFirst(a: string, c: char, b: string)
    requires c !in a
    ensures IndexOf(a + [c] + b, c) == |a|
  {
    var s := a + [c] + b;
    assert s[|a|] == c && s[..|a|] == a;
    var i := IndexOf(s, c);
    forall k | 0 <= k < i ensures s[k] != c {
      assert s[..i][k] == s[k];
    }
  }

  // ----- decimal numbers -----

  predicate IsDigit(c: char) {
    '0' <= c <= '9'
  }

  predicate AllDigits(s: string) {
    forall i :: 0 <= i < |s| ==> IsDigit(s[i])
  }

  function Value(s: string): nat
    requires AllDigits(s)
  {
    if s == "" then 0 else 10 * Value(s[..|s| - 1]) + (s[|s| - 1] as int - '0' as int)
  }

  /** strconv.ParseUint(s, 10, 64): digits only, and overflow is an error. */
  function ParseUint(s: string): Option<U64> {
    if s != "" && AllDigits(s) && Value(s) < TWO_64 then Some(Value(s)) else None
  }

  function Digit(n: nat): char
    requires n < 10
  {
    ('0' as int + n) as char
  }

  /** A number as the kernel prints it. */
  function Print(n: nat): string {
    if n < 10 then [Digit(n)] else Print(n / 10) + [Digit(n % 10)]
  }

  lemma {:induction false} PrintIsNumber(n: nat)
    ensures Print(n) != "" && AllDigits(Print(n)) && Value(Print(n)) == n
  {
    if n < 10 {
      assert Print(n)[..0] == "";
    } else {
      PrintIsNumber(n / 10);
      assert Print(n)[..|Print(n)| - 1] == Print(n / 10);
    }
  }

  lemma {:induction false} ParsePrint(n: U64)
    ensures IsToken(Print(n)) && ParseUint(Print(n)) == Some(n)
  {
    PrintIsNumber(n);
  }

  function LeadingZeros(k: nat): string {
    if k == 0 then "" else "0" + LeadingZeros(k - 1)
  }

  /** s is a decimal notation of n: what Print makes of it, or that with zeros before it. */
  ghost predicate Denotes(s: string, n: nat) {
    exists k: nat :: s == LeadingZeros(k) + Print(n)
  }

  /** s is a decimal notation of a 64-bit number. */
  ghost predicate IsU64(s: string) {
    exists n: U64 :: Denotes(s, n)
  }

  lemma {:induction false} ZerosAreDigits(k: nat)
    ensures AllDigits(LeadingZeros(k)) && Value(LeadingZeros(k)) == 0
    ensures LeadingZeros(k) + "0" == LeadingZeros(k + 1)
  {
    if k == 0 {
    } else {
      ZerosAreDigits(k - 1);
      var init := LeadingZeros(k - 1);
      assert LeadingZeros(k) == "0" + init && init + "0" == LeadingZeros(k);
      assert (init + "0")[..|init|] == init;
    }
  }

  lemma {:induction false} ValueOfZeros(k: nat, s: string)
    requires AllDigits(s)
    ensures AllDigits(LeadingZeros(k) + s) && Value(LeadingZeros(k) + s) == Value(s)
  {
    ZerosAreDigits(k);
    var all := LeadingZeros(k) + s;
    if s == "" {
      assert all == LeadingZeros(k);
    } else {
      ValueOfZeros(k, s[..|s| - 1]);
      assert all[..|all| - 1] == LeadingZeros(k) + s[..|s| - 1];
    }
  }

  /** Every string of digits is a notation of its value. */
  lemma {:induction false} DigitsDenote(s: string) returns (k: nat)
    requires s != "" && AllDigits(s)
    ensures s == LeadingZeros(k) + Print(Value(s))
  {
    var n := |s| - 1;
    var v := Value(s[..n]);
    assert Digit(s[n] as int - '0' as int) == s[n] && s == s[..n] + [s[n]];
    if n == 0 {
      assert Value(s[..0]) == 0;
      k := 0;
    } else {
      k := DigitsDenote(s[..n]);
      if v == 0 {
        ZerosAreDigits(k);
        k := k + 1;
      } else {
        assert Print(Value(s)) == Print(v) + [s[n]];
      }
    }
  }

  /** The parser reads exactly the decimal notations of 64-bit numbers. */
  lemma ParseUintIff(s: string, n: U64)
    ensures ParseUint(s) == Some(n) <==> Denotes(s, n)
  {
    if ParseUint(s) == Some(n) {
      var k := DigitsDenote(s);
    }
    if k: nat :| s == LeadingZeros(k) + Print(n) {
      PrintIsNumber(n);
      ValueOfZeros(k, Print(n));
    }
  }

  lemma ParseUintFailsIff(s: string)
    ensures ParseUint(s).Some? <==> IsU64(s)
  {
    if ParseUint(s).Some? {
      ParseUintIff(s, ParseUint(s).value);
    }
    if n: U64 :| Denotes(s, n) {
      ParseUintIff(s, n);
    }
  }

  lemma NotationIsDecimal()
    ensures Print(10) == "10" && Print(255) == "255"
  {
  }

  lemma AsciiSpaces(c: char)
    requires c as int < 128
    ensures IsSpace(c) <==> c == ' ' || c == '\t' || c == '\n' || c == '\r' || c as int == 11 || c as int == 12
  {
  }

  // ----- lines -----

  /** What a parser makes of one line. */
  datatype LineResult<+T> = Skip | Row(value: T) | Bad

  /** The rows that the lines yield, in order. */
  function Rows<T>(lines: seq<string>, parse: string -> LineResult<T>): seq<T> {
    if lines == [] then [] else
      var last := parse(lines[|lines| - 1]);
      Rows(lines[..|lines| - 1], parse) + (if last.Row? then [last.value] else [])
  }

  lemma RowsSnoc<T>(lines: seq<string>, i: nat, parse: string -> LineResult<T>)
    requires i < |lines|
    ensures Rows(lines[..i + 1], parse)
         == Rows(lines[..i], parse) + (if parse(lines[i]).Row? then [parse(lines[i]).value] else [])
  {
    assert lines[..i + 1][..i] == lines[..i];
  }

  /** One of the lines cannot be parsed. */
  ghost predicate Fails<T>(lines: seq<string>, parse: string -> LineResult<T>) {
    exists i :: 0 <= i < |lines| && parse(lines[i]).Bad?
  }

  lemma FailsSnoc<T>(lines: seq<string>, i: nat, parse: string -> LineResult<T>)
    requires i < |lines|
    ensures Fails(lines[..i + 1], parse) <==> Fails(lines[..i], parse) || parse(lines[i]).Bad?
    ensures Fails(lines[..i + 1], parse) ==> Fails(lines, parse)
  {
    var init, next := lines[..i], lines[..i + 1];
    assert next == init + [lines[i]];
    if k :| 0 <= k < |init| && parse(init[k]).Bad? {
      assert parse(next[k]).Bad?;
    }
    if parse(lines[i]).Bad? {
      assert parse(next[i]).Bad?;
    }
    if k :| 0 <= k < |next| && parse(next[k]).Bad? {
      assert parse(lines[k]).Bad? && (k < i ==> parse(init[k]).Bad?);
    }
  }

  /** A file made of printed records and other lines gives back exactly the records. */
  function Records<T>(file: seq<(string, Option<T>)>): seq<T> {
    if file == [] then [] else
      var last := file[|file| - 1].1;
      Records(file[..|file| - 1]) + (if last.Some? then [last.value] else [])
  }

  function Lines<T>(file: seq<(string, Option<T>)>): (r: seq<string>)
    ensures |r| == |file|
  {
    if file == [] then [] else Lines(file[..|file| - 1]) + [file[|file| - 1].0]
  }

  /** A file with one line for each record. */
  function FileOf<T>(records: seq<T>, line: T -> string): (file: seq<(string, Option<T>)>)
    ensures |file| == |records|
  {
    seq(|records|, (i: int) requires 0 <= i < |records| => (line(records[i]), Some(records[i])))
  }

  lemma {:induction false} FileHasRecords<T>(records: seq<T>, line: T -> string)
    ensures Records(FileOf(records, line)) == records
  {
    if records == [] {
    } else {
      var n := |records| - 1;
      FileHasRecords(records[..n], line);
      assert FileOf(records, line)[..n] == FileOf(records[..n], line);
      assert records[..n] + [records[n]] == records;
    }
  }

  lemma {:induction false} RowsAreRecords<T>(file: seq<(string, Option<T>)>, parse: string -> LineResult<T>)
    requires forall i :: 0 <= i < |file| ==>
               parse(file[i].0) == match file[i].1 case None => Skip case Some(x) => Row(x)
    ensures Rows(Lines(file), parse) == Records(file)
    ensures forall i :: 0 <= i < |file| ==> !parse(Lines(file)[i]).Bad?
  {
    if file == [] {
    } else {
      var n := |file| - 1;
      RowsAreRecords(file[..n], parse);
      assert Lines(file)[..n] == Lines(file[..n]);
      assert Lines(file)[n] == file[n].0;
    }
  }
}
