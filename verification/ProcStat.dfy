/** The parser for /proc/stat of internal/stats/cpu.go. */
module ProcStat {
  import opened Options
  import opened Words
  import opened Text
  import opened Cpu

  predicate AllParse(fields: seq<string>) {
    forall i :: 0 <= i < |fields| ==> ParseUint(fields[i]).Some?
  }

  function Values(fields: seq<string>): (r: seq<U64>)
    requires AllParse(fields)
    ensures |r| == |fields|
  {
    seq(|fields|, (i: int) requires 0 <= i < |fields| => ParseUint(fields[i]).value)
  }

  function ValueAt(vals: seq<U64>, i: nat): U64 {
    if i < |vals| then vals[i] else 0
  }

  /** The columns in order; missing ones are zero, surplus ones are ignored. */
  function FromColumns(name: string, v: seq<U64>): CPUTimes {
    CPUTimes(name, ValueAt(v, 0), ValueAt(v, 1), ValueAt(v, 2), ValueAt(v, 3), ValueAt(v, 4),
             ValueAt(v, 5), ValueAt(v, 6), ValueAt(v, 7), ValueAt(v, 8), ValueAt(v, 9))
  }

  function ParseLine(line: string): LineResult<CPUTimes> {
    var fields := Fields(line);
    if !("cpu" <= line) || |fields| < 8 then Skip
    else if !AllParse(fields[1..]) then Bad
    else Row(FromColumns(fields[0], Values(fields[1..])))
  }

  method ParseFields(fields: seq<string>) returns (vals: Option<seq<U64>>)
    ensures vals == if AllParse(fields) then Some(Values(fields)) else None
  {
    var out: seq<U64> := [];
    var i := 0;
    while i < |fields|
      invariant i <= |fields| && AllParse(fields[..i]) && out == Values(fields[..i])
    {
      var v := ParseUint(fields[i]);
      if v.None? {
        return None;
      }
      assert fields[..i + 1] == fields[..i] + [fields[i]];
      out := out + [v.value];
      i := i + 1;
    }
    assert fields[..i] == fields;
    vals := Some(out);
  }

  method Assign(name: string, vals: seq<U64>) returns (ct: CPUTimes)
    ensures ct == FromColumns(name, vals)
  {
    var cells: seq<U64> := [0, 0, 0, 0, 0, 0, 0, 0, 0, 0];
    var i := 0;
    while i < |vals|
      invariant i <= |vals| && |cells| == 10
      invariant forall k :: 0 <= k < 10 ==> cells[k] == if k < i then ValueAt(vals, k) else 0
    {
      if i >= 10 {
        break;
      }
      cells := cells[i := vals[i]];
      i := i + 1;
    }
    ct := CPUTimes(name, cells[0], cells[1], cells[2], cells[3], cells[4],
                   cells[5], cells[6], cells[7], cells[8], cells[9]);
  }

  /** The loop body: skips other lines and short ones, and fails on a bad number. */
  method ReadLine(line: string) returns (r: LineResult<CPUTimes>)
    ensures r == ParseLine(line)
  {
    if !("cpu" <= line) {
      return Skip;
    }
    var fields := Fields(line);
    if |fields| < 8 {
      return Skip;
    }
    var vals := ParseFields(fields[1..]);
    if vals.None? {
      return Bad;
    }
    var ct := Assign(fields[0], vals.value);
    r := Row(ct);
  }

  /** A line that the parser reads: it starts with "cpu" and has a name and at least seven columns. */
  predicate IsCpuLine(line: string) {
    "cpu" <= line && |Fields(line)| >= 8
  }

  /** Such a line with a column that is not a decimal notation of a 64-bit number. */
  ghost predicate IsBadLine(line: string) {
    IsCpuLine(line) && exists k :: 1 <= k < |Fields(line)| && !IsU64(Fields(line)[k])
  }

  lemma BadIff(line: string)
    ensures ParseLine(line).Bad? <==> IsBadLine(line)
  {
    var fields := Fields(line);
    forall k | 1 <= k < |fields| ensures ParseUint(fields[k]).Some? <==> IsU64(fields[k]) {
      ParseUintFailsIff(fields[k]);
    }
    if IsCpuLine(line) {
      assert forall k :: 1 <= k < |fields| ==> fields[1..][k - 1] == fields[k];
    }
  }

  lemma FailsIff(lines: seq<string>)
    ensures Fails(lines, ParseLine) <==> exists i :: 0 <= i < |lines| && IsBadLine(lines[i])
  {
    forall i | 0 <= i < |lines| ensures ParseLine(lines[i]).Bad? <==> IsBadLine(lines[i]) {
      BadIff(lines[i]);
    }
  }

  /** Fails exactly when a cpu line of at least 8 fields holds something other than a 64-bit number;
      otherwise returns the cpu lines in order. */
  method ParseCPUTimes(lines: seq<string>) returns (result: Option<seq<CPUTimes>>)
    ensures result.None? <==> exists i :: 0 <= i < |lines| && IsBadLine(lines[i])
    ensures result.Some? ==> result.value == Rows(lines, ParseLine)
  {
    var rows: seq<CPUTimes> := [];
    var i := 0;
    while i < |lines|
      invariant i <= |lines| && rows == Rows(lines[..i], ParseLine)
      invariant !Fails(lines[..i], ParseLine)
    {
      RowsSnoc(lines, i, ParseLine);
      FailsSnoc(lines, i, ParseLine);
      var r := ReadLine(lines[i]);
      if r.Bad? {
        FailsIff(lines);
        return None;
      }
      if r.Row? {
        rows := rows + [r.value];
      }
      i := i + 1;
    }
    assert lines[..i] == lines;
    FailsIff(lines);
    result := Some(rows);
  }

  // ----- printing and parsing -----

  function Columns(ct: CPUTimes): seq<U64> {
    [ct.user, ct.nice, ct.system, ct.idle, ct.iowait, ct.irq, ct.softirq, ct.steal, ct.guest, ct.guestNice]
  }

  function Printed(vals: seq<U64>): (r: seq<string>)
    ensures |r| == |vals|
  {
    seq(|vals|, (i: int) requires 0 <= i < |vals| => Print(vals[i]))
  }

  /** line is a name in the first column and numbers after it, in any spacing. */
  ghost predicate ShowsColumns(line: string, name: string, vals: seq<U64>) {
    exists gaps, tail ::
      && |gaps| == |vals| + 1 && SpacedApart(gaps) && gaps[0] == "" && Blank(tail)
      && line == Layout(gaps, [name] + Printed(vals)) + tail
  }

  /** line shows ct in seven columns or more; those of ct that are left out are zero, and surplus ones
      mean nothing. */
  ghost predicate ShowsTimes(line: string, ct: CPUTimes, vals: seq<U64>) {
    && IsToken(ct.name) && "cpu" <= ct.name && |vals| >= 7
    && (forall i :: 0 <= i < 10 ==> Columns(ct)[i] == if i < |vals| then vals[i] else 0)
    && ShowsColumns(line, ct.name, vals)
  }

  lemma PrintedParses(vals: seq<U64>)
    ensures AllParse(Printed(vals)) && Values(Printed(vals)) == vals
    ensures forall i :: 0 <= i < |vals| ==> IsToken(Printed(vals)[i])
  {
    forall i | 0 <= i < |vals|
      ensures ParseUint(Printed(vals)[i]) == Some(vals[i]) && IsToken(Printed(vals)[i])
    {
      ParsePrint(vals[i]);
    }
  }

  lemma {:induction false} FieldsShown(line: string, name: string, vals: seq<U64>)
    requires IsToken(name) && ShowsColumns(line, name, vals)
    ensures Fields(line) == [name] + Printed(vals) && name <= line
  {
    var tokens := [name] + Printed(vals);
    var gaps, tail :| |gaps| == |vals| + 1 && SpacedApart(gaps) && gaps[0] == "" && Blank(tail)
                      && line == Layout(gaps, tokens) + tail;
    forall i | 0 <= i < |tokens| ensures IsToken(tokens[i]) {
      if i > 0 {
        PrintedParses(vals);
        assert tokens[i] == Printed(vals)[i - 1];
      }
    }
    FieldsOfLayout(gaps, tokens, tail);
    LayoutStarts(gaps, tokens, tail);
  }

  lemma ParseLineInverts(line: string, ct: CPUTimes, vals: seq<U64>)
    requires ShowsTimes(line, ct, vals)
    ensures ParseLine(line) == Row(ct)
  {
    FieldsShown(line, ct.name, vals);
    PrintedLineParses(line, ct.name, vals);
    FromColumnsInverts(ct, vals);
  }

  lemma {:induction false} PrintedLineParses(line: string, name: string, vals: seq<U64>)
    requires "cpu" <= line && |vals| >= 7 && Fields(line) == [name] + Printed(vals)
    ensures ParseLine(line) == Row(FromColumns(name, vals))
  {
    PrintedParses(vals);
    assert Fields(line)[1..] == Printed(vals);
  }

  lemma FromColumnsInverts(ct: CPUTimes, vals: seq<U64>)
    requires forall i :: 0 <= i < 10 ==> Columns(ct)[i] == if i < |vals| then vals[i] else 0
    ensures FromColumns(ct.name, vals) == ct
  {
    forall i | 0 <= i < 10 ensures ValueAt(vals, i) == Columns(ct)[i] {
    }
  }

  /** Parsing a /proc/stat that shows some CPU times, among lines that do not start with "cpu" or are too
      short, gives back those times. */
  lemma {:induction false} ParserInvertsKernelFormat(file: seq<(string, Option<CPUTimes>)>)
    requires forall i :: 0 <= i < |file| ==>
               match file[i].1
               case None => !("cpu" <= file[i].0) || |Fields(file[i].0)| < 8
               case Some(ct) => exists vals :: ShowsTimes(file[i].0, ct, vals)
    ensures forall line :: line in Lines(file) ==> !IsBadLine(line)
    ensures Rows(Lines(file), ParseLine) == Records(file)
  {
    forall i | 0 <= i < |file|
      ensures ParseLine(file[i].0) == match file[i].1 case None => Skip case Some(x) => Row(x)
    {
      if file[i].1.Some? {
        var vals :| ShowsTimes(file[i].0, file[i].1.value, vals);
        ParseLineInverts(file[i].0, file[i].1.value, vals);
      }
    }
    RowsAreRecords(file, ParseLine);
    forall line | line in Lines(file) ensures !IsBadLine(line) {
      BadIff(line);
    }
  }
}
