/** The parser for /proc/net/dev of internal/stats/net.go. */
module ProcNet {
  import opened Options
  import opened Words
  import opened Text
  import opened Net

  function ParseLine(line: string): LineResult<NetIO> {
    var colon := IndexOf(line, ':');
    if colon < 0 then Skip else
      var iface := TrimSpace(line[..colon]);
      var fields := Fields(line[colon + 1..]);
      if |fields| < 10 then Skip else ParseColumns(iface, fields)
  }

  function ParseColumns(iface: string, fields: seq<string>): LineResult<NetIO>
    requires |fields| >= 10
  {
    var rxBytes, rxPackets := ParseUint(fields[0]), ParseUint(fields[1]);
    var txBytes, txPackets := ParseUint(fields[8]), ParseUint(fields[9]);
    if rxBytes.None? || rxPackets.None? || txBytes.None? || txPackets.None? then Skip
    else Row(NetIO(iface, rxBytes.value, rxPackets.value, txBytes.value, txPackets.value))
  }

  /** The loop body: skips a line without a colon, with fewer than ten columns or with a bad number. */
  method ReadLine(line: string) returns (r: LineResult<NetIO>)
    ensures r == ParseLine(line)
  {
    var colon := IndexOf(line, ':');
    if colon < 0 {
      return Skip;
    }
    var iface := TrimSpace(line[..colon]);
    var fields := Fields(line[colon + 1..]);
    if |fields| < 10 {
      return Skip;
    }
    var rxBytes, rxPackets := ParseUint(fields[0]), ParseUint(fields[1]);
    var txBytes, txPackets := ParseUint(fields[8]), ParseUint(fields[9]);
    if rxBytes.None? || rxPackets.None? || txBytes.None? || txPackets.None? {
      return Skip;
    }
    r := Row(NetIO(iface, rxBytes.value, rxPackets.value, txBytes.value, txPackets.value));
  }

  /** What becomes of a whole file: its first two lines are headers, whatever they hold. */
  function ParseFile(lines: seq<string>): seq<NetIO> {
    if |lines| <= 2 then [] else Rows(lines[2..], ParseLine)
  }

  /** Skips two header lines and every line it cannot read; never fails. */
  method ParseNetIO(lines: seq<string>) returns (result: seq<NetIO>)
    ensures result == ParseFile(lines)
  {
    result := [];
    var lineNum := 0;
    while lineNum < |lines|
      invariant lineNum <= |lines|
      invariant result == if lineNum <= 2 then [] else Rows(lines[2..lineNum], ParseLine)
    {
      var line := lines[lineNum];
      lineNum := lineNum + 1;
      if lineNum > 2 {
        assert lines[2..][..lineNum - 2] == lines[2..lineNum] && lines[2..][..lineNum - 3] == lines[2..lineNum - 1];
        RowsSnoc(lines[2..], lineNum - 3, ParseLine);
        var io := ReadLine(line);
        if io.Row? {
          result := result + [io.value];
        }
      }
    }
    assert |lines| > 2 ==> lines[2..lineNum] == lines[2..];
  }

  // ----- printing and parsing -----

  /** line shows io: the interface, a colon, and at least ten columns, of which the parser reads four. */
  ghost predicate ShowsIO(line: string, io: NetIO) {
    && IsToken(io.iface) && ':' !in io.iface
    && exists indent, gaps, columns, tail ::
         && Blank(indent) && ':' !in indent
         && |gaps| == |columns| >= 10 && SpacedApart(gaps) && Blank(tail)
         && (forall i :: 0 <= i < |columns| ==> IsToken(columns[i]))
         && columns[0] == Print(io.rxBytes) && columns[1] == Print(io.rxPackets)
         && columns[8] == Print(io.txBytes) && columns[9] == Print(io.txPackets)
         && line == indent + io.iface + [':'] + (Layout(gaps, columns) + tail)
  }

  lemma ParseLineInverts(line: string, io: NetIO)
    requires ShowsIO(line, io)
    ensures ParseLine(line) == Row(io)
  {
    var indent, gaps, columns, tail :|
      && Blank(indent) && ':' !in indent
      && |gaps| == |columns| >= 10 && SpacedApart(gaps) && Blank(tail)
      && (forall i :: 0 <= i < |columns| ==> IsToken(columns[i]))
      && columns[0] == Print(io.rxBytes) && columns[1] == Print(io.rxPackets)
      && columns[8] == Print(io.txBytes) && columns[9] == Print(io.txPackets)
      && line == indent + io.iface + [':'] + (Layout(gaps, columns) + tail);
    var head, rest := indent + io.iface, Layout(gaps, columns) + tail;
    IndexOfFirst(head, ':', rest);
    assert line[..|head|] == head && line[|head| + 1..] == rest;
    TrimIndented(indent, io.iface);
    FieldsOfLayout(gaps, columns, tail);
    ParseColumnsInverts(columns, io);
  }

  lemma ParseColumnsInverts(columns: seq<string>, io: NetIO)
    requires |columns| >= 10
    requires columns[0] == Print(io.rxBytes) && columns[1] == Print(io.rxPackets)
    requires columns[8] == Print(io.txBytes) && columns[9] == Print(io.txPackets)
    ensures ParseColumns(io.iface, columns) == Row(io)
  {
    ParsePrint(io.rxBytes);
    ParsePrint(io.rxPackets);
    ParsePrint(io.txBytes);
    ParsePrint(io.txPackets);
  }

  /** A line without a colon; or with fewer than ten columns after its first colon; or with something
      other than a 64-bit number in one of the four that are read. */
  ghost predicate Unreadable(line: string) {
    || ':' !in line
    || exists head, rest ::
         && ':' !in head && line == head + [':'] + rest
         && (|Fields(rest)| < 10 || exists k :: k in {0, 1, 8, 9} && !IsU64(Fields(rest)[k]))
  }

  lemma UnreadableIsSkipped(line: string)
    requires Unreadable(line)
    ensures ParseLine(line) == Skip
  {
    if ':' in line {
      var head, rest :| && ':' !in head && line == head + [':'] + rest
                        && (|Fields(rest)| < 10 || exists k :: k in {0, 1, 8, 9} && !IsU64(Fields(rest)[k]));
      IndexOfFirst(head, ':', rest);
      assert line[|head| + 1..] == rest;
      if |Fields(rest)| >= 10 {
        var k :| k in {0, 1, 8, 9} && !IsU64(Fields(rest)[k]);
        ParseUintFailsIff(Fields(rest)[k]);
      }
    }
  }

  /** Parsing a /proc/net/dev that shows some counters after its two header lines, among lines that
      cannot be read as counters, gives back those counters. */
  lemma {:induction false} ParserInvertsKernelFormat(header: string, header': string,
                                                     file: seq<(string, Option<NetIO>)>)
    requires forall i :: 0 <= i < |file| ==>
               match file[i].1 case None => Unreadable(file[i].0) case Some(io) => ShowsIO(file[i].0, io)
    ensures ParseFile([header, header'] + Lines(file)) == Records(file)
  {
    forall i | 0 <= i < |file|
      ensures ParseLine(file[i].0) == match file[i].1 case None => Skip case Some(x) => Row(x)
    {
      if file[i].1.Some? {
        ParseLineInverts(file[i].0, file[i].1.value);
      } else {
        UnreadableIsSkipped(file[i].0);
      }
    }
    RowsAreRecords(file, ParseLine);
    assert ([header, header'] + Lines(file))[2..] == Lines(file);
  }
}
