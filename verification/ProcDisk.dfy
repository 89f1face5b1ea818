/** The parser for /proc/diskstats of internal/stats/disk.go, and its filter for whole disks. */
module ProcDisk {
  import opened Options
  import opened Words
  import opened Text
  import opened Devices

  datatype DiskIO = DiskIO(device: string, readSectors: U64, writeSectors: U64, readOps: U64, writeOps: U64)

  predicate IsWholeDisk(name: string) {
    if "loop" <= name || "ram" <= name || "dm-" <= name || "sr" <= name then false
    else if "nvme" <= name then 'p' !in name
    else if "sd" <= name || "vd" <= name || "xvd" <= name then !IsDigit(name[|name| - 1])
    else true
  }

  function ParseLine(line: string): LineResult<DiskIO> {
    var fields := Fields(line);
    if |fields| < 14 || !IsWholeDisk(fields[2]) then Skip else ParseColumns(fields)
  }

  function ParseColumns(fields: seq<string>): LineResult<DiskIO>
    requires |fields| >= 14
  {
    var readOps, readSectors := ParseUint(fields[3]), ParseUint(fields[5]);
    var writeOps, writeSectors := ParseUint(fields[7]), ParseUint(fields[9]);
    if readOps.None? || readSectors.None? || writeOps.None? || writeSectors.None? then Skip
    else Row(DiskIO(fields[2], readSectors.value, writeSectors.value, readOps.value, writeOps.value))
  }

  method ParseDiskIO(lines: seq<string>) returns (result: seq<DiskIO>)
    ensures result == Rows(lines, ParseLine)
  {
    result := [];
    var i := 0;
    while i < |lines|
      invariant i <= |lines| && result == Rows(lines[..i], ParseLine)
    {
      RowsSnoc(lines, i, ParseLine);
      var fields := Fields(lines[i]);
      if |fields| >= 14 {
        var name := fields[2];
        if IsWholeDisk(name) {
          var readOps, readSectors := ParseUint(fields[3]), ParseUint(fields[5]);
          var writeOps, writeSectors := ParseUint(fields[7]), ParseUint(fields[9]);
          if readOps.Some? && readSectors.Some? && writeOps.Some? && writeSectors.Some? {
            result := result + [DiskIO(name, readSectors.value, writeSectors.value, readOps.value, writeOps.value)];
          }
        }
      }
      i := i + 1;
    }
    assert lines[..i] == lines;
  }

  // ----- partitions -----

  /** The families whose partitions the filter can tell from disks. */
  predicate Separable(base: string) {
    || "sd" <= base || "vd" <= base || "xvd" <= base
    || ("nvme" <= base && IsDigit(base[|base| - 1]))
  }

  /** What comes after the name of a disk in the name of its partition. */
  predicate IsSuffix(base: string, suffix: string) {
    && base != "" && suffix != ""
    && (IsDigit(suffix[0]) || (suffix[0] == 'p' && IsDigit(base[|base| - 1])))
  }

  /** Such a suffix does not change which of the digit-free prefixes a name starts with. */
  lemma PrefixIsStable(prefix: string, base: string, suffix: string)
    requires IsSuffix(base, suffix)
    requires forall i :: 0 <= i < |prefix| ==> !IsDigit(prefix[i])
    ensures prefix <= base + suffix <==> prefix <= base
  {
    var name, k := base + suffix, |base|;
    assert name[k - 1] == base[k - 1] && name[k] == suffix[0];
    if |prefix| > k {
      assert prefix[k - 1] != name[k - 1] || prefix[k] != name[k];
    } else {
      assert name[..|prefix|] == base[..|prefix|];
    }
  }

  predicate SameFamily(base: string, name: string) {
    && ("loop" <= name <==> "loop" <= base) && ("ram" <= name <==> "ram" <= base)
    && ("dm-" <= name <==> "dm-" <= base) && ("sr" <= name <==> "sr" <= base)
    && ("nvme" <= name <==> "nvme" <= base) && ("sd" <= name <==> "sd" <= base)
    && ("vd" <= name <==> "vd" <= base) && ("xvd" <= name <==> "xvd" <= base)
  }

  lemma FamilyIsStable(base: string, suffix: string)
    requires IsSuffix(base, suffix)
    ensures SameFamily(base, base + suffix)
  {
    PrefixIsStable("loop", base, suffix);
    PrefixIsStable("ram", base, suffix);
    PrefixIsStable("dm-", base, suffix);
    PrefixIsStable("sr", base, suffix);
    PrefixIsStable("nvme", base, suffix);
    PrefixIsStable("sd", base, suffix);
    PrefixIsStable("vd", base, suffix);
    PrefixIsStable("xvd", base, suffix);
  }

  /** The filter keeps a partition exactly when it keeps its disk, and does not know how partitions of
      that disk are told from disks. */
  lemma PartitionKeptIff(base: string, part: string)
    requires base != "" && part != "" && AllDigits(part)
    ensures IsWholeDisk(DeviceName(base, part)) <==> IsWholeDisk(base) && !Separable(base)
  {
    var suffix := if IsDigit(base[|base| - 1]) then "p" + part else part;
    var name := DeviceName(base, part);
    assert name == base + suffix;
    FamilyIsStable(base, suffix);
    assert name[|name| - 1] == part[|part| - 1];
    PInPartition(base, part);
    VerdictOfFamily(base, name);
  }

  /** The filter's verdict on a name in the family of base that ends in a digit. */
  lemma VerdictOfFamily(base: string, name: string)
    requires base != "" && name != "" && IsDigit(name[|name| - 1])
    requires SameFamily(base, name)
    requires 'p' in name <==> 'p' in base || IsDigit(base[|base| - 1])
    ensures IsWholeDisk(name) <==> IsWholeDisk(base) && !Separable(base)
  {
    assert "nvme" <= base ==> base[0] == 'n';
    assert "sd" <= base ==> base[0] == 's';
    assert "vd" <= base ==> base[0] == 'v';
    assert "xvd" <= base ==> base[0] == 'x';
  }

  lemma PInPartition(base: string, part: string)
    requires base != "" && part != "" && AllDigits(part)
    ensures 'p' in DeviceName(base, part) <==> 'p' in base || IsDigit(base[|base| - 1])
  {
    var name := DeviceName(base, part);
    assert forall c :: c in base ==> c in name;
    if IsDigit(base[|base| - 1]) {
      assert name[|base|] == 'p';
    } else {
      assert forall c :: c in name ==> c in base || c in part;
    }
  }

  // ----- families of disks -----

  lemma LettersAreKept(prefix: string, letters: string)
    requires prefix in {"sd", "vd", "xvd"} && IsLetters(letters)
    ensures IsWholeDisk(prefix + letters) && Separable(prefix + letters)
  {
    var name := prefix + letters;
    assert name[|name| - 1] == letters[|letters| - 1];
    assert name[0] == prefix[0] && name[1] == prefix[1] && name[..|prefix|] == prefix;
  }

  lemma NamespacesAreKept(controller: string, namespace: string)
    requires IsNumber(controller) && IsNumber(namespace)
    ensures IsWholeDisk("nvme" + controller + "n" + namespace) && Separable("nvme" + controller + "n" + namespace)
  {
    var nvme := "nvme" + controller + "n" + namespace;
    assert nvme[0] == 'n' && nvme[1] == 'v' && nvme[2] == 'm' && nvme[3] == 'e';
    assert "nvme" <= nvme && nvme[|nvme| - 1] == namespace[|namespace| - 1];
    assert forall c :: c in nvme ==> c in "nvme" || c in controller || c in "n" || c in namespace;
    assert 'p' !in "nvme" && 'p' !in controller && 'p' !in "n" && 'p' !in namespace;
  }

  /** Loop devices, RAM disks, device-mapper nodes and optical drives are dropped. */
  lemma DroppedFamily(prefix: string, rest: string)
    requires prefix in {"loop", "ram", "dm-", "sr"}
    ensures !IsWholeDisk(prefix + rest)
  {
    assert (prefix + rest)[..|prefix|] == prefix;
  }

  /** MD arrays, compressed RAM disks, network block devices and eMMC cards fall into the default case:
      they are kept, and so are all their partitions. */
  lemma DefaultFamily(prefix: string, rest: string)
    requires prefix in {"md", "zram", "nbd", "mmcblk"}
    ensures IsWholeDisk(prefix + rest) && !Separable(prefix + rest)
  {
    var name := prefix + rest;
    assert name[0] == prefix[0] && name[1] == prefix[1];
  }

  /** So an eMMC partition is counted beside its card. */
  lemma EmmcPartitionsAreKept()
    ensures IsWholeDisk("mmcblk0") && !Separable("mmcblk0") && IsWholeDisk(DeviceName("mmcblk0", "1"))
  {
    assert "mmcblk0" == "mmcblk" + "0";
    DefaultFamily("mmcblk", "0");
    PartitionKeptIff("mmcblk0", "1");
  }

  /** The devices of the repository's sample file. */
  lemma SampleDevices()
    ensures IsWholeDisk("sda") && IsWholeDisk("sdb") && IsWholeDisk("nvme0n1")
    ensures !IsWholeDisk("sda1") && !IsWholeDisk("dm-0") && !IsWholeDisk("loop0") && !IsWholeDisk("nvme0n1p1")
    ensures Scsi("a").Name() == "sda" && DeviceName("sda", "1") == "sda1"
    ensures Nvme("0", "1").Name() == "nvme0n1" && DeviceName("nvme0n1", "1") == "nvme0n1p1"
    ensures Dm("0").Name() == "dm-0" && Loop("0").Name() == "loop0"
  {
    assert "sda"[0] == 's' && "sdb"[0] == 's' && "nvme0n1"[0] == 'n';
    assert "sda" == "sd" + "a" && "sdb" == "sd" + "b" && "nvme0n1" == "nvme" + "0" + "n" + "1";
    LettersAreKept("sd", "a");
    LettersAreKept("sd", "b");
    NamespacesAreKept("0", "1");
    assert "dm-0" == "dm-" + "0" && "loop0" == "loop" + "0";
    DroppedFamily("dm-", "0");
    DroppedFamily("loop", "0");
    assert DeviceName("sda", "1") == "sda" + "1" == "sda1";
    assert DeviceName("nvme0n1", "1") == "nvme0n1" + "p" + "1" == "nvme0n1p1";
    PartitionKeptIff("sda", "1");
    PartitionKeptIff("nvme0n1", "1");
  }

  /** The filter's verdict on the disks of each family, and on their partitions. */
  lemma FamilyIsKept(d: Disk)
    requires d.Proper()
    ensures IsWholeDisk(d.Name()) <==> !(d.Optical? || d.Loop? || d.Ram? || d.Dm?)
    ensures IsWholeDisk(d.Name()) ==> (Separable(d.Name()) <==> d.Scsi? || d.Virtio? || d.Xen? || d.Nvme?)
  {
    match d
    case Scsi(letters) => LettersAreKept("sd", letters);
    case Virtio(letters) => LettersAreKept("vd", letters);
    case Xen(letters) => LettersAreKept("xvd", letters);
    case Nvme(controller, namespace) => NamespacesAreKept(controller, namespace);
    case Emmc(number) => DefaultFamily("mmcblk", number);
    case Nbd(number) => DefaultFamily("nbd", number);
    case Md(number) => DefaultFamily("md", number);
    case Zram(number) => DefaultFamily("zram", number);
    case Optical(number) => DroppedFamily("sr", number);
    case Loop(number) => DroppedFamily("loop", number);
    case Ram(number) => DroppedFamily("ram", number);
    case Dm(number) => DroppedFamily("dm-", number);
    case Other(_, _) =>
  }

  // ----- a whole file -----

  /** One device: a disk, or partition number part of it, with its counts. */
  datatype Entry = Entry(disk: Disk, part: string,
                         readSectors: U64, writeSectors: U64, readOps: U64, writeOps: U64) {
    predicate Proper() {
      disk.Proper() && AllDigits(part)
    }

    predicate IsDisk() {
      part == ""
    }

    function Name(): string {
      DeviceName(disk.Name(), part)
    }

    function AsDisk(): DiskIO {
      DiskIO(Name(), readSectors, writeSectors, readOps, writeOps)
    }

    function Sectors(): nat {
      readSectors + writeSectors
    }
  }

  /** line is laid out in these columns, of which the parser reads five. */
  ghost predicate Lays(line: string, e: Entry, gaps: seq<string>, columns: seq<string>, tail: string) {
    && |gaps| == |columns| >= 14 && SpacedApart(gaps) && Blank(tail)
    && (forall i :: 0 <= i < |columns| ==> IsToken(columns[i]))
    && columns[2] == e.Name()
    && columns[3] == Print(e.readOps) && columns[5] == Print(e.readSectors)
    && columns[7] == Print(e.writeOps) && columns[9] == Print(e.writeSectors)
    && line == Layout(gaps, columns) + tail
  }

  ghost predicate ShowsDisk(line: string, e: Entry) {
    exists gaps, columns, tail :: Lays(line, e, gaps, columns, tail)
  }

  lemma ParseLineInverts(line: string, e: Entry)
    requires ShowsDisk(line, e)
    ensures ParseLine(line) == if IsWholeDisk(e.Name()) then Row(e.AsDisk()) else Skip
  {
    var gaps, columns, tail :| Lays(line, e, gaps, columns, tail);
    FieldsOfLayout(gaps, columns, tail);
    ParsePrint(e.readOps);
    ParsePrint(e.readSectors);
    ParsePrint(e.writeOps);
    ParsePrint(e.writeSectors);
  }

  /** A line the parser cannot read as a device. */
  predicate Unreadable(line: string) {
    var fields := Fields(line);
    || |fields| < 14
    || ParseUint(fields[3]).None? || ParseUint(fields[5]).None?
    || ParseUint(fields[7]).None? || ParseUint(fields[9]).None?
  }

  /** A file of device lines, in any order and of any families, among unreadable ones. */
  ghost predicate ShowsFile(file: seq<(string, Option<Entry>)>) {
    forall i :: 0 <= i < |file| ==>
      match file[i].1
      case None => Unreadable(file[i].0)
      case Some(e) => e.Proper() && ShowsDisk(file[i].0, e)
  }

  /** The entries that satisfy p, in order. */
  function Picked(entries: seq<Entry>, p: Entry -> bool): seq<DiskIO> {
    if entries == [] then [] else
      var last := entries[|entries| - 1];
      Picked(entries[..|entries| - 1], p) + (if p(last) then [last.AsDisk()] else [])
  }

  lemma {:induction false} PickedSnoc(entries: seq<Entry>, p: Entry -> bool, e: Entry)
    ensures Picked(entries + [e], p) == Picked(entries, p) + (if p(e) then [e.AsDisk()] else [])
  {
    var all := entries + [e];
    assert all[..|all| - 1] == entries && all[|all| - 1] == e;
  }

  const KEPT := (e: Entry) => IsWholeDisk(e.Name())

  /** What a reader wants to see: the disks that do I/O themselves. */
  const PHYSICAL := (e: Entry) => e.IsDisk() && !e.disk.Virtual()

  /** Counted elsewhere already, but returned: MD arrays, compressed RAM disks, virtual disks of other
      families, and the partitions of these, of eMMC cards, of network block devices and of any disk of
      another family. */
  const DOUBLED := (e: Entry) =>
    || e.disk.Md? || e.disk.Zram?
    || (if e.IsDisk() then e.disk.Other? && e.disk.virtual else e.disk.Emmc? || e.disk.Nbd? || e.disk.Other?)

  /** Optical drives, which are not returned. */
  const MISSED := (e: Entry) => e.IsDisk() && e.disk.Optical?

  lemma {:induction false} RowsArePicked(file: seq<(string, Option<Entry>)>, parse: string -> LineResult<DiskIO>,
                                         p: Entry -> bool)
    requires forall i :: 0 <= i < |file| ==>
               parse(file[i].0) == match file[i].1
                                   case None => Skip
                                   case Some(e) => if p(e) then Row(e.AsDisk()) else Skip
    ensures Rows(Lines(file), parse) == Picked(Records(file), p)
  {
    if file == [] {
    } else {
      var n := |file| - 1;
      RowsArePicked(file[..n], parse, p);
      assert Lines(file)[..n] == Lines(file[..n]) && Lines(file)[n] == file[n].0;
      if file[n].1.Some? {
        PickedSnoc(Records(file[..n]), p, file[n].1.value);
      } else {
        assert Records(file) == Records(file[..n]);
      }
    }
  }

  /** What the parser returns for such a file. */
  lemma {:induction false} ParserKeeps(file: seq<(string, Option<Entry>)>)
    requires ShowsFile(file)
    ensures Rows(Lines(file), ParseLine) == Picked(Records(file), KEPT)
    ensures forall e :: e in Records(file) ==> e.Proper()
  {
    forall i | 0 <= i < |file|
      ensures ParseLine(file[i].0) == match file[i].1
                                      case None => Skip
                                      case Some(e) => if KEPT(e) then Row(e.AsDisk()) else Skip
    {
      if file[i].1.Some? {
        ParseLineInverts(file[i].0, file[i].1.value);
      }
    }
    RowsArePicked(file, ParseLine, KEPT);
    RecordsAreShown(file);
  }

  lemma {:induction false} RecordsAreShown(file: seq<(string, Option<Entry>)>)
    requires ShowsFile(file)
    ensures forall e :: e in Records(file) ==> e.Proper()
  {
    if file == [] {
    } else {
      RecordsAreShown(file[..|file| - 1]);
    }
  }

  /** Picking by a weaker condition gives the same list exactly when it picks nothing more. */
  lemma {:induction false} PickedMore(entries: seq<Entry>, p: Entry -> bool, q: Entry -> bool)
    requires forall e :: e in entries && q(e) ==> p(e)
    ensures |Picked(entries, p)| >= |Picked(entries, q)|
    ensures Picked(entries, p) == Picked(entries, q) <==> forall e :: e in entries && p(e) ==> q(e)
  {
    if entries == [] {
    } else {
      var n := |entries| - 1;
      var init, last := entries[..n], entries[n];
      PickedMore(init, p, q);
      LastRow(Picked(init, p), Picked(init, q), last.AsDisk());
      assert Picked(init, p) + [] == Picked(init, p) && Picked(init, q) + [] == Picked(init, q);
      assert last in entries && forall e :: e in entries <==> e in init || e == last;
    }
  }

  lemma LastRow(rows: seq<DiskIO>, disks: seq<DiskIO>, d: DiskIO)
    requires |rows| >= |disks|
    ensures rows + [d] == disks + [d] <==> rows == disks
    ensures rows + [d] != disks
  {
    if rows + [d] == disks + [d] {
      assert rows == (rows + [d])[..|rows|];
      assert disks == (disks + [d])[..|disks|];
    }
  }

  lemma {:induction false} PickedAre(entries: seq<Entry>, p: Entry -> bool, d: DiskIO)
    ensures d in Picked(entries, p) <==> exists e :: e in entries && p(e) && e.AsDisk() == d
  {
    if entries == [] {
    } else {
      var n := |entries| - 1;
      PickedAre(entries[..n], p, d);
      assert forall e :: e in entries <==> e in entries[..n] || e == entries[n];
    }
  }

  lemma KeptIs(e: Entry)
    requires e.Proper()
    ensures KEPT(e) <==> (PHYSICAL(e) && !MISSED(e)) || DOUBLED(e)
    ensures DOUBLED(e) ==> !PHYSICAL(e)
    ensures MISSED(e) ==> PHYSICAL(e) && !KEPT(e)
  {
    FamilyIsKept(e.disk);
    NameIsToken(e.disk);
    if !e.IsDisk() {
      PartitionKeptIff(e.disk.Name(), e.part);
    }
  }

  /** The parser returns exactly the physical whole disks, in order, if and only if the file has no MD
      array, compressed RAM disk or virtual disk of an unlisted family, no optical drive, and partitions
      only of the families sd, vd, xvd and nvme and of those dropped altogether. */
  lemma {:induction false} NoDoubleCountingIff(file: seq<(string, Option<Entry>)>)
    requires ShowsFile(file)
    ensures Rows(Lines(file), ParseLine) == Picked(Records(file), PHYSICAL)
       <==> forall e :: e in Records(file) ==> !DOUBLED(e) && !MISSED(e)
  {
    var entries := Records(file);
    ParserKeeps(file);
    forall e | e in entries
      ensures KEPT(e) <==> (PHYSICAL(e) && !MISSED(e)) || DOUBLED(e)
      ensures DOUBLED(e) ==> !PHYSICAL(e)
    {
      KeptIs(e);
    }
    if m :| m in entries && MISSED(m) {
      MissedIsNotKept(entries, m);
    } else {
      PickedMore(entries, KEPT, PHYSICAL);
    }
  }

  lemma {:induction false} MissedIsNotKept(entries: seq<Entry>, m: Entry)
    requires m in entries && MISSED(m) && m.Proper()
    ensures Picked(entries, KEPT) != Picked(entries, PHYSICAL)
  {
    KeptIs(m);
    PickedAre(entries, PHYSICAL, m.AsDisk());
    PickedAre(entries, KEPT, m.AsDisk());
  }

  /** Sectors read and written, summed over a list of devices as a reader of the list would. */
  function SectorSum(disks: seq<DiskIO>): nat {
    if disks == [] then 0 else
      var last := disks[|disks| - 1];
      SectorSum(disks[..|disks| - 1]) + last.readSectors + last.writeSectors
  }

  lemma {:induction false} SectorSumSnoc(disks: seq<DiskIO>, d: DiskIO)
    ensures SectorSum(disks + [d]) == SectorSum(disks) + d.readSectors + d.writeSectors
  {
    var all := disks + [d];
    assert all[..|all| - 1] == disks && all[|all| - 1] == d;
  }

  /** The sectors of the devices that satisfy p. */
  function Sectors(entries: seq<Entry>, p: Entry -> bool): nat {
    SectorSum(Picked(entries, p))
  }

  lemma SectorsSnoc(entries: seq<Entry>, p: Entry -> bool)
    requires entries != []
    ensures var last := entries[|entries| - 1];
            Sectors(entries, p) == Sectors(entries[..|entries| - 1], p)
                                   + (if p(last) then last.readSectors + last.writeSectors else 0)
  {
    var picked, last := Picked(entries[..|entries| - 1], p), entries[|entries| - 1];
    if p(last) {
      SectorSumSnoc(picked, last.AsDisk());
    } else {
      assert picked + [] == picked;
    }
  }

  lemma {:induction false} SectorsBalance(entries: seq<Entry>)
    requires forall e :: e in entries ==> e.Proper()
    ensures Sectors(entries, KEPT) + Sectors(entries, MISSED) == Sectors(entries, PHYSICAL) + Sectors(entries, DOUBLED)
  {
    if entries == [] {
    } else {
      var last := entries[|entries| - 1];
      SectorsBalance(entries[..|entries| - 1]);
      SectorsSnoc(entries, KEPT);
      SectorsSnoc(entries, MISSED);
      SectorsSnoc(entries, PHYSICAL);
      SectorsSnoc(entries, DOUBLED);
      KeptIs(last);
    }
  }

  /** By how much the total over the returned list is off, for every file: it misses the sectors of the
      missed disks, and has those of the doubled devices on top. */
  lemma {:induction false} DoubleCountedSectors(file: seq<(string, Option<Entry>)>)
    requires ShowsFile(file)
    ensures SectorSum(Rows(Lines(file), ParseLine)) + Sectors(Records(file), MISSED)
         == Sectors(Records(file), PHYSICAL) + Sectors(Records(file), DOUBLED)
  {
    ParserKeeps(file);
    SectorsBalance(Records(file));
  }

  /** The files for which the promise is made, and more: any sd, vd, xvd and nvme disks with any
      partitions, and any loop devices, RAM disks and device-mapper nodes, give exactly the disks. */
  lemma {:induction false} UsualFilesAreRight(file: seq<(string, Option<Entry>)>)
    requires ShowsFile(file)
    requires forall e :: e in Records(file) ==> IsUsual(e.disk)
    ensures Rows(Lines(file), ParseLine) == Picked(Records(file), PHYSICAL)
    ensures SectorSum(Rows(Lines(file), ParseLine)) == Sectors(Records(file), PHYSICAL)
  {
    NoDoubleCountingIff(file);
  }

  predicate IsUsual(d: Disk) {
    d.Scsi? || d.Virtio? || d.Xen? || d.Nvme? || d.Loop? || d.Ram? || d.Dm?
  }

  // ----- two files -----

  /** The columns of a line for e. */
  function Columns(e: Entry): (r: seq<string>)
    ensures |r| == 14
  {
    ["8", "0", e.Name(), Print(e.readOps), "0", Print(e.readSectors), "0",
     Print(e.writeOps), "0", Print(e.writeSectors), "0", "0", "0", "0"]
  }

  function Gaps(n: nat): (r: seq<string>)
    ensures |r| == n && forall i :: 0 <= i < n ==> r[i] == " "
  {
    seq(n, i => " ")
  }

  function DiskLine(e: Entry): string {
    Layout(Gaps(14), Columns(e))
  }

  lemma DiskLineShows(e: Entry)
    requires e.Proper()
    ensures ShowsDisk(DiskLine(e), e)
  {
    DeviceNameIsToken(e.disk, e.part);
    ParsePrint(e.readOps);
    ParsePrint(e.readSectors);
    ParsePrint(e.writeOps);
    ParsePrint(e.writeSectors);
    assert DiskLine(e) == DiskLine(e) + "";
    assert Lays(DiskLine(e), e, Gaps(14), Columns(e), "");
  }

  /** Any list of devices has a file that shows it. */
  lemma EveryListHasAFile(entries: seq<Entry>) returns (file: seq<(string, Option<Entry>)>)
    requires forall e :: e in entries ==> e.Proper()
    ensures ShowsFile(file) && Records(file) == entries
  {
    file := FileOf(entries, DiskLine);
    FileHasRecords(entries, DiskLine);
    forall k | 0 <= k < |entries| ensures ShowsDisk(DiskLine(entries[k]), entries[k]) {
      DiskLineShows(entries[k]);
    }
  }

  lemma SectorsOfThree(a: Entry, b: Entry, c: Entry, p: Entry -> bool)
    ensures Sectors([a, b, c], p) == (if p(a) then a.readSectors + a.writeSectors else 0)
                                     + (if p(b) then b.readSectors + b.writeSectors else 0)
                                     + (if p(c) then c.readSectors + c.writeSectors else 0)
  {
    assert [a, b, c][..2] == [a, b] && [a, b][..1] == [a] && [a][..0] == [];
    SectorsSnoc([a, b, c], p);
    SectorsSnoc([a, b], p);
    SectorsSnoc([a], p);
  }

  /** A mirror: two disks and an MD array on them, after n sectors were written through it. */
  function Mirror(n: U64): seq<Entry> {
    [Entry(Scsi("a"), "", 0, n, 0, 1), Entry(Scsi("b"), "", 0, n, 0, 1), Entry(Md("0"), "", 0, n, 0, 1)]
  }

  lemma MirrorSectors(n: U64)
    ensures Sectors(Mirror(n), PHYSICAL) == 2 * n
    ensures Sectors(Mirror(n), MISSED) == 0 && Sectors(Mirror(n), DOUBLED) == n
  {
    var a, b, c := Mirror(n)[0], Mirror(n)[1], Mirror(n)[2];
    SectorsOfThree(a, b, c, PHYSICAL);
    SectorsOfThree(a, b, c, MISSED);
    SectorsOfThree(a, b, c, DOUBLED);
  }

  /** The array is returned beside its members: there is a file for which every sector written through
      it counts three times, though only two were written. */
  lemma MdArrayIsDoubled(n: U64) returns (file: seq<(string, Option<Entry>)>)
    ensures ShowsFile(file) && Records(file) == Mirror(n)
    ensures SectorSum(Rows(Lines(file), ParseLine)) == 3 * n
    ensures Sectors(Records(file), PHYSICAL) == 2 * n
  {
    file := EveryListHasAFile(Mirror(n));
    MirrorSectors(n);
    DoubleCountedSectors(file);
  }
}
