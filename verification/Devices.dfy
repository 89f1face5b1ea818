/** Block devices and the names that the kernel gives them. */
module Devices {
  import opened Words
  import opened Text

  predicate IsNumber(s: string) {
    s != "" && AllDigits(s)
  }

  predicate IsLetters(s: string) {
    s != "" && forall i :: 0 <= i < |s| ==> 'a' <= s[i] <= 'z'
  }

  /** The prefixes for which the filter of internal/stats/disk.go has a rule. */
  predicate HasKnownPrefix(name: string) {
    || "loop" <= name || "ram" <= name || "dm-" <= name || "sr" <= name || "nvme" <= name
    || "sd" <= name || "vd" <= name || "xvd" <= name
  }

  /** A disk, by the family that names it: SCSI and SATA disks, virtio and Xen disks, NVMe namespaces,
      eMMC and SD cards, network block devices, optical drives, MD arrays, compressed RAM disks, loop
      devices, RAM disks, device-mapper nodes; and any disk of another family, of which one has to be
      told whether it is virtual. */
  datatype Disk =
    | Scsi(letters: string) | Virtio(letters: string) | Xen(letters: string)
    | Nvme(controller: string, namespace: string)
    | Emmc(number: string) | Nbd(number: string) | Optical(number: string)
    | Md(number: string) | Zram(number: string) | Loop(number: string) | Ram(number: string) | Dm(number: string)
    | Other(name: string, virtual: bool)
  {
    predicate Proper() {
      if Scsi? || Virtio? || Xen? then IsLetters(letters)
      else if Nvme? then IsNumber(controller) && IsNumber(namespace)
      else if Other? then IsToken(name) && !HasKnownPrefix(name)
      else IsNumber(number)
    }

    function Name(): string {
      match this
      case Scsi(letters) => "sd" + letters
      case Virtio(letters) => "vd" + letters
      case Xen(letters) => "xvd" + letters
      case Nvme(controller, namespace) => "nvme" + controller + "n" + namespace
      case Emmc(number) => "mmcblk" + number
      case Nbd(number) => "nbd" + number
      case Optical(number) => "sr" + number
      case Md(number) => "md" + number
      case Zram(number) => "zram" + number
      case Loop(number) => "loop" + number
      case Ram(number) => "ram" + number
      case Dm(number) => "dm-" + number
      case Other(name, _) => name
    }

    /** Other devices, or memory, carry out its I/O. */
    predicate Virtual() {
      Md? || Zram? || Loop? || Ram? || Dm? || (Other? && virtual)
    }
  }

  /** The kernel's name for partition number part of the disk base: "p" comes between when the name
      of the disk ends in a digit. An empty part means the disk itself. */
  function DeviceName(base: string, part: string): string {
    if part == "" then base
    else if base != "" && IsDigit(base[|base| - 1]) then base + "p" + part
    else base + part
  }

  lemma TokensJoin(s: string, t: string)
    requires IsToken(s) && (t == "" || IsToken(t))
    ensures IsToken(s + t)
  {
    forall i | 0 <= i < |s + t| ensures !IsSpace((s + t)[i]) {
      assert (s + t)[i] == if i < |s| then s[i] else t[i - |s|];
    }
  }

  lemma LetteredIsToken(prefix: string, letters: string)
    requires prefix in {"sd", "vd", "xvd"} && IsLetters(letters)
    ensures IsToken(prefix + letters)
  {
    TokensJoin(prefix, letters);
  }

  lemma NamespaceIsToken(controller: string, namespace: string)
    requires IsNumber(controller) && IsNumber(namespace)
    ensures IsToken("nvme" + controller + "n" + namespace)
  {
    TokensJoin("nvme", controller);
    TokensJoin("nvme" + controller, "n");
    TokensJoin("nvme" + controller + "n", namespace);
  }

  lemma NumberedIsToken(prefix: string, number: string)
    requires prefix in {"mmcblk", "nbd", "sr", "md", "zram", "loop", "ram", "dm-"} && IsNumber(number)
    ensures IsToken(prefix + number)
  {
    TokensJoin(prefix, number);
  }

  lemma NameIsToken(d: Disk)
    requires d.Proper()
    ensures IsToken(d.Name())
  {
    match d
    case Scsi(letters) => LetteredIsToken("sd", letters);
    case Virtio(letters) => LetteredIsToken("vd", letters);
    case Xen(letters) => LetteredIsToken("xvd", letters);
    case Nvme(controller, namespace) => NamespaceIsToken(controller, namespace);
    case Emmc(number) => NumberedIsToken("mmcblk", number);
    case Nbd(number) => NumberedIsToken("nbd", number);
    case Optical(number) => NumberedIsToken("sr", number);
    case Md(number) => NumberedIsToken("md", number);
    case Zram(number) => NumberedIsToken("zram", number);
    case Loop(number) => NumberedIsToken("loop", number);
    case Ram(number) => NumberedIsToken("ram", number);
    case Dm(number) => NumberedIsToken("dm-", number);
    case Other(_, _) =>
  }

  lemma DeviceNameIsToken(d: Disk, part: string)
    requires d.Proper() && AllDigits(part)
    ensures IsToken(DeviceName(d.Name(), part))
  {
    NameIsToken(d);
    if part != "" {
      TokensJoin("p", part);
      TokensJoin(d.Name(), part);
      TokensJoin(d.Name(), "p" + part);
      assert d.Name() + "p" + part == d.Name() + ("p" + part);
    }
  }
}
