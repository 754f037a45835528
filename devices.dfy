/**
 * The device lists of the main window (listDevices) and the list of EFI system
 * partitions (getEspDevicePaths), both read from lsblk's records of the block devices.
 */
module Devices {
  import opened QtText

  const ESP_GUID_GPT := "c12a7328-f81f-11d2-ba4b-00a0c93ec93b"
  const ESP_TYPE_MBR := "0xef"

  const ONE_GB := 1073741824
  const SIX_GB := 6 * ONE_GB

  /** Filesystems never offered as a Linux root partition. */
  const EXCLUDED_LINUX_FS: seq<string> := ["ntfs", "exfat", "vfat", "BitLocker", "swap"]
  /** Filesystems never offered as a partition holding a frugal installation. */
  const EXCLUDED_FRUGAL_FS: seq<string> := ["swap", "BitLocker"]

  /** One record of `lsblk --json --bytes -o NAME,SIZE,FSTYPE,MOUNTPOINT,LABEL,MODEL,PARTTYPE,TYPE`. */
  datatype BlockDevice = BlockDevice(name: string, size: int, fstype: string, mountpoint: string,
                                     fsLabel: string, model: string, parttype: string, kind: string)

  /** One record of `lsblk --json -o PATH,PARTTYPE,FSTYPE,TYPE`. */
  datatype PathRecord = PathRecord(path: string, parttype: string, fstype: string, kind: string)

  // ------------------------------------------------------------ device names

  predicate IsLowerLetter(c: char)
  {
    'a' <= c <= 'z'
  }

  /** `[hsv]d[a-z]` at index i. */
  predicate DiskStemAt(name: string, i: nat)
  {
    i + 3 <= |name| && name[i] in "hsv" && name[i + 1] == 'd' && IsLowerLetter(name[i + 2])
  }

  /** The index just after the `[hsv]d[a-z]` that `^x?[hsv]d[a-z]` matches, if it matches. */
  predicate DiskStemEndsAt(name: string, e: nat)
  {
    (e == 3 && DiskStemAt(name, 0)) || (e == 4 && |name| > 0 && name[0] == 'x' && DiskStemAt(name, 1))
  }

  /** The name pattern of a whole disk: `^x?[hsv]d[a-z]|^mmcblk|^nvme`. */
  predicate IsDriveName(name: string)
  {
    DiskStemEndsAt(name, 3) || DiskStemEndsAt(name, 4) || StartsWith(name, "mmcblk") || StartsWith(name, "nvme")
  }

  /** At least one digit starts s, and the character right after the digits is c. */
  predicate DigitsThen(s: string, c: char)
  {
    var n := LeadingDigitCount(s);
    0 < n < |s| && s[n] == c
  }

  /** The name pattern of a partition: `^x?[hsv]d[a-z]\d|^mmcblk\d+p|^nvme\d+n\d+p`. */
  predicate IsPartName(name: string)
  {
    (DiskStemEndsAt(name, 3) && 3 < |name| && IsDigit(name[3]))
    || (DiskStemEndsAt(name, 4) && 4 < |name| && IsDigit(name[4]))
    || (StartsWith(name, "mmcblk") && DigitsThen(name[6..], 'p'))
    || (StartsWith(name, "nvme") && NvmeTail(name[4..]))
  }

  /** `\d+n\d+p` at the start of s. */
  predicate NvmeTail(s: string)
  {
    var n := LeadingDigitCount(s);
    0 < n < |s| && s[n] == 'n' && DigitsThen(s[n + 1..], 'p')
  }

  /** The stems of partition names are the stems of disk names. */
  lemma PartNameIsDriveName(name: string)
    requires IsPartName(name)
    ensures IsDriveName(name)
  {
  }

  /** Partitions of the three name families are recognised. */
  lemma PartNameExamples()
    ensures IsPartName("sda1") && IsPartName("xvdb2") && IsPartName("mmcblk0p1") && IsPartName("nvme0n1p2")
  {
    SdaXvdPartNames();
    MmcPartName();
    NvmePartName();
  }

  lemma SdaXvdPartNames()
    ensures IsPartName("sda1") && IsPartName("xvdb2")
  {
  }

  lemma MmcPartName()
    ensures IsPartName("mmcblk0p1")
  {
    assert "mmcblk0p1"[6..] == "0p1";
    assert LeadingDigitCount("0p1") == 1;
  }

  lemma NvmePartName()
    ensures IsPartName("nvme0n1p2")
  {
    assert "nvme0n1p2"[4..] == "0n1p2" && "0n1p2"[2..] == "1p2";
    assert LeadingDigitCount("0n1p2") == 1;
    assert LeadingDigitCount("1p2") == 1;
  }

  /** Whole disks and devices of other kinds are not partitions. */
  lemma NotPartNameExamples()
    ensures !IsPartName("sda") && !IsPartName("mmcblk0") && !IsPartName("nvme0n1") && !IsPartName("loop0")
  {
    SdaLoopNotPartNames();
    MmcDiskNotPartName();
    NvmeDiskNotPartName();
  }

  lemma SdaLoopNotPartNames()
    ensures !IsPartName("sda") && !IsPartName("loop0")
  {
  }

  lemma MmcDiskNotPartName()
    ensures !IsPartName("mmcblk0")
  {
    assert "mmcblk0"[6..] == "0";
    assert LeadingDigitCount("0") == 1;
  }

  lemma NvmeDiskNotPartName()
    ensures !IsPartName("nvme0n1")
  {
    assert "nvme0n1"[4..] == "0n1" && "0n1"[2..] == "1";
    assert LeadingDigitCount("0n1") == 1;
    assert LeadingDigitCount("1") == 1;
  }

  /** Whole disks of every family are drives; loop devices and optical drives are not. */
  lemma DriveNameExamples()
    ensures IsDriveName("nvme0n1") && IsDriveName("mmcblk0") && IsDriveName("sda")
    ensures !IsDriveName("loop0") && !IsDriveName("sr0")
  {
  }

  // ---------------------------------------------------------- classification

  predicate IsDrive(d: BlockDevice)
  {
    d.kind == "disk" && IsDriveName(d.name)
  }

  predicate IsPartition(d: BlockDevice)
  {
    d.kind == "part" && IsPartName(d.name)
  }

  /** The partition type codes of an EFI system partition, compared after toLower. */
  predicate IsEspType(parttype: string)
  {
    ToLower(parttype) == ESP_GUID_GPT || ToLower(parttype) == ESP_TYPE_MBR
  }

  predicate IsEsp(d: BlockDevice)
  {
    IsPartition(d) && EqualsIgnoreCase(d.fstype, "vfat") && IsEspType(d.parttype)
  }

  /** QStringList::contains(s, Qt::CaseInsensitive). */
  predicate ContainsIgnoreCase(list: seq<string>, s: string)
  {
    exists i :: 0 <= i < |list| && EqualsIgnoreCase(list[i], s)
  }

  predicate IsLinuxPartition(d: BlockDevice)
  {
    IsPartition(d) && d.size >= SIX_GB && d.fstype != "" && !ContainsIgnoreCase(EXCLUDED_LINUX_FS, d.fstype)
  }

  predicate IsFrugalPartition(d: BlockDevice)
  {
    IsPartition(d) && d.size >= ONE_GB && d.fstype != "" && !ContainsIgnoreCase(EXCLUDED_FRUGAL_FS, d.fstype)
  }

  /** Every partition offered for a Linux root is also offered for a frugal installation. */
  lemma LinuxIsFrugal(d: BlockDevice)
    requires IsLinuxPartition(d)
    ensures IsFrugalPartition(d)
  {
    forall i | 0 <= i < |EXCLUDED_FRUGAL_FS|
      ensures !EqualsIgnoreCase(EXCLUDED_FRUGAL_FS[i], d.fstype)
    {
      var j := if i == 0 then 4 else 3;
      assert EXCLUDED_LINUX_FS[j] == EXCLUDED_FRUGAL_FS[i];
    }
  }

  // ------------------------------------------------------------- list rows

  /** The arguments of QString::arg joined by single spaces, then trimmed. */
  function Row(fields: seq<string>): string
  {
    Trimmed(JoinBy(fields, " "))
  }

  function EspRow(d: BlockDevice, formatSize: int -> string): string
  {
    Row([d.name, formatSize(d.size), d.fsLabel])
  }

  function DriveRow(d: BlockDevice, formatSize: int -> string): string
  {
    Row([d.name, formatSize(d.size), d.fsLabel, d.model])
  }

  /** A partition row shows "/" as the mount point of the running system's root partition. */
  function PartitionRow(d: BlockDevice, rootPartition: string, formatSize: int -> string): string
  {
    var mp := if d.name == rootPartition then "/" else d.mountpoint;
    Row([d.name, formatSize(d.size), d.fstype, mp, d.fsLabel])
  }

  /** A device name as lsblk gives it: not empty, and without white space. */
  predicate PlainName(name: string)
  {
    name != "" && forall i :: 0 <= i < |name| ==> !IsSpace(name[i])
  }

  /** The rows begin with the device name, so the first space-separated field gives it back. */
  lemma RowStartsWithName(fields: seq<string>)
    requires |fields| >= 2 && PlainName(fields[0])
    ensures Section(Row(fields), " ", 0) == fields[0]
  {
    var name := fields[0];
    var rest := JoinBy(fields[1..], " ");
    assert fields == [name] + fields[1..];
    assert JoinBy(fields, " ") == name + " " + rest;
    NameFirst(name, rest);
  }

  lemma NameFirst(name: string, rest: string)
    requires PlainName(name)
    ensures Section(Trimmed(name + " " + rest), " ", 0) == name
  {
    var s := name + " " + rest;
    assert s[0] == name[0];
    assert TrimStart(s) == s;
    var r := TrimEnd(s);
    assert |r| >= |name| by {
      assert s[|name| - 1] == name[|name| - 1];
    }
    if |r| == |name| {
      assert r == name;
      SectionNoSep(name, ' ');
    } else {
      assert r == name + " " + r[|name| + 1..];
      SectionAt(name, ' ', r[|name| + 1..]);
    }
  }

  /** The row of an ESP names the device. */
  lemma EspRowName(d: BlockDevice, formatSize: int -> string)
    requires PlainName(d.name)
    ensures Section(EspRow(d, formatSize), " ", 0) == d.name
  {
    RowStartsWithName([d.name, formatSize(d.size), d.fsLabel]);
  }

  /** The row of a drive names the device. */
  lemma DriveRowName(d: BlockDevice, formatSize: int -> string)
    requires PlainName(d.name)
    ensures Section(DriveRow(d, formatSize), " ", 0) == d.name
  {
    RowStartsWithName([d.name, formatSize(d.size), d.fsLabel, d.model]);
  }

  /** The row of a partition names the device. */
  lemma PartitionRowName(d: BlockDevice, rootPartition: string, formatSize: int -> string)
    requires PlainName(d.name)
    ensures Section(PartitionRow(d, rootPartition, formatSize), " ", 0) == d.name
  {
    var mp := if d.name == rootPartition then "/" else d.mountpoint;
    RowStartsWithName([d.name, formatSize(d.size), d.fstype, mp, d.fsLabel]);
  }

  // ---------------------------------------------------- the lists, as values

  function EspRows(ds: seq<BlockDevice>, formatSize: int -> string): seq<string>
  {
    if ds == [] then []
    else
      var last := ds[|ds| - 1];
      EspRows(ds[..|ds| - 1], formatSize) + (if IsEsp(last) then [EspRow(last, formatSize)] else [])
  }

  function DriveRows(ds: seq<BlockDevice>, formatSize: int -> string): seq<string>
  {
    if ds == [] then []
    else
      var last := ds[|ds| - 1];
      DriveRows(ds[..|ds| - 1], formatSize) + (if IsDrive(last) then [DriveRow(last, formatSize)] else [])
  }

  /** The partition rows of the devices satisfying keep, in lsblk's order. */
  function PartitionRows(ds: seq<BlockDevice>, keep: BlockDevice -> bool, rootPartition: string,
                         formatSize: int -> string): seq<string>
  {
    if ds == [] then []
    else
      var last := ds[|ds| - 1];
      PartitionRows(ds[..|ds| - 1], keep, rootPartition, formatSize)
      + (if keep(last) then [PartitionRow(last, rootPartition, formatSize)] else [])
  }

  /** Whatever is kept by a stronger filter is kept by a weaker one, so its rows are among the other's. */
  lemma {:induction false} PartitionRowsSub(ds: seq<BlockDevice>, strong: BlockDevice -> bool,
                                            weak: BlockDevice -> bool, rootPartition: string,
                                            formatSize: int -> string)
    requires forall d :: strong(d) ==> weak(d)
    ensures multiset(PartitionRows(ds, strong, rootPartition, formatSize))
            <= multiset(PartitionRows(ds, weak, rootPartition, formatSize))
  {
    if ds != [] {
      PartitionRowsSub(ds[..|ds| - 1], strong, weak, rootPartition, formatSize);
    }
  }

  /** Every row of the Linux partition list is also a row of the frugal partition list. */
  lemma LinuxRowsAreFrugalRows(ds: seq<BlockDevice>, rootPartition: string, formatSize: int -> string)
    ensures multiset(PartitionRows(ds, IsLinuxPartition, rootPartition, formatSize))
            <= multiset(PartitionRows(ds, IsFrugalPartition, rootPartition, formatSize))
  {
    forall d | IsLinuxPartition(d)
      ensures IsFrugalPartition(d)
    {
      LinuxIsFrugal(d);
    }
    PartitionRowsSub(ds, IsLinuxPartition, IsFrugalPartition, rootPartition, formatSize);
  }

  /** A row is in the list exactly when some kept device yields it. */
  lemma PartitionRowsMembers(ds: seq<BlockDevice>, keep: BlockDevice -> bool, rootPartition: string,
                             formatSize: int -> string, row: string)
    ensures row in PartitionRows(ds, keep, rootPartition, formatSize)
            <==> exists i :: 0 <= i < |ds| && keep(ds[i]) && PartitionRow(ds[i], rootPartition, formatSize) == row
  {
    if row in PartitionRows(ds, keep, rootPartition, formatSize) {
      var i := PartitionRowSource(ds, keep, rootPartition, formatSize, row);
    }
    if exists i :: 0 <= i < |ds| && keep(ds[i]) && PartitionRow(ds[i], rootPartition, formatSize) == row {
      var i :| 0 <= i < |ds| && keep(ds[i]) && PartitionRow(ds[i], rootPartition, formatSize) == row;
      PartitionRowListed(ds, keep, rootPartition, formatSize, i);
    }
  }

  /** Every row of the list comes from a kept device. */
  lemma {:induction false} PartitionRowSource(ds: seq<BlockDevice>, keep: BlockDevice -> bool,
                                              rootPartition: string, formatSize: int -> string,
                                              row: string) returns (i: nat)
    requires row in PartitionRows(ds, keep, rootPartition, formatSize)
    ensures i < |ds| && keep(ds[i]) && PartitionRow(ds[i], rootPartition, formatSize) == row
  {
    var init := ds[..|ds| - 1];
    var last := ds[|ds| - 1];
    if row in PartitionRows(init, keep, rootPartition, formatSize) {
      i := PartitionRowSource(init, keep, rootPartition, formatSize, row);
      assert ds[i] == init[i];
    } else {
      i := |ds| - 1;
    }
  }

  /** The row of every kept device is in the list. */
  lemma {:induction false} PartitionRowListed(ds: seq<BlockDevice>, keep: BlockDevice -> bool,
                                              rootPartition: string, formatSize: int -> string, i: nat)
    requires i < |ds| && keep(ds[i])
    ensures PartitionRow(ds[i], rootPartition, formatSize) in PartitionRows(ds, keep, rootPartition, formatSize)
  {
    var init := ds[..|ds| - 1];
    if i < |init| {
      assert init[i] == ds[i];
      PartitionRowListed(init, keep, rootPartition, formatSize, i);
    }
  }

  /** One more device adds at most one row at the end of the ESP and drive lists. */
  lemma RowsSnoc(ds: seq<BlockDevice>, d: BlockDevice, formatSize: int -> string)
    ensures EspRows(ds + [d], formatSize) == EspRows(ds, formatSize) + (if IsEsp(d) then [EspRow(d, formatSize)] else [])
    ensures DriveRows(ds + [d], formatSize) == DriveRows(ds, formatSize) + (if IsDrive(d) then [DriveRow(d, formatSize)] else [])
  {
    assert (ds + [d])[..|ds|] == ds;
  }

  /** One more device adds at most one row at the end of a partition list. */
  lemma PartitionRowsSnoc(ds: seq<BlockDevice>, d: BlockDevice, keep: BlockDevice -> bool, rootPartition: string, formatSize: int -> string)
    ensures PartitionRows(ds + [d], keep, rootPartition, formatSize)
            == PartitionRows(ds, keep, rootPartition, formatSize)
               + (if keep(d) then [PartitionRow(d, rootPartition, formatSize)] else [])
  {
    assert (ds + [d])[..|ds|] == ds;
  }

  // ------------------------------------------------------------- the widget

  /** The five lists the main window fills from lsblk. */
  class DeviceLists {
    var espList: seq<string>
    var driveList: seq<string>
    var partitionList: seq<string>
    var linuxPartitionList: seq<string>
    var frugalPartitionList: seq<string>

    constructor ()
      ensures espList == [] && driveList == [] && partitionList == []
      ensures linuxPartitionList == [] && frugalPartitionList == []
    {
      espList, driveList, partitionList := [], [], [];
      linuxPartitionList, frugalPartitionList := [], [];
    }

    /**
     * listDevices: clear the lists, then add one row per device to each list whose filter
     * it passes. The drive list keeps lsblk's order; the other four hold these rows.
     */
    method ListDevices(devices: seq<BlockDevice>, rootPartition: string, formatSize: int -> string)
      modifies this
      ensures espList == EspRows(devices, formatSize)
      ensures driveList == DriveRows(devices, formatSize)
      ensures partitionList == PartitionRows(devices, IsPartition, rootPartition, formatSize)
      ensures linuxPartitionList == PartitionRows(devices, IsLinuxPartition, rootPartition, formatSize)
      ensures frugalPartitionList == PartitionRows(devices, IsFrugalPartition, rootPartition, formatSize)
    {
      var esp, drives, parts, linux, frugal := [], [], [], [], [];
      for i := 0 to |devices|
        invariant esp == EspRows(devices[..i], formatSize)
        invariant drives == DriveRows(devices[..i], formatSize)
        invariant parts == PartitionRows(devices[..i], IsPartition, rootPartition, formatSize)
        invariant linux == PartitionRows(devices[..i], IsLinuxPartition, rootPartition, formatSize)
        invariant frugal == PartitionRows(devices[..i], IsFrugalPartition, rootPartition, formatSize)
      {
        var dev, next := devices[i], devices[..i + 1];
        assert next == devices[..i] + [dev];
        RowsSnoc(devices[..i], dev, formatSize);
        PartitionRowsSnoc(devices[..i], dev, IsPartition, rootPartition, formatSize);
        PartitionRowsSnoc(devices[..i], dev, IsLinuxPartition, rootPartition, formatSize);
        PartitionRowsSnoc(devices[..i], dev, IsFrugalPartition, rootPartition, formatSize);
        if IsEsp(dev) {
          esp := esp + [EspRow(dev, formatSize)];
        }
        assert esp == EspRows(next, formatSize);
        if IsDrive(dev) {
          drives := drives + [DriveRow(dev, formatSize)];
        }
        assert drives == DriveRows(next, formatSize);
        if IsPartition(dev) {
          parts := parts + [PartitionRow(dev, rootPartition, formatSize)];
        }
        assert parts == PartitionRows(next, IsPartition, rootPartition, formatSize);
        if IsLinuxPartition(dev) {
          linux := linux + [PartitionRow(dev, rootPartition, formatSize)];
        }
        assert linux == PartitionRows(next, IsLinuxPartition, rootPartition, formatSize);
        if IsFrugalPartition(dev) {
          frugal := frugal + [PartitionRow(dev, rootPartition, formatSize)];
        }
        assert frugal == PartitionRows(next, IsFrugalPartition, rootPartition, formatSize);
      }
      assert devices[..|devices|] == devices;
      espList, driveList, partitionList := esp, drives, parts;
      linuxPartitionList, frugalPartitionList := linux, frugal;
    }
  }

  // ------------------------------------------------------- getEspDevicePaths

  predicate IsEspRecord(r: PathRecord)
  {
    r.kind == "part" && IsEspType(r.parttype) && EqualsIgnoreCase(r.fstype, "vfat")
  }

  /** The paths of the ESP records, in lsblk's order. */
  function EspPaths(records: seq<PathRecord>): seq<string>
  {
    if records == [] then []
    else
      var last := records[|records| - 1];
      EspPaths(records[..|records| - 1]) + (if IsEspRecord(last) then [last.path] else [])
  }

  /** Some record of an EFI system partition carries the path. */
  predicate HasEspRecord(records: seq<PathRecord>, path: string)
  {
    exists i :: 0 <= i < |records| && IsEspRecord(records[i]) && records[i].path == path
  }

  /** A path is listed exactly when some record of an EFI system partition carries it. */
  lemma {:induction false} EspPathsMembers(records: seq<PathRecord>, path: string)
    ensures path in EspPaths(records) <==> HasEspRecord(records, path)
  {
    if records != [] {
      var init, last := records[..|records| - 1], records[|records| - 1];
      EspPathsMembers(init, path);
      assert records == init + [last];
      HasEspRecordSnoc(init, last, path);
    }
  }

  /** One more record carries the path exactly when it is an ESP record with that path. */
  lemma HasEspRecordSnoc(init: seq<PathRecord>, last: PathRecord, path: string)
    ensures HasEspRecord(init + [last], path)
            <==> HasEspRecord(init, path) || (IsEspRecord(last) && last.path == path)
  {
    var r := init + [last];
    if HasEspRecord(r, path) {
      var i :| 0 <= i < |r| && IsEspRecord(r[i]) && r[i].path == path;
      if i < |init| {
        assert init[i] == r[i];
      }
    }
    if HasEspRecord(init, path) {
      var i :| 0 <= i < |init| && IsEspRecord(init[i]) && init[i].path == path;
      assert r[i] == init[i];
    }
    if IsEspRecord(last) && last.path == path {
      assert r[|init|] == last;
    }
  }

  /** getEspDevicePaths: the loop that skips non-partitions and keeps vfat ESPs. */
  method GetEspDevicePaths(records: seq<PathRecord>) returns (paths: seq<string>)
    ensures paths == EspPaths(records)
  {
    paths := [];
    for i := 0 to |records|
      invariant paths == EspPaths(records[..i])
    {
      var dev := records[i];
      assert records[..i + 1][..i] == records[..i];
      if dev.kind != "part" {
        continue;
      }
      var parttype := ToLower(dev.parttype);
      if (parttype == ESP_GUID_GPT || parttype == ESP_TYPE_MBR) && EqualsIgnoreCase(dev.fstype, "vfat") {
        paths := paths + [dev.path];
      }
    }
    assert records[..|records|] == records;
  }
}
