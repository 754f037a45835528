/**
 * The partition resolver of the main window: mounting a partition given by name, path
 * or tag (mountPartition), unlocking a LUKS container (openLuks), finding the boot
 * directory of a mounted system (getBootLocation), and the manifests newMounts,
 * newDirectories and newLuksDevices that the destructor hands to the cleanup helper.
 */
module Resolver {
  import opened Wrappers
  import opened QtText
  import opened Host

  const MOUNT_BASE := "/mnt/uefi-manager"
  const LIB_HELPER := "/usr/lib/uefi-manager/uefimanager-lib"

  /** The directory under MOUNT_BASE named after a device. */
  function UnderBase(name: string): string
  {
    MOUNT_BASE + "/" + name
  }

  predicate IsUnderBase(path: string)
  {
    StartsWith(path, MOUNT_BASE + "/")
  }

  lemma UnderBaseIsUnderBase(name: string)
    ensures IsUnderBase(UnderBase(name))
  {
    assert UnderBase(name)[..|MOUNT_BASE + "/"|] == MOUNT_BASE + "/";
  }

  /** A partition name, or its /dev/ path, that names the running system's root partition. */
  predicate IsRootPartition(part: string, rootPartition: string)
  {
    part == rootPartition || (StartsWith(part, "/dev/") && part == "/dev/" + rootPartition)
  }

  /** A device name as a /dev/ path. */
  function DevicePath(part: string): string
  {
    if StartsWith(part, "/dev/") then part else "/dev/" + part
  }

  /** A value found by running some commands, and the commands run to find it. */
  datatype Probe = Probe(value: string, cmds: seq<Command>)

  // ---------------------------------------------------------------- commands

  function BlkidUuidCommand(device: string): Command
  {
    ProcAsRoot("blkid", ["--output", "value", "--match-tag", "UUID", device])
  }

  function BlkidDeviceCommand(token: string): Command
  {
    ProcAsRoot("blkid", ["--list-one", "--output", "device", "--match-token", token])
  }

  function FindmntCommand(device: string): Command
  {
    ProcAsRoot("findmnt", ["--noheadings", "--first-only", "--output", "TARGET", "--source", device])
  }

  function IsLuksCommand(device: string): Command
  {
    ProcAsRoot("cryptsetup", ["isLuks", device])
  }

  function LsblkMountCommand(device: string): Command
  {
    Proc("lsblk", ["--pairs", "--output", "MOUNTPOINT", device])
  }

  function LuksUuidCommand(partition: string): Command
  {
    ProcAsRoot("cryptsetup", ["luksUUID", partition])
  }

  /** luksOpen reads the passphrase from standard input ("-"). */
  function LuksOpenCommand(partition: string, device: string, pass: seq<byte>): Command
  {
    Command("cryptsetup", ["luksOpen", "--allow-discards", partition, device, "-"], pass, true)
  }

  function MkdirCommand(dir: string): Command
  {
    ProcAsRoot("mkdir", ["-p", dir])
  }

  function MountCommand(source: string, dir: string): Command
  {
    ProcAsRoot("mount", [source, dir])
  }

  // ------------------------------------------------------------ getMountPoint

  const MOUNTPOINT_KEY := "MOUNTPOINT=\""

  predicate NotQuote(c: char)
  {
    c != '"'
  }

  /**
   * The search for `MOUNTPOINT="([^"]+)"` from index i on: the first position where the key
   * is followed by at least one non-quote character and then a quote; capture 1 there.
   */
  function MountPointFrom(s: string, i: nat): (r: string)
    requires i <= |s|
    ensures '"' !in r
    decreases |s| - i
  {
    if i == |s| then ""
    else if OccursAt(s, MOUNTPOINT_KEY, i)
         && SpanEnd(s, i + |MOUNTPOINT_KEY|, NotQuote) > i + |MOUNTPOINT_KEY|
         && SpanEnd(s, i + |MOUNTPOINT_KEY|, NotQuote) < |s| then
      var e := SpanEnd(s, i + |MOUNTPOINT_KEY|, NotQuote);
      assert forall k :: i + |MOUNTPOINT_KEY| <= k < e ==> NotQuote(s[k]);
      s[i + |MOUNTPOINT_KEY|..e]
    else MountPointFrom(s, i + 1)
  }

  /** The value a quoted key=value pair in lsblk's --pairs output gives for MOUNTPOINT. */
  lemma MountPointOfPair(p: string, rest: string)
    requires p != [] && '"' !in p
    ensures MountPointFrom(MOUNTPOINT_KEY + p + "\"" + rest, 0) == p
  {
    var s := MOUNTPOINT_KEY + p + "\"" + rest;
    var n := |MOUNTPOINT_KEY|;
    assert s[..n] == MOUNTPOINT_KEY;
    assert forall k :: n <= k < n + |p| ==> s[k] == p[k - n];
    assert s[n + |p|] == '"';
    SpanEndAt(s, n, n + |p|, NotQuote);
    assert s[n..n + |p|] == p;
  }

  /** getMountPoint: "/" for the root partition, otherwise what lsblk reports for the device. */
  function MountPointOf(partition: string, rootPartition: string, run: Runner): Probe
  {
    if IsRootPartition(partition, rootPartition) then Probe("/", [])
    else
      var c := LsblkMountCommand(DevicePath(partition));
      Probe(MountPointFrom(run(c).output, 0), [c])
  }

  // ------------------------------------------------------------------ openLuks

  /** What openLuks does: the mapper name it opens ("" on failure) and the commands it runs. */
  datatype LuksOpening = LuksOpening(device: string, cmds: seq<Command>)

  function OpenLuksPlan(partition: string, passphrase: Option<seq<byte>>, run: Runner): LuksOpening
  {
    var uuid := run(LuksUuidCommand(partition));
    if !uuid.ok || Trimmed(uuid.output) == "" then LuksOpening("", [LuksUuidCommand(partition)])
    else
      var device := "luks-" + Trimmed(uuid.output);
      if passphrase.None? || passphrase.value == [] then LuksOpening("", [LuksUuidCommand(partition)])
      else
        var open := LuksOpenCommand(partition, device, passphrase.value);
        LuksOpening(if run(open).ok then device else "", [LuksUuidCommand(partition), open])
  }

  /**
   * openLuks opens a container exactly when cryptsetup reports a non-empty UUID, a non-empty
   * passphrase is entered and luksOpen succeeds with it; the mapping is named after the UUID,
   * and the passphrase reaches cryptsetup only on standard input.
   */
  lemma OpenLuksMeaning(partition: string, passphrase: Option<seq<byte>>, run: Runner)
    ensures var r := OpenLuksPlan(partition, passphrase, run);
            var uuid := Trimmed(run(LuksUuidCommand(partition)).output);
            && (r.device != "" <==>
                  run(LuksUuidCommand(partition)).ok && uuid != "" && passphrase.Some? && passphrase.value != []
                  && run(LuksOpenCommand(partition, "luks-" + uuid, passphrase.value)).ok)
            && (r.device != "" ==> r.device == "luks-" + uuid && StartsWith(r.device, "luks-") && |r.device| > 5)
            && 1 <= |r.cmds| <= 2 && r.cmds[0] == LuksUuidCommand(partition)
            && (forall i :: 0 <= i < |r.cmds| && r.cmds[i].input != [] ==>
                  passphrase.Some? && r.cmds[i].input == passphrase.value && r.cmds[i].args[4] == "-")
  {
    OpenLuksDevice(partition, passphrase, run);
    OpenLuksCommands(partition, passphrase, run);
  }

  /** The mapper name openLuks returns, and when it returns one. */
  lemma OpenLuksDevice(partition: string, passphrase: Option<seq<byte>>, run: Runner)
    ensures var r := OpenLuksPlan(partition, passphrase, run);
            var uuid := Trimmed(run(LuksUuidCommand(partition)).output);
            && (r.device != "" <==>
                  run(LuksUuidCommand(partition)).ok && uuid != "" && passphrase.Some? && passphrase.value != []
                  && run(LuksOpenCommand(partition, "luks-" + uuid, passphrase.value)).ok)
            && (r.device != "" ==> r.device == "luks-" + uuid && StartsWith(r.device, "luks-") && |r.device| > 5)
  {
    var uuid := Trimmed(run(LuksUuidCommand(partition)).output);
    assert ("luks-" + uuid)[..5] == "luks-";
  }

  /** openLuks runs the UUID query, then at most luksOpen, which alone gets the passphrase. */
  lemma OpenLuksCommands(partition: string, passphrase: Option<seq<byte>>, run: Runner)
    ensures var r := OpenLuksPlan(partition, passphrase, run);
            && 1 <= |r.cmds| <= 2 && r.cmds[0] == LuksUuidCommand(partition)
            && (forall i :: 0 <= i < |r.cmds| && r.cmds[i].input != [] ==>
                  passphrase.Some? && r.cmds[i].input == passphrase.value && r.cmds[i].args[4] == "-")
  {
    assert LuksUuidCommand(partition).input == [];
  }

  // ---------------------------------------------------------------- mounting

  /** Creating (when missing) and mounting one directory: success, commands, recorded entries. */
  datatype Attach = Attach(ok: bool, cmds: seq<Command>, dirs: seq<string>, mounts: seq<string>)

  function AttachAt(source: string, dir: string, files: Files, run: Runner): Attach
  {
    if !files.dirExists(dir) then
      if !run(MkdirCommand(dir)).ok then Attach(false, [MkdirCommand(dir)], [], [])
      else if !run(MountCommand(source, dir)).ok then Attach(false, [MkdirCommand(dir), MountCommand(source, dir)], [dir], [])
      else Attach(true, [MkdirCommand(dir), MountCommand(source, dir)], [dir], [dir])
    else if !run(MountCommand(source, dir)).ok then Attach(false, [MountCommand(source, dir)], [], [])
    else Attach(true, [MountCommand(source, dir)], [], [dir])
  }

  /**
   * A directory is recorded exactly when it was missing and mkdir created it; a mount is
   * recorded exactly when the mount succeeded, and then it is the last command run.
   */
  lemma AttachMeaning(source: string, dir: string, files: Files, run: Runner)
    ensures var a := AttachAt(source, dir, files, run);
            && (a.dirs == (if !files.dirExists(dir) && run(MkdirCommand(dir)).ok then [dir] else []))
            && (a.mounts == (if a.ok then [dir] else []))
            && (a.ok <==> (files.dirExists(dir) || run(MkdirCommand(dir)).ok) && run(MountCommand(source, dir)).ok)
            && a.cmds != [] && (a.ok ==> a.cmds[|a.cmds| - 1] == MountCommand(source, dir))
  {
  }

  /** The result of mountPartition: the mount point ("" on failure), the commands, and what it recorded. */
  datatype Mounting = Mounting(mountDir: string, cmds: seq<Command>, dirs: seq<string>, mounts: seq<string>,
                               luks: seq<string>)

  /** The blkid token of a partition: a tag as given, or the UUID blkid reports for the device. */
  function TokenOf(part: string, run: Runner): Probe
  {
    if '=' in part then Probe(part, [])
    else Probe("UUID=" + Trimmed(run(BlkidUuidCommand(DevicePath(part))).output), [BlkidUuidCommand(DevicePath(part))])
  }

  /** The device blkid resolves the partition to, and the commands up to and including findmnt. */
  function ResolvedDevice(part: string, run: Runner): Probe
  {
    var token := TokenOf(part, run);
    Probe(run(BlkidDeviceCommand(token.value)).output,
          token.cmds + [BlkidDeviceCommand(token.value), FindmntCommand(run(BlkidDeviceCommand(token.value)).output)])
  }

  /** The bare device name, without /dev/. */
  function BareName(device: string): string
  {
    if StartsWith(device, "/dev/") then device[5..] else device
  }

  /** The mount under MOUNT_BASE of a device that is not an opened LUKS container. */
  function PlainMount(device: string, before: seq<Command>, luks: seq<string>, files: Files, run: Runner): Mounting
  {
    var dir := UnderBase(BareName(device));
    var a := AttachAt("/dev/" + BareName(device), dir, files, run);
    Mounting(if a.ok then dir else "", before + a.cmds, a.dirs, a.mounts, luks)
  }

  /** What mountPartition does after findmnt found no mount of a LUKS container. */
  function LuksMount(device: string, before: seq<Command>, passphrase: string -> Option<seq<byte>>,
                     files: Files, run: Runner): Mounting
  {
    var lo := OpenLuksPlan(device, passphrase(device), run);
    if lo.device == "" then PlainMount(device, before + lo.cmds, [], files, run)
    else
      var dir := UnderBase(lo.device);
      var a := AttachAt("/dev/mapper/" + lo.device, dir, files, run);
      Mounting(if a.ok then dir else "", before + lo.cmds + a.cmds, a.dirs, a.mounts, [lo.device])
  }

  /** What mountPartition does once the partition is not the root partition. */
  function MountResolved(device: string, probes: seq<Command>, rootPartition: string,
                         passphrase: string -> Option<seq<byte>>, files: Files, run: Runner): Mounting
  {
    var found := run(FindmntCommand(device)).output;
    if found != "" then Mounting(found, probes, [], [], [])
    else if !run(IsLuksCommand(device)).ok then PlainMount(device, probes + [IsLuksCommand(device)], [], files, run)
    else
      var mp := MountPointOf(device, rootPartition, run);
      if mp.value != "" then Mounting(mp.value, probes + [IsLuksCommand(device)] + mp.cmds, [], [], [])
      else LuksMount(device, probes + [IsLuksCommand(device)] + mp.cmds, passphrase, files, run)
  }

  function MountPlan(part: string, rootPartition: string, passphrase: string -> Option<seq<byte>>,
                     files: Files, run: Runner): Mounting
  {
    if IsRootPartition(part, rootPartition) then Mounting("/", [], [], [], [])
    else
      var dev := ResolvedDevice(part, run);
      MountResolved(dev.value, dev.cmds, rootPartition, passphrase, files, run)
  }

  /** What a call of mountPartition may record: at most one of each, all under MOUNT_BASE. */
  predicate Recorded(m: Mounting)
  {
    && |m.dirs| <= 1 && (forall i :: 0 <= i < |m.dirs| ==> IsUnderBase(m.dirs[i]))
    && |m.mounts| <= 1 && (m.mounts != [] ==> m.mounts == [m.mountDir] && IsUnderBase(m.mountDir))
    && (m.mounts != [] ==> m.cmds != [] && m.cmds[|m.cmds| - 1].program == "mount"
                           && |m.cmds[|m.cmds| - 1].args| == 2 && m.cmds[|m.cmds| - 1].args[1] == m.mountDir)
    && |m.luks| <= 1 && (forall i :: 0 <= i < |m.luks| ==> StartsWith(m.luks[i], "luks-"))
  }

  lemma PlainMountRecorded(device: string, before: seq<Command>, files: Files, run: Runner)
    ensures Recorded(PlainMount(device, before, [], files, run))
  {
    UnderBaseIsUnderBase(BareName(device));
    AttachMeaning("/dev/" + BareName(device), UnderBase(BareName(device)), files, run);
  }

  lemma LuksMountRecorded(device: string, before: seq<Command>, passphrase: string -> Option<seq<byte>>,
                          files: Files, run: Runner)
    ensures Recorded(LuksMount(device, before, passphrase, files, run))
  {
    var lo := OpenLuksPlan(device, passphrase(device), run);
    if lo.device == "" {
      PlainMountRecorded(device, before + lo.cmds, files, run);
    } else {
      OpenLuksMeaning(device, passphrase(device), run);
      UnderBaseIsUnderBase(lo.device);
      AttachMeaning("/dev/mapper/" + lo.device, UnderBase(lo.device), files, run);
    }
  }

  /**
   * mountPartition records at most one directory, at most one mount and at most one LUKS
   * mapping, the directories and mounts under MOUNT_BASE; a recorded mount is the returned
   * mount point and the last command run mounted it.
   */
  lemma MountPlanRecorded(part: string, rootPartition: string, passphrase: string -> Option<seq<byte>>,
                          files: Files, run: Runner)
    ensures Recorded(MountPlan(part, rootPartition, passphrase, files, run))
  {
    if !IsRootPartition(part, rootPartition) {
      var dev := ResolvedDevice(part, run);
      var device := dev.value;
      if run(FindmntCommand(device)).output == "" {
        if !run(IsLuksCommand(device)).ok {
          PlainMountRecorded(device, dev.cmds + [IsLuksCommand(device)], files, run);
        } else {
          var mp := MountPointOf(device, rootPartition, run);
          if mp.value == "" {
            LuksMountRecorded(device, dev.cmds + [IsLuksCommand(device)] + mp.cmds, passphrase, files, run);
          }
        }
      }
    }
  }

  /** The root partition, by name or by /dev/ path, is "/" with nothing run and nothing recorded. */
  lemma MountRootPartition(part: string, rootPartition: string, passphrase: string -> Option<seq<byte>>,
                           files: Files, run: Runner)
    requires part == rootPartition || part == "/dev/" + rootPartition
    ensures MountPlan(part, rootPartition, passphrase, files, run) == Mounting("/", [], [], [], [])
  {
    if part != rootPartition {
      assert ("/dev/" + rootPartition)[..5] == "/dev/";
    }
  }

  /** A mount point findmnt reports is returned as it is, with nothing recorded. */
  lemma MountFoundByFindmnt(part: string, rootPartition: string, passphrase: string -> Option<seq<byte>>,
                            files: Files, run: Runner)
    requires !IsRootPartition(part, rootPartition)
    requires run(FindmntCommand(ResolvedDevice(part, run).value)).output != ""
    ensures var m := MountPlan(part, rootPartition, passphrase, files, run);
            && m.mountDir == run(FindmntCommand(ResolvedDevice(part, run).value)).output
            && m.dirs == [] && m.mounts == [] && m.luks == []
  {
  }

  // ---------------------------------------------------------------- fstab

  /** `\s+/boot\s+` matches at index k. */
  predicate BootFieldAt(s: string, k: nat)
    requires k <= |s|
  {
    var e := SpanEnd(s, k, IsRegexSpace);
    e > k && OccursAt(s, "/boot", e) && e + 5 < |s| && IsRegexSpace(s[e + 5])
  }

  /**
   * The lazy `(.+?)` of `^(.+?)\s+(/boot)\s+.*$`: the shortest group of at least one
   * character, none of them a newline, after which the rest matches. Its length, if any.
   */
  function LazyBootField(s: string, k: nat): (r: Option<nat>)
    requires 1 <= k
    ensures r.Some? ==> k <= r.value <= |s| && BootFieldAt(s, r.value)
    decreases |s| - k
  {
    if k > |s| || s[k - 1] == '\n' then None
    else if BootFieldAt(s, k) then Some(k)
    else LazyBootField(s, k + 1)
  }

  /** The lazy group cannot stop at length j: no newline so far and the rest fails there. */
  predicate PassesOver(s: string, j: nat)
    requires 1 <= j <= |s|
  {
    s[j - 1] != '\n' && !BootFieldAt(s, j)
  }

  /** The lazy group does not stop before t when no earlier length lets the rest match. */
  lemma {:induction false} LazySkip(s: string, k: nat, t: nat)
    requires 1 <= k <= t <= |s|
    requires forall j :: k <= j < t ==> PassesOver(s, j)
    ensures LazyBootField(s, k) == LazyBootField(s, t)
    decreases t - k
  {
    if k < t {
      LazyStep(s, k);
      LazySkip(s, k + 1, t);
      assert LazyBootField(s, k) == LazyBootField(s, k + 1) == LazyBootField(s, t);
    }
  }

  /** One length the lazy group passes over. */
  lemma LazyStep(s: string, k: nat)
    requires 1 <= k <= |s| && PassesOver(s, k)
    ensures LazyBootField(s, k) == LazyBootField(s, k + 1)
  {
  }

  /** The source device of a fstab line that mounts /boot, with `\040` read as a space. */
  function BootSourceOf(line: string): Option<string>
  {
    match LazyBootField(line, 1)
    case None => None
    case Some(k) => Some(Replace(Trimmed(line[..k]), "\\040", " "))
  }

  /** A line `<source> /boot <rest>` whose source has no white space mounts /boot from that source. */
  lemma BootLineSource(src: string, rest: string)
    requires src != [] && forall i :: 0 <= i < |src| ==> !IsRegexSpace(src[i])
    ensures BootSourceOf(src + " /boot " + rest) == Some(Replace(Trimmed(src), "\\040", " "))
  {
    var s := src + " /boot " + rest;
    var n := |src|;
    BootLineLayout(s, src, rest, n);
    forall j | 1 <= j < n
      ensures PassesOver(s, j)
    {
      SpanEndAt(s, j, j, IsRegexSpace);
    }
    LazySkip(s, 1, n);
    BootFieldAfterSource(s, n);
  }

  /** Where the source, the /boot field and the separators sit in `<source> /boot <rest>`. */
  lemma BootLineLayout(s: string, src: string, rest: string, n: nat)
    requires s == src + " /boot " + rest && n == |src|
    ensures n + 7 <= |s| && s[..n] == src && forall i :: 0 <= i < n ==> s[i] == src[i]
    ensures s[n] == ' ' && s[n + 1] == '/' && s[n + 1..n + 6] == "/boot" && s[n + 6] == ' '
  {
  }

  /** ` /boot ` at index n is the `\s+/boot\s+` of the pattern. */
  lemma BootFieldAfterSource(s: string, n: nat)
    requires n + 7 <= |s| && s[n] == ' ' && s[n + 1] == '/' && s[n + 1..n + 6] == "/boot" && s[n + 6] == ' '
    ensures BootFieldAt(s, n)
  {
    SpanEndAt(s, n, n + 1, IsRegexSpace);
  }

  /** Where no white space follows, `\s+/boot\s+` cannot match. */
  lemma NoFieldAtNonSpace(s: string, j: nat)
    requires j < |s| && !IsRegexSpace(s[j])
    ensures !BootFieldAt(s, j)
  {
    SpanEndAt(s, j, j, IsRegexSpace);
  }

  /** `/boot` followed by more than white space is not the /boot mount point. */
  lemma NoFieldBeforeLongerPath(s: string, j: nat)
    requires j + 7 <= |s| && IsRegexSpace(s[j]) && !IsRegexSpace(s[j + 1]) && !IsRegexSpace(s[j + 6])
    ensures !BootFieldAt(s, j)
  {
    SpanEndAt(s, j, j + 1, IsRegexSpace);
  }

  /** A line mounting /boot/efi is not the /boot line. */
  lemma EfiLineIsNotBoot()
    ensures BootSourceOf("/dev/sda1 /boot/efi vfat") == None
  {
    var s := "/dev/sda1 /boot/efi vfat";
    forall j | 1 <= j < |s|
      ensures PassesOver(s, j)
    {
      if j == 9 {
        NoFieldBeforeLongerPath(s, 9);
      } else if j == 19 {
        SpanEndAt(s, 19, 20, IsRegexSpace);
        assert !OccursAt(s, "/boot", 20);
      } else {
        NoFieldAtNonSpace(s, j);
      }
    }
    LazySkip(s, 1, |s|);
  }

  /** A fstab line the lookup reads (after trimming): not empty and not a comment. */
  predicate IsFstabEntry(line: string)
  {
    line != "" && !StartsWith(line, "#")
  }

  /** A raw fstab line that, trimmed, is an entry mounting /boot. */
  predicate MountsBoot(raw: string)
  {
    IsFstabEntry(Trimmed(raw)) && LazyBootField(Trimmed(raw), 1).Some?
  }

  /** The source of the first entry line of fstab that mounts /boot, "" when there is none. */
  function BootSource(lines: seq<string>): string
  {
    if lines == [] then ""
    else if MountsBoot(lines[0]) then BootSourceOf(Trimmed(lines[0])).value
    else BootSource(lines[1..])
  }

  /** BootSource takes its answer from the first entry line that mounts /boot. */
  lemma {:induction false} BootSourceFirst(lines: seq<string>, i: nat)
    requires i < |lines| && MountsBoot(lines[i])
    requires forall j :: 0 <= j < i ==> !MountsBoot(lines[j])
    ensures BootSource(lines) == BootSourceOf(Trimmed(lines[i])).value
  {
    if i > 0 {
      BootSourceSkip(lines, i);
      BootSourceFirst(lines[1..], i - 1);
      assert BootSource(lines) == BootSource(lines[1..]) == BootSourceOf(Trimmed(lines[1..][i - 1])).value;
    }
  }

  /** A first line that does not mount /boot is passed over. */
  lemma BootSourceSkip(lines: seq<string>, i: nat)
    requires 0 < i < |lines| && MountsBoot(lines[i])
    requires forall j :: 0 <= j < i ==> !MountsBoot(lines[j])
    ensures BootSource(lines) == BootSource(lines[1..])
    ensures lines[1..][i - 1] == lines[i] && MountsBoot(lines[1..][i - 1])
    ensures forall j :: 0 <= j < i - 1 ==> !MountsBoot(lines[1..][j])
  {
    assert !MountsBoot(lines[0]);
    NoBootLineAfterFirst(lines, i);
  }

  /** Lines before i that do not mount /boot are still such lines once the first is dropped. */
  lemma NoBootLineAfterFirst(lines: seq<string>, i: nat)
    requires 0 < i <= |lines|
    requires forall j :: 0 <= j < i ==> !MountsBoot(lines[j])
    ensures forall j :: 0 <= j < i - 1 ==> !MountsBoot(lines[1..][j])
  {
    var rest := lines[1..];
    forall j | 0 <= j < i - 1
      ensures !MountsBoot(rest[j])
    {
      assert rest[j] == lines[j + 1];
    }
  }

  /** With no entry line mounting /boot, there is no source. */
  lemma {:induction false} BootSourceNone(lines: seq<string>)
    requires forall j :: 0 <= j < |lines| ==> !MountsBoot(lines[j])
    ensures BootSource(lines) == ""
  {
    if lines != [] {
      var rest := lines[1..];
      assert forall j :: 0 <= j < |rest| ==> rest[j] == lines[j + 1];
      BootSourceNone(rest);
    }
  }

  /** The lookup loop of getBootLocation: stop at the first entry line that mounts /boot. */
  method FindBootSource(lines: seq<string>) returns (bootPartition: string)
    ensures bootPartition == BootSource(lines)
  {
    bootPartition := "";
    var i := 0;
    while i < |lines|
      invariant 0 <= i <= |lines|
      invariant BootSource(lines[i..]) == BootSource(lines)
    {
      var line := Trimmed(lines[i]);
      assert lines[i..][1..] == lines[i + 1..];
      if line == "" || StartsWith(line, "#") {
        i := i + 1;
        continue;
      }
      var found := BootSourceOf(line);
      if found.Some? {
        bootPartition := found.value;
        break;
      }
      i := i + 1;
    }
  }

  /** Where getBootLocation(mountPoint) ends up, with the mounting it does on the way. */
  datatype BootLocation = BootLocation(location: string, mounting: Mounting)

  const NOTHING_MOUNTED := Mounting("", [], [], [], [])

  function BootLocationPlan(mountPoint: string, rootPartition: string, readFile: string -> Option<string>,
                            passphrase: string -> Option<seq<byte>>, files: Files, run: Runner): BootLocation
  {
    var fstab := readFile(mountPoint + "/etc/fstab");
    if fstab.None? then BootLocation(mountPoint, NOTHING_MOUNTED)
    else
      var source := BootSource(Split(fstab.value, '\n'));
      if source == "" then
        BootLocation(if files.dirExists(mountPoint + "/boot") then mountPoint + "/boot" else mountPoint, NOTHING_MOUNTED)
      else
        var m := MountPlan(source, rootPartition, passphrase, files, run);
        BootLocation(if m.mountDir == "" then mountPoint else m.mountDir, m)
  }

  /**
   * The boot directory is the mount point of fstab's /boot source; failing that the mounted
   * system's own /boot when it exists, and its root otherwise, also when mounting fails.
   */
  lemma BootLocationMeaning(mountPoint: string, rootPartition: string, readFile: string -> Option<string>,
                            passphrase: string -> Option<seq<byte>>, files: Files, run: Runner)
    ensures var b := BootLocationPlan(mountPoint, rootPartition, readFile, passphrase, files, run);
            var fstab := readFile(mountPoint + "/etc/fstab");
            var source := if fstab.None? then "" else BootSource(Split(fstab.value, '\n'));
            && (fstab.None? ==> b == BootLocation(mountPoint, NOTHING_MOUNTED))
            && (fstab.Some? && source == "" ==>
                  && b.mounting == NOTHING_MOUNTED
                  && (b.location == mountPoint + "/boot" <==> files.dirExists(mountPoint + "/boot"))
                  && (b.location == mountPoint || b.location == mountPoint + "/boot"))
            && (source != "" ==> b.mounting == MountPlan(source, rootPartition, passphrase, files, run)
                                 && b.location == (if b.mounting.mountDir == "" then mountPoint else b.mounting.mountDir))
    ensures mountPoint != "" ==> BootLocationPlan(mountPoint, rootPartition, readFile, passphrase, files, run).location != ""
  {
    assert |mountPoint + "/boot"| == |mountPoint| + 5;
  }

  // ----------------------------------------------------------------- cleanup

  /** The three manifests of what a session created. */
  datatype Manifest = Manifest(mounts: seq<string>, dirs: seq<string>, luks: seq<string>)

  /** The arguments the destructor gives the cleanup helper: a group per non-empty manifest. */
  function CleanupArgsOf(m: Manifest): seq<string>
  {
    ["cleanup_temp"] + OptionalGroup("--mounts", m.mounts) + OptionalGroup("--dirs", m.dirs)
    + OptionalGroup("--luks", m.luks)
  }

  predicate IsGroupFlag(arg: string)
  {
    arg == "--mounts" || arg == "--dirs" || arg == "--luks"
  }

  datatype Group = NoGroup | MountsGroup | DirsGroup | LuksGroup

  function AddTo(acc: Manifest, g: Group, items: seq<string>): Manifest
  {
    match g
    case NoGroup => acc
    case MountsGroup => acc.(mounts := acc.mounts + items)
    case DirsGroup => acc.(dirs := acc.dirs + items)
    case LuksGroup => acc.(luks := acc.luks + items)
  }

  /** Reading the arguments after cleanup_temp: a flag opens its group, other words join the open one. */
  function ParseGroups(args: seq<string>, g: Group, acc: Manifest): Manifest
  {
    if args == [] then acc
    else if args[0] == "--mounts" then ParseGroups(args[1..], MountsGroup, acc)
    else if args[0] == "--dirs" then ParseGroups(args[1..], DirsGroup, acc)
    else if args[0] == "--luks" then ParseGroups(args[1..], LuksGroup, acc)
    else ParseGroups(args[1..], g, AddTo(acc, g, [args[0]]))
  }

  /** How the helper reads its arguments back into manifests. */
  function ParseCleanupArgs(args: seq<string>): Option<Manifest>
  {
    if args != [] && args[0] == "cleanup_temp" then Some(ParseGroups(args[1..], NoGroup, Manifest([], [], [])))
    else None
  }

  lemma {:induction false} ParseItems(items: seq<string>, rest: seq<string>, g: Group, acc: Manifest)
    requires forall i :: 0 <= i < |items| ==> !IsGroupFlag(items[i])
    ensures ParseGroups(items + rest, g, acc) == ParseGroups(rest, g, AddTo(acc, g, items))
    decreases |items|
  {
    if items == [] {
      assert items + rest == rest;
      match g
      case NoGroup =>
      case MountsGroup => assert acc.mounts + [] == acc.mounts;
      case DirsGroup => assert acc.dirs + [] == acc.dirs;
      case LuksGroup => assert acc.luks + [] == acc.luks;
    } else {
      assert (items + rest)[0] == items[0];
      assert (items + rest)[1..] == items[1..] + rest;
      ParseItems(items[1..], rest, g, AddTo(acc, g, [items[0]]));
      match g
      case NoGroup =>
      case MountsGroup => assert acc.mounts + [items[0]] + items[1..] == acc.mounts + items;
      case DirsGroup => assert acc.dirs + [items[0]] + items[1..] == acc.dirs + items;
      case LuksGroup => assert acc.luks + [items[0]] + items[1..] == acc.luks + items;
    }
  }

  /** One group flag followed by its items, then the rest. */
  lemma ParseGroup(flag: string, g: Group, items: seq<string>, rest: seq<string>, h: Group, acc: Manifest)
    requires forall i :: 0 <= i < |items| ==> !IsGroupFlag(items[i])
    requires (flag == "--mounts" && g == MountsGroup) || (flag == "--dirs" && g == DirsGroup)
             || (flag == "--luks" && g == LuksGroup)
    ensures ParseGroups([flag] + items + rest, h, acc) == ParseGroups(rest, g, AddTo(acc, g, items))
  {
    assert ([flag] + items + rest)[1..] == items + rest;
    ParseItems(items, rest, g, acc);
  }

  predicate NoFlags(items: seq<string>)
  {
    forall i :: 0 <= i < |items| ==> !IsGroupFlag(items[i])
  }

  /** A group flag and its items, left out when there are none. */
  function OptionalGroup(flag: string, items: seq<string>): seq<string>
  {
    if items == [] then [] else [flag] + items
  }

  lemma AddNothing(acc: Manifest, g: Group)
    ensures AddTo(acc, g, []) == acc
  {
    match g
    case NoGroup =>
    case MountsGroup => assert acc.mounts + [] == acc.mounts;
    case DirsGroup => assert acc.dirs + [] == acc.dirs;
    case LuksGroup => assert acc.luks + [] == acc.luks;
  }

  lemma ParseOptionalGroup(flag: string, g: Group, items: seq<string>, rest: seq<string>, h: Group, acc: Manifest)
    requires NoFlags(items)
    requires (flag == "--mounts" && g == MountsGroup) || (flag == "--dirs" && g == DirsGroup)
             || (flag == "--luks" && g == LuksGroup)
    ensures ParseGroups(OptionalGroup(flag, items) + rest, h, acc)
            == ParseGroups(rest, if items == [] then h else g, AddTo(acc, g, items))
  {
    if items == [] {
      assert OptionalGroup(flag, items) + rest == rest;
      AddNothing(acc, g);
    } else {
      ParseGroup(flag, g, items, rest, h, acc);
    }
  }

  /** The helper reads back exactly the manifests, when no recorded entry looks like a flag. */
  lemma CleanupArgsRoundTrip(m: Manifest)
    requires NoFlags(m.mounts) && NoFlags(m.dirs) && NoFlags(m.luks)
    ensures ParseCleanupArgs(CleanupArgsOf(m)) == Some(m)
  {
    CleanupArgsShape(m);
    GroupsRoundTrip(m);
  }

  lemma CleanupArgsShape(m: Manifest)
    ensures CleanupArgsOf(m) != [] && CleanupArgsOf(m)[0] == "cleanup_temp"
    ensures CleanupArgsOf(m)[1..] == OptionalGroup("--mounts", m.mounts)
              + (OptionalGroup("--dirs", m.dirs) + (OptionalGroup("--luks", m.luks) + []))
  {
  }

  /** The three optional groups read back, one after the other. */
  lemma GroupsRoundTrip(m: Manifest)
    requires NoFlags(m.mounts) && NoFlags(m.dirs) && NoFlags(m.luks)
    ensures ParseGroups(OptionalGroup("--mounts", m.mounts)
              + (OptionalGroup("--dirs", m.dirs) + (OptionalGroup("--luks", m.luks) + [])),
              NoGroup, Manifest([], [], [])) == m
  {
    var gd := OptionalGroup("--dirs", m.dirs);
    var gl := OptionalGroup("--luks", m.luks);
    var g1 := if m.mounts == [] then NoGroup else MountsGroup;
    var g2 := if m.dirs == [] then g1 else DirsGroup;
    ParseOptionalGroup("--mounts", MountsGroup, m.mounts, gd + (gl + []), NoGroup, Manifest([], [], []));
    assert AddTo(Manifest([], [], []), MountsGroup, m.mounts) == Manifest(m.mounts, [], []);
    ParseOptionalGroup("--dirs", DirsGroup, m.dirs, gl + [], g1, Manifest(m.mounts, [], []));
    assert AddTo(Manifest(m.mounts, [], []), DirsGroup, m.dirs) == Manifest(m.mounts, m.dirs, []);
    ParseOptionalGroup("--luks", LuksGroup, m.luks, [], g2, Manifest(m.mounts, m.dirs, []));
    assert AddTo(Manifest(m.mounts, m.dirs, []), LuksGroup, m.luks) == m;
  }

  /** An entry under MOUNT_BASE or a LUKS mapping name is never a group flag. */
  lemma RecordedNoFlag(s: string)
    requires IsUnderBase(s) || StartsWith(s, "luks-")
    ensures !IsGroupFlag(s)
  {
    if IsUnderBase(s) {
      assert s[0] == '/';
    } else {
      assert s[0] == 'l';
    }
  }

  // ------------------------------------------------------------- the session

  /** The blkid steps of mountPartition, up to asking findmnt where the device is mounted. */
  method ResolveDevice(part: string, run: Runner) returns (device: string, cmds: seq<Command>)
    ensures Probe(device, cmds) == ResolvedDevice(part, run)
  {
    device := part;
    cmds := [];
    if '=' !in device {
      device := DevicePath(device);
      var uuid := run(BlkidUuidCommand(device)).output;
      cmds := [BlkidUuidCommand(device)];
      device := "UUID=" + Trimmed(uuid);
    }
    cmds := cmds + [BlkidDeviceCommand(device)];
    device := run(BlkidDeviceCommand(device)).output;
    cmds := cmds + [FindmntCommand(device)];
  }

  /** The resolver state of a main window: the root partition and the three manifests. */
  class Session {
    const rootPartition: string
    var newMounts: seq<string>
    var newDirectories: seq<string>
    var newLuksDevices: seq<string>

    constructor (rootPartition: string)
      ensures this.rootPartition == rootPartition
      ensures newMounts == [] && newDirectories == [] && newLuksDevices == []
    {
      this.rootPartition := rootPartition;
      newMounts, newDirectories, newLuksDevices := [], [], [];
    }

    /** Directories and mounts lie under MOUNT_BASE; mappings are named luks-... */
    predicate Valid()
      reads this
    {
      && (forall i :: 0 <= i < |newMounts| ==> IsUnderBase(newMounts[i]))
      && (forall i :: 0 <= i < |newDirectories| ==> IsUnderBase(newDirectories[i]))
      && (forall i :: 0 <= i < |newLuksDevices| ==> StartsWith(newLuksDevices[i], "luks-"))
    }

    function Manifests(): Manifest
      reads this
    {
      Manifest(newMounts, newDirectories, newLuksDevices)
    }

    /** The destructor's cleanup arguments. */
    function CleanupArgs(): (args: seq<string>)
      reads this
      requires Valid()
      ensures ParseCleanupArgs(args) == Some(Manifests())
    {
      forall i | 0 <= i < |newMounts| ensures !IsGroupFlag(newMounts[i]) {
        RecordedNoFlag(newMounts[i]);
      }
      forall i | 0 <= i < |newDirectories| ensures !IsGroupFlag(newDirectories[i]) {
        RecordedNoFlag(newDirectories[i]);
      }
      forall i | 0 <= i < |newLuksDevices| ensures !IsGroupFlag(newLuksDevices[i]) {
        RecordedNoFlag(newLuksDevices[i]);
      }
      CleanupArgsRoundTrip(Manifests());
      CleanupArgsOf(Manifests())
    }

    /** The destructor: the cleanup helper with the manifests, then the helper copying the log. */
    method Teardown(run: Runner) returns (cmds: seq<Command>, cleaned: bool)
      requires Valid()
      ensures cmds == [Command(LIB_HELPER, CleanupArgs(), [], true), Command(LIB_HELPER, ["copy_log"], [], true)]
      ensures cleaned == run(cmds[0]).ok
      ensures ParseCleanupArgs(cmds[0].args) == Some(Manifests())
    {
      var cleanup := Command(LIB_HELPER, CleanupArgs(), [], true);
      cleaned := run(cleanup).ok;
      cmds := [cleanup, Command(LIB_HELPER, ["copy_log"], [], true)];
    }

    /**
     * openLuks: unlock the container with the passphrase entered for it and record the
     * mapping when luksOpen succeeds; the passphrase buffer is overwritten afterwards.
     */
    method OpenLuks(partition: string, passphrase: Option<seq<byte>>, run: Runner)
      returns (device: string, cmds: seq<Command>, pass: array<byte>)
      modifies this
      ensures LuksOpening(device, cmds) == OpenLuksPlan(partition, passphrase, run)
      ensures newLuksDevices == old(newLuksDevices) + (if device == "" then [] else [device])
      ensures newMounts == old(newMounts) && newDirectories == old(newDirectories)
      ensures fresh(pass) && forall i :: 0 <= i < pass.Length ==> pass[i] == SCRUB_BYTE
    {
      pass := new byte[0];
      cmds := [LuksUuidCommand(partition)];
      var uuid := run(LuksUuidCommand(partition));
      if !uuid.ok || Trimmed(uuid.output) == "" {
        device := "";
        return;
      }
      var luksDevice := "luks-" + Trimmed(uuid.output);
      if passphrase.None? || passphrase.value == [] {
        device := "";
        return;
      }
      var bytes := passphrase.value;
      pass := NewBuffer(bytes);
      var open := LuksOpenCommand(partition, luksDevice, pass[..]);
      cmds := cmds + [open];
      var unlocked := run(open).ok;
      Fill(pass, SCRUB_BYTE);
      if !unlocked {
        device := "";
        return;
      }
      device := luksDevice;
      newLuksDevices := newLuksDevices + [device];
    }

    /** Create the directory when missing, then mount; record each step that succeeded. */
    method AttachDir(source: string, dir: string, files: Files, run: Runner) returns (ok: bool, cmds: seq<Command>)
      modifies this
      ensures var a := AttachAt(source, dir, files, run);
              && ok == a.ok && cmds == a.cmds
              && newDirectories == old(newDirectories) + a.dirs && newMounts == old(newMounts) + a.mounts
              && newLuksDevices == old(newLuksDevices)
    {
      cmds := [];
      if !files.dirExists(dir) {
        cmds := [MkdirCommand(dir)];
        if !run(MkdirCommand(dir)).ok {
          return false, cmds;
        }
        newDirectories := newDirectories + [dir];
      }
      cmds := cmds + [MountCommand(source, dir)];
      if !run(MountCommand(source, dir)).ok {
        return false, cmds;
      }
      newMounts := newMounts + [dir];
      ok := true;
    }

    /** The steps of mountPartition after blkid and findmnt, for a device findmnt has no mount for. */
    method MountUnmounted(device: string, probes: seq<Command>, passphrase: string -> Option<seq<byte>>,
                          files: Files, run: Runner) returns (mountDir: string, cmds: seq<Command>)
      requires run(FindmntCommand(device)).output == ""
      modifies this
      ensures var m := MountResolved(device, probes, rootPartition, passphrase, files, run);
              && mountDir == m.mountDir && cmds == m.cmds
              && newDirectories == old(newDirectories) + m.dirs && newMounts == old(newMounts) + m.mounts
              && newLuksDevices == old(newLuksDevices) + m.luks
    {
      cmds := probes + [IsLuksCommand(device)];
      if run(IsLuksCommand(device)).ok {
        var mp := MountPointOf(device, rootPartition, run);
        cmds := cmds + mp.cmds;
        if mp.value != "" {
          return mp.value, cmds;
        }
        var luksDevice, luksCmds, pass := OpenLuks(device, passphrase(device), run);
        cmds := cmds + luksCmds;
        if luksDevice != "" {
          var dir := UnderBase(luksDevice);
          var ok, attachCmds := AttachDir("/dev/mapper/" + luksDevice, dir, files, run);
          cmds := cmds + attachCmds;
          mountDir := if ok then dir else "";
          return;
        }
      }
      var bare := if StartsWith(device, "/dev/") then device[5..] else device;
      var dir := UnderBase(bare);
      var ok, attachCmds := AttachDir("/dev/" + bare, dir, files, run);
      cmds := cmds + attachCmds;
      mountDir := if ok then dir else "";
    }

    /**
     * mountPartition: resolve the partition to a device with blkid, return an existing
     * mount point, otherwise unlock it when it is a LUKS container and mount it under
     * MOUNT_BASE, recording what it created.
     */
    method MountPartition(part: string, passphrase: string -> Option<seq<byte>>, files: Files, run: Runner)
      returns (mountDir: string, cmds: seq<Command>)
      requires Valid()
      modifies this
      ensures var m := MountPlan(part, rootPartition, passphrase, files, run);
              && mountDir == m.mountDir && cmds == m.cmds
              && newDirectories == old(newDirectories) + m.dirs && newMounts == old(newMounts) + m.mounts
              && newLuksDevices == old(newLuksDevices) + m.luks
      ensures Valid()
    {
      MountPlanRecorded(part, rootPartition, passphrase, files, run);
      if part == rootPartition || (StartsWith(part, "/dev/") && part == "/dev/" + rootPartition) {
        return "/", [];
      }
      var device;
      device, cmds := ResolveDevice(part, run);
      var found := run(FindmntCommand(device)).output;
      if found != "" {
        return found, cmds;
      }
      mountDir, cmds := MountUnmounted(device, cmds, passphrase, files, run);
    }

    /**
     * getBootLocation(mountPoint): the boot directory of the system mounted at mountPoint,
     * mounting fstab's /boot source when it has one.
     */
    method GetBootLocation(mountPoint: string, readFile: string -> Option<string>,
                           passphrase: string -> Option<seq<byte>>, files: Files, run: Runner)
      returns (location: string, cmds: seq<Command>)
      requires Valid()
      modifies this
      ensures var b := BootLocationPlan(mountPoint, rootPartition, readFile, passphrase, files, run);
              && location == b.location && cmds == b.mounting.cmds
              && newDirectories == old(newDirectories) + b.mounting.dirs
              && newMounts == old(newMounts) + b.mounting.mounts
              && newLuksDevices == old(newLuksDevices) + b.mounting.luks
      ensures Valid()
    {
      var fstab := readFile(mountPoint + "/etc/fstab");
      if fstab.None? {
        return mountPoint, [];
      }
      var bootPartition := FindBootSource(Split(fstab.value, '\n'));
      if bootPartition == "" {
        cmds := [];
        if files.dirExists(mountPoint + "/boot") {
          location := mountPoint + "/boot";
        } else {
          location := mountPoint;
        }
        return;
      }
      var bootMountPoint;
      bootMountPoint, cmds := MountPartition(bootPartition, passphrase, files, run);
      if bootMountPoint == "" {
        return mountPoint, cmds;
      }
      location := bootMountPoint;
    }
  }
}
