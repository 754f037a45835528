/**
 * The older revision of the main window (the top-level mainwindow.cpp): it mounts under
 * /mnt/, finds mount points through shell pipelines, reads fstab by splitting lines into
 * fields, and tears down what it mounted itself when the window closes.
 */
module Legacy {
  import opened Wrappers
  import opened QtText
  import opened Host
  import Resolver
  import StubInstaller

  function UmountCommand(dir: string): Command
  {
    ProcAsRoot("umount", [dir])
  }

  function RmdirCommand(dir: string): Command
  {
    ProcAsRoot("rmdir", [dir])
  }

  function MkdirCommand(dir: string): Command
  {
    ProcAsRoot("mkdir", [dir])
  }

  function MountCommand(source: string, dir: string): Command
  {
    ProcAsRoot("mount", [source, dir])
  }

  predicate NotRegexSpace(c: char)
  {
    !IsRegexSpace(c)
  }

  // -------------------------------------------------------------- mounting

  /** What mountPartition does: the mount point ("" on failure), the commands, what it recorded. */
  datatype Mounting = Mounting(mountDir: string, cmds: seq<Command>, dirs: seq<string>, mounts: seq<string>)

  function GrepCommand(part: string): Command
  {
    Shell("lsblk -o NAME,MOUNTPOINT | grep -w " + part)
  }

  function MapperMountCommand(part: string): Command
  {
    Shell("lsblk -o NAME,MOUNTPOINT | grep -A1 -w " + part + " | awk '{print $2}'")
  }

  function FindmntCommand(part: string): Command
  {
    Shell("findmnt -nf --source /dev/" + Section(part, " ", 0))
  }

  /** The device name without /dev/. */
  function BareName(part: string): string
  {
    if StartsWith(part, "/dev/") then part[5..] else part
  }

  /** What the LUKS branch does: an existing mount of the mapping, else the mapper name openLuks opens. */
  function LuksBranch(bare: string, passphrase: string -> Option<seq<byte>>, run: Runner): Mounting
  {
    var probe := [Resolver.IsLuksCommand("/dev/" + bare), GrepCommand(bare)];
    if run(GrepCommand(bare)).ok then
      Mounting(Trimmed(run(MapperMountCommand(bare)).output), probe + [MapperMountCommand(bare)], [], [])
    else
      var lo := Resolver.OpenLuksPlan("/dev/" + bare, passphrase("/dev/" + bare), run);
      Mounting(lo.device, probe + lo.cmds, [], [])
  }

  /** The mount under /mnt/ of a device findmnt knows no mount of. */
  function PlainBranch(bare: string, probes: seq<Command>, files: Files, run: Runner): Mounting
  {
    var dir := "/mnt/" + bare;
    if !files.dirExists(dir) then
      if !run(MkdirCommand(dir)).ok then Mounting("", probes + [MkdirCommand(dir)], [], [])
      else if !run(MountCommand("/dev/" + bare, dir)).ok then
        Mounting("", probes + [MkdirCommand(dir), MountCommand("/dev/" + bare, dir)], [dir], [])
      else Mounting(dir, probes + [MkdirCommand(dir), MountCommand("/dev/" + bare, dir)], [dir], [dir])
    else if !run(MountCommand("/dev/" + bare, dir)).ok then Mounting("", probes + [MountCommand("/dev/" + bare, dir)], [], [])
    else Mounting(dir, probes + [MountCommand("/dev/" + bare, dir)], [], [dir])
  }

  function MountPlan(part: string, passphrase: string -> Option<seq<byte>>, files: Files, run: Runner): Mounting
  {
    var bare := BareName(part);
    if run(Resolver.IsLuksCommand("/dev/" + bare)).ok then LuksBranch(bare, passphrase, run)
    else
      var found := Section(run(FindmntCommand(bare)).output, " ", 0);
      var probes := [Resolver.IsLuksCommand("/dev/" + bare), FindmntCommand(bare)];
      if found != "" then Mounting(found, probes, [], [])
      else PlainBranch(bare, probes, files, run)
  }

  /**
   * mountPartition records a directory only when it created a missing /mnt/<device>, and a
   * mount only when it mounted the device there, returning that directory; a LUKS
   * container or a device findmnt already knows records nothing.
   */
  lemma MountPlanMeaning(part: string, passphrase: string -> Option<seq<byte>>, files: Files, run: Runner)
    ensures var m := MountPlan(part, passphrase, files, run);
            var dir := "/mnt/" + BareName(part);
            && (m.dirs == [] || (m.dirs == [dir] && !files.dirExists(dir) && run(MkdirCommand(dir)).ok))
            && (m.mounts == [] || (m.mounts == [dir] && m.mountDir == dir
                                   && m.cmds[|m.cmds| - 1] == MountCommand("/dev/" + BareName(part), dir)
                                   && run(MountCommand("/dev/" + BareName(part), dir)).ok))
            && (run(Resolver.IsLuksCommand("/dev/" + BareName(part))).ok ==> m.dirs == [] && m.mounts == [])
            && (m.mountDir == "" ==> m.mounts == [])
  {
  }

  /** The root of a /dev/ path is the device name lsblk and findmnt take. */
  lemma DevPrefixStripped(name: string)
    ensures BareName("/dev/" + name) == name
  {
    assert ("/dev/" + name)[..5] == "/dev/";
    assert ("/dev/" + name)[5..] == name;
  }

  // ------------------------------------------------------------------ fstab

  /** The first two fields of a line split on `\s+`, when it has at least two. */
  function FirstTwoFields(line: string): Option<(string, string)>
  {
    var p := SpanEnd(line, 0, NotRegexSpace);
    if p == |line| then None
    else
      var e := SpanEnd(line, p, IsRegexSpace);
      var q := SpanEnd(line, e, NotRegexSpace);
      Some((line[..p], line[e..q]))
  }

  /** The source of a line whose second field is exactly /boot. */
  function BootFieldOf(line: string): Option<string>
  {
    match FirstTwoFields(line)
    case None => None
    case Some(fields) => if fields.1 == "/boot" then Some(fields.0) else None
  }

  /** A line `<source> /boot <rest>`, fields separated by single spaces, gives the source. */
  lemma BootFieldOfLine(src: string, rest: string)
    requires src != [] && forall i :: 0 <= i < |src| ==> !IsRegexSpace(src[i])
    ensures BootFieldOf(src + " /boot " + rest) == Some(src)
  {
    var s := src + " /boot " + rest;
    var n := |src|;
    assert forall i :: 0 <= i < n ==> s[i] == src[i];
    SpanEndAt(s, 0, n, NotRegexSpace);
    SpanEndAt(s, n, n + 1, IsRegexSpace);
    assert forall i :: n + 1 <= i < n + 6 ==> s[i] == "/boot"[i - n - 1];
    SpanEndAt(s, n + 1, n + 6, NotRegexSpace);
    assert s[n + 1..n + 6] == "/boot";
    assert s[..n] == src;
  }

  /** The source of the first entry line whose second field is /boot, "" when there is none. */
  function BootSource(lines: seq<string>): string
  {
    if lines == [] then ""
    else if Resolver.IsFstabEntry(Trimmed(lines[0])) && BootFieldOf(Trimmed(lines[0])).Some? then
      BootFieldOf(Trimmed(lines[0])).value
    else BootSource(lines[1..])
  }

  /** A UUID= source becomes its /dev/disk/by-uuid/ path. */
  function DeviceOfSource(source: string): (r: string)
    ensures StartsWith(source, "UUID=") ==> r == "/dev/disk/by-uuid/" + source[5..]
    ensures !StartsWith(source, "UUID=") ==> r == source
  {
    if StartsWith(source, "UUID=") then "/dev/disk/by-uuid/" + source[5..] else source
  }

  /** The fstab loop of getBootLocation. */
  method FindBootSource(lines: seq<string>) returns (bootPartition: string)
    ensures bootPartition == BootSource(lines)
  {
    bootPartition := "";
    var i := 0;
    while i < |lines|
      invariant 0 <= i <= |lines|
      invariant BootSource(lines[i..]) == BootSource(lines)
    {
      var line := Trimmed(lines[i]);
      BootSourceAt(lines, i);
      if line == "" || StartsWith(line, "#") {
        i := i + 1;
        continue;
      }
      var fields := FirstTwoFields(line);
      if fields.Some? && fields.value.1 == "/boot" {
        bootPartition := fields.value.0;
        assert BootFieldOf(line) == Some(bootPartition);
        assert bootPartition == BootSource(lines[i..]);
        break;
      }
      assert BootFieldOf(line).None?;
      i := i + 1;
    }
  }

  /** BootSource of the lines from i on, unfolded once. */
  lemma BootSourceAt(lines: seq<string>, i: nat)
    requires i < |lines|
    ensures var line := Trimmed(lines[i]);
      BootSource(lines[i..])
      == if Resolver.IsFstabEntry(line) && BootFieldOf(line).Some? then BootFieldOf(line).value
         else BootSource(lines[i + 1..])
  {
    assert lines[i..][0] == lines[i] && lines[i..][1..] == lines[i + 1..];
  }

  /** getMountPoint of this revision: lsblk's MOUNTPOINT column for the device. */
  function MountPointCommand(partition: string): Command
  {
    Shell("lsblk -no MOUNTPOINT " + Resolver.DevicePath(partition))
  }

  /** Where getBootLocation ends up, and all the mounting it does on the way. */
  datatype BootLocation = BootLocation(location: string, cmds: seq<Command>, dirs: seq<string>, mounts: seq<string>)

  /** The part after the system partition is mounted at mountPoint. */
  function BootOfMounted(mountPoint: string, readFile: string -> Option<string>,
                         passphrase: string -> Option<seq<byte>>, files: Files, run: Runner): BootLocation
  {
    var fstab := readFile(mountPoint + "/etc/fstab");
    if fstab.None? then BootLocation(mountPoint, [], [], [])
    else
      var source := BootSource(Split(fstab.value, '\n'));
      if source == "" then BootLocation(mountPoint, [], [], [])
      else
        var m := MountPlan(DeviceOfSource(source), passphrase, files, run);
        BootLocation(if m.mountDir == "" then mountPoint else m.mountDir, m.cmds, m.dirs, m.mounts)
  }

  /** The system partition's mount point: lsblk's, else where mountPartition mounts it. */
  function SystemMounting(partition: string, passphrase: string -> Option<seq<byte>>, files: Files, run: Runner): Mounting
  {
    var known := Trimmed(run(MountPointCommand(partition)).output);
    if known != "" then Mounting(known, [], [], []) else MountPlan(partition, passphrase, files, run)
  }

  function BootLocationPlan(partition: string, readFile: string -> Option<string>,
                            passphrase: string -> Option<seq<byte>>, files: Files, run: Runner): BootLocation
  {
    var m := SystemMounting(partition, passphrase, files, run);
    if m.mountDir == "" then BootLocation("", [MountPointCommand(partition)] + m.cmds, m.dirs, m.mounts)
    else
      var b := BootOfMounted(m.mountDir, readFile, passphrase, files, run);
      BootLocation(b.location, [MountPointCommand(partition)] + m.cmds + b.cmds, m.dirs + b.dirs, m.mounts + b.mounts)
  }

  /**
   * Once the system partition is mounted, the boot directory is where fstab's /boot source
   * got mounted; with no such line, no fstab, or a failed mount, the system's mount point.
   */
  lemma BootOfMountedMeaning(mountPoint: string, readFile: string -> Option<string>,
                             passphrase: string -> Option<seq<byte>>, files: Files, run: Runner)
    ensures var b := BootOfMounted(mountPoint, readFile, passphrase, files, run);
            var fstab := readFile(mountPoint + "/etc/fstab");
            var source := if fstab.None? then "" else BootSource(Split(fstab.value, '\n'));
            && (source == "" ==> b == BootLocation(mountPoint, [], [], []))
            && (source != "" ==>
                  var m := MountPlan(DeviceOfSource(source), passphrase, files, run);
                  b.location == (if m.mountDir == "" then mountPoint else m.mountDir))
            && (b.location == mountPoint || b.location == MountPlan(DeviceOfSource(source), passphrase, files, run).mountDir)
  {
  }

  // ---------------------------------------------------------------- the window

  /** The manifests of the older main window: no LUKS mappings are recorded. */
  class LegacySession {
    var newMounts: seq<string>
    var newDirectories: seq<string>

    constructor ()
      ensures newMounts == [] && newDirectories == []
    {
      newMounts, newDirectories := [], [];
    }

    /**
     * The destructor: one umount per recorded mount, the last recorded first, then one
     * rmdir per recorded directory in the order they were created.
     */
    method Teardown(run: Runner) returns (cmds: seq<Command>)
      ensures |cmds| == |newMounts| + |newDirectories|
      ensures forall j :: 0 <= j < |newMounts| ==> cmds[j] == UmountCommand(newMounts[|newMounts| - 1 - j])
      ensures forall j :: 0 <= j < |newDirectories| ==> cmds[|newMounts| + j] == RmdirCommand(newDirectories[j])
    {
      cmds := [];
      var i := |newMounts|;
      while i > 0
        invariant 0 <= i <= |newMounts|
        invariant |cmds| == |newMounts| - i
        invariant forall j :: 0 <= j < |cmds| ==> cmds[j] == UmountCommand(newMounts[|newMounts| - 1 - j])
      {
        i := i - 1;
        cmds := cmds + [UmountCommand(newMounts[i])];
      }
      for k := 0 to |newDirectories|
        invariant |cmds| == |newMounts| + k
        invariant forall j :: 0 <= j < |newMounts| ==> cmds[j] == UmountCommand(newMounts[|newMounts| - 1 - j])
        invariant forall j :: 0 <= j < k ==> cmds[|newMounts| + j] == RmdirCommand(newDirectories[j])
      {
        cmds := cmds + [RmdirCommand(newDirectories[k])];
      }
    }

    /** mountPartition of this revision. */
    method MountPartition(part: string, passphrase: string -> Option<seq<byte>>, files: Files, run: Runner)
      returns (mountDir: string, cmds: seq<Command>)
      modifies this
      ensures var m := MountPlan(part, passphrase, files, run);
              && mountDir == m.mountDir && cmds == m.cmds
              && newDirectories == old(newDirectories) + m.dirs && newMounts == old(newMounts) + m.mounts
    {
      var bare := if StartsWith(part, "/dev/") then part[5..] else part;
      if run(Resolver.IsLuksCommand("/dev/" + bare)).ok {
        mountDir, cmds := LuksMountPoint(bare, passphrase, run);
        return;
      }
      var probes := [Resolver.IsLuksCommand("/dev/" + bare), FindmntCommand(bare)];
      mountDir := Section(run(FindmntCommand(bare)).output, " ", 0);
      if mountDir != "" {
        return mountDir, probes;
      }
      mountDir, cmds := MountUnderMnt(bare, probes, files, run);
    }

    /** The tail of mountPartition: mount the device at /mnt/<device>, creating the directory if need be. */
    method MountUnderMnt(bare: string, probes: seq<Command>, files: Files, run: Runner)
      returns (mountDir: string, cmds: seq<Command>)
      modifies this
      ensures var m := PlainBranch(bare, probes, files, run);
              && mountDir == m.mountDir && cmds == m.cmds
              && newDirectories == old(newDirectories) + m.dirs && newMounts == old(newMounts) + m.mounts
    {
      cmds := probes;
      mountDir := "/mnt/" + bare;
      if !files.dirExists(mountDir) {
        cmds := cmds + [MkdirCommand(mountDir)];
        if !run(MkdirCommand(mountDir)).ok {
          return "", cmds;
        }
        newDirectories := newDirectories + [mountDir];
      }
      cmds := cmds + [MountCommand("/dev/" + bare, mountDir)];
      if !run(MountCommand("/dev/" + bare, mountDir)).ok {
        return "", cmds;
      }
      newMounts := newMounts + [mountDir];
    }

    /** getBootLocation of this revision, for the partition chosen in the stub-install tab. */
    method GetBootLocation(partition: string, readFile: string -> Option<string>,
                           passphrase: string -> Option<seq<byte>>, files: Files, run: Runner)
      returns (location: string, cmds: seq<Command>)
      modifies this
      ensures var b := BootLocationPlan(partition, readFile, passphrase, files, run);
              && location == b.location && cmds == b.cmds
              && newDirectories == old(newDirectories) + b.dirs && newMounts == old(newMounts) + b.mounts
    {
      ghost var m := SystemMounting(partition, passphrase, files, run);
      var mountPoint, mountCmds := SystemMountPoint(partition, passphrase, files, run);
      cmds := [MountPointCommand(partition)] + mountCmds;
      if mountPoint == "" {
        return "", cmds;
      }
      ghost var dirs, mounts := newDirectories, newMounts;
      ghost var b := BootOfMounted(mountPoint, readFile, passphrase, files, run);
      var rest;
      location, rest := BootOfMountPoint(mountPoint, readFile, passphrase, files, run);
      cmds := cmds + rest;
      AppendTwice(old(newDirectories), m.dirs, dirs, b.dirs, newDirectories);
      AppendTwice(old(newMounts), m.mounts, mounts, b.mounts, newMounts);
    }

    /** The front of getBootLocation: getMountPoint, then mountPartition when nothing is mounted. */
    method SystemMountPoint(partition: string, passphrase: string -> Option<seq<byte>>, files: Files, run: Runner)
      returns (mountPoint: string, cmds: seq<Command>)
      modifies this
      ensures var m := SystemMounting(partition, passphrase, files, run);
              && mountPoint == m.mountDir && cmds == m.cmds
              && newDirectories == old(newDirectories) + m.dirs && newMounts == old(newMounts) + m.mounts
    {
      mountPoint := Trimmed(run(MountPointCommand(partition)).output);
      cmds := [];
      if mountPoint == "" {
        mountPoint, cmds := MountPartition(partition, passphrase, files, run);
      }
    }

    /** The fstab part of getBootLocation, once the system partition is mounted. */
    method BootOfMountPoint(mountPoint: string, readFile: string -> Option<string>,
                            passphrase: string -> Option<seq<byte>>, files: Files, run: Runner)
      returns (location: string, cmds: seq<Command>)
      modifies this
      ensures var b := BootOfMounted(mountPoint, readFile, passphrase, files, run);
              && location == b.location && cmds == b.cmds
              && newDirectories == old(newDirectories) + b.dirs && newMounts == old(newMounts) + b.mounts
    {
      var fstab := readFile(mountPoint + "/etc/fstab");
      if fstab.None? {
        return mountPoint, [];
      }
      var bootPartition := FindBootSource(Split(fstab.value, '\n'));
      if bootPartition == "" {
        return mountPoint, [];
      }
      if StartsWith(bootPartition, "UUID=") {
        var uuid := bootPartition[5..];
        bootPartition := "/dev/disk/by-uuid/" + uuid;
      }
      var bootMountPoint;
      bootMountPoint, cmds := MountPartition(bootPartition, passphrase, files, run);
      if bootMountPoint == "" {
        return mountPoint, cmds;
      }
      location := bootMountPoint;
    }
  }

  /** The LUKS branch of mountPartition: nothing is mounted or recorded here. */
  method LuksMountPoint(bare: string, passphrase: string -> Option<seq<byte>>, run: Runner)
    returns (mountDir: string, cmds: seq<Command>)
    ensures Mounting(mountDir, cmds, [], []) == LuksBranch(bare, passphrase, run)
  {
    cmds := [Resolver.IsLuksCommand("/dev/" + bare), GrepCommand(bare)];
    if run(GrepCommand(bare)).ok {
      cmds := cmds + [MapperMountCommand(bare)];
      return Trimmed(run(MapperMountCommand(bare)).output), cmds;
    }
    var luksCmds, pass;
    mountDir, luksCmds, pass := OpenLuks("/dev/" + bare, passphrase("/dev/" + bare), run);
    cmds := cmds + luksCmds;
  }

  /** Recording twice in a row appends both records. */
  lemma AppendTwice(before: seq<string>, first: seq<string>, middle: seq<string>, second: seq<string>, after: seq<string>)
    requires middle == before + first && after == middle + second
    ensures after == before + (first + second)
  {
  }

  /** openLuks of this revision: the same commands as the newer one, with nothing recorded. */
  method OpenLuks(partition: string, passphrase: Option<seq<byte>>, run: Runner)
    returns (device: string, cmds: seq<Command>, pass: array<byte>)
    ensures Resolver.LuksOpening(device, cmds) == Resolver.OpenLuksPlan(partition, passphrase, run)
    ensures fresh(pass) && forall i :: 0 <= i < pass.Length ==> pass[i] == SCRUB_BYTE
  {
    pass := new byte[0];
    cmds := [Resolver.LuksUuidCommand(partition)];
    var uuid := run(Resolver.LuksUuidCommand(partition));
    if !uuid.ok || Trimmed(uuid.output) == "" {
      return "", cmds, pass;
    }
    var mountPoint := "luks-" + Trimmed(uuid.output);
    if passphrase.None? || passphrase.value == [] {
      return "", cmds, pass;
    }
    var bytes := passphrase.value;
    pass := NewBuffer(bytes);
    var open := Resolver.LuksOpenCommand(partition, mountPoint, pass[..]);
    cmds := cmds + [open];
    var unlocked := run(open).ok;
    Fill(pass, (0xA5 as int % 0x100) as byte);
    device := if unlocked then mountPoint else "";
  }

  // ------------------------------------------------------------ checkSizeEsp

  /** checkSizeEsp of this revision: the versioned kernel and initrd alone, no fallbacks, no microcode. */
  function CheckSizeEsp(s: StubInstaller.StubSetup, files: Files): (fits: bool)
    ensures fits <==> files.size(s.sourceDir + "/vmlinuz" + (if s.isFrugal then "" else "-" + s.kernelVersion))
                      + files.size(StubInstaller.InitrdName(s)) <= files.bytesAvailable(s.espMountPoint)
  {
    var vmlinuz := s.sourceDir + "/vmlinuz" + (if s.isFrugal then "" else "-" + s.kernelVersion);
    !(files.size(vmlinuz) + files.size(StubInstaller.InitrdName(s)) > files.bytesAvailable(s.espMountPoint))
  }

  /** Where the versioned files exist and there is no microcode, both revisions decide alike. */
  lemma CheckSizeAgrees(s: StubInstaller.StubSetup, files: Files)
    requires files.fileExists(s.sourceDir + "/vmlinuz" + (if s.isFrugal then "" else "-" + s.kernelVersion))
    requires files.fileExists(StubInstaller.InitrdName(s))
    requires !files.fileExists(s.sourceDir + "/amd-ucode.img") && !files.fileExists(s.sourceDir + "/intel-ucode.img")
    ensures CheckSizeEsp(s, files) == StubInstaller.CheckSizeEsp(s, files)
  {
  }
}
