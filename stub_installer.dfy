/**
 * The steps that install a kernel as an EFI stub: checking that the ESP has room
 * (checkSizeEsp), copying kernel, initrd and microcode to it (copyKernel), and creating
 * the UEFI entry that boots it (installEfiStub).
 */
module StubInstaller {
  import opened QtText
  import opened Host

  /** What the stub-install and frugal tabs show, and where the kernel comes from. */
  datatype StubSetup = StubSetup(
    isFrugal: bool,        // the frugal tab is the current one
    distro: string,        // the name of the directory under EFI/
    espMountPoint: string, // where the chosen ESP is mounted
    sourceDir: string,     // the frugal directory, or the boot directory of the chosen system
    kernelVersion: string) // the chosen kernel

  /** The files of a kernel in the source directory. */
  datatype KernelFiles = KernelFiles(vmlinuz: string, initrd: string, initramfs: string,
                                     amdUcode: string, intelUcode: string)

  /** The kernel, with the Arch name as the fallback when the versioned one is missing. */
  function Vmlinuz(s: StubSetup, files: Files): string
  {
    var named := s.sourceDir + "/vmlinuz" + (if s.isFrugal then "" else "-" + s.kernelVersion);
    if files.fileExists(named) then named else s.sourceDir + "/vmlinuz-linux"
  }

  function InitrdName(s: StubSetup): string
  {
    s.sourceDir + "/initrd" + (if s.isFrugal then ".gz" else ".img-" + s.kernelVersion)
  }

  function InitramfsName(s: StubSetup): string
  {
    s.sourceDir + "/initramfs-" + (if s.isFrugal then "" else s.kernelVersion + ".img")
  }

  /** The files copyKernel starts from; the Arch initramfs replaces a missing one when the initrd is missing too. */
  function KernelFilesOf(s: StubSetup, files: Files): KernelFiles
  {
    var initramfs :=
      if !files.fileExists(InitrdName(s)) && !files.fileExists(InitramfsName(s)) then s.sourceDir + "/initramfs-linux.img"
      else InitramfsName(s);
    KernelFiles(Vmlinuz(s, files), InitrdName(s), initramfs,
                s.sourceDir + "/amd-ucode.img", s.sourceDir + "/intel-ucode.img")
  }

  // ---------------------------------------------------------------- checkSizeEsp

  /** The initrd whose size checkSizeEsp counts: the initramfs stands in when it exists and the initrd does not. */
  function SizedInitrd(s: StubSetup, files: Files): string
  {
    if files.fileExists(InitrdName(s)) then InitrdName(s)
    else
      var initramfs :=
        if files.fileExists(InitramfsName(s)) then InitramfsName(s) else s.sourceDir + "/initramfs-linux.img";
      if files.fileExists(initramfs) then initramfs else InitrdName(s)
  }

  /** The size of a microcode file, 0 when there is none. */
  function UcodeSize(path: string, files: Files): int
  {
    if files.fileExists(path) then files.size(path) else 0
  }

  /** What kernel, initrd and the microcode present need on the ESP. */
  function NeededSize(s: StubSetup, files: Files): int
  {
    files.size(Vmlinuz(s, files)) + files.size(SizedInitrd(s, files))
    + UcodeSize(s.sourceDir + "/amd-ucode.img", files) + UcodeSize(s.sourceDir + "/intel-ucode.img", files)
  }

  /** checkSizeEsp: the files fit when they need no more than the ESP has free. */
  function CheckSizeEsp(s: StubSetup, files: Files): (fits: bool)
    ensures fits <==> NeededSize(s, files) <= files.bytesAvailable(s.espMountPoint)
  {
    !(NeededSize(s, files) > files.bytesAvailable(s.espMountPoint))
  }

  /** Microcode that is not there takes no room: kernel and initrd alone decide. */
  lemma CheckSizeWithoutUcode(s: StubSetup, files: Files)
    requires !files.fileExists(s.sourceDir + "/amd-ucode.img") && !files.fileExists(s.sourceDir + "/intel-ucode.img")
    ensures CheckSizeEsp(s, files)
            <==> files.size(Vmlinuz(s, files)) + files.size(SizedInitrd(s, files)) <= files.bytesAvailable(s.espMountPoint)
  {
  }

  /** The kernel and initrd whose sizes are checked are the ones copyKernel copies to the ESP. */
  lemma SizedFilesAreCopied(s: StubSetup, files: Files)
    ensures CopyItems(s, files)[0].file == Vmlinuz(s, files)
    ensures CopySource(CopyItems(s, files)[1], KernelFilesOf(s, files), files) == SizedInitrd(s, files)
    ensures CopyItems(s, files)[2].file == s.sourceDir + "/amd-ucode.img"
    ensures CopyItems(s, files)[3].file == s.sourceDir + "/intel-ucode.img"
  {
    var t := TargetPath(s);
    assert t + "/initrd.img" == (t + "/") + "initrd.img";
    EndsWithSuffix(t + "/", "initrd.img");
  }

  // ------------------------------------------------------------------ copyKernel

  /** A file to copy and the place on the ESP it goes to. */
  datatype CopyItem = CopyItem(file: string, target: string)

  /** The outcome of copying: whether it succeeded and the commands run. */
  datatype Copy = Copy(ok: bool, cmds: seq<Command>)

  function TargetPath(s: StubSetup): string
  {
    s.espMountPoint + "/EFI/" + s.distro + (if s.isFrugal then "/frugal" else "/stub")
  }

  const TARGET_FILES: seq<string> := ["/vmlinuz", "/initrd.img", "/amducode.img", "/intucode.img"]

  function CopyItems(s: StubSetup, files: Files): (items: seq<CopyItem>)
    ensures |items| == 4
  {
    var k := KernelFilesOf(s, files);
    var t := TargetPath(s);
    [CopyItem(k.vmlinuz, t + TARGET_FILES[0]), CopyItem(k.initrd, t + TARGET_FILES[1]),
     CopyItem(k.amdUcode, t + TARGET_FILES[2]), CopyItem(k.intelUcode, t + TARGET_FILES[3])]
  }

  /** The file actually copied for an item: the initramfs stands in for a missing initrd when it exists. */
  function CopySource(item: CopyItem, k: KernelFiles, files: Files): string
  {
    if EndsWith(item.target, "initrd.img") && !files.fileExists(k.initrd) && files.fileExists(k.initramfs) then k.initramfs
    else item.file
  }

  function CpCommand(file: string, target: string): Command
  {
    ProcAsRoot("cp", [file, target])
  }

  /** A file that may be missing without failing the copy. */
  predicate IsOptional(file: string)
  {
    EndsWith(file, "ucode.img")
  }

  /** The copy loop: skip missing microcode, fail on any other missing file, stop at the first failed cp. */
  function CopyAll(items: seq<CopyItem>, k: KernelFiles, files: Files, run: Runner): Copy
  {
    if items == [] then Copy(true, [])
    else
      var file := CopySource(items[0], k, files);
      if !files.fileExists(file) && IsOptional(file) then CopyAll(items[1..], k, files, run)
      else if !files.fileExists(file) then Copy(false, [])
      else if !run(CpCommand(file, items[0].target)).ok then Copy(false, [CpCommand(file, items[0].target)])
      else
        var rest := CopyAll(items[1..], k, files, run);
        Copy(rest.ok, [CpCommand(file, items[0].target)] + rest.cmds)
  }

  /** The copies an item asks for when nothing fails: one cp for a file that exists, none otherwise. */
  function WantedCopies(items: seq<CopyItem>, k: KernelFiles, files: Files): seq<Command>
  {
    if items == [] then []
    else
      var file := CopySource(items[0], k, files);
      (if files.fileExists(file) then [CpCommand(file, items[0].target)] else []) + WantedCopies(items[1..], k, files)
  }

  /** An item copies cleanly when its file is there and cp succeeds, or it is missing microcode. */
  predicate CopiesCleanly(item: CopyItem, k: KernelFiles, files: Files, run: Runner)
  {
    var file := CopySource(item, k, files);
    if files.fileExists(file) then run(CpCommand(file, item.target)).ok else IsOptional(file)
  }

  /**
   * The copy succeeds exactly when every item copies cleanly, and then it has run one cp per
   * file present, in order; every command but the last one run succeeded.
   */
  lemma {:induction false} CopyAllMeaning(items: seq<CopyItem>, k: KernelFiles, files: Files, run: Runner)
    ensures var c := CopyAll(items, k, files, run);
            && (c.ok <==> forall i :: 0 <= i < |items| ==> CopiesCleanly(items[i], k, files, run))
            && (c.ok ==> c.cmds == WantedCopies(items, k, files))
            && (forall j :: 0 <= j < |c.cmds| - 1 ==> run(c.cmds[j]).ok)
            && (c.ok ==> forall j :: 0 <= j < |c.cmds| ==> run(c.cmds[j]).ok)
  {
    if items != [] {
      CopyAllMeaning(items[1..], k, files, run);
      var c := CopyAll(items, k, files, run);
      var rest := CopyAll(items[1..], k, files, run);
      if forall i :: 0 <= i < |items| ==> CopiesCleanly(items[i], k, files, run) {
        assert forall i :: 0 <= i < |items| - 1 ==> items[1..][i] == items[i + 1];
      }
      if forall i :: 0 <= i < |items[1..]| ==> CopiesCleanly(items[1..][i], k, files, run) {
        if CopiesCleanly(items[0], k, files, run) {
          forall i | 0 <= i < |items|
            ensures CopiesCleanly(items[i], k, files, run)
          {
            if i > 0 {
              assert items[i] == items[1..][i - 1];
            }
          }
        }
      }
    }
  }

  function MkdirCommand(dir: string): Command
  {
    ProcAsRoot("mkdir", ["-p", dir])
  }

  /** copyKernel: create the target directory if needed, then run the copy loop. */
  function CopyKernelPlan(s: StubSetup, files: Files, run: Runner): Copy
  {
    if s.espMountPoint == "" then Copy(false, [])
    else if !files.dirExists(TargetPath(s)) && !run(MkdirCommand(TargetPath(s))).ok then
      Copy(false, [MkdirCommand(TargetPath(s))])
    else
      var made := if files.dirExists(TargetPath(s)) then [] else [MkdirCommand(TargetPath(s))];
      var c := CopyAll(CopyItems(s, files), KernelFilesOf(s, files), files, run);
      Copy(c.ok, made + c.cmds)
  }

  /** The copy loop of copyKernel. */
  method CopyFiles(items: seq<CopyItem>, k: KernelFiles, files: Files, run: Runner) returns (ok: bool, cmds: seq<Command>)
    ensures Copy(ok, cmds) == CopyAll(items, k, files, run)
  {
    cmds := [];
    var i := 0;
    while i < |items|
      invariant 0 <= i <= |items|
      invariant CopyAll(items, k, files, run) == Followed(cmds, CopyAll(items[i..], k, files, run))
    {
      CopyAllAt(items, i, k, files, run);
      ghost var rest := CopyAll(items[i + 1..], k, files, run);
      var file := items[i].file;
      var targetFile := items[i].target;
      if EndsWith(targetFile, "initrd.img") && !files.fileExists(k.initrd) && files.fileExists(k.initramfs) {
        file := k.initramfs;
      }
      assert file == CopySource(items[i], k, files);
      var present, optional := files.fileExists(file), EndsWith(file, "ucode.img");
      if !present && optional {
        i := i + 1;
        continue;
      }
      if !present && !optional {
        assert cmds + [] == cmds;
        return false, cmds;
      }
      var cp := CpCommand(file, targetFile);
      AppendOne(cmds, cp, rest.cmds);
      cmds := cmds + [cp];
      if !run(cp).ok {
        assert cmds + [] == cmds;
        return false, cmds;
      }
      i := i + 1;
    }
    assert cmds + [] == cmds;
    ok := true;
  }

  /** The outcome of the loop when cmds have already run and the rest of it ends in c. */
  function Followed(cmds: seq<Command>, c: Copy): Copy
  {
    Copy(c.ok, cmds + c.cmds)
  }

  lemma AppendOne(cmds: seq<Command>, c: Command, rest: seq<Command>)
    ensures cmds + [c] + rest == cmds + ([c] + rest)
  {
  }

  /** The copy loop from item i on: item i handled, then the loop from item i + 1. */
  lemma CopyAllAt(items: seq<CopyItem>, i: nat, k: KernelFiles, files: Files, run: Runner)
    requires i < |items|
    ensures var file := CopySource(items[i], k, files);
      var cp := CpCommand(file, items[i].target);
      var rest := CopyAll(items[i + 1..], k, files, run);
      CopyAll(items[i..], k, files, run) ==
        if !files.fileExists(file) && IsOptional(file) then rest
        else if !files.fileExists(file) then Copy(false, [])
        else if !run(cp).ok then Copy(false, [cp])
        else Copy(rest.ok, [cp] + rest.cmds)
  {
    assert items[i..][0] == items[i] && items[i..][1..] == items[i + 1..];
  }

  /** copyKernel. */
  method CopyKernel(s: StubSetup, files: Files, run: Runner) returns (ok: bool, cmds: seq<Command>)
    ensures Copy(ok, cmds) == CopyKernelPlan(s, files, run)
  {
    if s.espMountPoint == "" {
      return false, [];
    }
    var targetPath := TargetPath(s);
    cmds := [];
    if !files.dirExists(targetPath) {
      cmds := [MkdirCommand(targetPath)];
      if !run(MkdirCommand(targetPath)).ok {
        return false, cmds;
      }
    }
    var copied;
    ok, copied := CopyFiles(CopyItems(s, files), KernelFilesOf(s, files), files, run);
    cmds := cmds + copied;
  }

  /** A missing kernel fails the copy, whatever else is there. */
  lemma MissingKernelFails(s: StubSetup, files: Files, run: Runner)
    requires !files.fileExists(Vmlinuz(s, files)) && !IsOptional(Vmlinuz(s, files))
    ensures !CopyKernelPlan(s, files, run).ok
  {
    var items := CopyItems(s, files);
    var k := KernelFilesOf(s, files);
    CopyAllMeaning(items, k, files, run);
    var t := TargetPath(s);
    assert !EndsWith(t + "/vmlinuz", "initrd.img") by {
      assert (t + "/vmlinuz")[|t + "/vmlinuz"| - 10..][2] == '/';
    }
    assert !CopiesCleanly(items[0], k, files, run);
  }

  // -------------------------------------------------------------- installEfiStub

  /** The disk of the ESP: the first drive row whose device name starts the ESP's name, as a /dev/ path. */
  function DiskOf(esp: string, driveList: seq<string>): string
  {
    if driveList == [] then ""
    else if StartsWith(esp, Section(driveList[0], " ", 0)) then "/dev/" + Section(driveList[0], " ", 0)
    else DiskOf(esp, driveList[1..])
  }

  /** The match of `[0-9]+$`: the digits that end the name (before a final newline), "" when none. */
  function PartNumberOf(esp: string): (part: string)
    ensures AllDigits(part)
  {
    var t := BeforeFinalNewline(esp);
    t[|t| - TrailingDigitCount(t)..]
  }

  /** The drive loop of installEfiStub. */
  method FindDisk(esp: string, driveList: seq<string>) returns (disk: string)
    ensures disk == DiskOf(esp, driveList)
  {
    disk := "";
    var i := 0;
    while i < |driveList|
      invariant 0 <= i <= |driveList|
      invariant DiskOf(esp, driveList[i..]) == DiskOf(esp, driveList)
    {
      assert driveList[i..][1..] == driveList[i + 1..];
      var driveName := Section(driveList[i], " ", 0);
      if StartsWith(esp, driveName) {
        disk := "/dev/" + driveName;
        break;
      }
      i := i + 1;
    }
  }

  /** The disk found is a drive named at the head of a row that the ESP's name starts with, and the first one. */
  lemma {:induction false} DiskOfMeaning(esp: string, driveList: seq<string>)
    ensures var d := DiskOf(esp, driveList);
            && (d == "" <==> forall i :: 0 <= i < |driveList| ==> !StartsWith(esp, Section(driveList[i], " ", 0)))
            && (d != "" ==> exists i :: 0 <= i < |driveList| && d == "/dev/" + Section(driveList[i], " ", 0)
                                  && StartsWith(esp, Section(driveList[i], " ", 0))
                                  && forall j :: 0 <= j < i ==> !StartsWith(esp, Section(driveList[j], " ", 0)))
  {
    if driveList != [] {
      DiskOfMeaning(esp, driveList[1..]);
      var d := DiskOf(esp, driveList);
      if StartsWith(esp, Section(driveList[0], " ", 0)) {
        assert d == "/dev/" + Section(driveList[0], " ", 0);
        assert d != "";
      } else {
        assert forall i :: 1 <= i < |driveList| ==> driveList[i] == driveList[1..][i - 1];
        if d != "" {
          var i :| 0 <= i < |driveList[1..]| && d == "/dev/" + Section(driveList[1..][i], " ", 0)
                   && StartsWith(esp, Section(driveList[1..][i], " ", 0))
                   && forall j :: 0 <= j < i ==> !StartsWith(esp, Section(driveList[1..][j], " ", 0));
          assert driveList[i + 1] == driveList[1..][i];
          assert forall j :: 0 <= j < i + 1 ==> !StartsWith(esp, Section(driveList[j], " ", 0)) by {
            forall j | 0 <= j < i + 1
              ensures !StartsWith(esp, Section(driveList[j], " ", 0))
            {
              if j > 0 {
                assert driveList[j] == driveList[1..][j - 1];
              }
            }
          }
        }
      }
    }
  }

  /** The partition number of the usual device names. */
  lemma PartNumberExamples()
    ensures PartNumberOf("/dev/sda1") == "1" && PartNumberOf("/dev/nvme0n1p12") == "12"
    ensures PartNumberOf("/dev/sda") == ""
  {
    SataPartNumber();
    NvmePartNumber();
    WholeDiskPartNumber();
  }

  lemma SataPartNumber()
    ensures PartNumberOf("/dev/sda1") == "1"
  {
    var t := "/dev/sda1";
    assert BeforeFinalNewline(t) == t;
    assert TrailingDigitCount(t) == 1 by {
      assert t[..8] == "/dev/sda";
      assert TrailingDigitCount("/dev/sda") == 0;
    }
    assert t[8..] == "1";
  }

  lemma NvmePartNumber()
    ensures PartNumberOf("/dev/nvme0n1p12") == "12"
  {
    var t := "/dev/nvme0n1p12";
    assert BeforeFinalNewline(t) == t;
    assert TrailingDigitCount(t) == 2 by {
      assert t[..14] == "/dev/nvme0n1p1";
      assert "/dev/nvme0n1p1"[..13] == "/dev/nvme0n1p";
      assert TrailingDigitCount("/dev/nvme0n1p") == 0;
    }
    assert t[13..] == "12";
  }

  lemma WholeDiskPartNumber()
    ensures PartNumberOf("/dev/sda") == ""
  {
    var t := "/dev/sda";
    assert BeforeFinalNewline(t) == t;
    assert TrailingDigitCount(t) == 0;
    assert t[8..] == "";
  }

  /** The clause of an initrd file in EFI/<distro>/<dir> of the ESP. */
  function InitrdClause(distro: string, efiDir: string, file: string): string
  {
    "initrd=\\EFI\\" + distro + "\\" + efiDir + "\\" + file
  }

  /** The initrd clause chain: amd microcode, then intel microcode, each when present, then the initrd. */
  function InitrdChain(distro: string, efiDir: string, hasAmd: bool, hasIntel: bool): string
  {
    var afterAmd := if hasAmd then InitrdClause(distro, efiDir, "amducode.img") else "";
    var afterIntel :=
      if !hasIntel then afterAmd
      else if afterAmd == "" then InitrdClause(distro, efiDir, "intucode.img")
      else afterAmd + " " + InitrdClause(distro, efiDir, "intucode.img");
    if afterIntel == "" then InitrdClause(distro, efiDir, "initrd.img")
    else afterIntel + " " + InitrdClause(distro, efiDir, "initrd.img")
  }

  /** The clauses of the chain, in order: the microcode present, the initrd always and always last. */
  function InitrdClauses(distro: string, efiDir: string, hasAmd: bool, hasIntel: bool): seq<string>
  {
    (if hasAmd then [InitrdClause(distro, efiDir, "amducode.img")] else [])
    + (if hasIntel then [InitrdClause(distro, efiDir, "intucode.img")] else [])
    + [InitrdClause(distro, efiDir, "initrd.img")]
  }

  lemma InitrdClauseNotEmpty(distro: string, efiDir: string, file: string)
    ensures InitrdClause(distro, efiDir, file) != ""
  {
    assert InitrdClause(distro, efiDir, file)[0] == 'i';
  }

  /** The chain is its clauses joined by single spaces. */
  lemma InitrdChainClauses(distro: string, efiDir: string, hasAmd: bool, hasIntel: bool)
    ensures InitrdChain(distro, efiDir, hasAmd, hasIntel) == JoinBy(InitrdClauses(distro, efiDir, hasAmd, hasIntel), " ")
  {
    var a := InitrdClause(distro, efiDir, "amducode.img");
    var b := InitrdClause(distro, efiDir, "intucode.img");
    var c := InitrdClause(distro, efiDir, "initrd.img");
    InitrdClauseNotEmpty(distro, efiDir, "amducode.img");
    InitrdClauseNotEmpty(distro, efiDir, "intucode.img");
    if hasAmd && hasIntel {
      assert InitrdClauses(distro, efiDir, hasAmd, hasIntel) == [a, b, c];
      JoinThreeWords(a, b, c);
    } else if hasAmd {
      assert InitrdClauses(distro, efiDir, hasAmd, hasIntel) == [a, c];
      JoinTwoWords(a, c);
    } else if hasIntel {
      assert InitrdClauses(distro, efiDir, hasAmd, hasIntel) == [b, c];
      JoinTwoWords(b, c);
    } else {
      assert InitrdClauses(distro, efiDir, hasAmd, hasIntel) == [c];
      assert JoinBy([c], " ") == c;
    }
  }

  lemma JoinTwoWords(a: string, b: string)
    ensures JoinBy([a, b], " ") == a + " " + b
  {
    assert [a, b][1..] == [b];
    assert JoinBy([b], " ") == b;
  }

  lemma JoinThreeWords(a: string, b: string, c: string)
    ensures JoinBy([a, b, c], " ") == a + " " + b + " " + c
  {
    assert [a, b, c][1..] == [b, c];
    JoinTwoWords(b, c);
  }

  /** The text fields of the tab that end up in the entry. */
  datatype EntryFields = EntryFields(entryName: string, kernelOptions: string, frugalOptions: string,
                                     frugalMode: string, bdir: string, uuid: string)

  function EfiDir(isFrugal: bool): string
  {
    if isFrugal then "frugal" else "stub"
  }

  /** The kernel command line of the entry, ending with the initrd chain. */
  function BootOptions(s: StubSetup, f: EntryFields, initrd: string): string
  {
    if s.isFrugal then "bdir=" + f.bdir + " buuid=" + f.uuid + " " + f.frugalOptions + " " + f.frugalMode + " " + initrd
    else f.kernelOptions + " " + initrd
  }

  function EfibootmgrCommand(s: StubSetup, f: EntryFields, disk: string, part: string, initrd: string): Command
  {
    ProcAsRoot("efibootmgr",
      ["--disk", disk, "--part", part, "--create", "--label", f.entryName, "--loader",
       "\\EFI\\" + s.distro + "\\" + EfiDir(s.isFrugal) + "\\vmlinuz", "--unicode", BootOptions(s, f, initrd)])
  }

  /** The initrd chain for the microcode copyKernel left on the ESP. */
  function EspInitrdChain(s: StubSetup, files: Files): string
  {
    var espPath := s.espMountPoint + "/EFI/" + s.distro + "/" + EfiDir(s.isFrugal);
    InitrdChain(s.distro, EfiDir(s.isFrugal), files.fileExists(espPath + "/amducode.img"),
                files.fileExists(espPath + "/intucode.img"))
  }

  /**
   * installEfiStub: copy the kernel, find the disk and partition number of the ESP, then ask
   * efibootmgr for an entry loading the kernel with the initrd chain. The file system is
   * looked at twice: `before` as copyKernel finds it, `after` once it has copied.
   */
  function InstallPlan(esp: string, driveList: seq<string>, s: StubSetup, f: EntryFields,
                       before: Files, after: Files, run: Runner): Copy
  {
    if esp == "" then Copy(false, [])
    else
      var copy := CopyKernelPlan(s, before, run);
      if !copy.ok then Copy(false, copy.cmds)
      else
        var disk := DiskOf(esp, driveList);
        var part := PartNumberOf(esp);
        if disk == "" || part == "" then Copy(false, copy.cmds)
        else
          var create := EfibootmgrCommand(s, f, disk, part, EspInitrdChain(s, after));
          Copy(run(create).ok, copy.cmds + [create])
  }

  /** The initrd clauses installEfiStub strings together for the files on the ESP. */
  method ChainInitrds(s: StubSetup, files: Files) returns (initrd: string)
    ensures initrd == EspInitrdChain(s, files)
  {
    var efiDir := EfiDir(s.isFrugal);
    var espPath := s.espMountPoint + "/EFI/" + s.distro + "/" + efiDir;
    var hasAmd := files.fileExists(espPath + "/amducode.img");
    var hasIntel := files.fileExists(espPath + "/intucode.img");
    var amdEfi := InitrdClause(s.distro, efiDir, "amducode.img");
    var intEfi := InitrdClause(s.distro, efiDir, "intucode.img");
    var initrdEfi := InitrdClause(s.distro, efiDir, "initrd.img");
    initrd := if !hasAmd then "" else amdEfi;
    if hasIntel {
      initrd := initrd + (if initrd == "" then intEfi else " " + intEfi);
    }
    initrd := initrd + (if initrd == "" then initrdEfi else " " + initrdEfi);
    ChainAsBuilt(s.distro, efiDir, hasAmd, hasIntel);
  }

  /** The chain built by appending clause after clause, a space before each but the first. */
  lemma ChainAsBuilt(distro: string, efiDir: string, hasAmd: bool, hasIntel: bool)
    ensures var amd := if !hasAmd then "" else InitrdClause(distro, efiDir, "amducode.img");
      var intel := InitrdClause(distro, efiDir, "intucode.img");
      var afterIntel := if hasIntel then amd + (if amd == "" then intel else " " + intel) else amd;
      var last := InitrdClause(distro, efiDir, "initrd.img");
      afterIntel + (if afterIntel == "" then last else " " + last) == InitrdChain(distro, efiDir, hasAmd, hasIntel)
  {
    InitrdClauseNotEmpty(distro, efiDir, "amducode.img");
  }

  method InstallEfiStub(esp: string, driveList: seq<string>, s: StubSetup, f: EntryFields,
                        before: Files, after: Files, run: Runner) returns (ok: bool, cmds: seq<Command>)
    ensures Copy(ok, cmds) == InstallPlan(esp, driveList, s, f, before, after, run)
  {
    if esp == "" {
      return false, [];
    }
    var copied;
    copied, cmds := CopyKernel(s, before, run);
    if !copied {
      return false, cmds;
    }
    var disk := FindDisk(esp, driveList);
    var part := PartNumberOf(esp);
    if disk == "" || part == "" {
      return false, cmds;
    }
    var initrd := ChainInitrds(s, after);
    var create := EfibootmgrCommand(s, f, disk, part, initrd);
    cmds := cmds + [create];
    ok := run(create).ok;
  }

  /**
   * efibootmgr runs only after the kernel was copied and the ESP's disk and partition number
   * are known; the entry it creates ends its options with the initrd chain.
   */
  lemma InstallMeaning(esp: string, driveList: seq<string>, s: StubSetup, f: EntryFields,
                       before: Files, after: Files, run: Runner)
    ensures var r := InstallPlan(esp, driveList, s, f, before, after, run);
            && (esp == "" || !CopyKernelPlan(s, before, run).ok || DiskOf(esp, driveList) == "" || PartNumberOf(esp) == ""
                ==> !r.ok && forall i :: 0 <= i < |r.cmds| ==> r.cmds[i].program != "efibootmgr")
            && (r.ok ==> r.cmds[|r.cmds| - 1].program == "efibootmgr"
                         && EndsWith(r.cmds[|r.cmds| - 1].args[10], EspInitrdChain(s, after)))
  {
    var copy := CopyKernelPlan(s, before, run);
    CopyKernelCommands(s, before, run);
    if esp != "" && copy.ok && DiskOf(esp, driveList) != "" && PartNumberOf(esp) != "" {
      var initrd := EspInitrdChain(s, after);
      var o := BootOptions(s, f, initrd);
      assert o[|o| - |initrd|..] == initrd;
    }
  }

  /** copyKernel runs only mkdir and cp. */
  lemma CopyKernelCommands(s: StubSetup, files: Files, run: Runner)
    ensures forall i :: 0 <= i < |CopyKernelPlan(s, files, run).cmds| ==>
              CopyKernelPlan(s, files, run).cmds[i].program in {"mkdir", "cp"}
  {
    CopyAllPrograms(CopyItems(s, files), KernelFilesOf(s, files), files, run);
  }

  lemma {:induction false} CopyAllPrograms(items: seq<CopyItem>, k: KernelFiles, files: Files, run: Runner)
    ensures forall i :: 0 <= i < |CopyAll(items, k, files, run).cmds| ==> CopyAll(items, k, files, run).cmds[i].program == "cp"
  {
    if items != [] {
      CopyAllPrograms(items[1..], k, files, run);
    }
  }
}
