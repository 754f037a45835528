/**
 * The configuration files the installer reads and the kernel command line it assembles:
 * grub.entry of a frugal installation with its persistence aliases, the release files
 * that name the distribution, and the boot options of a stub entry.
 */
module ConfigFiles {
  import opened Wrappers
  import opened QtText
  import opened Host

  // ------------------------------------------------------- persistence aliases

  /** The persistence words grub.entry may use, and the word handed to the kernel for each. */
  const PERSISTENCE_TYPES: map<string, string> := map[
    "persist_all" := "persist_all",
    "persist_root" := "persist_root",
    "persist_static" := "persist_static",
    "persist_static_root" := "persist_static_root",
    "p_static_root" := "persist_static_root",
    "persist_home" := "persist_home",
    "frugal_persist" := "persist_all",
    "frugal_root" := "persist_root",
    "frugal_static" := "persist_static",
    "frugal_static_root" := "persist_static_root",
    "f_static_root" := "persist_static_root",
    "frugal_home" := "persist_home",
    "frugal_only" := "frugal_only"]

  /** A kernel persistence word: one the table knows and maps to itself. */
  predicate IsNormalPersistence(v: string)
  {
    v in PERSISTENCE_TYPES && PERSISTENCE_TYPES[v] == v
  }

  /**
   * The lookup of readGrubEntry: the value of a known alias, which is itself a known
   * word that the table leaves as it is, so normalising twice changes nothing.
   */
  function Persistence(option: string): (r: Option<string>)
    ensures r.Some? <==> option in PERSISTENCE_TYPES
    ensures r.Some? ==> IsNormalPersistence(r.value)
  {
    if option in PERSISTENCE_TYPES then Some(PERSISTENCE_TYPES[option]) else None
  }

  // ---------------------------------------------------------------- grub.entry

  /** The fields of the frugal options that readGrubEntry fills. */
  datatype FrugalOptions = FrugalOptions(bdir: string, entryName: string, persistenceType: string,
                                         uuid: string, stringOptions: string)

  const CLEARED := FrugalOptions("", "", "", "", "")

  /** The words of a `linux` line after the first, empty words kept. */
  function LinuxWords(line: string): seq<string>
  {
    Split(line, ' ')[1..]
  }

  /** One word of a `linux` line: bdir=, a persistence alias, buuid= and the kernel path are taken apart. */
  function OptionStep(o: FrugalOptions, option: string): FrugalOptions
  {
    if StartsWith(option, "bdir=") then o.(bdir := Trimmed(Section(option, "=", 1)))
    else if option in PERSISTENCE_TYPES then o.(persistenceType := PERSISTENCE_TYPES[option])
    else if !StartsWith(option, "buuid=") && !EndsWith(option, "vmlinuz") then
      o.(stringOptions := o.stringOptions + option + " ")
    else o
  }

  function OptionsStep(o: FrugalOptions, options: seq<string>): FrugalOptions
  {
    if options == [] then o
    else OptionStep(OptionsStep(o, options[..|options| - 1]), options[|options| - 1])
  }

  /** One line of grub.entry, trimmed: the menuentry title, the search uuid, or the linux words. */
  function LineStep(o: FrugalOptions, raw: string): FrugalOptions
  {
    var line := Trimmed(raw);
    if StartsWith(line, "menuentry") then o.(entryName := Trimmed(Section(line, "\"", 1)))
    else if StartsWith(line, "search") then o.(uuid := Trimmed(Section(line, "--fs-uuid", 1)))
    else if StartsWith(line, "linux") then OptionsStep(o, LinuxWords(line))
    else o
  }

  function LinesStep(o: FrugalOptions, lines: seq<string>): FrugalOptions
  {
    if lines == [] then o else LineStep(LinesStep(o, lines[..|lines| - 1]), lines[|lines| - 1])
  }

  /** The options readGrubEntry leaves from the text of grub.entry. */
  function GrubEntry(content: string): FrugalOptions
  {
    var o := LinesStep(CLEARED, Split(content, '\n'));
    o.(stringOptions := Trimmed(o.stringOptions))
  }

  /** A word that goes into the free-form options. */
  predicate KeptOption(option: string)
  {
    !StartsWith(option, "bdir=") && option !in PERSISTENCE_TYPES &&
    !StartsWith(option, "buuid=") && !EndsWith(option, "vmlinuz")
  }

  function Kept(options: seq<string>): seq<string>
  {
    if options == [] then []
    else Kept(options[..|options| - 1]) + KeptOne(options[|options| - 1])
  }

  /** Each word followed by one space. */
  function Spaced(words: seq<string>): string
  {
    if words == [] then "" else Spaced(words[..|words| - 1]) + words[|words| - 1] + " "
  }

  /** All words of all `linux` lines after their first, in file order. */
  function LinuxOptions(lines: seq<string>): seq<string>
  {
    if lines == [] then []
    else LinuxOptions(lines[..|lines| - 1]) + LinuxLineWords(lines[|lines| - 1])
  }

  lemma {:induction false} KeptAppend(a: seq<string>, b: seq<string>)
    ensures Kept(a + b) == Kept(a) + Kept(b)
    decreases |b|
  {
    if b != [] {
      var b' := b[..|b| - 1];
      assert (a + b)[..|a + b| - 1] == a + b';
      KeptAppend(a, b');
    } else {
      assert a + b == a;
    }
  }

  lemma {:induction false} SpacedAppend(a: seq<string>, b: seq<string>)
    ensures Spaced(a + b) == Spaced(a) + Spaced(b)
    decreases |b|
  {
    if b != [] {
      var b' := b[..|b| - 1];
      assert (a + b)[..|a + b| - 1] == a + b';
      SpacedAppend(a, b');
    } else {
      assert a + b == a;
    }
  }

  lemma AppendAssoc(a: string, b: string, c: string)
    ensures (a + b) + c == a + (b + c)
  {
  }

  /** The words of `options` that the free-form options keep: at most the one word itself. */
  function KeptOne(option: string): seq<string>
  {
    if KeptOption(option) then [option] else []
  }

  lemma OptionStepStrings(o: FrugalOptions, option: string)
    ensures OptionStep(o, option).stringOptions == o.stringOptions + Spaced(KeptOne(option))
  {
    if KeptOption(option) {
      assert [option][..0] == [];
      assert Spaced([option]) == option + " ";
    } else {
      assert Spaced([]) == "";
    }
  }

  /** Reading words adds each kept word and a space to the free-form options, and nothing else. */
  lemma {:induction false} OptionsStepStrings(o: FrugalOptions, options: seq<string>)
    ensures OptionsStep(o, options).stringOptions == o.stringOptions + Spaced(Kept(options))
    decreases |options|
  {
    if options == [] {
      assert o.stringOptions + "" == o.stringOptions;
    } else {
      var init, last := options[..|options| - 1], options[|options| - 1];
      var prev := OptionsStep(o, init);
      OptionsStepStrings(o, init);
      OptionStepStrings(prev, last);
      SpacedAppend(Kept(init), KeptOne(last));
      calc {
        OptionsStep(o, options).stringOptions;
        OptionStep(prev, last).stringOptions;
        prev.stringOptions + Spaced(KeptOne(last));
        (o.stringOptions + Spaced(Kept(init))) + Spaced(KeptOne(last));
        { AppendAssoc(o.stringOptions, Spaced(Kept(init)), Spaced(KeptOne(last))); }
        o.stringOptions + (Spaced(Kept(init)) + Spaced(KeptOne(last)));
        o.stringOptions + Spaced(Kept(init) + KeptOne(last));
        { assert Kept(options) == Kept(init) + KeptOne(last); }
        o.stringOptions + Spaced(Kept(options));
      }
    }
  }

  /** The words a line of grub.entry adds to LinuxOptions. */
  function LinuxLineWords(raw: string): seq<string>
  {
    var line := Trimmed(raw);
    if StartsWith(line, "linux") then LinuxWords(line) else []
  }

  lemma LineStepStrings(o: FrugalOptions, raw: string)
    ensures LineStep(o, raw).stringOptions == o.stringOptions + Spaced(Kept(LinuxLineWords(raw)))
  {
    if StartsWith(Trimmed(raw), "linux") {
      LinuxLineStepStrings(o, raw);
    } else {
      OtherLineStepStrings(o, raw);
    }
  }

  /** A `linux` line adds its kept words. */
  lemma LinuxLineStepStrings(o: FrugalOptions, raw: string)
    requires StartsWith(Trimmed(raw), "linux")
    ensures LineStep(o, raw).stringOptions == o.stringOptions + Spaced(Kept(LinuxLineWords(raw)))
  {
    var line := Trimmed(raw);
    assert line[0] == 'l';
    assert !StartsWith(line, "menuentry") && !StartsWith(line, "search");
    assert LineStep(o, raw) == OptionsStep(o, LinuxWords(line));
    assert LinuxLineWords(raw) == LinuxWords(line);
    OptionsStepStrings(o, LinuxWords(line));
  }

  /** Any other line leaves the free-form options alone. */
  lemma OtherLineStepStrings(o: FrugalOptions, raw: string)
    requires !StartsWith(Trimmed(raw), "linux")
    ensures LineStep(o, raw).stringOptions == o.stringOptions + Spaced(Kept(LinuxLineWords(raw)))
  {
    assert LineStep(o, raw).stringOptions == o.stringOptions;
    assert LinuxLineWords(raw) == [];
    assert Spaced(Kept([])) == "";
    assert o.stringOptions + "" == o.stringOptions;
  }

  lemma {:induction false} LinesStepStrings(o: FrugalOptions, lines: seq<string>)
    ensures LinesStep(o, lines).stringOptions == o.stringOptions + Spaced(Kept(LinuxOptions(lines)))
    decreases |lines|
  {
    if lines != [] {
      var init, last := lines[..|lines| - 1], lines[|lines| - 1];
      LinesStepStrings(o, init);
      var prev := LinesStep(o, init);
      LineStepStrings(prev, last);
      KeptAppend(LinuxOptions(init), LinuxLineWords(last));
      SpacedAppend(Kept(LinuxOptions(init)), Kept(LinuxLineWords(last)));
      calc {
        LinesStep(o, lines).stringOptions;
        LineStep(prev, last).stringOptions;
        prev.stringOptions + Spaced(Kept(LinuxLineWords(last)));
        (o.stringOptions + Spaced(Kept(LinuxOptions(init)))) + Spaced(Kept(LinuxLineWords(last)));
        { AppendAssoc(o.stringOptions, Spaced(Kept(LinuxOptions(init))), Spaced(Kept(LinuxLineWords(last)))); }
        o.stringOptions + (Spaced(Kept(LinuxOptions(init))) + Spaced(Kept(LinuxLineWords(last))));
        o.stringOptions + Spaced(Kept(LinuxOptions(init) + LinuxLineWords(last)));
        { assert LinuxOptions(lines) == LinuxOptions(init) + LinuxLineWords(last); }
        o.stringOptions + Spaced(Kept(LinuxOptions(lines)));
      }
    } else {
      assert o.stringOptions + "" == o.stringOptions;
    }
  }

  /**
   * The free-form options of grub.entry are, in file order, every word of every `linux`
   * line after the first that is not bdir=, buuid=, a persistence alias or a path ending
   * in vmlinuz, each followed by a space, and the whole trimmed.
   */
  lemma StringOptionsAreKeptWords(content: string)
    ensures GrubEntry(content).stringOptions ==
            Trimmed(Spaced(Kept(LinuxOptions(Split(content, '\n')))))
  {
    var lines := Split(content, '\n');
    var o := LinesStep(CLEARED, lines);
    LinesStepStrings(CLEARED, lines);
    var x := Spaced(Kept(LinuxOptions(lines)));
    assert "" + x == x;
    assert o.stringOptions == x;
    assert GrubEntry(content).stringOptions == Trimmed(o.stringOptions);
  }

  /** Trimmed single-valued fields and a persistence value that is empty or a kernel word. */
  predicate WellFormed(o: FrugalOptions)
  {
    IsTrimmed(o.bdir) && IsTrimmed(o.entryName) && IsTrimmed(o.uuid) &&
    (o.persistenceType == "" || IsNormalPersistence(o.persistenceType))
  }

  lemma {:induction false} OptionsStepWellFormed(o: FrugalOptions, options: seq<string>)
    requires WellFormed(o)
    ensures WellFormed(OptionsStep(o, options))
    decreases |options|
  {
    if options != [] {
      var init, last := options[..|options| - 1], options[|options| - 1];
      OptionsStepWellFormed(o, init);
      if StartsWith(last, "bdir=") {
        TrimmedShape(Section(last, "=", 1));
      } else if last in PERSISTENCE_TYPES {
        assert Persistence(last).Some?;
      }
    }
  }

  lemma {:induction false} LinesStepWellFormed(o: FrugalOptions, lines: seq<string>)
    requires WellFormed(o)
    ensures WellFormed(LinesStep(o, lines))
    decreases |lines|
  {
    if lines != [] {
      var init := lines[..|lines| - 1];
      var prev := LinesStep(o, init);
      var line := Trimmed(lines[|lines| - 1]);
      LinesStepWellFormed(o, init);
      if StartsWith(line, "menuentry") {
        TrimmedShape(Section(line, "\"", 1));
      } else if StartsWith(line, "search") {
        TrimmedShape(Section(line, "--fs-uuid", 1));
      } else if StartsWith(line, "linux") {
        OptionsStepWellFormed(prev, LinuxWords(line));
      }
    }
  }

  /**
   * Whatever grub.entry holds, the options read from it have trimmed fields, and the
   * persistence value is empty or a word the alias table maps to itself.
   */
  lemma GrubEntryWellFormed(content: string)
    ensures WellFormed(GrubEntry(content))
    ensures IsTrimmed(GrubEntry(content).stringOptions)
  {
    LinesStepWellFormed(CLEARED, Split(content, '\n'));
    TrimmedShape(LinesStep(CLEARED, Split(content, '\n')).stringOptions);
  }

  /** The inner loop of readGrubEntry over the words of one `linux` line. */
  method ReadLinuxWords(o: FrugalOptions, words: seq<string>) returns (r: FrugalOptions)
    ensures r == OptionsStep(o, words)
  {
    r := o;
    for j := 0 to |words|
      invariant r == OptionsStep(o, words[..j])
    {
      assert words[..j + 1][..j] == words[..j];
      var option := words[j];
      if StartsWith(option, "bdir=") {
        r := r.(bdir := Trimmed(Section(option, "=", 1)));
      } else if option in PERSISTENCE_TYPES {
        r := r.(persistenceType := PERSISTENCE_TYPES[option]);
      } else if !StartsWith(option, "buuid=") && !EndsWith(option, "vmlinuz") {
        r := r.(stringOptions := r.stringOptions + option + " ");
      }
    }
    assert words[..|words|] == words;
  }

  /** The loop of readGrubEntry over the lines of grub.entry, from cleared options. */
  method ReadLines(lines: seq<string>) returns (o: FrugalOptions)
    ensures o == LinesStep(CLEARED, lines)
  {
    o := CLEARED;
    for i := 0 to |lines|
      invariant o == LinesStep(CLEARED, lines[..i])
    {
      assert lines[..i + 1][..i] == lines[..i];
      var line := Trimmed(lines[i]);
      if StartsWith(line, "menuentry") {
        o := o.(entryName := Trimmed(Section(line, "\"", 1)));
      } else if StartsWith(line, "search") {
        o := o.(uuid := Trimmed(Section(line, "--fs-uuid", 1)));
      } else if StartsWith(line, "linux") {
        o := ReadLinuxWords(o, LinuxWords(line));
      }
    }
    assert lines[..|lines|] == lines;
  }

  /** The frugal-installation options of the main window. */
  class FrugalSettings {
    var options: FrugalOptions

    constructor ()
      ensures options == CLEARED
    {
      options := CLEARED;
    }

    /**
     * readGrubEntry; `grubEntry` is the text of the file, None when it cannot be opened.
     * An unreadable file leaves the options as they were; otherwise they are cleared and
     * filled line by line.
     */
    method ReadGrubEntry(grubEntry: Option<string>) returns (ok: bool)
      modifies this
      ensures ok <==> grubEntry.Some?
      ensures !ok ==> options == old(options)
      ensures ok ==> options == GrubEntry(grubEntry.value)
    {
      if grubEntry.None? {
        return false;
      }
      var o := ReadLines(Split(grubEntry.value, '\n'));
      options := o.(stringOptions := Trimmed(o.stringOptions));
      ok := true;
    }
  }

  // ------------------------------------------------------------- release files

  /** The line prefix getDistroName looks for, None for a release file it does not know. */
  function SearchTerm(pretty: bool, releaseFile: string): Option<string>
  {
    if releaseFile == "initrd_release" then Some(if pretty then "PRETTY_NAME=" else "NAME=")
    else if releaseFile == "lsb-release" then Some(if pretty then "PRETTY_NAME=" else "DISTRIB_DESCRIPTION=")
    else if releaseFile == "os-release" then Some(if pretty then "PRETTY_NAME=" else "ID=")
    else None
  }

  function DefaultDistro(pretty: bool): string
  {
    if pretty then "MX Linux" else "MX"
  }

  /** The value after the first '=', quotes removed, trimmed. */
  function DistroValue(line: string): (r: string)
    ensures '"' !in r
  {
    var unquoted := RemoveChar(Section(line, "=", 1), '"');
    TrimmedKeeps(unquoted, '"');
    Trimmed(unquoted)
  }

  /** The first line at or after i that starts with term; |lines| when there is none. */
  function FirstStarting(lines: seq<string>, term: string, i: nat): (k: nat)
    requires i <= |lines|
    ensures i <= k <= |lines|
    ensures forall j :: i <= j < k ==> !StartsWith(lines[j], term)
    ensures k < |lines| ==> StartsWith(lines[k], term)
    decreases |lines| - i
  {
    if i == |lines| || StartsWith(lines[i], term) then i else FirstStarting(lines, term, i + 1)
  }

  lemma TrimmedKeeps(s: string, c: char)
    requires c !in s
    ensures c !in Trimmed(s)
  {
    var a := TrimStart(s);
    assert forall x :: x in a ==> x in s;
    assert forall x :: x in TrimEnd(a) ==> x in a;
  }

  /**
   * getDistroName; `release` is the text of <mountPoint>/etc/<releaseFile>, None when
   * it cannot be opened. The result is never empty and holds no quote.
   */
  function DistroName(pretty: bool, releaseFile: string, release: Option<string>): (r: string)
    ensures r != "" && '"' !in r
  {
    match SearchTerm(pretty, releaseFile)
    case None => DefaultDistro(pretty)
    case Some(term) =>
      if release.None? then DefaultDistro(pretty)
      else
        var lines := Split(release.value, '\n');
        var k := FirstStarting(lines, term, 0);
        var name := if k < |lines| then DistroValue(lines[k]) else "";
        if name == "" then "Linux" else name
  }

  /** The value on the first line that starts with the search term names the distribution. */
  lemma DistroNameOfFirstLine(pretty: bool, releaseFile: string, content: string, k: nat)
    requires SearchTerm(pretty, releaseFile).Some?
    requires k < |Split(content, '\n')|
    requires StartsWith(Split(content, '\n')[k], SearchTerm(pretty, releaseFile).value)
    requires forall j :: 0 <= j < k ==> !StartsWith(Split(content, '\n')[j], SearchTerm(pretty, releaseFile).value)
    requires DistroValue(Split(content, '\n')[k]) != ""
    ensures DistroName(pretty, releaseFile, Some(content)) == DistroValue(Split(content, '\n')[k])
  {
    var lines := Split(content, '\n');
    var first := FirstStarting(lines, SearchTerm(pretty, releaseFile).value, 0);
    assert first == k;
  }

  /** getDistroName's loop: stop at the first line with the search term. */
  method GetDistroName(pretty: bool, releaseFile: string, release: Option<string>) returns (name: string)
    ensures name == DistroName(pretty, releaseFile, release)
  {
    var term := SearchTerm(pretty, releaseFile);
    if term.None? || release.None? {
      return DefaultDistro(pretty);
    }
    var lines := Split(release.value, '\n');
    var distroName := "";
    var i := 0;
    while i < |lines|
      invariant 0 <= i <= |lines|
      invariant forall j :: 0 <= j < i ==> !StartsWith(lines[j], term.value)
      invariant distroName == ""
      decreases |lines| - i
    {
      if StartsWith(lines[i], term.value) {
        distroName := DistroValue(lines[i]);
        break;
      }
      i := i + 1;
    }
    assert i == FirstStarting(lines, term.value, 0);
    name := if distroName == "" then "Linux" else distroName;
  }

  // ------------------------------------------------------------- boot options

  const INIT_SYSTEMD := "init=/lib/systemd/systemd"

  /** A path below the root directory, with one slash between the two. */
  function UnderRoot(rootDir: string, relative: string): string
  {
    if EndsWith(rootDir, "/") then rootDir + relative else rootDir + "/" + relative
  }

  function MountpointCommand(dir: string): Command
  {
    ProcAsRoot("mountpoint", ["-q", dir])
  }

  /**
   * determineKernelDir: where the kernels sit inside the file system they are read from,
   * "/boot" or "" when /boot is a partition of its own.
   */
  function KernelDir(bootDir: string, rootDir: string, run: Runner): (r: string)
  {
    if bootDir == "/boot" || bootDir == "/boot/" then
      if !run(MountpointCommand(bootDir)).ok then "/boot" else ""
    else if StartsWith(bootDir, rootDir) then "/boot"
    else ""
  }

  /** The directory a file system is mounted at, written without a trailing slash. */
  function MountPrefix(dir: string): string
  {
    if EndsWith(dir, "/") then dir[..|dir| - 1] else dir
  }

  /**
   * The boot directory of a system mounted at rootDir that has no /boot partition of its
   * own is rootDir's boot directory; the kernel directory is then "/boot", so the path
   * the GRUB menu gives for a kernel, placed under rootDir, is the kernel file in that
   * boot directory.
   */
  lemma KernelPathOnRoot(rootDir: string, vmlinuz: string, run: Runner)
    requires rootDir != "" && rootDir != "/"
    ensures var bootDir := UnderRoot(rootDir, "boot");
      KernelDir(bootDir, rootDir, run) == "/boot" &&
      MountPrefix(rootDir) + KernelDir(bootDir, rootDir, run) + "/" + vmlinuz == bootDir + "/" + vmlinuz
  {
    var bootDir := UnderRoot(rootDir, "boot");
    if EndsWith(rootDir, "/") {
      assert bootDir == rootDir + "boot";
      assert |bootDir| > 5;
      assert bootDir[|bootDir| - 1] == 't';
      assert bootDir[..|rootDir|] == rootDir;
      assert MountPrefix(rootDir) + "/boot" == rootDir + "boot" by {
        assert rootDir == rootDir[..|rootDir| - 1] + "/";
      }
    } else {
      assert bootDir == rootDir + "/boot";
      assert |bootDir| > 5;
      assert bootDir[|bootDir| - 1] == 't';
      assert bootDir[..|rootDir|] == rootDir;
    }
  }

  /**
   * The running system's /boot: when it is not a mount point the kernels lie on the root
   * file system under "/boot"; when it is, they lie at the top of the boot partition.
   */
  lemma KernelPathOfRunningSystem(bootDir: string, vmlinuz: string, run: Runner)
    requires bootDir == "/boot" || bootDir == "/boot/"
    ensures var fsRoot := if run(MountpointCommand(bootDir)).ok then MountPrefix(bootDir) else "";
      fsRoot + KernelDir(bootDir, "/", run) + "/" + vmlinuz == "/boot/" + vmlinuz
  {
  }

  /**
   * A boot partition mounted outside the root directory holds the kernels at its top:
   * the kernel directory is "", and the GRUB path placed under the boot directory is the
   * kernel file there.
   */
  lemma KernelPathOnBootPartition(bootDir: string, rootDir: string, vmlinuz: string, run: Runner)
    requires bootDir != "/boot" && bootDir != "/boot/" && !StartsWith(bootDir, rootDir)
    ensures KernelDir(bootDir, rootDir, run) == ""
    ensures bootDir + KernelDir(bootDir, rootDir, run) + "/" + vmlinuz == bootDir + "/" + vmlinuz
  {
  }

  const GRUB_CMDLINE_PATTERN := "^GRUB_CMDLINE_LINUX=\"\\K[^\"]+"
  const GRUB_DEFAULT_PATTERN := "^GRUB_CMDLINE_LINUX_DEFAULT=\"\\K[^\"]+"

  function GrepCommand(pattern: string, file: string): Command
  {
    ProcAsRoot("grep", ["-m1", "-oP", pattern, file])
  }

  function RootOption(rootUUID: string): string
  {
    if rootUUID != "" then "root=UUID=" + rootUUID else ""
  }

  /** The trimmed output of grep for one GRUB_CMDLINE variable of /etc/default/grub. */
  function GrubCmdline(pattern: string, rootDir: string, run: Runner): string
  {
    Trimmed(run(GrepCommand(pattern, UnderRoot(rootDir, "etc/default/grub"))).output)
  }

  /** `options += " " + piece` when the piece is not empty. */
  function AppendOption(options: string, piece: string): string
  {
    if piece != "" then options + " " + piece else options
  }

  /** getFallbackOptions: root=UUID= and the GRUB_CMDLINE variables of the installed system. */
  function FallbackOptions(rootDir: string, rootUUID: string, files: Files, run: Runner): string
  {
    var rootOption := RootOption(rootUUID);
    if files.fileExists(UnderRoot(rootDir, "etc/default/grub")) then
      var linuxOptions := GrubCmdline(GRUB_CMDLINE_PATTERN, rootDir, run);
      var defaultOptions := GrubCmdline(GRUB_DEFAULT_PATTERN, rootDir, run);
      Trimmed(AppendOption(AppendOption(rootOption, linuxOptions), defaultOptions))
    else Trimmed(rootOption)
  }

  /** The pieces of the fallback options, in order; an absent grub file gives none of its own. */
  function FallbackPieces(rootDir: string, rootUUID: string, files: Files, run: Runner): seq<string>
  {
    [RootOption(rootUUID)] +
    if files.fileExists(UnderRoot(rootDir, "etc/default/grub")) then
      [GrubCmdline(GRUB_CMDLINE_PATTERN, rootDir, run), GrubCmdline(GRUB_DEFAULT_PATTERN, rootDir, run)]
    else []
  }

  /** Two option strings with one space between them, an empty one left out. */
  function Glue(a: string, b: string): string
  {
    if a == "" then b else if b == "" then a else a + " " + b
  }

  /** Appending a trimmed non-empty word with a space keeps a trimmed string trimmed. */
  lemma AppendTrimmed(a: string, b: string)
    requires IsTrimmed(a) && IsTrimmed(b) && a != "" && b != ""
    ensures IsTrimmed(a + " " + b)
  {
    var s := a + " " + b;
    assert s[0] == a[0] && s[|s| - 1] == b[|b| - 1];
  }

  lemma SpaceThenTrimmed(z: string)
    requires IsTrimmed(z)
    ensures Trimmed(" " + z) == z
  {
    assert TrimStart(" " + z) == z by {
      assert (" " + z)[1..] == z;
    }
    assert TrimEnd(z) == z;
  }

  /**
   * One step of getFallbackOptions. Before it the options are g, or a space and a
   * non-empty g; after it they are Glue(g, d), or a space and that.
   */
  lemma AppendOptionStep(x: string, g: string, d: string)
    requires IsTrimmed(g) && IsTrimmed(d)
    requires x == g || (x == " " + g && g != "")
    ensures IsTrimmed(Glue(g, d))
    ensures AppendOption(x, d) == Glue(g, d) || (AppendOption(x, d) == " " + Glue(g, d) && Glue(g, d) != "")
    ensures Trimmed(AppendOption(x, d)) == Glue(g, d)
  {
    if d == "" {
      EmptyPieceStep(x, g);
    } else if g == "" {
      FirstPieceStep(d);
    } else {
      NextPieceStep(x, g, d);
    }
  }

  lemma EmptyPieceStep(x: string, g: string)
    requires IsTrimmed(g)
    requires x == g || (x == " " + g && g != "")
    ensures AppendOption(x, "") == x && Glue(g, "") == g
    ensures Trimmed(x) == g
  {
    assert AppendOption(x, "") == x;
    if x == g {
      TrimmedOfTrimmed(g);
      assert Trimmed(x) == g;
    } else {
      assert x == " " + g;
      SpaceThenTrimmed(g);
      assert Trimmed(x) == g;
    }
  }

  lemma FirstPieceStep(d: string)
    requires IsTrimmed(d) && d != ""
    ensures AppendOption("", d) == " " + d && Glue("", d) == d
    ensures Trimmed(" " + d) == d
  {
    assert "" + " " + d == " " + d;
    SpaceThenTrimmed(d);
  }

  lemma NextPieceStep(x: string, g: string, d: string)
    requires IsTrimmed(g) && IsTrimmed(d) && g != "" && d != ""
    requires x == g || x == " " + g
    ensures Glue(g, d) == g + " " + d && IsTrimmed(g + " " + d)
    ensures AppendOption(x, d) == g + " " + d || AppendOption(x, d) == " " + (g + " " + d)
    ensures Trimmed(AppendOption(x, d)) == g + " " + d
  {
    AppendTrimmed(g, d);
    if x == g {
      TrimmedOfTrimmed(g + " " + d);
    } else {
      assert x + " " + d == " " + (g + " " + d);
      SpaceThenTrimmed(g + " " + d);
    }
  }

  lemma JoinTwo(a: string, b: string)
    ensures JoinBy([a, b], " ") == a + " " + b
  {
    assert [a, b][1..] == [b];
  }

  lemma JoinThree(a: string, b: string, c: string)
    ensures JoinBy([a, b, c], " ") == a + " " + b + " " + c
  {
    assert [a, b, c][1..] == [b, c];
    JoinTwo(b, c);
  }

  lemma NonEmptyThree(a: string, b: string, c: string)
    ensures NonEmpty([a, b, c]) ==
            (if a == "" then [] else [a]) + (if b == "" then [] else [b]) + (if c == "" then [] else [c])
  {
    assert [a, b, c][1..] == [b, c] && [b, c][1..] == [c] && [c][1..] == [];
    assert NonEmpty([c]) == (if c == "" then [] else [c]) + NonEmpty([]);
    assert NonEmpty([b, c]) == (if b == "" then [] else [b]) + NonEmpty([c]);
    assert NonEmpty([a, b, c]) == (if a == "" then [] else [a]) + NonEmpty([b, c]);
  }

  /** Joining the non-empty ones of three pieces with spaces glues them in order. */
  lemma JoinNonEmptyThree(a: string, b: string, c: string)
    ensures JoinBy(NonEmpty([a, b, c]), " ") == Glue(Glue(a, b), c)
  {
    NonEmptyThree(a, b, c);
    if a != "" && b != "" && c != "" {
      JoinThree(a, b, c);
    } else if a != "" && b != "" {
      JoinTwo(a, b);
    } else if a != "" && c != "" {
      JoinTwo(a, c);
    } else if b != "" && c != "" {
      JoinTwo(b, c);
    }
  }

  /**
   * With a trimmed root UUID, the fallback options are the non-empty pieces among
   * root=UUID=<uuid>, GRUB_CMDLINE_LINUX and GRUB_CMDLINE_LINUX_DEFAULT, in that order,
   * one space between each two.
   */
  lemma FallbackOptionsJoin(rootDir: string, rootUUID: string, files: Files, run: Runner)
    requires IsTrimmed(rootUUID)
    ensures FallbackOptions(rootDir, rootUUID, files, run) ==
            JoinBy(NonEmpty(FallbackPieces(rootDir, rootUUID, files, run)), " ")
  {
    var r := RootOption(rootUUID);
    RootOptionTrimmed(rootUUID);
    if files.fileExists(UnderRoot(rootDir, "etc/default/grub")) {
      var l := GrubCmdline(GRUB_CMDLINE_PATTERN, rootDir, run);
      var d := GrubCmdline(GRUB_DEFAULT_PATTERN, rootDir, run);
      GrubCmdlineTrimmed(GRUB_CMDLINE_PATTERN, rootDir, run);
      GrubCmdlineTrimmed(GRUB_DEFAULT_PATTERN, rootDir, run);
      ThreePieces(r, l, d);
      PiecesThree(r, l, d);
    } else {
      TrimmedOfTrimmed(r);
      PiecesOne(r);
    }
  }

  lemma PiecesThree(a: string, b: string, c: string)
    ensures [a] + [b, c] == [a, b, c]
  {
  }

  lemma PiecesOne(a: string)
    ensures [a] + [] == [a] && JoinBy(NonEmpty([a]), " ") == a
  {
    assert [a][1..] == [];
  }

  lemma RootOptionTrimmed(rootUUID: string)
    requires IsTrimmed(rootUUID)
    ensures IsTrimmed(RootOption(rootUUID))
  {
    var r := RootOption(rootUUID);
    if rootUUID != "" {
      assert r[0] == 'r' && r[|r| - 1] == rootUUID[|rootUUID| - 1];
    }
  }

  lemma GrubCmdlineTrimmed(pattern: string, rootDir: string, run: Runner)
    ensures IsTrimmed(GrubCmdline(pattern, rootDir, run))
  {
    TrimmedShape(run(GrepCommand(pattern, UnderRoot(rootDir, "etc/default/grub"))).output);
  }

  lemma ThreePieces(r: string, l: string, d: string)
    requires IsTrimmed(r) && IsTrimmed(l) && IsTrimmed(d)
    ensures Trimmed(AppendOption(AppendOption(r, l), d)) == JoinBy(NonEmpty([r, l, d]), " ")
  {
    AppendOptionStep(r, r, l);
    AppendOptionStep(AppendOption(r, l), Glue(r, l), d);
    JoinNonEmptyThree(r, l, d);
  }

  /**
   * combineBootOptions: on a systemd system whose init is shim-systemd, option lists that
   * do not name the systemd init get it appended; empty options stay empty.
   */
  function CombineBootOptions(parsed: string, rootDir: string, systemd: bool, files: Files): string
  {
    if parsed != "" && systemd && !Contains(parsed, INIT_SYSTEMD) && IsShimSystemd(rootDir, files) then
      parsed + " " + INIT_SYSTEMD
    else parsed
  }

  lemma InitAppended(parsed: string)
    ensures Contains(parsed + " " + INIT_SYSTEMD, INIT_SYSTEMD)
  {
    var s := parsed + " " + INIT_SYSTEMD;
    assert s[|parsed| + 1..|parsed| + 1 + |INIT_SYSTEMD|] == INIT_SYSTEMD;
    ContainsAt(s, INIT_SYSTEMD, |parsed| + 1);
  }

  /**
   * The combined options are the parsed ones, or the parsed ones followed by a space and
   * the systemd init; they name that init whenever it was wanted, and combining again
   * changes nothing.
   */
  lemma CombineBootOptionsMeaning(parsed: string, rootDir: string, systemd: bool, files: Files)
    ensures var r := CombineBootOptions(parsed, rootDir, systemd, files);
            (r == parsed || r == parsed + " " + INIT_SYSTEMD) &&
            (parsed == "" ==> r == "") &&
            (parsed != "" && systemd && IsShimSystemd(rootDir, files) ==> Contains(r, INIT_SYSTEMD)) &&
            CombineBootOptions(r, rootDir, systemd, files) == r
  {
    InitAppended(parsed);
  }

  // ------------------------------------------------------------- shim systemd

  const INIT_PATHS: seq<string> :=
    ["/usr/sbin/init", "/sbin/init", "/usr/bin/init", "/usr/lib/systemd/systemd", "/lib/systemd/systemd"]

  /** The path without one trailing slash. */
  function WithoutSlash(path: string): string
  {
    if EndsWith(path, "/") then Chop(path, 1) else path
  }

  /**
   * The init path isShimSystemd takes off the end of a root, trying the longer of two
   * paths that end alike first; "" when the root ends in none of them.
   */
  function TrailingInit(root: string): (p: string)
    ensures p == "" || (p in INIT_PATHS && EndsWith(root, p))
    ensures p == "" ==> forall q :: q in INIT_PATHS ==> !EndsWith(root, q)
  {
    if EndsWith(root, "/usr/sbin/init") then "/usr/sbin/init"
    else if EndsWith(root, "/sbin/init") then "/sbin/init"
    else if EndsWith(root, "/usr/bin/init") then "/usr/bin/init"
    else if EndsWith(root, "/usr/lib/systemd/systemd") then "/usr/lib/systemd/systemd"
    else if EndsWith(root, "/lib/systemd/systemd") then "/lib/systemd/systemd"
    else ""
  }

  /**
   * isShimSystemd's clean-up of its argument: one trailing slash, then one init path taken
   * off; what is left followed by that init path gives back the argument without its slash.
   */
  function InitRoot(rootPath: string): (root: string)
    ensures root + TrailingInit(WithoutSlash(rootPath)) == WithoutSlash(rootPath)
  {
    var path := WithoutSlash(rootPath);
    var p := TrailingInit(path);
    assert path == path[..|path| - |p|] + path[|path| - |p|..];
    Chop(path, |p|)
  }

  /** Where a suffix longer than the appended part falls. */
  lemma EndsWithAppend(a: string, b: string, p: string)
    requires |p| > |b|
    ensures EndsWith(a + b, p) <==> EndsWith(a, p[..|p| - |b|]) && p[|p| - |b|..] == b
  {
    var s := a + b;
    if |p| <= |s| {
      assert s[|s| - |p|..] == a[|a| - (|p| - |b|)..] + b;
    }
  }

  /** A plain directory comes back unchanged, with or without a trailing slash. */
  lemma InitRootOfDirectory(dir: string)
    requires !EndsWith(dir, "/")
    requires forall p :: p in INIT_PATHS ==> !EndsWith(dir, p)
    ensures InitRoot(dir) == dir
    ensures InitRoot(dir + "/") == dir
  {
    assert (dir + "/")[..|dir|] == dir;
  }

  /** The same directory followed by /sbin/init or /usr/sbin/init gives the directory again. */
  lemma InitRootOfInitPath(dir: string)
    requires !EndsWith(dir, "/usr")
    ensures InitRoot(dir + "/sbin/init") == dir
    ensures InitRoot(dir + "/usr/sbin/init") == dir
  {
    var s := dir + "/sbin/init";
    assert s[|s| - 1] == 't';
    EndsWithAppend(dir, "/sbin/init", "/usr/sbin/init");
    assert "/usr/sbin/init"[..4] == "/usr";
    assert EndsWith(s, "/sbin/init");
    var u := dir + "/usr/sbin/init";
    assert u[|u| - 1] == 't' && EndsWith(u, "/usr/sbin/init");
  }

  /**
   * isShimSystemd: the system under rootPath has an init (sbin/init, else bin/init) and
   * lib/systemd/systemd, and that init is not a symbolic link to a path ending in /systemd.
   */
  function IsShimSystemd(rootPath: string, files: Files): bool
  {
    ShimSystemdAt(InitRoot(rootPath), files)
  }

  /** isShimSystemd's test once the root has been cleaned up. */
  function ShimSystemdAt(root: string, files: Files): bool
  {
    var initPath :=
      if files.fileExists(root + "/sbin/init") then Some(root + "/sbin/init")
      else if files.fileExists(root + "/bin/init") then Some(root + "/bin/init")
      else None;
    if initPath.None? || !files.fileExists(root + "/lib/systemd/systemd") then false
    else if !files.isSymLink(initPath.value) then true
    else
      var target := files.symLinkTarget(initPath.value);
      var relative := if StartsWith(target, root) then target[|root|..] else target;
      !EndsWith(relative, "/systemd")
  }

  /**
   * A shim-systemd system has an init and the systemd binary; an init that is a link to
   * the root's own lib/systemd/systemd is pure systemd, not shim.
   */
  lemma ShimSystemdMeaning(rootPath: string, files: Files)
    ensures var root := InitRoot(rootPath);
            IsShimSystemd(rootPath, files) ==>
              (files.fileExists(root + "/sbin/init") || files.fileExists(root + "/bin/init")) &&
              files.fileExists(root + "/lib/systemd/systemd")
    ensures var root := InitRoot(rootPath);
            files.fileExists(root + "/sbin/init") && files.isSymLink(root + "/sbin/init") &&
            files.symLinkTarget(root + "/sbin/init") == root + "/lib/systemd/systemd" ==>
              !IsShimSystemd(rootPath, files)
  {
    ShimSystemdAtMeaning(InitRoot(rootPath), files);
  }

  lemma ShimSystemdAtMeaning(root: string, files: Files)
    ensures ShimSystemdAt(root, files) ==>
              (files.fileExists(root + "/sbin/init") || files.fileExists(root + "/bin/init")) &&
              files.fileExists(root + "/lib/systemd/systemd")
    ensures files.fileExists(root + "/sbin/init") && files.isSymLink(root + "/sbin/init") &&
            files.symLinkTarget(root + "/sbin/init") == root + "/lib/systemd/systemd" ==>
              !ShimSystemdAt(root, files)
  {
    var target := root + "/lib/systemd/systemd";
    assert StartsWith(target, root) && target[|root|..] == "/lib/systemd/systemd";
    assert EndsWith("/lib/systemd/systemd", "/systemd") by {
      assert "/lib/systemd/systemd"[12..] == "/systemd";
    }
  }
}
