/**
 * renameUefiEntry: relabel a UEFI boot entry by deleting it and creating it again
 * with the same disk, partition and loader. The disk comes from a partition-UUID map
 * built from `sfdisk -d` of every disk `lsblk` lists; the entry comes from the verbose
 * efibootmgr listing.
 */
module RenameEntry {
  import opened Wrappers
  import opened QtText
  import opened Host

  // ------------------------------------------------------------ line filters

  /** The lines that contain needle, in order. */
  function LinesContaining(lines: seq<string>, needle: string): (r: seq<string>)
    ensures forall k :: 0 <= k < |r| ==> r[k] in lines && Contains(r[k], needle)
    ensures forall x :: x in lines && Contains(x, needle) ==> x in r
  {
    if lines == [] then []
    else
      var front, last := lines[..|lines| - 1], lines[|lines| - 1];
      assert lines == front + [last];
      LinesContaining(front, needle) + (if Contains(last, needle) then [last] else [])
  }

  /** The filtered lines joined with '\n' and split again, empty parts skipped. */
  function Rejoined(lines: seq<string>): seq<string>
  {
    SplitSkipEmpty(Join(lines, '\n'), '\n')
  }

  /** The lines of a program's output that contain needle, as the source re-reads them. */
  function FilteredLines(output: string, needle: string): seq<string>
  {
    Rejoined(LinesContaining(SplitSkipEmpty(output, '\n'), needle))
  }

  /** A non-empty line without '\n' survives joining and splitting again unchanged. */
  lemma RejoinedLines(lines: seq<string>)
    requires forall k :: 0 <= k < |lines| ==> lines[k] != "" && '\n' !in lines[k]
    ensures Rejoined(lines) == lines
  {
    SplitSkipEmptyJoin(lines, '\n');
  }

  /** The lines of output that contain needle: re-splitting them changes nothing. */
  lemma FilteredLinesAreTheMatchingLines(output: string, needle: string)
    ensures FilteredLines(output, needle) == LinesContaining(SplitSkipEmpty(output, '\n'), needle)
  {
    var lines := SplitSkipEmpty(output, '\n');
    SplitPartsFree(output, '\n');
    RejoinedLines(LinesContaining(lines, needle));
  }

  // ---------------------------------------------------------------- lsblk

  const DISK_TYPE: string := "TYPE=\"disk\""

  /** `^NAME="([^"]+)".*$` on one line of `lsblk --pairs`. */
  function DiskName(line: string): (r: Option<string>)
    ensures r.Some? ==> r.value != "" && '"' !in r.value
  {
    if !StartsWith(line, "NAME=\"") then None
    else
      var e := SpanEnd(line, 6, c => c != '"');
      if e == 6 || e == |line| || '\n' in BeforeFinalNewline(line[e + 1..]) then None
      else Some(line[6..e])
  }

  /** A line naming the disk first is read back as that name. */
  lemma DiskNameOfPairs(name: string, rest: string)
    requires name != "" && '"' !in name && '\n' !in rest
    ensures DiskName("NAME=\"" + name + "\"" + rest) == Some(name)
  {
    var line := "NAME=\"" + name + "\"" + rest;
    assert line[..6] == "NAME=\"";
    assert line[6..6 + |name|] == name && line[6 + |name|] == '"';
    SpanEndAt(line, 6, 6 + |name|, c => c != '"');
    assert line[6 + |name| + 1..] == rest;
  }

  /** The names the disk-name pattern captures, in order. */
  function DiskNamesOf(lines: seq<string>): (r: seq<string>)
    ensures forall k :: 0 <= k < |r| ==> r[k] != ""
  {
    if lines == [] then []
    else
      var front, last := lines[..|lines| - 1], lines[|lines| - 1];
      DiskNamesOf(front) + (match DiskName(last) case Some(n) => [n] case None => [])
  }

  /** The disks to look at: names from the lines of type disk. */
  function DiskNames(lsblkRaw: string): seq<string>
  {
    DiskNamesOf(FilteredLines(lsblkRaw, DISK_TYPE))
  }

  // ---------------------------------------------------------------- sfdisk

  const PART_MARK: string := ": start="

  /** The end of the uuid that starts at index i: the text up to the next comma. */
  function NonCommaEnd(line: string, i: nat): nat
    requires i <= |line|
  {
    SpanEnd(line, i, c => c != ',')
  }

  /** `[[:blank:]]uuid=` followed by a non-comma at index i. */
  predicate UuidMarkAt(line: string, i: nat)
  {
    i + 6 < |line| && IsBlank(line[i]) && line[i + 1..i + 6] == "uuid=" && line[i + 6] != ','
  }

  /**
   * The greedy `.*` before `[[:blank:]]uuid=`: the last mark at or after lo and at or
   * before hi that the `.*` can reach (no '\n' between lo and it).
   */
  function LastUuidMark(line: string, lo: nat, hi: nat): (r: Option<nat>)
    requires lo <= |line|
    ensures r.Some? ==> lo <= r.value <= hi && UuidMarkAt(line, r.value) && r.value <= |line|
    ensures r.Some? ==> '\n' !in line[lo..r.value]
    ensures r.Some? ==> forall i :: r.value < i <= hi && i <= |line| && '\n' !in line[lo..i] ==> !UuidMarkAt(line, i)
    ensures r.None? ==> forall i :: lo <= i <= hi && i <= |line| && '\n' !in line[lo..i] ==> !UuidMarkAt(line, i)
    decreases hi
  {
    if hi < lo then None
    else if hi <= |line| && '\n' !in line[lo..hi] && UuidMarkAt(line, hi) then Some(hi)
    else if hi == 0 then None
    else LastUuidMark(line, lo, hi - 1)
  }

  /**
   * `^([^[:blank:]]+)[[:blank:]]:[[:blank:]].*[[:blank:]]uuid=([^,]+)` on one line of
   * `sfdisk -d`: the device and the partition's uuid.
   */
  function PartEntry(line: string): (r: Option<(string, string)>)
    ensures r.Some? ==> r.value.0 != "" && r.value.1 != "" && ',' !in r.value.1
  {
    var d := SpanEnd(line, 0, c => !IsBlank(c));
    if d == 0 || d + 3 > |line| || !IsBlank(line[d]) || line[d + 1] != ':' || !IsBlank(line[d + 2]) then None
    else
      match LastUuidMark(line, d + 3, |line|)
      case None => None
      case Some(i) =>
        var u := NonCommaEnd(line, i + 6);
        assert forall k :: i + 6 <= k < u ==> line[k] != ',';
        Some((line[..d], line[i + 6..u]))
  }

  /** Partition uuids (lower-cased) to devices; a later line for the same uuid wins. */
  function PartitionsOf(m: map<string, string>, lines: seq<string>): map<string, string>
  {
    if lines == [] then m
    else
      var front, last := lines[..|lines| - 1], lines[|lines| - 1];
      var prior := PartitionsOf(m, front);
      match PartEntry(last)
      case None => prior
      case Some((device, uuid)) => prior[ToLower(uuid) := device]
  }

  function SfdiskCommand(disk: string): Command
  {
    ProcAsRoot("sfdisk", ["-d", "/dev/" + disk])
  }

  /** The map after reading the sfdisk dump of every disk in turn. */
  function PartitionsFrom(disks: seq<string>, run: Runner): map<string, string>
  {
    if disks == [] then map[]
    else
      var front, last := disks[..|disks| - 1], disks[|disks| - 1];
      PartitionsOf(PartitionsFrom(front, run), FilteredLines(run(SfdiskCommand(last)).output, PART_MARK))
  }

  /** Some partition line of lines names device for the (lower-cased) uuid key. */
  ghost predicate ListsPartition(lines: seq<string>, key: string, device: string)
  {
    exists k :: 0 <= k < |lines| && PartEntry(lines[k]).Some? && PartEntry(lines[k]).value.0 == device &&
      ToLower(PartEntry(lines[k]).value.1) == key
  }

  /** A map entry is the device of the last partition line carrying that uuid, or was there before. */
  lemma {:induction false} PartitionsOfEntry(m: map<string, string>, lines: seq<string>, key: string)
    requires key in PartitionsOf(m, lines)
    ensures ListsPartition(lines, key, PartitionsOf(m, lines)[key]) || (key in m && m[key] == PartitionsOf(m, lines)[key])
  {
    if lines != [] {
      var front, last := lines[..|lines| - 1], lines[|lines| - 1];
      match PartEntry(last)
      case None =>
        PartitionsOfEntry(m, front, key);
        assert forall k :: 0 <= k < |front| ==> front[k] == lines[k];
      case Some((device, uuid)) =>
        if ToLower(uuid) == key {
          assert PartEntry(lines[|lines| - 1]).value.0 == PartitionsOf(m, lines)[key];
        } else {
          PartitionsOfEntry(m, front, key);
          assert forall k :: 0 <= k < |front| ==> front[k] == lines[k];
        }
    }
  }

  /** Every device in the map comes from a partition line of some disk's sfdisk dump. */
  lemma {:induction false} PartitionsFromEntry(disks: seq<string>, run: Runner, key: string)
    requires key in PartitionsFrom(disks, run)
    ensures exists i :: 0 <= i < |disks| && ListsPartition(FilteredLines(run(SfdiskCommand(disks[i])).output, PART_MARK),
                                                     key, PartitionsFrom(disks, run)[key])
  {
    var front, last := disks[..|disks| - 1], disks[|disks| - 1];
    var lines := FilteredLines(run(SfdiskCommand(last)).output, PART_MARK);
    PartitionsOfEntry(PartitionsFrom(front, run), lines, key);
    if ListsPartition(lines, key, PartitionsFrom(disks, run)[key]) {
      assert disks[|disks| - 1] == last;
    } else {
      PartitionsFromEntry(front, run, key);
      var i :| 0 <= i < |front| && ListsPartition(FilteredLines(run(SfdiskCommand(front[i])).output, PART_MARK),
                                                 key, PartitionsFrom(front, run)[key]);
      assert disks[i] == front[i];
    }
  }

  // ---------------------------------------------------- efibootmgr --verbose

  /**
   * The captures of the verbose-listing pattern
   * `^Boot([[:xdigit:]]{4})\*?[[:blank:]]+(.+)[[:blank:]]+HD\(([[:digit:]]+),[^,]+,([^,]+)[^\)]+\)/File\(([^\)]+)\)`.
   */
  datatype EfiEntry = EfiEntry(number: string, name: string, part: string, uuid: string, loader: string)

  const HD_OPEN: string := "HD("
  const FILE_OPEN: string := ")/File("

  /** `([^\)]+)\)` after `)/File(` at index v: the loader. */
  function LoaderAt(line: string, v: nat): (r: Option<string>)
    requires v <= |line|
    ensures r.Some? ==> r.value != "" && ')' !in r.value
  {
    if !OccursAt(line, FILE_OPEN, v) then None
    else
      var w := SpanEnd(line, v + 7, c => c != ')');
      if w == v + 7 || w >= |line| then None
      else
        Some(line[v + 7..w])
  }

  /**
   * `([^,]+)[^\)]+\)/File\(([^\)]+)\)` from index q, the uuid ending at u at the latest:
   * the greedy uuid gives back characters until the rest matches.
   */
  function UuidAndLoader(line: string, q: nat, u: nat): (r: Option<(string, string)>)
    requires q <= u <= |line|
    ensures r.Some? ==> r.value.0 != "" && r.value.1 != ""
    decreases u
  {
    if u == q then None
    else if u < |line| && line[u] != ')' && LoaderAt(line, SpanEnd(line, u, c => c != ')')).Some? then
      Some((line[q..u], LoaderAt(line, SpanEnd(line, u, c => c != ')')).value))
    else UuidAndLoader(line, q, u - 1)
  }

  /** `([[:digit:]]+),[^,]+,` then the uuid and the loader, from index f (just after `HD(`). */
  function EfiTail(line: string, f: nat): (r: Option<(string, string, string)>)
    requires f <= |line|
    ensures r.Some? ==> r.value.0 != "" && AllDigits(r.value.0)
  {
    var d := SpanEnd(line, f, IsDigit);
    if d == f || d >= |line| || line[d] != ',' then None
    else
      var g := NonCommaEnd(line, d + 1);
      if g == d + 1 || g >= |line| then None
      else
        match UuidAndLoader(line, g + 1, NonCommaEnd(line, g + 1))
        case None => None
        case Some((uuid, loader)) => Some((line[f..d], uuid, loader))
  }

  /** The rest of the pattern matches when the label ends just before index e. */
  predicate TailFrom(line: string, s: nat, e: nat)
    requires s <= e < |line|
  {
    '\n' !in line[s..e] && IsBlank(line[e]) &&
    var f := SpanEnd(line, e, IsBlank);
    OccursAt(line, HD_OPEN, f) && EfiTail(line, f + 3).Some?
  }

  /** The greedy `(.+)` from s: the largest end at or below e after which the rest matches. */
  function LabelEnd(line: string, s: nat, e: int): (r: Option<nat>)
    requires s <= |line| && e < |line|
    ensures r.Some? ==> s < r.value <= e && TailFrom(line, s, r.value)
    ensures forall j :: (if r.Some? then r.value else s) < j <= e ==> !TailFrom(line, s, j)
    decreases e
  {
    if e <= s then None
    else if TailFrom(line, s, e) then Some(e)
    else
      var r := LabelEnd(line, s, e - 1);
      assert forall j :: (if r.Some? then r.value else s) < j <= e - 1 ==> !TailFrom(line, s, j);
      r
  }

  /** `[[:blank:]]+` taking k of the blanks after index b, fewer when the rest fails. */
  function BlankChoice(line: string, b: nat, k: nat): (r: Option<EfiEntry>)
    requires 8 <= b && b + k <= |line|
    ensures r.Some? ==> r.value.number == line[4..8]
    decreases k
  {
    if k == 0 then None
    else
      match LabelEnd(line, b + k, |line| - 1)
      case Some(e) =>
        assert TailFrom(line, b + k, e);
        var f := SpanEnd(line, e, IsBlank);
        assert OccursAt(line, HD_OPEN, f) && EfiTail(line, f + 3).Some?;
        var t := EfiTail(line, f + 3).value;
        Some(EfiEntry(line[4..8], line[b + k..e], t.0, t.1, t.2))
      case None => BlankChoice(line, b, k - 1)
  }

  /** One line of `efibootmgr --verbose` against the pattern; None when it does not match. */
  function EfiMatch(line: string): (r: Option<EfiEntry>)
    ensures r.Some? ==> |line| >= 9 && StartsWith(line, "Boot") && r.value.number == line[4..8]
    ensures r.Some? ==> forall i :: 0 <= i < 4 ==> IsHexDigit(r.value.number[i])
  {
    if |line| < 9 || line[..4] != "Boot" || !(IsHexDigit(line[4]) && IsHexDigit(line[5]) && IsHexDigit(line[6]) && IsHexDigit(line[7]))
    then None
    else
      var b := if line[8] == '*' then 9 else 8;
      HexNumberAt(line);
      BlankChoice(line, b, SpanEnd(line, b, IsBlank) - b)
  }

  /** The four characters after `Boot`, when hexadecimal digits, make a hexadecimal number. */
  lemma HexNumberAt(line: string)
    requires |line| >= 8 && IsHexDigit(line[4]) && IsHexDigit(line[5]) && IsHexDigit(line[6]) && IsHexDigit(line[7])
    ensures forall i :: 0 <= i < 4 ==> IsHexDigit(line[4..8][i])
  {
    var n := line[4..8];
    assert n[0] == line[4] && n[1] == line[5] && n[2] == line[6] && n[3] == line[7];
  }

  // ------------------------------------------------------------ choosing the entry

  /** A listing line that matches and carries the old label (any label for "*"). */
  predicate Candidate(line: string, oldLabel: string)
  {
    EfiMatch(line).Some? && (EfiMatch(line).value.name == oldLabel || oldLabel == "*")
  }

  /** A candidate that also carries the requested boot number, when one is given. */
  predicate Acceptable(line: string, oldLabel: string, oldBootNum: string)
  {
    Candidate(line, oldLabel) && (oldBootNum == "" || EfiMatch(line).value.number == oldBootNum)
  }

  /** Where the scan of the listing stands: nothing chosen yet, an entry chosen, or a second match. */
  datatype Selection = NoTarget | Target(entry: EfiEntry) | Ambiguous

  function SelectStep(sel: Selection, line: string, oldLabel: string, oldBootNum: string): Selection
  {
    if sel.Ambiguous? || !Candidate(line, oldLabel) then sel
    else if sel.NoTarget? then
      if Acceptable(line, oldLabel, oldBootNum) then Target(EfiMatch(line).value) else NoTarget
    else if oldBootNum == "" then Ambiguous
    else sel
  }

  /** The scan of the whole listing; a second match without a boot number stops it. */
  function Select(lines: seq<string>, oldLabel: string, oldBootNum: string): Selection
  {
    if lines == [] then NoTarget
    else SelectStep(Select(lines[..|lines| - 1], oldLabel, oldBootNum), lines[|lines| - 1], oldLabel, oldBootNum)
  }

  /** Two different candidate lines. */
  ghost predicate TwoCandidates(lines: seq<string>, oldLabel: string)
  {
    exists i, j :: 0 <= i < j < |lines| && Candidate(lines[i], oldLabel) && Candidate(lines[j], oldLabel)
  }

  /** Line k is the first acceptable line, and with no boot number the only candidate. */
  ghost predicate ChosenAt(lines: seq<string>, oldLabel: string, oldBootNum: string, k: nat)
  {
    k < |lines| && Acceptable(lines[k], oldLabel, oldBootNum) &&
    (forall j :: 0 <= j < k ==> !Acceptable(lines[j], oldLabel, oldBootNum)) &&
    (oldBootNum == "" ==> forall j :: 0 <= j < |lines| && j != k ==> !Candidate(lines[j], oldLabel))
  }

  /** The first acceptable line is line k, and with no boot number it is the only candidate. */
  ghost predicate TargetMeaning(lines: seq<string>, oldLabel: string, oldBootNum: string, e: EfiEntry)
  {
    exists k: nat :: ChosenAt(lines, oldLabel, oldBootNum, k) && e == EfiMatch(lines[k]).value
  }

  /** What the scan decides, stated without the scan. */
  ghost predicate SelectionMeans(lines: seq<string>, oldLabel: string, oldBootNum: string, sel: Selection)
  {
    (sel.NoTarget? <==> forall j :: 0 <= j < |lines| ==> !Acceptable(lines[j], oldLabel, oldBootNum)) &&
    (sel.Ambiguous? <==> oldBootNum == "" && TwoCandidates(lines, oldLabel)) &&
    (sel.Target? ==> TargetMeaning(lines, oldLabel, oldBootNum, sel.entry))
  }

  /**
   * No target exactly when no line is acceptable; a second match exactly when no boot
   * number is given and two lines are candidates; otherwise the entry of the first
   * acceptable line, which is the only candidate when no boot number is given.
   */
  lemma {:induction false} SelectMeaning(lines: seq<string>, oldLabel: string, oldBootNum: string)
    ensures SelectionMeans(lines, oldLabel, oldBootNum, Select(lines, oldLabel, oldBootNum))
  {
    if lines != [] {
      var front, last := lines[..|lines| - 1], lines[|lines| - 1];
      assert lines == front + [last];
      SelectMeaning(front, oldLabel, oldBootNum);
      var prior := Select(front, oldLabel, oldBootNum);
      if prior.Ambiguous? {
        StepFromAmbiguous(front, last, oldLabel, oldBootNum);
      } else if prior.NoTarget? {
        StepFromNoTarget(front, last, oldLabel, oldBootNum);
      } else {
        StepFromTarget(front, last, oldLabel, oldBootNum, prior.entry);
      }
    }
  }

  lemma StepFromAmbiguous(front: seq<string>, last: string, oldLabel: string, oldBootNum: string)
    requires SelectionMeans(front, oldLabel, oldBootNum, Ambiguous)
    ensures SelectionMeans(front + [last], oldLabel, oldBootNum, Ambiguous)
  {
    var lines := front + [last];
    var i, j :| 0 <= i < j < |front| && Candidate(front[i], oldLabel) && Candidate(front[j], oldLabel);
    assert lines[i] == front[i] && lines[j] == front[j];
    assert Acceptable(lines[i], oldLabel, oldBootNum);
  }

  lemma StepFromNoTarget(front: seq<string>, last: string, oldLabel: string, oldBootNum: string)
    requires SelectionMeans(front, oldLabel, oldBootNum, NoTarget)
    ensures SelectionMeans(front + [last], oldLabel, oldBootNum, SelectStep(NoTarget, last, oldLabel, oldBootNum))
  {
    var lines := front + [last];
    var n := |front|;
    assert forall j :: 0 <= j < n ==> lines[j] == front[j];
    assert lines[n] == last;
    if oldBootNum == "" {
      assert forall i :: 0 <= i < n ==> !Candidate(lines[i], oldLabel);
    }
    if Acceptable(last, oldLabel, oldBootNum) {
      assert ChosenAt(lines, oldLabel, oldBootNum, n);
    }
  }

  lemma StepFromTarget(front: seq<string>, last: string, oldLabel: string, oldBootNum: string, e: EfiEntry)
    requires SelectionMeans(front, oldLabel, oldBootNum, Target(e))
    ensures SelectionMeans(front + [last], oldLabel, oldBootNum, SelectStep(Target(e), last, oldLabel, oldBootNum))
  {
    var k: nat :| ChosenAt(front, oldLabel, oldBootNum, k) && e == EfiMatch(front[k]).value;
    if Candidate(last, oldLabel) && oldBootNum == "" {
      TargetThenSecond(front, last, oldLabel, k);
    } else {
      TargetKept(front, last, oldLabel, oldBootNum, e, k);
    }
  }

  /** A second candidate after the chosen line, with no boot number given, is a second match. */
  lemma TargetThenSecond(front: seq<string>, last: string, oldLabel: string, k: nat)
    requires k < |front| && Acceptable(front[k], oldLabel, "") && Candidate(last, oldLabel)
    ensures SelectionMeans(front + [last], oldLabel, "", Ambiguous)
  {
    var lines, n := front + [last], |front|;
    assert lines[k] == front[k] && lines[n] == last;
    assert Acceptable(lines[k], oldLabel, "");
    assert Candidate(lines[k], oldLabel) && Candidate(lines[n], oldLabel);
  }

  /** Any other line after the chosen one leaves it chosen. */
  lemma TargetKept(front: seq<string>, last: string, oldLabel: string, oldBootNum: string, e: EfiEntry, k: nat)
    requires ChosenAt(front, oldLabel, oldBootNum, k) && e == EfiMatch(front[k]).value
    requires !(Candidate(last, oldLabel) && oldBootNum == "")
    ensures SelectionMeans(front + [last], oldLabel, oldBootNum, Target(e))
  {
    var lines, n := front + [last], |front|;
    assert forall j :: 0 <= j < n ==> lines[j] == front[j];
    assert lines[n] == last;
    assert ChosenAt(lines, oldLabel, oldBootNum, k);
    if oldBootNum == "" {
      forall i, j | 0 <= i < j < |lines| && Candidate(lines[i], oldLabel)
        ensures !Candidate(lines[j], oldLabel)
      {
      }
    }
  }

  /** Once a second match is seen, nothing after it changes the outcome. */
  lemma {:induction false} AmbiguousStays(lines: seq<string>, i: nat, oldLabel: string, oldBootNum: string)
    requires i <= |lines| && Select(lines[..i], oldLabel, oldBootNum).Ambiguous?
    ensures Select(lines, oldLabel, oldBootNum).Ambiguous?
    decreases |lines| - i
  {
    if i < |lines| {
      assert lines[..i + 1][..i] == lines[..i];
      AmbiguousStays(lines, i + 1, oldLabel, oldBootNum);
    } else {
      assert lines[..i] == lines;
    }
  }

  // ------------------------------------------------------------ device names

  /** `p?([[:digit:]]+)$` from index n: the partition number after the disk name t[..n]. */
  function PartitionAfter(t: string, n: nat): (r: Option<(string, string)>)
    requires n <= |t|
    ensures r.Some? ==> r.value.0 == t[..n] && r.value.1 != "" && AllDigits(r.value.1)
  {
    var rest := t[n..];
    if rest != [] && AllDigits(rest) then Some((t[..n], rest))
    else if |rest| >= 2 && rest[0] == 'p' && AllDigits(rest[1..]) then Some((t[..n], rest[1..]))
    else None
  }

  /**
   * `[[:digit:]]+p?([[:digit:]]+)$` from index i: the greedy digits give back one digit
   * when no `p` follows them.
   */
  function DigitsThenPartition(t: string, i: nat): (r: Option<(string, string)>)
    requires i <= |t|
    ensures r.Some? ==> r.value.1 != "" && AllDigits(r.value.1)
  {
    var j := SpanEnd(t, i, IsDigit);
    if j == i then None
    else if j == |t| then
      if j - i >= 2 then Some((t[..j - 1], t[j - 1..])) else None
    else if t[j] == 'p' && j + 1 < |t| && AllDigits(t[j + 1..]) then Some((t[..j], t[j + 1..]))
    else None
  }

  /**
   * `^(/dev/sd[a-z]|<nvme>[[:digit:]]+n[[:digit:]]+|<mmc>[[:digit:]]+)p?([[:digit:]]+)$`:
   * the disk name and the partition number.
   */
  function DevicePartsWith(dev: string, nvme: string, mmc: string): (r: Option<(string, string)>)
    ensures r.Some? ==> r.value.1 != "" && AllDigits(r.value.1)
  {
    var t := BeforeFinalNewline(dev);
    if StartsWith(t, "/dev/sd") && |t| > 7 && 'a' <= t[7] <= 'z' then PartitionAfter(t, 8)
    else if StartsWith(t, nvme) then
      var d := SpanEnd(t, |nvme|, IsDigit);
      if d == |nvme| || d >= |t| || t[d] != 'n' then None else DigitsThenPartition(t, d + 1)
    else if StartsWith(t, mmc) then DigitsThenPartition(t, |mmc|)
    else None
  }

  /** The device-name check as written: only the SATA alternative carries `/dev/`. */
  function DeviceParts(dev: string): Option<(string, string)>
  {
    DevicePartsWith(dev, "nvme", "mmcblk")
  }

  /** The device-name check with `/dev/` on every alternative. */
  function DevicePartsCorrected(dev: string): Option<(string, string)>
  {
    DevicePartsWith(dev, "/dev/nvme", "/dev/mmcblk")
  }

  /** Which version of the device-name check the checks apply. */
  datatype DevicePattern = AsWritten | Corrected

  function DevicePartsBy(pattern: DevicePattern, dev: string): Option<(string, string)>
  {
    if pattern.AsWritten? then DeviceParts(dev) else DevicePartsCorrected(dev)
  }

  /** A SATA partition splits into its disk and its number, in both versions of the check. */
  lemma SataPartition(x: char, n: string)
    requires 'a' <= x <= 'z' && n != "" && AllDigits(n)
    ensures DeviceParts("/dev/sd" + [x] + n) == Some(("/dev/sd" + [x], n))
    ensures DevicePartsCorrected("/dev/sd" + [x] + n) == Some(("/dev/sd" + [x], n))
  {
    var t := "/dev/sd" + [x] + n;
    assert t[|t| - 1] == n[|n| - 1];
    assert BeforeFinalNewline(t) == t;
    assert t[..7] == "/dev/sd" && t[7] == x;
    assert t[..8] == "/dev/sd" + [x] && t[8..] == n;
  }

  /** What sfdisk prints for an NVMe partition never passes the check as written. */
  lemma NvmePartitionRejected(a: string, b: string, n: string)
    requires AllDigits(n) && n != ""
    ensures DeviceParts("/dev/nvme" + a + "n" + b + "p" + n) == None
  {
    var t := "/dev/nvme" + a + "n" + b + "p" + n;
    assert t[|t| - 1] == n[|n| - 1];
    assert BeforeFinalNewline(t) == t;
    assert t[0] == '/' && t[5] == 'n';
  }

  /** What sfdisk prints for an SD/MMC partition never passes the check as written. */
  lemma MmcPartitionRejected(a: string, n: string)
    requires AllDigits(n) && n != ""
    ensures DeviceParts("/dev/mmcblk" + a + "p" + n) == None
  {
    var t := "/dev/mmcblk" + a + "p" + n;
    assert t[|t| - 1] == n[|n| - 1];
    assert BeforeFinalNewline(t) == t;
    assert t[0] == '/' && t[5] == 'm';
  }

  /** The corrected check splits an NVMe partition into its namespace device and its number. */
  lemma NvmePartitionAccepted(a: string, b: string, n: string)
    requires a != "" && AllDigits(a) && b != "" && AllDigits(b) && n != "" && AllDigits(n)
    ensures DevicePartsCorrected("/dev/nvme" + a + "n" + b + "p" + n) == Some(("/dev/nvme" + a + "n" + b, n))
  {
    var t := "/dev/nvme" + a + "n" + b + "p" + n;
    var d := 9 + |a|;
    var j := d + 1 + |b|;
    NvmeLayout(t, a, b, n, d, j);
    DigitRunAt(t, 9, a, d);
    DigitRunAt(t, d + 1, b, j);
    DigitsThenPartitionAt(t, d + 1, j);
    assert DevicePartsCorrected(t) == DigitsThenPartition(t, d + 1);
  }

  /** Digits from i up to j, then `p` and the trailing digits: the disk before the `p`, the number after it. */
  lemma DigitsThenPartitionAt(t: string, i: nat, j: nat)
    requires i < j && j + 1 < |t| && SpanEnd(t, i, IsDigit) == j && t[j] == 'p' && AllDigits(t[j + 1..])
    ensures DigitsThenPartition(t, i) == Some((t[..j], t[j + 1..]))
  {
  }

  /** Where the pieces of an NVMe partition name sit. */
  lemma NvmeLayout(t: string, a: string, b: string, n: string, d: nat, j: nat)
    requires t == "/dev/nvme" + a + "n" + b + "p" + n && n != "" && AllDigits(n)
    requires d == 9 + |a| && j == d + 1 + |b|
    ensures BeforeFinalNewline(t) == t && StartsWith(t, "/dev/nvme") && !StartsWith(t, "/dev/sd")
    ensures |t| == j + 1 + |n| && t[9..d] == a && t[d] == 'n' && t[d + 1..j] == b && t[j] == 'p'
    ensures t[j + 1..] == n && t[..j] == "/dev/nvme" + a + "n" + b
  {
    assert t[|t| - 1] == n[|n| - 1];
    assert t[..9] == "/dev/nvme";
    assert t[..7] != "/dev/sd" by {
      assert t[5] != "/dev/sd"[5];
    }
  }

  /** A run of digits x at index i of t, followed by a non-digit or the end, ends at j. */
  lemma DigitRunAt(t: string, i: nat, x: string, j: nat)
    requires i + |x| == j <= |t| && t[i..j] == x && AllDigits(x)
    requires j < |t| ==> !IsDigit(t[j])
    ensures SpanEnd(t, i, IsDigit) == j
  {
    assert forall k :: i <= k < j ==> t[k] == x[k - i];
    SpanEndAt(t, i, j, IsDigit);
  }

  /** The corrected check splits an SD/MMC partition into its card device and its number. */
  lemma MmcPartitionAccepted(a: string, n: string)
    requires a != "" && AllDigits(a) && n != "" && AllDigits(n)
    ensures DevicePartsCorrected("/dev/mmcblk" + a + "p" + n) == Some(("/dev/mmcblk" + a, n))
  {
    var t := "/dev/mmcblk" + a + "p" + n;
    var j := 11 + |a|;
    MmcLayout(t, a, n, j);
    DigitRunAt(t, 11, a, j);
    DigitsThenPartitionAt(t, 11, j);
  }

  /** Where the pieces of an SD/MMC partition name sit. */
  lemma MmcLayout(t: string, a: string, n: string, j: nat)
    requires t == "/dev/mmcblk" + a + "p" + n && n != "" && AllDigits(n)
    requires j == 11 + |a|
    ensures BeforeFinalNewline(t) == t && StartsWith(t, "/dev/mmcblk") && !StartsWith(t, "/dev/nvme")
    ensures !StartsWith(t, "/dev/sd")
    ensures |t| == j + 1 + |n| && t[11..j] == a && t[j] == 'p'
    ensures t[j + 1..] == n && t[..j] == "/dev/mmcblk" + a
  {
    assert t[|t| - 1] == n[|n| - 1];
    assert t[..11] == "/dev/mmcblk";
    assert t[..9] != "/dev/nvme" by {
      assert t[5] != "/dev/nvme"[5];
    }
    assert t[..7] != "/dev/sd" by {
      assert t[5] != "/dev/sd"[5];
    }
  }

  // -------------------------------------------------------------- the decision

  datatype RenameError =
    | MissingLabel | MultipleEntries | NoEntry | UnknownPartition | BadDeviceName | PartitionMismatch
    | DeleteFailed | CreateFailed

  /** What the checks decide: the entry to recreate, or why not. */
  datatype Decision = Proceed(bootNum: string, disk: string, part: string, loader: string) | Refuse(why: RenameError)

  /**
   * The checks on the chosen entry, in the order the source makes them; renameUefiEntry
   * applies them with the device-name check AsWritten.
   */
  function Checks(sel: Selection, partitions: map<string, string>, pattern: DevicePattern): Decision
  {
    match sel
    case Ambiguous => Refuse(MultipleEntries)
    case NoTarget => Refuse(NoEntry)
    case Target(e) =>
      var key := ToLower(e.uuid);
      var device := if key in partitions then partitions[key] else "";
      if device == "" then Refuse(UnknownPartition)
      else
        match DevicePartsBy(pattern, device)
        case None => Refuse(BadDeviceName)
        case Some((disk, number)) =>
          if number != e.part then Refuse(PartitionMismatch) else Proceed(e.number, disk, e.part, e.loader)
  }

  /** The decision once the listing is read. */
  function Decide(efiLines: seq<string>, partitions: map<string, string>, oldLabel: string, oldBootNum: string,
                  pattern: DevicePattern): Decision
  {
    Checks(Select(efiLines, oldLabel, oldBootNum), partitions, pattern)
  }

  /** Entry e names a known partition with a well-formed device whose number is e's HD index. */
  predicate PassesChecks(e: EfiEntry, partitions: map<string, string>, pattern: DevicePattern,
                         bootNum: string, disk: string, part: string, loader: string)
  {
    e.number == bootNum && e.part == part && e.loader == loader && ToLower(e.uuid) in partitions &&
    partitions[ToLower(e.uuid)] != "" && DevicePartsBy(pattern, partitions[ToLower(e.uuid)]) == Some((disk, part))
  }

  /**
   * Going ahead means: the first acceptable line (the only candidate when no boot number
   * is given) names a partition whose uuid the map knows, whose device passes the
   * name check, and whose number is the entry's HD index.
   */
  lemma DecideProceeds(efiLines: seq<string>, partitions: map<string, string>, oldLabel: string, oldBootNum: string,
                       pattern: DevicePattern, bootNum: string, disk: string, part: string, loader: string)
    requires Decide(efiLines, partitions, oldLabel, oldBootNum, pattern) == Proceed(bootNum, disk, part, loader)
    ensures exists k: nat ::
              ChosenAt(efiLines, oldLabel, oldBootNum, k) &&
              PassesChecks(EfiMatch(efiLines[k]).value, partitions, pattern, bootNum, disk, part, loader)
  {
    var sel := Select(efiLines, oldLabel, oldBootNum);
    SelectMeaning(efiLines, oldLabel, oldBootNum);
    assert sel.Target?;
    var e := sel.entry;
    ChecksProceed(e, partitions, pattern, bootNum, disk, part, loader);
    var k: nat :| ChosenAt(efiLines, oldLabel, oldBootNum, k) && e == EfiMatch(efiLines[k]).value;
    assert PassesChecks(EfiMatch(efiLines[k]).value, partitions, pattern, bootNum, disk, part, loader);
  }

  lemma ChecksProceed(e: EfiEntry, partitions: map<string, string>, pattern: DevicePattern,
                      bootNum: string, disk: string, part: string, loader: string)
    requires Checks(Target(e), partitions, pattern) == Proceed(bootNum, disk, part, loader)
    ensures PassesChecks(e, partitions, pattern, bootNum, disk, part, loader)
  {
  }

  /** At most one line is the chosen one. */
  lemma ChosenUnique(lines: seq<string>, oldLabel: string, oldBootNum: string, k: nat, k': nat)
    requires ChosenAt(lines, oldLabel, oldBootNum, k) && ChosenAt(lines, oldLabel, oldBootNum, k')
    ensures k == k'
  {
  }

  /** The refusals, each stated by the condition that causes it. */
  lemma DecideRefuses(efiLines: seq<string>, partitions: map<string, string>, oldLabel: string, oldBootNum: string,
                      pattern: DevicePattern)
    ensures oldBootNum == "" && TwoCandidates(efiLines, oldLabel) ==>
      Decide(efiLines, partitions, oldLabel, oldBootNum, pattern) == Refuse(MultipleEntries)
    ensures (forall j :: 0 <= j < |efiLines| ==> !Acceptable(efiLines[j], oldLabel, oldBootNum)) ==>
      Decide(efiLines, partitions, oldLabel, oldBootNum, pattern) == Refuse(NoEntry)
    ensures forall k: nat :: ChosenAt(efiLines, oldLabel, oldBootNum, k) && !(oldBootNum == "" && TwoCandidates(efiLines, oldLabel)) ==>
      var e := EfiMatch(efiLines[k]).value;
      var device := if ToLower(e.uuid) in partitions then partitions[ToLower(e.uuid)] else "";
      (device == "" ==> Decide(efiLines, partitions, oldLabel, oldBootNum, pattern) == Refuse(UnknownPartition)) &&
      (device != "" && DevicePartsBy(pattern, device).None? ==>
         Decide(efiLines, partitions, oldLabel, oldBootNum, pattern) == Refuse(BadDeviceName)) &&
      (device != "" && DevicePartsBy(pattern, device).Some? && DevicePartsBy(pattern, device).value.1 != e.part ==>
         Decide(efiLines, partitions, oldLabel, oldBootNum, pattern) == Refuse(PartitionMismatch))
  {
    SelectMeaning(efiLines, oldLabel, oldBootNum);
    forall k: nat | ChosenAt(efiLines, oldLabel, oldBootNum, k) && !(oldBootNum == "" && TwoCandidates(efiLines, oldLabel))
      ensures Select(efiLines, oldLabel, oldBootNum) == Target(EfiMatch(efiLines[k]).value)
    {
      var sel := Select(efiLines, oldLabel, oldBootNum);
      var k' : nat :| ChosenAt(efiLines, oldLabel, oldBootNum, k') && sel.entry == EfiMatch(efiLines[k']).value;
      ChosenUnique(efiLines, oldLabel, oldBootNum, k, k');
    }
  }

  /** As written, an entry on an NVMe partition is refused for its device name. */
  lemma NvmeEntryRefused(e: EfiEntry, a: string, b: string, n: string)
    requires AllDigits(n) && n != ""
    ensures Checks(Target(e), map[ToLower(e.uuid) := "/dev/nvme" + a + "n" + b + "p" + n], AsWritten)
            == Refuse(BadDeviceName)
  {
    NvmePartitionRejected(a, b, n);
  }

  /** With the corrected check, the same entry goes ahead on its namespace device. */
  lemma NvmeEntryProceeds(e: EfiEntry, a: string, b: string, n: string)
    requires a != "" && AllDigits(a) && b != "" && AllDigits(b) && n != "" && AllDigits(n) && e.part == n
    ensures Checks(Target(e), map[ToLower(e.uuid) := "/dev/nvme" + a + "n" + b + "p" + n], Corrected)
            == Proceed(e.number, "/dev/nvme" + a + "n" + b, n, e.loader)
  {
    NvmePartitionAccepted(a, b, n);
  }

  /** As written, an entry on an SD/MMC partition is refused for its device name. */
  lemma MmcEntryRefused(e: EfiEntry, a: string, n: string)
    requires AllDigits(n) && n != ""
    ensures Checks(Target(e), map[ToLower(e.uuid) := "/dev/mmcblk" + a + "p" + n], AsWritten) == Refuse(BadDeviceName)
  {
    MmcPartitionRejected(a, n);
  }

  /** With the corrected check, the same entry goes ahead on its card device. */
  lemma MmcEntryProceeds(e: EfiEntry, a: string, n: string)
    requires a != "" && AllDigits(a) && n != "" && AllDigits(n) && e.part == n
    ensures Checks(Target(e), map[ToLower(e.uuid) := "/dev/mmcblk" + a + "p" + n], Corrected)
            == Proceed(e.number, "/dev/mmcblk" + a, n, e.loader)
  {
    MmcPartitionAccepted(a, n);
  }

  // -------------------------------------------------------------- the commands

  const LSBLK: Command := ProcAsRoot("lsblk", ["--nodeps", "--noheadings", "--pairs"])
  const EFI_VERBOSE: Command := ProcAsRoot("efibootmgr", ["--verbose"])

  function DeleteCommand(bootNum: string): Command
  {
    ProcAsRoot("efibootmgr", ["--bootnum", bootNum, "--delete-bootnum"])
  }

  function CreateCommand(disk: string, part: string, newLabel: string, loader: string): Command
  {
    ProcAsRoot("efibootmgr", ["--create", "--disk", disk, "--part", part, "--label", newLabel, "--loader", loader])
  }

  predicate IsDelete(c: Command)
  {
    c.program == "efibootmgr" && |c.args| == 3 && c.args[0] == "--bootnum" && c.args[2] == "--delete-bootnum"
  }

  predicate IsCreate(c: Command)
  {
    c.program == "efibootmgr" && |c.args| == 9 && c.args[0] == "--create"
  }

  function SfdiskCommands(disks: seq<string>): (r: seq<Command>)
    ensures |r| == |disks| && forall i :: 0 <= i < |disks| ==> r[i] == SfdiskCommand(disks[i])
  {
    if disks == [] then [] else [SfdiskCommand(disks[0])] + SfdiskCommands(disks[1..])
  }

  /** The queries before any decision: lsblk, sfdisk for each disk, the verbose listing. */
  function Probes(disks: seq<string>): seq<Command>
  {
    [LSBLK] + SfdiskCommands(disks) + [EFI_VERBOSE]
  }

  /** None of the queries deletes or creates an entry. */
  lemma ProbesChangeNothing(disks: seq<string>)
    ensures forall c :: c in Probes(disks) ==> !IsDelete(c) && !IsCreate(c)
  {
    var p := Probes(disks);
    forall c | c in p
      ensures !IsDelete(c) && !IsCreate(c)
    {
      var i :| 0 <= i < |p| && p[i] == c;
      if i == 0 {
        assert c.program == "lsblk";
      } else if i <= |disks| {
        assert c == SfdiskCommand(disks[i - 1]);
        assert c.program[0] == 's';
      } else {
        assert c.args == ["--verbose"];
      }
    }
  }

  datatype RenameStatus = Renamed | Failed(why: RenameError)

  /** After the queries: the delete and then the create, as far as they succeed. */
  function Conclude(probes: seq<Command>, d: Decision, newLabel: string, run: Runner): (RenameStatus, seq<Command>)
  {
    match d
    case Refuse(why) => (Failed(why), probes)
    case Proceed(bootNum, disk, part, loader) =>
      var del := DeleteCommand(bootNum);
      var create := CreateCommand(disk, part, newLabel, loader);
      if !run(del).ok then (Failed(DeleteFailed), probes + [del])
      else if !run(create).ok then (Failed(CreateFailed), probes + [del, create])
      else (Renamed, probes + [del, create])
  }

  /** The verbose listing, split into lines. */
  function EfiLines(run: Runner): seq<string>
  {
    SplitSkipEmpty(run(EFI_VERBOSE).output, '\n')
  }

  /** What the checks decide on the outputs the runner gives. */
  function DecisionOn(oldLabel: string, oldBootNum: string, pattern: DevicePattern, run: Runner): Decision
  {
    var disks := DiskNames(run(LSBLK).output);
    Decide(EfiLines(run), PartitionsFrom(disks, run), oldLabel, oldBootNum, pattern)
  }

  /**
   * renameUefiEntry as a whole: its status and the commands it runs, in order. The source
   * is Rename(..., AsWritten, ...); Rename(..., Corrected, ...) is the intended procedure.
   */
  function Rename(oldLabel: string, newLabel: string, oldBootNum: string, pattern: DevicePattern, run: Runner)
    : (RenameStatus, seq<Command>)
  {
    if oldLabel == "" || newLabel == "" then (Failed(MissingLabel), [])
    else Conclude(Probes(DiskNames(run(LSBLK).output)), DecisionOn(oldLabel, oldBootNum, pattern, run), newLabel, run)
  }

  /** Where deletes and creates can appear after queries that make neither. */
  lemma ConcludeOrder(probes: seq<Command>, d: Decision, newLabel: string, run: Runner, i: nat)
    requires forall c :: c in probes ==> !IsDelete(c) && !IsCreate(c)
    requires i < |Conclude(probes, d, newLabel, run).1|
    ensures var cmds := Conclude(probes, d, newLabel, run).1;
      (IsDelete(cmds[i]) ==> d.Proceed? && i == |probes| && cmds[i] == DeleteCommand(d.bootNum)) &&
      (IsCreate(cmds[i]) ==>
         d.Proceed? && i == |probes| + 1 && cmds[i - 1] == DeleteCommand(d.bootNum) &&
         run(cmds[i - 1]).ok && cmds[i] == CreateCommand(d.disk, d.part, newLabel, d.loader))
  {
    var cmds := Conclude(probes, d, newLabel, run).1;
    if i < |probes| {
      assert cmds[i] == probes[i];
      assert cmds[i] in probes;
    }
  }

  /**
   * Nothing is deleted or created unless every check passed: a refusal runs only the
   * queries, and an entry is deleted only when the checks chose it.
   */
  lemma RefusalChangesNothing(oldLabel: string, newLabel: string, oldBootNum: string, pattern: DevicePattern, run: Runner)
    requires Rename(oldLabel, newLabel, oldBootNum, pattern, run).0.Failed?
    requires Rename(oldLabel, newLabel, oldBootNum, pattern, run).0.why !in {DeleteFailed, CreateFailed}
    ensures forall c :: c in Rename(oldLabel, newLabel, oldBootNum, pattern, run).1 ==> !IsDelete(c) && !IsCreate(c)
  {
    if oldLabel != "" && newLabel != "" {
      var probes := Probes(DiskNames(run(LSBLK).output));
      ProbesChangeNothing(DiskNames(run(LSBLK).output));
      ConcludeRefusal(probes, DecisionOn(oldLabel, oldBootNum, pattern, run), newLabel, run);
    }
  }

  /** A refusal by the checks runs the queries and nothing more. */
  lemma ConcludeRefusal(probes: seq<Command>, d: Decision, newLabel: string, run: Runner)
    requires Conclude(probes, d, newLabel, run).0.Failed?
    requires Conclude(probes, d, newLabel, run).0.why !in {DeleteFailed, CreateFailed}
    ensures Conclude(probes, d, newLabel, run).1 == probes
  {
  }

  /** A delete comes right after the queries, for the entry the checks chose. */
  lemma DeleteFollowsChecks(oldLabel: string, newLabel: string, oldBootNum: string, pattern: DevicePattern, run: Runner, i: nat)
    requires i < |Rename(oldLabel, newLabel, oldBootNum, pattern, run).1| && IsDelete(Rename(oldLabel, newLabel, oldBootNum, pattern, run).1[i])
    ensures oldLabel != "" && newLabel != ""
    ensures var d := DecisionOn(oldLabel, oldBootNum, pattern, run);
      d.Proceed? && i == |Probes(DiskNames(run(LSBLK).output))| &&
      Rename(oldLabel, newLabel, oldBootNum, pattern, run).1[i] == DeleteCommand(d.bootNum)
  {
    var disks := DiskNames(run(LSBLK).output);
    ProbesChangeNothing(disks);
    ConcludeOrder(Probes(disks), DecisionOn(oldLabel, oldBootNum, pattern, run), newLabel, run, i);
  }

  /**
   * A create comes only right after a delete that succeeded, and carries the new label
   * with the chosen entry's disk, partition and loader.
   */
  lemma CreateFollowsDelete(oldLabel: string, newLabel: string, oldBootNum: string, pattern: DevicePattern, run: Runner, i: nat)
    requires i < |Rename(oldLabel, newLabel, oldBootNum, pattern, run).1| && IsCreate(Rename(oldLabel, newLabel, oldBootNum, pattern, run).1[i])
    ensures oldLabel != "" && newLabel != ""
    ensures var cmds := Rename(oldLabel, newLabel, oldBootNum, pattern, run).1;
      var d := DecisionOn(oldLabel, oldBootNum, pattern, run);
      d.Proceed? && i == |Probes(DiskNames(run(LSBLK).output))| + 1 && cmds[i - 1] == DeleteCommand(d.bootNum) &&
      run(cmds[i - 1]).ok && cmds[i] == CreateCommand(d.disk, d.part, newLabel, d.loader)
  {
    var disks := DiskNames(run(LSBLK).output);
    ProbesChangeNothing(disks);
    ConcludeOrder(Probes(disks), DecisionOn(oldLabel, oldBootNum, pattern, run), newLabel, run, i);
  }

  /** Renamed exactly when the checks passed and both efibootmgr runs succeeded. */
  lemma RenamedMeans(oldLabel: string, newLabel: string, oldBootNum: string, pattern: DevicePattern, run: Runner)
    ensures Rename(oldLabel, newLabel, oldBootNum, pattern, run).0 == Renamed <==>
      oldLabel != "" && newLabel != "" &&
      var d := DecisionOn(oldLabel, oldBootNum, pattern, run);
      d.Proceed? && run(DeleteCommand(d.bootNum)).ok && run(CreateCommand(d.disk, d.part, newLabel, d.loader)).ok
  {
  }

  // ------------------------------------------------------------- the procedure

  /** The loop keeping the lines that contain needle. */
  method FilterLines(lines: seq<string>, needle: string) returns (kept: seq<string>)
    ensures kept == LinesContaining(lines, needle)
  {
    kept := [];
    for i := 0 to |lines|
      invariant kept == LinesContaining(lines[..i], needle)
    {
      assert lines[..i + 1][..i] == lines[..i] && lines[..i + 1][i] == lines[i];
      if Contains(lines[i], needle) {
        kept := kept + [lines[i]];
      }
    }
    assert lines[..|lines|] == lines;
  }

  /** The loop appending the name each matching lsblk line captures. */
  method CollectDiskNames(lines: seq<string>) returns (names: seq<string>)
    ensures names == DiskNamesOf(lines)
  {
    names := [];
    for i := 0 to |lines|
      invariant names == DiskNamesOf(lines[..i])
    {
      assert lines[..i + 1][..i] == lines[..i] && lines[..i + 1][i] == lines[i];
      var m := DiskName(lines[i]);
      if m.Some? {
        names := names + [m.value];
      }
    }
    assert lines[..|lines|] == lines;
  }

  /** The loop entering each partition line of one sfdisk dump into the map. */
  method AddPartitions(m: map<string, string>, lines: seq<string>) returns (partitions: map<string, string>)
    ensures partitions == PartitionsOf(m, lines)
  {
    partitions := m;
    for i := 0 to |lines|
      invariant partitions == PartitionsOf(m, lines[..i])
    {
      assert lines[..i + 1][..i] == lines[..i] && lines[..i + 1][i] == lines[i];
      var entry := PartEntry(lines[i]);
      if entry.Some? {
        var (device, uuid) := entry.value;
        partitions := partitions[ToLower(uuid) := device];
      }
    }
    assert lines[..|lines|] == lines;
  }

  /** The scan of the verbose listing, returning at once on a second match. */
  method ChooseEntry(lines: seq<string>, oldLabel: string, oldBootNum: string) returns (sel: Selection)
    ensures sel == Select(lines, oldLabel, oldBootNum)
  {
    sel := NoTarget;
    for i := 0 to |lines|
      invariant sel == Select(lines[..i], oldLabel, oldBootNum) && !sel.Ambiguous?
    {
      assert lines[..i + 1][..i] == lines[..i] && lines[..i + 1][i] == lines[i];
      var m := EfiMatch(lines[i]);
      if m.Some? && (m.value.name == oldLabel || oldLabel == "*") {
        if sel.NoTarget? {
          if oldBootNum == "" || m.value.number == oldBootNum {
            sel := Target(m.value);
          }
        } else if oldBootNum == "" {
          sel := Ambiguous;
          AmbiguousStays(lines, i + 1, oldLabel, oldBootNum);
          return;
        }
      }
    }
    assert lines[..|lines|] == lines;
  }

  /** One more disk: its sfdisk command is appended and its dump read into the map. */
  lemma DisksSnoc(disks: seq<string>, i: nat, run: Runner)
    requires i < |disks|
    ensures SfdiskCommands(disks[..i + 1]) == SfdiskCommands(disks[..i]) + [SfdiskCommand(disks[i])]
    ensures PartitionsFrom(disks[..i + 1], run) ==
      PartitionsOf(PartitionsFrom(disks[..i], run), FilteredLines(run(SfdiskCommand(disks[i])).output, PART_MARK))
  {
    var pre := disks[..i + 1];
    assert pre[..|pre| - 1] == disks[..i] && pre[|pre| - 1] == disks[i];
    assert pre == disks[..i] + [disks[i]];
    SfdiskCommandsAppend(disks[..i], [disks[i]]);
    assert SfdiskCommands([disks[i]]) == [SfdiskCommand(disks[i])];
    PartitionsFromSnoc(pre, run);
  }

  lemma {:induction false} SfdiskCommandsAppend(a: seq<string>, b: seq<string>)
    ensures SfdiskCommands(a + b) == SfdiskCommands(a) + SfdiskCommands(b)
    decreases |a|
  {
    if a == [] {
      assert a + b == b;
    } else {
      assert (a + b)[0] == a[0] && (a + b)[1..] == a[1..] + b;
      SfdiskCommandsAppend(a[1..], b);
    }
  }

  lemma PartitionsFromSnoc(disks: seq<string>, run: Runner)
    requires disks != []
    ensures PartitionsFrom(disks, run) ==
      PartitionsOf(PartitionsFrom(disks[..|disks| - 1], run), FilteredLines(run(SfdiskCommand(disks[|disks| - 1])).output, PART_MARK))
  {
  }

  /** The loop over the disks: one `sfdisk -d` each, its partition lines entered into the map. */
  method ReadPartitions(disks: seq<string>, run: Runner) returns (partitions: map<string, string>, cmds: seq<Command>)
    ensures partitions == PartitionsFrom(disks, run)
    ensures cmds == SfdiskCommands(disks)
  {
    partitions := map[];
    cmds := [];
    for i := 0 to |disks|
      invariant partitions == PartitionsFrom(disks[..i], run)
      invariant cmds == SfdiskCommands(disks[..i])
    {
      DisksSnoc(disks, i, run);
      var sfdisk := SfdiskCommand(disks[i]);
      cmds := cmds + [sfdisk];
      var sfdiskOut := run(sfdisk).output;
      var partLines := FilterLines(SplitSkipEmpty(sfdiskOut, '\n'), PART_MARK);
      var partitionData := SplitSkipEmpty(Join(partLines, '\n'), '\n');
      assert partitionData == FilteredLines(sfdiskOut, PART_MARK);
      partitions := AddPartitions(partitions, partitionData);
    }
    assert disks[..|disks|] == disks;
  }

  /** The queries: lsblk for the disks, sfdisk for each of them, then the verbose listing. */
  method Query(run: Runner) returns (partitions: map<string, string>, efiLines: seq<string>, cmds: seq<Command>)
    ensures partitions == PartitionsFrom(DiskNames(run(LSBLK).output), run)
    ensures efiLines == EfiLines(run)
    ensures cmds == Probes(DiskNames(run(LSBLK).output))
  {
    var diskDataLines := FilterLines(SplitSkipEmpty(run(LSBLK).output, '\n'), DISK_TYPE);
    var diskNames := CollectDiskNames(SplitSkipEmpty(Join(diskDataLines, '\n'), '\n'));
    var sfdiskCmds;
    partitions, sfdiskCmds := ReadPartitions(diskNames, run);
    cmds := [LSBLK] + sfdiskCmds + [EFI_VERBOSE];
    efiLines := SplitSkipEmpty(run(EFI_VERBOSE).output, '\n');
  }

  /** The end of renameUefiEntry: delete the old entry, and create the new one when that worked. */
  method Apply(probes: seq<Command>, decision: Decision, newLabel: string, run: Runner)
    returns (status: RenameStatus, cmds: seq<Command>)
    ensures (status, cmds) == Conclude(probes, decision, newLabel, run)
  {
    cmds := probes;
    if decision.Refuse? {
      return Failed(decision.why), cmds;
    }
    var deleteCmd := DeleteCommand(decision.bootNum);
    var createCmd := CreateCommand(decision.disk, decision.part, newLabel, decision.loader);
    cmds := cmds + [deleteCmd];
    if !run(deleteCmd).ok {
      return Failed(DeleteFailed), cmds;
    }
    cmds := cmds + [createCmd];
    assert cmds == probes + [deleteCmd, createCmd];
    if !run(createCmd).ok {
      return Failed(CreateFailed), cmds;
    }
    status := Renamed;
  }

  /**
   * renameUefiEntry: both labels given, the queries, the checks on the chosen entry, then
   * `efibootmgr --delete-bootnum` and, when that succeeds, `efibootmgr --create` with the
   * new label.
   */
  method RenameUefiEntry(oldLabel: string, newLabel: string, oldBootNum: string, run: Runner)
    returns (status: RenameStatus, cmds: seq<Command>)
    ensures (status, cmds) == Rename(oldLabel, newLabel, oldBootNum, AsWritten, run)
  {
    if oldLabel == "" || newLabel == "" {
      return Failed(MissingLabel), [];
    }
    var partitions, efiLines, probes := Query(run);
    var sel := ChooseEntry(efiLines, oldLabel, oldBootNum);
    var decision := Checks(sel, partitions, AsWritten);
    status, cmds := Apply(probes, decision, newLabel, run);
  }
}
