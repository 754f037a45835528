/**
 * The boot entry list of the UEFI tab. Its rows come from efibootmgr's listing, one per
 * `Boot####` variable. Beside them are the scalar variables of section 3.3 of the UEFI
 * Specification (Timeout, BootNext, BootCurrent, BootOrder). The operations act on the
 * selected row or on the whole list.
 */
module BootEntries {
  import opened Wrappers
  import opened QtText
  import opened Host

  /** A row of the list: its text, and whether it is shown greyed out as inactive. */
  datatype BootItem = BootItem(text: string, grayed: bool)

  /** The scalar values readBootEntries shows; None where no line names the variable. */
  datatype Scalars = Scalars(timeout: Option<string>, bootNext: Option<string>,
                             bootCurrent: Option<string>, bootOrder: Option<seq<string>>)

  // ------------------------------------------------------------- the listing

  /** The lines of the listing: split on newlines, empty lines dropped. */
  function Lines(efiOut: string): seq<string>
  {
    SplitSkipEmpty(efiOut, '\n')
  }

  /** `[0-9A-F]`. */
  predicate IsUpperHex(c: char)
  {
    IsDigit(c) || 'A' <= c <= 'F'
  }

  /** The line matches `^Boot[0-9A-F]{4}\*?\s+`. */
  predicate IsEntryLine(line: string)
  {
    |line| > 8 && line[..4] == "Boot" &&
    IsUpperHex(line[4]) && IsUpperHex(line[5]) && IsUpperHex(line[6]) && IsUpperHex(line[7]) &&
    (IsRegexSpace(line[8]) || (line[8] == '*' && |line| > 9 && IsRegexSpace(line[9])))
  }

  /** The row an entry line becomes: grey when the line has no `*` anywhere. */
  function EntryItem(line: string): BootItem
  {
    BootItem(line, '*' !in line)
  }

  /** The rows readBootEntries adds for a sequence of lines. */
  function Entries(lines: seq<string>): (r: seq<BootItem>)
    ensures |r| <= |lines|
    ensures forall k :: 0 <= k < |r| ==>
      r[k].text in lines && IsEntryLine(r[k].text) && r[k].grayed == ('*' !in r[k].text)
  {
    if lines == [] then []
    else
      var front, last := lines[..|lines| - 1], lines[|lines| - 1];
      assert forall x :: x in front ==> x in lines;
      Entries(front) + (if IsEntryLine(last) then [EntryItem(last)] else [])
  }

  /** Rows keep listing order: the rows of two parts of a listing are those of each part, in turn. */
  lemma {:induction false} EntriesAppend(a: seq<string>, b: seq<string>)
    ensures Entries(a + b) == Entries(a) + Entries(b)
    decreases |b|
  {
    if b != [] {
      var b', x := b[..|b| - 1], b[|b| - 1];
      assert (a + b)[..|a + b| - 1] == a + b';
      assert (a + b)[|a + b| - 1] == x;
      EntriesAppend(a, b');
      var tail := if IsEntryLine(x) then [EntryItem(x)] else [];
      calc {
        Entries(a + b);
        Entries(a + b') + tail;
        Entries(a) + Entries(b') + tail;
        Entries(a) + (Entries(b') + tail);
        Entries(a) + Entries(b);
      }
    } else {
      assert a + b == a;
    }
  }

  /** A line becomes a row exactly when it is in the listing and matches the entry pattern. */
  lemma {:induction false} EntriesMembers(lines: seq<string>, line: string)
    ensures EntryItem(line) in Entries(lines) <==> line in lines && IsEntryLine(line)
    decreases |lines|
  {
    if lines != [] {
      var front, last := lines[..|lines| - 1], lines[|lines| - 1];
      EntriesMembers(front, line);
      assert lines == front + [last];
    }
  }

  /** The variables readBootEntries reads instead of turning them into rows. */
  predicate IsScalarLine(line: string)
  {
    StartsWith(line, "Timeout:") || StartsWith(line, "BootNext:") ||
    StartsWith(line, "BootCurrent:") || StartsWith(line, "BootOrder:")
  }

  /** Lines naming a scalar variable never match the entry pattern. */
  lemma ScalarLineIsNoEntry(line: string)
    requires IsScalarLine(line)
    ensures !IsEntryLine(line)
  {
    if StartsWith(line, "Timeout:") {
      assert line[..4] == "Timeout:"[..4];
    } else if StartsWith(line, "BootNext:") {
      assert line[4] == 'N';
    } else if StartsWith(line, "BootCurrent:") {
      assert line[5] == 'u';
    } else {
      assert line[4] == 'O';
    }
  }

  /** A line names at most one scalar variable. */
  lemma KeysDisjoint(line: string)
    ensures StartsWith(line, "Timeout:") ==>
      !StartsWith(line, "BootNext:") && !StartsWith(line, "BootCurrent:") && !StartsWith(line, "BootOrder:")
    ensures StartsWith(line, "BootNext:") ==> !StartsWith(line, "BootCurrent:") && !StartsWith(line, "BootOrder:")
    ensures StartsWith(line, "BootCurrent:") ==> !StartsWith(line, "BootOrder:")
  {
    NotBothPrefixes(line, "Timeout:", "BootNext:", 0);
    NotBothPrefixes(line, "Timeout:", "BootCurrent:", 0);
    NotBothPrefixes(line, "Timeout:", "BootOrder:", 0);
    NotBothPrefixes(line, "BootNext:", "BootCurrent:", 4);
    NotBothPrefixes(line, "BootNext:", "BootOrder:", 4);
    NotBothPrefixes(line, "BootCurrent:", "BootOrder:", 4);
  }

  /** Two prefixes that differ at some position cannot both start one line. */
  lemma NotBothPrefixes(line: string, p: string, q: string, k: nat)
    requires k < |p| && k < |q| && p[k] != q[k]
    ensures !(StartsWith(line, p) && StartsWith(line, q))
  {
    if StartsWith(line, p) && |q| <= |line| {
      assert line[..|q|][k] == line[k] == p[k];
    }
  }

  /** Timeout, BootNext, BootCurrent and BootOrder lines never become rows. */
  lemma ScalarLinesAreNoRows(lines: seq<string>, line: string)
    requires IsScalarLine(line)
    ensures EntryItem(line) !in Entries(lines)
  {
    ScalarLineIsNoEntry(line);
    EntriesMembers(lines, line);
  }

  /** The value a scalar line shows: the text after its first space, trimmed. */
  function ScalarValue(line: string): (r: string)
    ensures IsTrimmed(r)
  {
    TrimmedShape(SectionFrom(line, " ", 1));
    Trimmed(SectionFrom(line, " ", 1))
  }

  /** BootOrder's value: the text after the first space, split on commas, empty pieces dropped. */
  function OrderValue(line: string): (r: seq<string>)
    ensures forall k :: 0 <= k < |r| ==> r[k] != "" && ',' !in r[k]
  {
    SplitPartsFree(SectionFrom(line, " ", 1), ',');
    SplitSkipEmpty(SectionFrom(line, " ", 1), ',')
  }

  /** The index of the last line that starts with key. */
  function LastWith(lines: seq<string>, key: string): (r: Option<nat>)
    ensures r.Some? ==> r.value < |lines| && StartsWith(lines[r.value], key)
    ensures r.Some? ==> forall j :: r.value < j < |lines| ==> !StartsWith(lines[j], key)
    ensures r.None? ==> forall j :: 0 <= j < |lines| ==> !StartsWith(lines[j], key)
  {
    if lines == [] then None
    else if StartsWith(lines[|lines| - 1], key) then Some(|lines| - 1)
    else LastWith(lines[..|lines| - 1], key)
  }

  /** The value shown for a scalar variable: that of the last line naming it. */
  function ValueOf(lines: seq<string>, key: string): Option<string>
  {
    match LastWith(lines, key)
    case None => None
    case Some(k) => Some(ScalarValue(lines[k]))
  }

  /** The boot order read from the last BootOrder line. */
  function OrderOf(lines: seq<string>): Option<seq<string>>
  {
    match LastWith(lines, "BootOrder:")
    case None => None
    case Some(k) => Some(OrderValue(lines[k]))
  }

  function ScalarsOf(lines: seq<string>): Scalars
  {
    Scalars(ValueOf(lines, "Timeout:"), ValueOf(lines, "BootNext:"), ValueOf(lines, "BootCurrent:"),
            OrderOf(lines))
  }

  lemma EntriesSnoc(lines: seq<string>, line: string)
    ensures Entries(lines + [line]) == Entries(lines) + (if IsEntryLine(line) then [EntryItem(line)] else [])
  {
    assert (lines + [line])[..|lines|] == lines;
  }

  lemma ValueOfSnoc(lines: seq<string>, line: string, key: string)
    ensures ValueOf(lines + [line], key) == if StartsWith(line, key) then Some(ScalarValue(line)) else ValueOf(lines, key)
  {
    assert (lines + [line])[..|lines|] == lines;
  }

  /** One more line changes the scalar its key names, and no other. */
  lemma ScalarsSnoc(lines: seq<string>, line: string)
    ensures ScalarsOf(lines + [line]) ==
      if StartsWith(line, "Timeout:") then ScalarsOf(lines).(timeout := Some(ScalarValue(line)))
      else if StartsWith(line, "BootNext:") then ScalarsOf(lines).(bootNext := Some(ScalarValue(line)))
      else if StartsWith(line, "BootCurrent:") then ScalarsOf(lines).(bootCurrent := Some(ScalarValue(line)))
      else if StartsWith(line, "BootOrder:") then ScalarsOf(lines).(bootOrder := Some(OrderValue(line)))
      else ScalarsOf(lines)
  {
    ValueOfSnoc(lines, line, "Timeout:");
    ValueOfSnoc(lines, line, "BootNext:");
    ValueOfSnoc(lines, line, "BootCurrent:");
    OrderOfSnoc(lines, line);
    KeysDisjoint(line);
  }

  lemma OrderOfSnoc(lines: seq<string>, line: string)
    ensures OrderOf(lines + [line]) == if StartsWith(line, "BootOrder:") then Some(OrderValue(line)) else OrderOf(lines)
  {
    assert (lines + [line])[..|lines|] == lines;
  }

  // ------------------------------------------------------- the selected row

  /** Field 0 of a row's text: everything before its first space. */
  function Token(text: string): string
  {
    Section(text, " ", 0)
  }

  /** Four characters of `[0-9A-Z]` and nothing else. */
  predicate IsNumber4(s: string)
  {
    |s| == 4 && forall i :: 0 <= i < 4 ==> IsUpperAlnum(s[i])
  }

  /** The token matches `^[0-9A-Z]{4}$`. */
  predicate IsBootNumber(t: string)
  {
    IsNumber4(BeforeFinalNewline(t))
  }

  /** The token matches `^[0-9A-Z]{4}\*?$`. */
  predicate IsToggleToken(t: string)
  {
    var b := BeforeFinalNewline(t);
    IsNumber4(b) || (|b| == 5 && b[4] == '*' && IsNumber4(b[..4]))
  }

  /** The canonical row text `Boot<number>[*] <rest>`. */
  function RowText(number: string, active: bool, rest: string): string
  {
    "Boot" + number + (if active then "*" else "") + " " + rest
  }

  /** Field 0 and the rest of a canonical row text. */
  lemma RowTextParts(number: string, active: bool, rest: string)
    requires IsNumber4(number)
    ensures Token(RowText(number, active, rest)) == "Boot" + number + (if active then "*" else "")
    ensures SectionFrom(RowText(number, active, rest), " ", 1) == rest
  {
    var p := "Boot" + number + (if active then "*" else "");
    assert forall i :: 0 <= i < |p| ==> p[i] != ' ';
    SectionAt(p, ' ', rest);
    assert RowText(number, active, rest) == p + [' '] + rest;
  }

  /** What toggleUefiActive reads from a row: the number, whether it is active, and the text after the first space. */
  datatype Toggle = Toggle(number: string, wasActive: bool, rest: string)

  /** The toggle a row allows: field 0 without a leading `Boot` must match `^[0-9A-Z]{4}\*?$`. */
  function ToggleOf(text: string): Option<Toggle>
  {
    var token := StripPrefix(Token(text), "Boot");
    if !IsToggleToken(token) then None
    else
      var active := EndsWith(token, "*");
      Some(Toggle(if active then Chop(token, 1) else token, active, SectionFrom(text, " ", 1)))
  }

  /** `efibootmgr --inactive|--active -b <number>`, as root. */
  function ToggleCommand(t: Toggle): Command
  {
    ProcAsRoot("efibootmgr", [if t.wasActive then "--inactive" else "--active", "-b", t.number])
  }

  /** The row after a successful toggle: the marker flipped, grey when now inactive. */
  function Toggled(t: Toggle): BootItem
  {
    BootItem("Boot" + t.number + (if t.wasActive then "" else "*") + " " + t.rest, t.wasActive)
  }

  /** A canonical row is read back as its number, its marker and its rest. */
  lemma ToggleOfRow(number: string, active: bool, rest: string)
    requires IsNumber4(number)
    ensures ToggleOf(RowText(number, active, rest)) == Some(Toggle(number, active, rest))
  {
    RowTextParts(number, active, rest);
    var text := RowText(number, active, rest);
    var token := number + (if active then "*" else "");
    assert "Boot" + number + (if active then "*" else "") == "Boot" + token;
    assert StripPrefix("Boot" + token, "Boot") == token by {
      assert ("Boot" + token)[..4] == "Boot";
    }
    assert StripPrefix(Token(text), "Boot") == token;
    assert BeforeFinalNewline(token) == token;
    if active {
      assert token[..4] == number && token[4] == '*';
      assert EndsWith(token, "*") by {
        assert token[|token| - 1..] == "*";
      }
    } else {
      assert token == number;
      assert !EndsWith(token, "*") by {
        assert token[|token| - 1..] == [number[3]];
      }
    }
  }

  /** Toggling flips the marker and keeps number and rest; toggling twice restores the row. */
  lemma ToggleTwice(number: string, active: bool, rest: string)
    requires IsNumber4(number)
    ensures ToggleOf(RowText(number, active, rest)) == Some(Toggle(number, active, rest))
    ensures Toggled(Toggle(number, active, rest)) == BootItem(RowText(number, !active, rest), active)
    ensures ToggleOf(RowText(number, !active, rest)) == Some(Toggle(number, !active, rest))
    ensures Toggled(Toggle(number, !active, rest)) == BootItem(RowText(number, active, rest), !active)
  {
    ToggleOfRow(number, active, rest);
    ToggleOfRow(number, !active, rest);
  }

  /** `\*$` removed: a star at the end, or just before a final newline. */
  function StripStar(s: string): (r: string)
  {
    var b := BeforeFinalNewline(s);
    if |b| > 0 && b[|b| - 1] == '*' then b[..|b| - 1] + s[|b|..] else s
  }

  /**
   * The boot number saveBootOrder, setUefiBootNext and removeUefiEntry read from a row:
   * field 0 without a leading `Boot` and a trailing `*`, if it then matches
   * `^[0-9A-Z]{4}$`. saveBootOrder removes both with one pattern, `^Boot|\*$`; the other
   * two remove them one after the other, which gives the same token.
   */
  function BootNumber(text: string): (r: Option<string>)
    ensures r.Some? ==> IsBootNumber(r.value) && ',' !in r.value && ' ' !in r.value && r.value != ""
  {
    var t := StripStar(StripPrefix(Token(text), "Boot"));
    if IsBootNumber(t) then Some(t) else None
  }

  /** A canonical row has its number as boot number, active or not. */
  lemma BootNumberOfRow(number: string, active: bool, rest: string)
    requires IsNumber4(number)
    ensures BootNumber(RowText(number, active, rest)) == Some(number)
  {
    RowTextParts(number, active, rest);
    var text := RowText(number, active, rest);
    var token := number + (if active then "*" else "");
    assert "Boot" + number + (if active then "*" else "") == "Boot" + token;
    assert StripPrefix("Boot" + token, "Boot") == token by {
      assert ("Boot" + token)[..4] == "Boot";
    }
    assert StripPrefix(Token(text), "Boot") == token;
    assert BeforeFinalNewline(token) == token;
    if active {
      assert token[..4] == number && token[4] == '*';
      assert StripStar(token) == number by {
        assert token[|token|..] == [];
      }
    } else {
      assert token == number;
      assert StripStar(token) == number;
    }
    assert BeforeFinalNewline(number) == number;
  }

  /** An entry row read from the listing, separated by a space, has the four digits after `Boot` as boot number. */
  lemma BootNumberOfEntry(line: string)
    requires IsEntryLine(line)
    requires line[8] == ' ' || (line[8] == '*' && line[9] == ' ')
    ensures BootNumber(line) == Some(line[4..8])
  {
    var number := line[4..8];
    assert forall i :: 0 <= i < 4 ==> number[i] == line[4 + i];
    var active := line[8] == '*';
    if active {
      var rest := line[10..];
      assert line == line[..4] + number + line[8..9] + line[9..10] + rest;
      assert line == RowText(number, active, rest);
      BootNumberOfRow(number, active, rest);
    } else {
      var rest := line[9..];
      assert line == line[..4] + number + line[8..9] + rest;
      assert line == RowText(number, active, rest);
      BootNumberOfRow(number, active, rest);
    }
  }

  /** setUefiBootNext: `efibootmgr -n <number>` for a valid row; the Boot Next label shows the number once it succeeds. */
  function SetBootNext(text: string, run: Runner): (r: (Option<Command>, Option<string>))
    ensures r.0.Some? <==> BootNumber(text).Some?
    ensures r.0.Some? ==> r.0.value == ProcAsRoot("efibootmgr", ["-n", BootNumber(text).value])
    ensures r.1.Some? <==> r.0.Some? && run(r.0.value).ok
    ensures r.1.Some? ==> r.1 == BootNumber(text)
  {
    match BootNumber(text)
    case None => (None, None)
    case Some(n) =>
      var cmd := ProcAsRoot("efibootmgr", ["-n", n]);
      (Some(cmd), if run(cmd).ok then Some(n) else None)
  }

  /** The boot numbers of the rows, in row order, skipping rows without a valid one. */
  function BootNumbers(items: seq<BootItem>): (r: seq<string>)
    ensures |r| <= |items|
    ensures forall k :: 0 <= k < |r| ==> IsBootNumber(r[k]) && r[k] != "" && ',' !in r[k]
  {
    if items == [] then []
    else
      BootNumbers(items[..|items| - 1]) +
      (match BootNumber(items[|items| - 1].text) case None => [] case Some(n) => [n])
  }

  /** The string saveBootOrder passes to `efibootmgr -o`, read back as line 814 reads BootOrder, gives the saved numbers. */
  lemma SaveBootOrderRoundTrip(items: seq<BootItem>)
    ensures SplitSkipEmpty(Join(BootNumbers(items), ','), ',') == BootNumbers(items)
    ensures OrderValue("BootOrder: " + Join(BootNumbers(items), ',')) == BootNumbers(items)
  {
    var numbers := BootNumbers(items);
    SplitSkipEmptyJoin(numbers, ',');
    OrderValueOfLine(Join(numbers, ','));
  }

  /** The BootOrder line's value is the text after "BootOrder: ", split on commas. */
  lemma OrderValueOfLine(joined: string)
    ensures OrderValue("BootOrder: " + joined) == SplitSkipEmpty(joined, ',')
  {
    SectionAt("BootOrder:", ' ', joined);
    assert "BootOrder: " + joined == "BootOrder:" + [' '] + joined;
  }

  /** A row shown in canonical form: `Boot<number>[*] <rest>` with a four-character number. */
  predicate CanonicalRow(item: BootItem, number: string, active: bool, rest: string)
  {
    IsNumber4(number) && item.text == RowText(number, active, rest)
  }

  /** Rows in canonical form save exactly their numbers, in row order. */
  lemma {:induction false} BootNumbersOfRows(items: seq<BootItem>, numbers: seq<string>,
                                             actives: seq<bool>, rests: seq<string>)
    requires |items| == |numbers| == |actives| == |rests|
    requires forall k :: 0 <= k < |items| ==> CanonicalRow(items[k], numbers[k], actives[k], rests[k])
    ensures BootNumbers(items) == numbers
    decreases |items|
  {
    if items != [] {
      var n := |items| - 1;
      var pi, pn, pa, pr := items[..n], numbers[..n], actives[..n], rests[..n];
      assert forall k :: 0 <= k < n ==>
        pi[k] == items[k] && pn[k] == numbers[k] && pa[k] == actives[k] && pr[k] == rests[k];
      BootNumbersOfRows(pi, pn, pa, pr);
      assert CanonicalRow(items[n], numbers[n], actives[n], rests[n]);
      BootNumberOfRow(numbers[n], actives[n], rests[n]);
      BootNumbersSnoc(items, numbers[n]);
      LastSplit(numbers);
    }
  }

  /** A non-empty sequence is its front followed by its last element. */
  lemma LastSplit(s: seq<string>)
    requires s != []
    ensures s == s[..|s| - 1] + [s[|s| - 1]]
  {
  }

  /** A last row with a valid number adds that number to the saved ones. */
  lemma BootNumbersSnoc(items: seq<BootItem>, number: string)
    requires items != [] && BootNumber(items[|items| - 1].text) == Some(number)
    ensures BootNumbers(items) == BootNumbers(items[..|items| - 1]) + [number]
  {
  }

  // ----------------------------------------------------- ordering by BootOrder

  /** findItems("Boot" + orderItem, Qt::MatchStartsWith): a case-insensitive prefix match. */
  predicate Matches(item: BootItem, orderItem: string)
  {
    StartsWithIgnoreCase(item.text, "Boot" + orderItem)
  }

  /** The first row that matches an order item. */
  function FirstMatch(items: seq<BootItem>, o: string): (r: Option<nat>)
    ensures r.Some? ==> r.value < |items| && Matches(items[r.value], o)
    ensures r.Some? ==> forall j :: 0 <= j < r.value ==> !Matches(items[j], o)
    ensures r.None? ==> forall j :: 0 <= j < |items| ==> !Matches(items[j], o)
  {
    if items == [] then None
    else if Matches(items[0], o) then Some(0)
    else match FirstMatch(items[1..], o)
      case None => None
      case Some(j) => Some(j + 1)
  }

  /** takeItem(from) then insertItem(to): QListWidget appends when `to` is past the end. */
  function Move(items: seq<BootItem>, from: nat, to: nat): (r: seq<BootItem>)
    requires from < |items|
    ensures |r| == |items|
    ensures multiset(r) == multiset(items)
  {
    var rest := items[..from] + items[from + 1..];
    var at := if to <= |rest| then to else |rest|;
    assert items == items[..from] + [items[from]] + items[from + 1..];
    assert multiset(items) == multiset(rest) + multiset{items[from]};
    assert rest == rest[..at] + rest[at..];
    assert multiset(rest) == multiset(rest[..at]) + multiset(rest[at..]);
    rest[..at] + [items[from]] + rest[at..]
  }

  /** One pass of the loop: the list and the running index after an order item. */
  function Step(items: seq<BootItem>, index: nat, o: string): (seq<BootItem>, nat)
  {
    match FirstMatch(items, o)
    case None => (items, index)
    case Some(r) => (Move(items, r, index), index + 1)
  }

  /** The list and index after the loop has handled every item of the order. */
  function Run(items: seq<BootItem>, order: seq<string>): (seq<BootItem>, nat)
  {
    if order == [] then (items, 0)
    else
      var (l, i) := Run(items, order[..|order| - 1]);
      Step(l, i, order[|order| - 1])
  }

  /** Reordering moves rows around and neither adds nor removes any. */
  lemma {:induction false} RunPermutes(items: seq<BootItem>, order: seq<string>)
    ensures multiset(Run(items, order).0) == multiset(items)
    decreases |order|
  {
    if order != [] {
      RunPermutes(items, order[..|order| - 1]);
    }
  }

  /** No row matches two order items, and no order item matches two rows. */
  ghost predicate UniqueMatches(items: seq<BootItem>, order: seq<string>)
  {
    (forall k, i, j :: 0 <= k < |order| && 0 <= i < j < |items| && Matches(items[i], order[k])
       ==> !Matches(items[j], order[k])) &&
    (forall i, k, l :: 0 <= i < |items| && 0 <= k < l < |order| && Matches(items[i], order[k])
       ==> !Matches(items[i], order[l]))
  }

  /** A row that matches no item of the order. */
  predicate Unordered(item: BootItem, order: seq<string>)
  {
    forall k :: 0 <= k < |order| ==> !Matches(item, order[k])
  }

  /** For every order item, in order, the row it matches, if any. */
  function Picks(items: seq<BootItem>, order: seq<string>): (r: seq<BootItem>)
    ensures forall x :: x in r ==> x in items
  {
    if order == [] then []
    else
      var front := Picks(items, order[..|order| - 1]);
      match FirstMatch(items, order[|order| - 1])
      case None => front
      case Some(j) => front + [items[j]]
  }

  /** The rows no order item matches, in list order. */
  function UnorderedRows(items: seq<BootItem>, order: seq<string>): (r: seq<BootItem>)
    ensures forall x :: x in r ==> x in items && Unordered(x, order)
  {
    if items == [] then []
    else (if Unordered(items[0], order) then [items[0]] else []) + UnorderedRows(items[1..], order)
  }

  /** The rows that do not match o, in list order. */
  function Without(items: seq<BootItem>, o: string): (r: seq<BootItem>)
  {
    if items == [] then []
    else (if Matches(items[0], o) then [] else [items[0]]) + Without(items[1..], o)
  }

  /** One more order item filters the unordered rows once more. */
  lemma {:induction false} UnorderedRowsSnoc(items: seq<BootItem>, order: seq<string>, o: string)
    ensures UnorderedRows(items, order + [o]) == Without(UnorderedRows(items, order), o)
    decreases |items|
  {
    if items != [] {
      UnorderedRowsSnoc(items[1..], order, o);
      var x := items[0];
      assert Unordered(x, order + [o]) <==> Unordered(x, order) && !Matches(x, o) by {
        assert forall k :: 0 <= k < |order| ==> (order + [o])[k] == order[k];
        assert (order + [o])[|order|] == o;
      }
      var u := UnorderedRows(items[1..], order);
      if Unordered(x, order) {
        assert ([x] + u)[0] == x && ([x] + u)[1..] == u;
      } else {
        assert UnorderedRows(items, order) == u;
      }
    }
  }

  /** A first match after rows that do not match is found by the same distance further on. */
  lemma {:induction false} FirstMatchAfter(p: seq<BootItem>, u: seq<BootItem>, o: string)
    requires forall x :: x in p ==> !Matches(x, o)
    ensures FirstMatch(p + u, o) == match FirstMatch(u, o) case None => None case Some(m) => Some(|p| + m)
    decreases |p|
  {
    if p != [] {
      assert (p + u)[1..] == p[1..] + u;
      assert (p + u)[0] == p[0] && p[0] in p;
      assert !Matches((p + u)[0], o);
      assert forall x :: x in p[1..] ==> x in p;
      FirstMatchAfter(p[1..], u, o);
    } else {
      assert p + u == u;
    }
  }

  /** When only one row matches o, leaving out the rows that match removes just that row. */
  lemma {:induction false} WithoutSingle(u: seq<BootItem>, o: string, m: nat)
    requires m < |u| && Matches(u[m], o)
    requires forall j :: 0 <= j < |u| && j != m ==> !Matches(u[j], o)
    ensures Without(u, o) == u[..m] + u[m + 1..]
    decreases |u|
  {
    if m == 0 {
      WithoutNone(u[1..], o);
    } else {
      WithoutSingle(u[1..], o, m - 1);
      assert u[1..][..m - 1] == u[1..m];
      assert u[..m] == [u[0]] + u[1..m];
    }
  }

  lemma {:induction false} WithoutNone(u: seq<BootItem>, o: string)
    requires forall j :: 0 <= j < |u| ==> !Matches(u[j], o)
    ensures Without(u, o) == u
    decreases |u|
  {
    if u != [] {
      WithoutNone(u[1..], o);
    }
  }

  /**
   * sortUefiBootOrder, under UniqueMatches: the rows the order names come first, in the
   * order's order, and the other rows follow in the order they had.
   */
  lemma {:induction false} RunMovesOrderedFirst(items: seq<BootItem>, order: seq<string>)
    requires UniqueMatches(items, order)
    ensures Run(items, order) == (Picks(items, order) + UnorderedRows(items, order), |Picks(items, order)|)
    decreases |order|
  {
    if order == [] {
      UnorderedAll(items);
      assert Picks(items, order) + UnorderedRows(items, order) == items;
    } else {
      var front, o := order[..|order| - 1], order[|order| - 1];
      assert order == front + [o];
      UniqueMatchesFront(items, front, o);
      RunMovesOrderedFirst(items, front);
      RunStepOrdered(items, front, o);
    }
  }

  /** One more order item keeps the picked rows first and the unordered rows after them. */
  lemma RunStepOrdered(items: seq<BootItem>, front: seq<string>, o: string)
    requires UniqueMatches(items, front + [o])
    requires Run(items, front) == (Picks(items, front) + UnorderedRows(items, front), |Picks(items, front)|)
    ensures Run(items, front + [o])
            == (Picks(items, front + [o]) + UnorderedRows(items, front + [o]), |Picks(items, front + [o])|)
  {
    var order := front + [o];
    assert order[..|order| - 1] == front && order[|order| - 1] == o;
    PicksMatchFront(items, front, o);
    UnorderedRowsSnoc(items, front, o);
    if FirstMatch(items, o).None? {
      RunStepUnmatched(items, front, o);
    } else {
      var i := FirstMatch(items, o).value;
      StepWithMatch(items, front, o, i);
      RunStepMatched(items, front, o, i);
    }
  }

  /** The step of RunStepOrdered for an order item no row matches. */
  lemma RunStepUnmatched(items: seq<BootItem>, front: seq<string>, o: string)
    requires FirstMatch(items, o).None?
    requires forall x :: x in Picks(items, front) ==> !Matches(x, o)
    requires Run(items, front) == (Picks(items, front) + UnorderedRows(items, front), |Picks(items, front)|)
    requires UnorderedRows(items, front + [o]) == Without(UnorderedRows(items, front), o)
    ensures Run(items, front + [o])
            == (Picks(items, front + [o]) + UnorderedRows(items, front + [o]), |Picks(items, front + [o])|)
  {
    var order := front + [o];
    assert order[..|order| - 1] == front && order[|order| - 1] == o;
    var p, u := Picks(items, front), UnorderedRows(items, front);
    StepWithoutMatch(items, front, o);
    assert Run(items, order) == Step(p + u, |p|, o) == (p + Without(u, o), |p|);
    assert Picks(items, order) == p;
  }

  /** The step of RunStepOrdered for an order item that matches a row. */
  lemma RunStepMatched(items: seq<BootItem>, front: seq<string>, o: string, i: nat)
    requires FirstMatch(items, o) == Some(i)
    requires Run(items, front) == (Picks(items, front) + UnorderedRows(items, front), |Picks(items, front)|)
    requires UnorderedRows(items, front + [o]) == Without(UnorderedRows(items, front), o)
    requires var p, u := Picks(items, front), UnorderedRows(items, front);
      Step(p + u, |p|, o) == (p + [items[i]] + Without(u, o), |p| + 1)
    ensures Run(items, front + [o])
            == (Picks(items, front + [o]) + UnorderedRows(items, front + [o]), |Picks(items, front + [o])|)
  {
    var order := front + [o];
    assert order[..|order| - 1] == front && order[|order| - 1] == o;
    var p, u := Picks(items, front), UnorderedRows(items, front);
    var picked := p + [items[i]];
    assert Run(items, order) == Step(p + u, |p|, o);
    assert Picks(items, order) == picked;
    assert |picked| == |p| + 1;
    assert Run(items, order) == (picked + Without(u, o), |picked|);
  }

  /** Leaving out the last order item keeps matches unique. */
  lemma UniqueMatchesFront(items: seq<BootItem>, front: seq<string>, o: string)
    requires UniqueMatches(items, front + [o])
    ensures UniqueMatches(items, front)
  {
    var order := front + [o];
    assert forall k :: 0 <= k < |front| ==> order[k] == front[k];
  }

  /** An order item no row matches leaves list and index as they are. */
  lemma StepWithoutMatch(items: seq<BootItem>, front: seq<string>, o: string)
    requires FirstMatch(items, o).None?
    requires forall x :: x in Picks(items, front) ==> !Matches(x, o)
    ensures var p, u := Picks(items, front), UnorderedRows(items, front);
      Step(p + u, |p|, o) == (p + Without(u, o), |p|)
  {
    var p, u := Picks(items, front), UnorderedRows(items, front);
    forall j | 0 <= j < |u|
      ensures !Matches(u[j], o)
    {
      assert u[j] in items;
      var k :| 0 <= k < |items| && items[k] == u[j];
    }
    WithoutNone(u, o);
    FirstMatchAfter(p, u, o);
  }

  /** An order item that matches row i moves that row, now the first unordered one matching it, to the index. */
  lemma StepWithMatch(items: seq<BootItem>, front: seq<string>, o: string, i: nat)
    requires UniqueMatches(items, front + [o])
    requires FirstMatch(items, o) == Some(i)
    requires forall x :: x in Picks(items, front) ==> !Matches(x, o)
    ensures var p, u := Picks(items, front), UnorderedRows(items, front);
      Step(p + u, |p|, o) == (p + [items[i]] + Without(u, o), |p| + 1)
  {
    var p, u := Picks(items, front), UnorderedRows(items, front);
    OnlyMatchIsUnordered(items, front, o, i);
    StepMovesSingle(p, u, o, FirstMatch(u, o).value);
  }

  /** When u[m] is the only row of p + u matching o, the step moves it right after p. */
  lemma StepMovesSingle(p: seq<BootItem>, u: seq<BootItem>, o: string, m: nat)
    requires m < |u| && Matches(u[m], o)
    requires forall j :: 0 <= j < |u| && j != m ==> !Matches(u[j], o)
    requires forall x :: x in p ==> !Matches(x, o)
    ensures Step(p + u, |p|, o) == (p + [u[m]] + Without(u, o), |p| + 1)
  {
    WithoutSingle(u, o, m);
    FirstMatchAfter(p, u, o);
    assert FirstMatch(u, o) == Some(m);
    MoveToFront(p, u, m);
  }

  /** Moving row |p| + m of p + u to index |p| puts u[m] right after p. */
  lemma MoveToFront(p: seq<BootItem>, u: seq<BootItem>, m: nat)
    requires m < |u|
    ensures Move(p + u, |p| + m, |p|) == p + [u[m]] + (u[..m] + u[m + 1..])
  {
    var l := p + u;
    assert l[..|p| + m] + l[|p| + m + 1..] == p + (u[..m] + u[m + 1..]);
    assert l[|p| + m] == u[m];
  }

  lemma {:induction false} UnorderedAll(items: seq<BootItem>)
    ensures UnorderedRows(items, []) == items
    decreases |items|
  {
    if items != [] {
      UnorderedAll(items[1..]);
    }
  }

  /** The rows picked so far match earlier order items, so under UniqueMatches they do not match the next one. */
  lemma PicksMatchFront(items: seq<BootItem>, front: seq<string>, o: string)
    requires UniqueMatches(items, front + [o])
    ensures forall x :: x in Picks(items, front) ==> !Matches(x, o)
  {
    forall x | x in Picks(items, front)
      ensures !Matches(x, o)
    {
      var i, k := PickedRow(items, front, x);
      var order := front + [o];
      assert order[k] == front[k] && order[|front|] == o;
    }
  }

  /** Every picked row is a row that matches one of the order items. */
  lemma {:induction false} PickedRow(items: seq<BootItem>, order: seq<string>, x: BootItem) returns (i: nat, k: nat)
    requires x in Picks(items, order)
    ensures i < |items| && k < |order| && items[i] == x && Matches(x, order[k])
    decreases |order|
  {
    var front, o := order[..|order| - 1], order[|order| - 1];
    if x in Picks(items, front) {
      i, k := PickedRow(items, front, x);
      assert order[k] == front[k];
    } else {
      i, k := FirstMatch(items, o).value, |order| - 1;
    }
  }

  /**
   * Under UniqueMatches, the row the last order item matches is the only row of the
   * still unordered rows that matches it, and it is one of them.
   */
  lemma OnlyMatchIsUnordered(items: seq<BootItem>, front: seq<string>, o: string, i: nat)
    requires UniqueMatches(items, front + [o])
    requires FirstMatch(items, o) == Some(i)
    ensures var u := UnorderedRows(items, front);
      FirstMatch(u, o).Some? && u[FirstMatch(u, o).value] == items[i] &&
      forall j :: 0 <= j < |u| && j != FirstMatch(u, o).value ==> !Matches(u[j], o)
  {
    var order := front + [o];
    assert order[|front|] == o;
    assert forall k :: 0 <= k < |front| ==> order[k] == front[k];
    assert Unordered(items[i], front);
    var u := UnorderedRows(items, front);
    UnorderedRowsContain(items, front, i);
    // every row of u that matches o is items[i]
    assert forall y :: y in u && Matches(y, o) ==> y == items[i] by {
      forall y | y in u && Matches(y, o)
        ensures y == items[i]
      {
        var j :| 0 <= j < |items| && items[j] == y;
        if j < i {
          assert Matches(items[j], order[|front|]);
        } else if j > i {
          assert Matches(items[i], order[|front|]);
        }
      }
    }
    var m := FirstMatch(u, o).value;
    UnorderedRowsDistinctMatch(items, front, o, i);
  }

  /** A row that matches no order item stays among the unordered rows. */
  lemma {:induction false} UnorderedRowsContain(items: seq<BootItem>, order: seq<string>, i: nat)
    requires i < |items| && Unordered(items[i], order)
    ensures items[i] in UnorderedRows(items, order)
    decreases |items|
  {
    if i > 0 {
      UnorderedRowsContain(items[1..], order, i - 1);
    }
  }

  /** No two rows of u match o. */
  predicate AtMostOneMatch(u: seq<BootItem>, o: string)
  {
    forall a, b :: 0 <= a < |u| && 0 <= b < |u| && Matches(u[a], o) && Matches(u[b], o) ==> a == b
  }

  /** When only row i matches o, at most one of the unordered rows matches o. */
  lemma {:induction false} UnorderedRowsDistinctMatch(items: seq<BootItem>, front: seq<string>, o: string, i: nat)
    requires i < |items| && Matches(items[i], o)
    requires forall j :: 0 <= j < |items| && j != i ==> !Matches(items[j], o)
    ensures AtMostOneMatch(UnorderedRows(items, front), o)
    decreases |items|
  {
    var u := UnorderedRows(items, front);
    var head := if Unordered(items[0], front) then [items[0]] else [];
    var tail := UnorderedRows(items[1..], front);
    assert u == head + tail;
    if i == 0 {
      forall a | 0 <= a < |tail|
        ensures !Matches(tail[a], o)
      {
        assert tail[a] in items[1..];
        var j :| 0 <= j < |items[1..]| && items[1..][j] == tail[a];
        assert items[j + 1] == tail[a];
      }
      OnlyHeadMatches(u, head, tail, o);
    } else {
      assert forall j :: 0 <= j < |items[1..]| ==> items[1..][j] == items[j + 1];
      UnorderedRowsDistinctMatch(items[1..], front, o, i - 1);
      assert forall a :: 0 <= a < |head| ==> head[a] == items[0];
      NoHeadMatch(u, head, tail, o);
    }
  }

  /** A head of at most one row followed by rows that never match has at most one match. */
  lemma OnlyHeadMatches(u: seq<BootItem>, head: seq<BootItem>, tail: seq<BootItem>, o: string)
    requires u == head + tail && |head| <= 1
    requires forall a :: 0 <= a < |tail| ==> !Matches(tail[a], o)
    ensures AtMostOneMatch(u, o)
  {
    forall a | |head| <= a < |u|
      ensures !Matches(u[a], o)
    {
      assert u[a] == tail[a - |head|];
    }
  }

  /** A head that never matches adds no match to the tail's. */
  lemma NoHeadMatch(u: seq<BootItem>, head: seq<BootItem>, tail: seq<BootItem>, o: string)
    requires u == head + tail && AtMostOneMatch(tail, o)
    requires forall a :: 0 <= a < |head| ==> !Matches(head[a], o)
    ensures AtMostOneMatch(u, o)
  {
    forall a | 0 <= a < |head|
      ensures !Matches(u[a], o)
    {
      assert u[a] == head[a];
    }
    forall a, b | 0 <= a < |u| && 0 <= b < |u| && Matches(u[a], o) && Matches(u[b], o)
      ensures a == b
    {
      assert a >= |head| && b >= |head|;
      assert u[a] == tail[a - |head|] && u[b] == tail[b - |head|];
    }
  }
}
