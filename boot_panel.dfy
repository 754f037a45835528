/**
 * The boot-entry panel of the main window: the list widget holding one row per
 * efibootmgr entry, and the operations of its buttons.
 */
module BootPanel {
  import opened Wrappers
  import opened QtText
  import opened Host
  import opened BootEntries

  /**
   * readBootEntries' reading of efibootmgr's listing: split it into non-empty lines, then
   * scan them.
   */
  method ReadListing(efiOut: string) returns (added: seq<BootItem>, scalars: Scalars)
    ensures added == Entries(Lines(efiOut))
    ensures scalars == ScalarsOf(Lines(efiOut))
  {
    added, scalars := ScanLines(Lines(efiOut));
  }

  /**
   * The loop of readBootEntries: keep a row for every entry line and take the scalar
   * values from the lines that name them.
   */
  method ScanLines(lines: seq<string>) returns (added: seq<BootItem>, scalars: Scalars)
    ensures added == Entries(lines)
    ensures scalars == ScalarsOf(lines)
  {
    added := [];
    scalars := Scalars(None, None, None, None);
    for i := 0 to |lines|
      invariant added == Entries(lines[..i])
      invariant scalars == ScalarsOf(lines[..i])
    {
      var line, done := lines[i], lines[..i];
      assert lines[..i + 1] == done + [line];
      EntriesSnoc(done, line);
      if IsEntryLine(line) {
        EntryLineKeepsScalars(done, line);
        added := added + [EntryItem(line)];
      } else {
        ScalarsSnoc(done, line);
        if StartsWith(line, "Timeout:") {
          scalars := scalars.(timeout := Some(ScalarValue(line)));
        } else if StartsWith(line, "BootNext:") {
          scalars := scalars.(bootNext := Some(ScalarValue(line)));
        } else if StartsWith(line, "BootCurrent:") {
          scalars := scalars.(bootCurrent := Some(ScalarValue(line)));
        } else if StartsWith(line, "BootOrder:") {
          scalars := scalars.(bootOrder := Some(OrderValue(line)));
        }
        assert added == Entries(done + [line]);
      }
    }
    assert lines[..|lines|] == lines;
  }

  /** An entry line leaves the scalar values as they were. */
  lemma EntryLineKeepsScalars(lines: seq<string>, line: string)
    requires IsEntryLine(line)
    ensures ScalarsOf(lines + [line]) == ScalarsOf(lines)
  {
    if IsScalarLine(line) {
      ScalarLineIsNoEntry(line);
    }
    ScalarsSnoc(lines, line);
  }

  // ------------------------------------------------------------- the widget

  /** The QListWidget holding the rows. */
  class BootList {
    var items: seq<BootItem>

    constructor ()
      ensures items == []
    {
      items := [];
    }

    /**
     * readBootEntries: a row for every entry line of the listing, added after the rows
     * already there, and the scalar values of the lines that name them.
     */
    method ReadBootEntries(efiOut: string) returns (scalars: Scalars)
      modifies this
      ensures items == old(items) + Entries(Lines(efiOut))
      ensures scalars == ScalarsOf(Lines(efiOut))
    {
      var rows;
      rows, scalars := ReadListing(efiOut);
      items := items + rows;
    }

    /**
     * toggleUefiActive on the row at `row` (none when out of range): runs efibootmgr when
     * the row's number is valid, and rewrites the row only when that succeeds.
     */
    method ToggleActive(row: int, run: Runner) returns (cmd: Option<Command>)
      modifies this
      ensures cmd.Some? <==> 0 <= row < |old(items)| && ToggleOf(old(items)[row].text).Some?
      ensures cmd.Some? ==> cmd.value == ToggleCommand(ToggleOf(old(items)[row].text).value)
      ensures items == if cmd.Some? && run(cmd.value).ok
                       then old(items)[row := Toggled(ToggleOf(old(items)[row].text).value)]
                       else old(items)
    {
      cmd := None;
      if 0 <= row < |items| {
        var t := ToggleOf(items[row].text);
        if t.Some? {
          cmd := Some(ToggleCommand(t.value));
          if run(cmd.value).ok {
            items := items[row := Toggled(t.value)];
          }
        }
      }
    }

    /**
     * removeUefiEntry on the row at `row`: after the user confirms, `efibootmgr -B -b
     * <number>` for a valid number, and the row is deleted only when that succeeds.
     */
    method RemoveEntry(row: int, confirmed: bool, run: Runner) returns (cmd: Option<Command>)
      modifies this
      ensures cmd.Some? <==> 0 <= row < |old(items)| && confirmed && BootNumber(old(items)[row].text).Some?
      ensures cmd.Some? ==> cmd.value == ProcAsRoot("efibootmgr", ["-B", "-b", BootNumber(old(items)[row].text).value])
      ensures items == if cmd.Some? && run(cmd.value).ok then old(items)[..row] + old(items)[row + 1..]
                       else old(items)
    {
      cmd := None;
      if 0 <= row < |items| && confirmed {
        var n := BootNumber(items[row].text);
        if n.Some? {
          cmd := Some(ProcAsRoot("efibootmgr", ["-B", "-b", n.value]));
          if run(cmd.value).ok {
            items := items[..row] + items[row + 1..];
          }
        }
      }
    }

    /** saveBootOrder: the valid boot numbers of the rows, in row order, comma-joined, for `efibootmgr -o`. */
    method SaveBootOrder() returns (order: string, cmd: Command)
      ensures order == Join(BootNumbers(items), ',')
      ensures cmd == ProcAsRoot("efibootmgr", ["-o", order])
    {
      var orderList := [];
      for i := 0 to |items|
        invariant orderList == BootNumbers(items[..i])
      {
        assert items[..i + 1][..i] == items[..i] && items[..i + 1][i] == items[i];
        var n := BootNumber(items[i].text);
        if n.Some? {
          orderList := orderList + [n.value];
        }
      }
      assert items[..|items|] == items;
      order := Join(orderList, ',');
      cmd := ProcAsRoot("efibootmgr", ["-o", order]);
    }

    /**
     * sortUefiBootOrder: for each order item in turn, the first row it matches is taken
     * out and put back at the running index, which then grows by one.
     */
    method SortByOrder(order: seq<string>)
      modifies this
      ensures items == Run(old(items), order).0
    {
      if order == [] {
        return;
      }
      var index := 0;
      for k := 0 to |order|
        invariant (items, index) == Run(old(items), order[..k])
      {
        assert order[..k + 1][..k] == order[..k] && order[..k + 1][k] == order[k];
        var r := FirstMatch(items, order[k]);
        if r.Some? {
          items := Move(items, r.value, index);
          index := index + 1;
        }
      }
      assert order[..|order|] == order;
    }
  }
}
