/**
 * The settings page (`MacroCheckConfigurable`): the editable whitelist table
 * (`WhitelistTableModel`) and the `isModified` / `reset` / `apply` exchange
 * between the page and the stored configuration.
 *
 * The table is a list of `(name, enabled)` rows that its methods change in
 * place. Unlike the store, the table itself does not clean its rows: renaming
 * trims and refuses a name another row has (ignoring case), but adding a row
 * checks nothing, and loading rows only drops blank names.
 */
module ConfigUi {
  import opened Wrappers
  import opened TextUtil
  import opened Config

  /** The name the add button gives a new row. */
  const NewMacroName: string := "NEW_MACRO"

  /** One table row: the macro name and whether it is enabled. */
  type Row = (string, bool)

  /** What Swing hands to `setValueAt`: an untyped cell value. */
  datatype CellValue = NullValue | StringValue(s: string) | BooleanValue(b: bool)

  /** `value?.toString()?.trim()`: absent for null, otherwise the value's text, trimmed. */
  function TrimmedText(value: CellValue): Option<string> {
    match value
    case NullValue => None
    case StringValue(s) => Some(Trim(s))
    case BooleanValue(b) => Some(if b then "true" else "false")
  }

  /** `value as? Boolean ?: false`. */
  function AsBoolean(value: CellValue): bool {
    match value
    case BooleanValue(b) => b
    case _ => false
  }

  /** The rows without row `i`. */
  function RemoveAt(rows: seq<Row>, i: nat): (r: seq<Row>)
    requires i < |rows|
    ensures |r| == |rows| - 1
    ensures forall k :: 0 <= k < i ==> r[k] == rows[k]
    ensures forall k :: i <= k < |r| ==> r[k] == rows[k + 1]
  {
    rows[..i] + rows[i + 1..]
  }

  /** Some row other than `rowIndex` has `name`, ignoring case. */
  predicate NameTakenElsewhere(rows: seq<Row>, rowIndex: int, name: string) {
    exists index :: 0 <= index < |rows| && index != rowIndex && EqualsIgnoreCase(rows[index].0, name)
  }

  /** The rows `setValueAt(value, rowIndex, columnIndex)` leaves. */
  function SetValue(rows: seq<Row>, value: CellValue, rowIndex: int, columnIndex: int): seq<Row> {
    if rowIndex < 0 || rowIndex >= |rows| then rows
    else if columnIndex == 0 then
      var newName := TrimmedText(value);
      if newName.None? || newName.value == [] then RemoveAt(rows, rowIndex)
      else if NameTakenElsewhere(rows, rowIndex, newName.value) then rows
      else rows[rowIndex := (newName.value, rows[rowIndex].1)]
    else if columnIndex == 1 then rows[rowIndex := (rows[rowIndex].0, AsBoolean(value))]
    else rows
  }

  /** `filter { it.first.isNotBlank() }`: the rows whose name is not blank, in order. */
  function NonBlankRows(rows: seq<Row>): (r: seq<Row>)
    ensures |r| <= |rows|
    ensures forall k :: 0 <= k < |r| ==> !IsBlank(r[k].0)
    decreases |rows|
  {
    if rows == [] then []
    else (if IsBlank(rows[0].0) then [] else [rows[0]]) + NonBlankRows(rows[1..])
  }

  /** `filter { it.second }.map { it.first }`: the names of the enabled rows, in order. */
  function EnabledRowNames(rows: seq<Row>): (r: seq<string>)
    ensures |r| <= |rows|
    decreases |rows|
  {
    if rows == [] then []
    else (if rows[0].1 then [rows[0].0] else []) + EnabledRowNames(rows[1..])
  }

  /** `toSet()` of a list of rows. */
  function RowSet(rows: seq<Row>): set<Row> {
    set k | 0 <= k < |rows| :: rows[k]
  }

  /**
   * `isModified`: the check box differs from the stored switch, or the rows and
   * the stored pairs differ as sets (order and repeats ignored, names compared
   * exactly).
   */
  predicate SettingsDiffer(checkboxSelected: bool, rows: seq<Row>, stored: State) {
    checkboxSelected != stored.enableWhitelist ||
    RowSet(rows) != RowSet(EntriesToPairs(stored.whitelistMacros))
  }

  /** No two rows have names equal ignoring case. */
  predicate NamesDistinct(rows: seq<Row>) {
    forall j, k :: 0 <= j < k < |rows| ==> Lower(rows[j].0) != Lower(rows[k].0)
  }

  // ---------------------------------------------------------------------------
  // The table
  // ---------------------------------------------------------------------------

  class WhitelistTableModel {
    var macros: seq<Row>

    constructor ()
      ensures macros == []
    {
      macros := [];
    }

    function GetRowCount(): nat
      reads this
    {
      |macros|
    }

    /**
     * `setValueAt`: column 0 renames the row to the trimmed text (or removes the
     * row when that is null or empty, or does nothing when another row has the
     * name ignoring case), column 1 sets the enabled flag; a row outside the
     * table changes nothing.
     */
    method SetValueAt(value: CellValue, rowIndex: int, columnIndex: int)
      modifies this
      ensures macros == SetValue(old(macros), value, rowIndex, columnIndex)
    {
      if rowIndex < 0 || rowIndex >= |macros| {
        return;
      }
      if columnIndex == 0 {
        var newName := TrimmedText(value);
        if newName.None? || newName.value == [] {
          RemoveMacro(rowIndex);
        } else {
          var isDuplicate := false;
          for index := 0 to |macros|
            invariant isDuplicate <==>
                        exists j :: 0 <= j < index && j != rowIndex && EqualsIgnoreCase(macros[j].0, newName.value)
          {
            if index != rowIndex && EqualsIgnoreCase(macros[index].0, newName.value) {
              isDuplicate := true;
            }
          }
          if isDuplicate {
            return;
          }
          var enabled := macros[rowIndex].1;
          macros := macros[rowIndex := (newName.value, enabled)];
        }
      } else if columnIndex == 1 {
        var enabled := AsBoolean(value);
        var macroName := macros[rowIndex].0;
        macros := macros[rowIndex := (macroName, enabled)];
      }
    }

    /** `addMacro`: appends the row, whatever names the table already has. */
    method AddMacro(macro: string, enabled: bool)
      modifies this
      ensures macros == old(macros) + [(macro, enabled)]
    {
      macros := macros + [(macro, enabled)];
    }

    /** `removeMacro`: drops row `rowIndex` if there is one. */
    method RemoveMacro(rowIndex: int)
      modifies this
      ensures macros == if 0 <= rowIndex < |old(macros)| then RemoveAt(old(macros), rowIndex) else old(macros)
    {
      if 0 <= rowIndex < |macros| {
        macros := macros[..rowIndex] + macros[rowIndex + 1..];
      }
    }

    function GetEnabledMacros(): seq<string>
      reads this
    {
      EnabledRowNames(macros)
    }

    function GetAllMacros(): seq<Row>
      reads this
    {
      macros
    }

    /** `setMacros`: the table now holds the non-blank rows given, in order, untrimmed. */
    method SetMacros(newMacros: seq<Row>)
      modifies this
      ensures macros == NonBlankRows(newMacros)
    {
      macros := [];
      macros := macros + NonBlankRows(newMacros);
    }
  }

  // ---------------------------------------------------------------------------
  // The page
  // ---------------------------------------------------------------------------

  class MacroCheckConfigurable {
    const config: MacroCheckConfig
    const tableModel: WhitelistTableModel
    var enableWhitelistSelected: bool

    constructor (config: MacroCheckConfig, tableModel: WhitelistTableModel)
      ensures this.config == config && this.tableModel == tableModel
      ensures !enableWhitelistSelected
    {
      this.config := config;
      this.tableModel := tableModel;
      enableWhitelistSelected := false;
    }

    /** The add button: a new enabled row named `NEW_MACRO` at the end of the table. */
    method AddAction()
      modifies tableModel
      ensures tableModel.macros == old(tableModel.macros) + [(NewMacroName, true)]
    {
      tableModel.AddMacro(NewMacroName, true);
    }

    /** The remove button: drops the selected row; `-1` (no selection) changes nothing. */
    method RemoveAction(selectedRow: int)
      modifies tableModel
      ensures tableModel.macros ==
              if 0 <= selectedRow < |old(tableModel.macros)| then RemoveAt(old(tableModel.macros), selectedRow)
              else old(tableModel.macros)
    {
      if selectedRow >= 0 {
        tableModel.RemoveMacro(selectedRow);
      }
    }

    /** `isModified`. */
    predicate IsModified()
      reads this, config, tableModel
    {
      SettingsDiffer(enableWhitelistSelected, tableModel.GetAllMacros(), config.GetState())
    }

    /** `reset`: the page shows the stored switch and the stored pairs. */
    method Reset()
      modifies this, tableModel
      ensures enableWhitelistSelected == config.IsEnableWhitelist()
      ensures tableModel.macros == NonBlankRows(config.GetAllMacros())
      ensures config.Valid() ==> !IsModified()
    {
      enableWhitelistSelected := config.IsEnableWhitelist();
      var macros := config.GetAllMacros();
      tableModel.SetMacros(macros);
      if config.Valid() {
        ResetShowsStored(config.state.whitelistMacros);
      }
    }

    /** `apply`: the store takes the check box and the cleaned rows. */
    method Apply()
      modifies config
      ensures config.state ==
              State(Dedup(PairsToEntries(tableModel.macros)), enableWhitelistSelected)
      ensures config.Valid()
    {
      config.SetEnableWhitelist(enableWhitelistSelected);
      config.SetAllMacros(tableModel.GetAllMacros());
    }
  }

  // ---------------------------------------------------------------------------
  // Properties of the table operations
  // ---------------------------------------------------------------------------

  /** A row index outside the table changes nothing, whatever the column. */
  lemma SetValueOutOfRange(rows: seq<Row>, value: CellValue, rowIndex: int, columnIndex: int)
    requires rowIndex < 0 || rowIndex >= |rows|
    ensures SetValue(rows, value, rowIndex, columnIndex) == rows
  {
  }

  /** Column 0 with null or a blank text removes exactly that row. */
  lemma SetValueBlankRemoves(rows: seq<Row>, value: CellValue, rowIndex: int)
    requires 0 <= rowIndex < |rows|
    requires value.NullValue? || (value.StringValue? && IsBlank(value.s))
    ensures var r := SetValue(rows, value, rowIndex, 0);
            |r| == |rows| - 1 && r == rows[..rowIndex] + rows[rowIndex + 1..]
  {
    if value.StringValue? {
      TrimEmptyIffBlank(value.s);
    }
  }

  /**
   * Column 0 renames: when another row has the trimmed name ignoring case the
   * rows stay as they are; otherwise only that row's name changes, to the
   * trimmed text, and its flag is kept.
   */
  lemma SetValueRename(rows: seq<Row>, s: string, rowIndex: int)
    requires 0 <= rowIndex < |rows| && !IsBlank(s)
    ensures var r := SetValue(rows, StringValue(s), rowIndex, 0);
            (exists j :: 0 <= j < |rows| && j != rowIndex && Lower(rows[j].0) == Lower(Trim(s))) ==> r == rows
    ensures var r := SetValue(rows, StringValue(s), rowIndex, 0);
            !(exists j :: 0 <= j < |rows| && j != rowIndex && Lower(rows[j].0) == Lower(Trim(s))) ==>
              |r| == |rows| && r[rowIndex].0 == Trim(s) && r[rowIndex].1 == rows[rowIndex].1 &&
              forall k :: 0 <= k < |rows| && k != rowIndex ==> r[k] == rows[k]
  {
    TrimEmptyIffBlank(s);
  }

  /** Column 1 sets the flag (false for anything but a Boolean) and keeps the name and the other rows. */
  lemma SetValueEnabled(rows: seq<Row>, value: CellValue, rowIndex: int)
    requires 0 <= rowIndex < |rows|
    ensures var r := SetValue(rows, value, rowIndex, 1);
            |r| == |rows| && r[rowIndex].0 == rows[rowIndex].0 &&
            r[rowIndex].1 == (value.BooleanValue? && value.b) &&
            forall k :: 0 <= k < |rows| && k != rowIndex ==> r[k] == rows[k]
  {
  }

  /** Editing cells never makes two names equal ignoring case. */
  lemma SetValueKeepsNamesDistinct(rows: seq<Row>, value: CellValue, rowIndex: int, columnIndex: int)
    requires NamesDistinct(rows)
    ensures NamesDistinct(SetValue(rows, value, rowIndex, columnIndex))
  {
    var r := SetValue(rows, value, rowIndex, columnIndex);
    if 0 <= rowIndex < |rows| && columnIndex == 0 {
      var newName := TrimmedText(value);
      if newName.None? || newName.value == [] {
        forall j, k | 0 <= j < k < |r|
          ensures Lower(r[j].0) != Lower(r[k].0)
        {
          var j' := if j < rowIndex then j else j + 1;
          var k' := if k < rowIndex then k else k + 1;
          assert r[j] == rows[j'] && r[k] == rows[k'];
        }
      } else if !NameTakenElsewhere(rows, rowIndex, newName.value) {
        forall j, k | 0 <= j < k < |r|
          ensures Lower(r[j].0) != Lower(r[k].0)
        {
          if j == rowIndex {
            assert !EqualsIgnoreCase(rows[k].0, newName.value);
          } else if k == rowIndex {
            assert !EqualsIgnoreCase(rows[j].0, newName.value);
          }
        }
      }
    }
  }

  /** Adding a row when a row already has its name ignoring case breaks distinctness. */
  lemma AddMacroAllowsDuplicates(rows: seq<Row>, i: nat, macro: string, enabled: bool)
    requires i < |rows| && EqualsIgnoreCase(rows[i].0, macro)
    ensures !NamesDistinct(rows + [(macro, enabled)])
  {
    var r := rows + [(macro, enabled)];
    assert r[i] == rows[i] && r[|rows|] == (macro, enabled);
  }

  /** `removeMacro` in range keeps every other row, in order. */
  lemma RemoveAtKeepsOthers(rows: seq<Row>, i: nat, k: nat)
    requires i < |rows| && k < |rows| && k != i
    ensures RemoveAt(rows, i)[if k < i then k else k - 1] == rows[k]
  {
  }

  /** `setMacros` keeps exactly the non-blank rows: each one, in order, and no other. */
  lemma {:induction false} NonBlankRowsExactly(rows: seq<Row>, row: Row)
    ensures row in NonBlankRows(rows) <==> row in rows && !IsBlank(row.0)
    decreases |rows|
  {
    if rows != [] {
      NonBlankRowsExactly(rows[1..], row);
      assert rows == [rows[0]] + rows[1..];
    }
  }

  /** `setMacros` keeps order: filtering a concatenation filters each part. */
  lemma {:induction false} NonBlankRowsAppend(a: seq<Row>, b: seq<Row>)
    ensures NonBlankRows(a + b) == NonBlankRows(a) + NonBlankRows(b)
    decreases |a|
  {
    if a != [] {
      var head := if IsBlank(a[0].0) then [] else [a[0]];
      assert (a + b)[0] == a[0];
      assert (a + b)[1..] == a[1..] + b;
      NonBlankRowsAppend(a[1..], b);
      assert NonBlankRows(a + b) == head + (NonBlankRows(a[1..]) + NonBlankRows(b));
      assert NonBlankRows(a) == head + NonBlankRows(a[1..]);
    } else {
      assert a + b == b;
    }
  }

  /** Rows with no blank name pass through `setMacros` unchanged. */
  lemma {:induction false} NonBlankRowsOfNonBlank(rows: seq<Row>)
    requires forall k :: 0 <= k < |rows| ==> !IsBlank(rows[k].0)
    ensures NonBlankRows(rows) == rows
    decreases |rows|
  {
    if rows != [] {
      NonBlankRowsOfNonBlank(rows[1..]);
    }
  }

  /** The table's enabled names are the names of its enabled rows. */
  lemma {:induction false} EnabledRowNamesExactly(rows: seq<Row>, name: string)
    ensures name in EnabledRowNames(rows) <==> (name, true) in rows
    decreases |rows|
  {
    if rows != [] {
      EnabledRowNamesExactly(rows[1..], name);
      assert rows == [rows[0]] + rows[1..];
    }
  }

  // ---------------------------------------------------------------------------
  // Properties of reset and apply
  // ---------------------------------------------------------------------------

  /** A stored (clean) list has no blank names, so `reset` shows it as it is and nothing differs. */
  lemma ResetShowsStored(ms: seq<MacroEntry>)
    requires IsClean(ms)
    ensures NonBlankRows(EntriesToPairs(ms)) == EntriesToPairs(ms)
  {
    var ps := EntriesToPairs(ms);
    forall k | 0 <= k < |ps|
      ensures !IsBlank(ps[k].0)
    {
      assert ps[k].0 == ms[k].name;
      assert ms[k].name[0] == ms[k].name[0];
      assert !IsWhitespace(ms[k].name[0]);
    }
    NonBlankRowsOfNonBlank(ps);
  }

  /**
   * Rows already clean (trimmed, non-empty, distinct ignoring case) are stored
   * as they are, so after `apply` the page is no longer modified.
   */
  lemma ApplySettlesCleanRows(selected: bool, rows: seq<Row>)
    requires IsClean(PairsToEntries(rows))
    ensures !SettingsDiffer(selected, rows, State(Dedup(PairsToEntries(rows)), selected))
  {
    var ms := PairsToEntries(rows);
    DedupIdempotent(ms);
    assert EntriesToPairs(ms) == rows;
  }

  /**
   * Two rows whose names differ only in case (which `addMacro` lets in) are
   * stored as one, so after `apply` the page still reports a modification.
   */
  lemma ApplyKeepsCaseTwinsModified(selected: bool, a: string, b: string, enabled: bool)
    requires a != [] && IsTrimmed(a) && a != b && EqualsIgnoreCase(a, b)
    ensures var rows := [(a, enabled), (b, enabled)];
            SettingsDiffer(selected, rows, State(Dedup(PairsToEntries(rows)), selected))
  {
    var rows := [(a, enabled), (b, enabled)];
    var ms := PairsToEntries(rows);
    assert ms == [MacroEntry(a, enabled), MacroEntry(b, enabled)];
    TrimOfTrimmed(a);
    assert Trim(ms[0].name) == a;
    assert {} + {Lower(a)} == {Lower(a)};
    assert Dedup(ms) == [MacroEntry(a, enabled)] + CleanFrom({Lower(a)}, ms[1..]);
    assert ms[1..] == [MacroEntry(b, enabled)];
    if Trim(b) != [] {
      TrimOfCaseTwin(a, b);
    }
    assert CleanFrom({Lower(a)}, [MacroEntry(b, enabled)]) == CleanFrom({Lower(a)}, []);
    var stored := EntriesToPairs(Dedup(ms));
    assert stored == [(a, enabled)];
    assert (b, enabled) in RowSet(rows);
    assert (b, enabled) !in RowSet(stored);
  }

  /** A name equal ignoring case to a trimmed name trims to something with the same lower case. */
  lemma TrimOfCaseTwin(a: string, b: string)
    requires IsTrimmed(a) && a != [] && EqualsIgnoreCase(a, b)
    ensures Lower(Trim(b)) == Lower(a)
  {
    LowerAt(a);
    LowerAt(b);
    assert |a| == |b|;
    assert !IsWhitespace(LowerChar(b[0])) && !IsWhitespace(LowerChar(b[|b| - 1]));
    assert !IsWhitespace(b[0]) && !IsWhitespace(b[|b| - 1]);
    TrimOfTrimmed(b);
  }
}
