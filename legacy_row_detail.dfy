/** The row detail of the earlier variant (`rowDetailModel`): the columns of
    one shown row, one of them selected, with the widths its two-column layout
    gives the names and the values. */
module LegacyRowDetail {
  import opened Util
  import opened Session
  import opened Messages
  import opened LegacyTableList

  /** `getVisibleRowCount`: the height less nine reserved lines, and at
      least one. */
  function VisibleRowCount(height: int): (n: int)
    ensures n >= 1 && n >= height - 9
    ensures height > 9 ==> n == height - 9
    ensures height <= 9 ==> n == 1
  {
    Max(1, height - 9)
  }

  /** The width of the column-name column: a third of the terminal, and at
      least 15. */
  function ColWidth(width: int): (w: int)
    ensures w >= 15 && 3 * w <= Max(45, width)
    ensures width >= 45 ==> width - 2 <= 3 * w
  {
    Max(15, Quo(width, 3))
  }

  /** The width of the value column: what the name column and the ` | `
      separator leave, and at least 20. */
  function ValueWidth(width: int): (w: int)
    ensures w >= 20
    ensures width - ColWidth(width) - 5 >= 20 ==> ColWidth(width) + w + 5 == width
  {
    Max(20, width - ColWidth(width) - 5)
  }

  /** How many columns the view lists: all of them when they fit. */
  function DisplayRows(columns: nat, height: int): (n: nat)
    ensures n <= columns && n <= VisibleRowCount(height)
    ensures n == columns || n == VisibleRowCount(height)
  {
    Min(columns, VisibleRowCount(height))
  }

  /** A line of the layout (name, ` | ` and value, or the separator) is two
      bytes narrower than the terminal once that is 40 wide, and 38 wide
      below that. */
  lemma LineWidth(width: int)
    ensures ColWidth(width) + 3 + ValueWidth(width) == Max(38, width - 2)
  {
  }

  class RowDetailModel {
    const shared: SharedData
    const rowIndex: int
    var selectedCol: int

    /** `newRowDetailModel`: the first column selected. */
    constructor (shared: SharedData, rowIndex: int)
      ensures this.shared == shared && this.rowIndex == rowIndex && selectedCol == 0
      ensures InRange()
    {
      this.shared, this.rowIndex := shared, rowIndex;
      selectedCol := 0;
    }

    /** The selection is one of the columns (or 0 when there are none). */
    predicate InRange()
      reads this, shared
    {
      0 <= selectedCol && (selectedCol < |shared.Columns| || selectedCol == 0)
    }

    /** Whether enter may open the cell editor on the selected column. */
    predicate CanEdit()
      reads this, shared
    {
      |shared.FilteredData| > 0 && rowIndex < |shared.FilteredData| && selectedCol < |shared.Columns|
    }

    /** What a message does to this view, as `Update` promises it; the
        dispatcher passes this on for the view on show. */
    twostate predicate UpdateEffect(msg: Msg, cmd: Cmd)
      reads this, shared
    {
      && unchanged(shared)
      && (!msg.Key? ==> cmd == NoCmd && selectedCol == old(selectedCol))
      && (msg.Key? ==> NavigationEffect(msg.name, cmd))
    }

    /** `Update`: keys go to navigation; nothing else concerns this view. */
    method Update(msg: Msg) returns (cmd: Cmd)
      modifies this`selectedCol
      ensures UpdateEffect(msg, cmd)
      ensures old(InRange()) ==> InRange()
    {
      cmd := NoCmd;
      if msg.Key? {
        cmd := HandleNavigation(msg.name);
      }
    }

    /** What a key asks of the dispatcher: esc goes back to the table's rows,
        enter opens the editor when the row and the column exist, r reloads. */
    static function NavigationCmd(k: string, canEdit: bool, rowIndex: int, selectedCol: int, selectedTable: int): (cmd: Cmd)
      ensures cmd == Emit(SwitchToTableData(selectedTable)) <==> k == "esc"
      ensures cmd == Emit(SwitchToEditCell(rowIndex, selectedCol)) <==> k == "enter" && canEdit
      ensures cmd == Emit(RefreshData) <==> k == "r"
      ensures cmd == NoCmd <==> !(k in {"esc", "r"} || (k == "enter" && canEdit))
    {
      if k == "esc" then Emit(SwitchToTableData(selectedTable))
      else if k == "enter" && canEdit then Emit(SwitchToEditCell(rowIndex, selectedCol))
      else if k == "r" then Emit(RefreshData)
      else NoCmd
    }

    /** What a key does to this view: the command `NavigationCmd` names, and
        up and down step the selected column within the columns. */
    twostate predicate NavigationEffect(k: string, cmd: Cmd)
      reads this, shared
    {
      && cmd == NavigationCmd(k, old(CanEdit()), rowIndex, old(selectedCol), shared.SelectedTable)
      && (k in UpKeys ==> selectedCol == (if old(selectedCol) > 0 then old(selectedCol) - 1 else old(selectedCol)))
      && (k in DownKeys ==>
            selectedCol == (if old(selectedCol) < |shared.Columns| - 1 then old(selectedCol) + 1 else old(selectedCol)))
      && (k !in UpKeys + DownKeys ==> selectedCol == old(selectedCol))
    }

    /** `handleNavigation`: up and down step the selected column within the
        columns; the other keys are commands. */
    method HandleNavigation(k: string) returns (cmd: Cmd)
      modifies this`selectedCol
      ensures NavigationEffect(k, cmd)
      ensures old(InRange()) ==> InRange()
    {
      cmd := NoCmd;
      if k == "esc" {
        cmd := Emit(SwitchToTableData(shared.SelectedTable));
      } else if k == "enter" {
        if |shared.FilteredData| > 0 && rowIndex < |shared.FilteredData| && selectedCol < |shared.Columns| {
          cmd := Emit(SwitchToEditCell(rowIndex, selectedCol));
        }
      } else if k in UpKeys {
        if selectedCol > 0 {
          selectedCol := selectedCol - 1;
        }
      } else if k in DownKeys {
        if selectedCol < |shared.Columns| - 1 {
          selectedCol := selectedCol + 1;
        }
      } else if k == "r" {
        cmd := Emit(RefreshData);
      }
    }
  }
}
