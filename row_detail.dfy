/** The row detail of the current variant (`RowDetailModel`): one row shown as
    a column/value list with a selected column. esc or q goes back to where the
    row came from, enter opens the cell editor on the selected column, and
    `gg`/`G`, up and down move the selection. */
module RowDetail {
  import opened Session
  import opened Messages

  const UpKeys: set<string> := {"up", "k"}
  const DownKeys: set<string> := {"down", "j"}
  const BackKeys: set<string> := {"esc", "q"}

  /** Where esc or q leads: back to the query results the row came from, or
      back to the table data of the selected table. */
  function BackTarget(fromQuery: bool, selectedTable: int): (m: Msg)
    ensures fromQuery <==> m == ReturnToQuery
    ensures !fromQuery ==> m.SwitchToTableData? && m.tableIndex == selectedTable
  {
    if fromQuery then ReturnToQuery else SwitchToTableData(selectedTable)
  }

  class RowDetailModel {
    const shared: SharedData
    const rowIndex: int
    var selectedCol: int
    var fromQuery: bool
    var gPressed: bool
    var focused: bool

    /** `NewRowDetailModel`: focused on the first column, not from a query. */
    constructor (shared: SharedData, rowIndex: int)
      ensures this.shared == shared && this.rowIndex == rowIndex
      ensures selectedCol == 0 && !fromQuery && !gPressed && focused
    {
      this.shared := shared;
      this.rowIndex := rowIndex;
      selectedCol, fromQuery := 0, false;
      gPressed, focused := false, true;
    }

    /** The selected column is one of the columns (or 0 when there are none). */
    predicate InRange()
      reads this, shared
    {
      0 <= selectedCol && (selectedCol < |shared.Columns| || selectedCol == 0)
    }

    /** What a message does to this view, as `Update` promises it; the
        dispatcher passes this on for the view on show. */
    twostate predicate UpdateEffect(msg: Msg, cmd: Cmd)
      reads this, shared
    {
      && unchanged(shared)
      && fromQuery == old(fromQuery) && focused == old(focused)
      && (!(old(focused) && msg.Key?) ==> cmd == NoCmd && unchanged(this))
      && (old(focused) && msg.Key? ==> NavigationEffect(msg.name, cmd))
    }

    /** `Update`: nothing while unfocused; keys go to navigation, other
        messages change nothing. */
    method Update(msg: Msg) returns (cmd: Cmd)
      modifies this`selectedCol, this`gPressed
      ensures UpdateEffect(msg, cmd)
      ensures old(InRange()) ==> InRange()
    {
      cmd := NoCmd;
      if !focused {
        return;
      }
      match msg {
        case Key(k) => cmd := HandleNavigation(k);
        case _ =>
      }
    }

    /** What `HandleNavigation` does. */
    twostate predicate NavigationEffect(k: string, cmd: Cmd)
      reads this, shared
    {
      && gPressed == (k == "g" && !old(gPressed))
      && cmd == (if k in BackKeys then Emit(BackTarget(fromQuery, shared.SelectedTable))
                 else if k == "enter" then Emit(SwitchToEditCell(rowIndex, old(selectedCol)))
                 else NoCmd)
      && (k == "g" && old(gPressed) ==> selectedCol == 0)
      && (k == "G" ==> selectedCol == (if |shared.Columns| > 0 then |shared.Columns| - 1 else old(selectedCol)))
      && (k in UpKeys ==> selectedCol == (if old(selectedCol) > 0 then old(selectedCol) - 1 else old(selectedCol)))
      && (k in DownKeys ==>
            selectedCol == (if old(selectedCol) < |shared.Columns| - 1 then old(selectedCol) + 1 else old(selectedCol)))
      && (!(k in {"g", "G"} + UpKeys + DownKeys) || (k == "g" && !old(gPressed)) ==> selectedCol == old(selectedCol))
    }

    /** `handleNavigation`. Every key but the first `g` of a `gg` cancels a
        pending `g`; enter always opens the editor, whether or not the row or
        the column exists. */
    method HandleNavigation(k: string) returns (cmd: Cmd)
      modifies this`selectedCol, this`gPressed
      ensures NavigationEffect(k, cmd)
      ensures old(InRange()) ==> InRange()
    {
      cmd := NoCmd;
      if k in BackKeys {
        gPressed := false;
        cmd := Emit(BackTarget(fromQuery, shared.SelectedTable));
      } else if k == "g" {
        if gPressed {
          selectedCol := 0;
          gPressed := false;
        } else {
          gPressed := true;
        }
      } else if k == "G" {
        if |shared.Columns| > 0 {
          selectedCol := |shared.Columns| - 1;
        }
        gPressed := false;
      } else if k == "enter" {
        gPressed := false;
        cmd := Emit(SwitchToEditCell(rowIndex, selectedCol));
      } else if k in UpKeys {
        gPressed := false;
        if selectedCol > 0 {
          selectedCol := selectedCol - 1;
        }
      } else if k in DownKeys {
        gPressed := false;
        if selectedCol < |shared.Columns| - 1 {
          selectedCol := selectedCol + 1;
        }
      } else {
        gPressed := false;
      }
    }
  }
}
