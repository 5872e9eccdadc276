/** The cell editor of the current variant (`EditCellModel`): a one-line
    editor opened on one cell of the shown rows; esc goes back to the row
    detail and enter asks the dispatcher to write the value back. The cursor
    blink is not modelled. */
module EditCell {
  import opened Caret
  import opened Session
  import opened Messages

  /** Opening the editor on `row`, `col` does not make Go index out of range:
      the row index is checked only against the upper bound, so a negative row
      panics, and so does a negative column of an existing row. */
  predicate Opens(rows: seq<seq<string>>, row: int, col: int) {
    row >= 0 && (row >= |rows| || col >= 0)
  }

  /** The text the editor starts with: the cell's value when the cell exists,
      the empty string otherwise. */
  function StartText(rows: seq<seq<string>>, row: int, col: int): (s: string)
    requires Opens(rows, row, col)
    ensures 0 <= row < |rows| && 0 <= col < |rows[row]| ==> s == rows[row][col]
    ensures !(row < |rows| && col < |rows[row]|) ==> s == ""
  {
    if row < |rows| && col < |rows[row]| then rows[row][col] else ""
  }

  class EditCellModel {
    const shared: SharedData
    const rowIndex: int
    const colIndex: int
    var value: string
    var cursor: nat

    /** `NewEditCellModel`: the cell's text, with the cursor after it. */
    constructor (shared: SharedData, rowIndex: int, colIndex: int)
      requires shared.Valid() && Opens(shared.FilteredRows(), rowIndex, colIndex)
      ensures this.shared == shared && this.rowIndex == rowIndex && this.colIndex == colIndex
      ensures value == StartText(shared.FilteredRows(), rowIndex, colIndex) && cursor == |value|
      ensures Valid()
    {
      this.shared := shared;
      this.rowIndex := rowIndex;
      this.colIndex := colIndex;
      var rows := shared.FilteredRows();
      var v := "";
      if rowIndex < |rows| && colIndex < |rows[rowIndex]| {
        v := rows[rowIndex][colIndex];
      }
      value := v;
      cursor := |v|;
    }

    predicate Valid()
      reads this
    {
      cursor <= |value|
    }

    /** The text being edited, with its cursor. */
    function Edited(): Line
      reads this
    {
      Line(value, cursor)
    }

    /** What a message does to this view, as `Update` promises it; the
        dispatcher passes this on for the view on show. */
    twostate predicate UpdateEffect(msg: Msg, cmd: Cmd)
      requires old(Valid())
      reads this, shared
    {
      && unchanged(shared)
      && (!msg.Key? ==> cmd == NoCmd && unchanged(this))
      && (msg == Key("esc") ==> cmd == Emit(SwitchToRowDetail(rowIndex)) && unchanged(this))
      && (msg == Key("enter") ==> cmd == Emit(UpdateCellRequest(rowIndex, colIndex, value)) && unchanged(this))
      && (msg.Key? && msg.name != "esc" && msg.name != "enter" ==>
            cmd == NoCmd && Edited() == EditKey(UnicodeByteSpace, old(Edited()), msg.name))
    }

    /** `Update`: esc cancels, enter saves, any other key edits; other messages
        (the cursor blink) change nothing modelled. */
    method Update(msg: Msg) returns (cmd: Cmd)
      requires Valid()
      modifies this`value, this`cursor
      ensures Valid()
      ensures UpdateEffect(msg, cmd)
    {
      cmd := NoCmd;
      match msg {
        case Key(k) =>
          if k == "esc" {
            cmd := Emit(SwitchToRowDetail(rowIndex));
          } else if k == "enter" {
            cmd := Emit(UpdateCellRequest(rowIndex, colIndex, value));
          } else {
            Edit(k);
          }
        case _ =>
      }
    }

    /** The editing keys, on the value and its cursor. */
    method Edit(k: string)
      requires Valid()
      modifies this`value, this`cursor
      ensures Valid()
      ensures Edited() == EditKey(UnicodeByteSpace, old(Edited()), k)
    {
      if k == "backspace" {
        if cursor > 0 {
          value := value[..cursor - 1] + value[cursor..];
          cursor := cursor - 1;
        }
      } else if k == "left" {
        if cursor > 0 {
          cursor := cursor - 1;
        }
      } else if k == "right" {
        if cursor < |value| {
          cursor := cursor + 1;
        }
      } else if k == "home" || k == "ctrl+a" {
        cursor := 0;
      } else if k == "end" || k == "ctrl+e" {
        cursor := |value|;
      } else if k == "ctrl+left" {
        cursor := WordLeft(UnicodeByteSpace, value, cursor);
      } else if k == "ctrl+right" {
        cursor := WordRight(UnicodeByteSpace, value, cursor);
      } else if k == "ctrl+w" {
        DeleteWordLeft();
      } else if |k| == 1 {
        value := value[..cursor] + k + value[cursor..];
        cursor := cursor + 1;
      }
    }

    /** `deleteWordLeft`: remove the word left of the cursor (nothing at the start). */
    method DeleteWordLeft()
      requires Valid()
      modifies this`value, this`cursor
      ensures Valid()
      ensures Edited() == Caret.DeleteWordLeft(UnicodeByteSpace, old(Edited()))
    {
      if cursor == 0 {
        assert value[..0] + value[0..] == value;
        return;
      }
      var p := WordLeft(UnicodeByteSpace, value, cursor);
      value := value[..p] + value[cursor..];
      cursor := p;
    }
  }
}
