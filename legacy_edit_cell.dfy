/** The cell editor of the earlier variant (`editCellModel`): a one-line
    editor that also knows delete, ctrl+k and ctrl+u, keeps the value it was
    opened with, and uses the earlier variant's four white-space bytes for its
    word motions. */
module LegacyEditCell {
  import opened Caret
  import opened Session
  import opened Messages
  import opened EditCell

  class EditCellModel {
    const shared: SharedData
    const rowIndex: int
    const colIndex: int
    /** `originalValue`: set when the editor opens and never changed. */
    const original: string
    var value: string
    var cursor: nat

    /** `newEditCellModel`: the cell's text (or "" when the cell does not
        exist) as both the original and the edited value, cursor at its end. */
    constructor (shared: SharedData, rowIndex: int, colIndex: int)
      requires shared.Valid() && Opens(shared.FilteredRows(), rowIndex, colIndex)
      ensures this.shared == shared && this.rowIndex == rowIndex && this.colIndex == colIndex
      ensures original == StartText(shared.FilteredRows(), rowIndex, colIndex)
      ensures value == original && cursor == |value|
      ensures Valid()
    {
      this.shared := shared;
      this.rowIndex := rowIndex;
      this.colIndex := colIndex;
      var rows := shared.FilteredRows();
      var v := "";
      if rowIndex < |rows| && colIndex < |rows[rowIndex]| {
        v := rows[rowIndex][colIndex];
      }
      original := v;
      value := v;
      cursor := |v|;
    }

    predicate Valid()
      reads this
    {
      cursor <= |value|
    }

    /** The text being edited, with its cursor. */
    function Edited(): Line
      reads this
    {
      Line(value, cursor)
    }

    /** What a message does to this view, as `Update` promises it; the
        dispatcher passes this on for the view on show. */
    twostate predicate UpdateEffect(msg: Msg, cmd: Cmd)
      requires old(Valid())
      reads this, shared
    {
      && unchanged(shared)
      && (!msg.Key? ==> cmd == NoCmd && unchanged(this))
      && (msg == Key("esc") ==> cmd == Emit(SwitchToRowDetail(rowIndex)) && unchanged(this))
      && (msg == Key("enter") ==> cmd == Emit(UpdateCellRequest(rowIndex, colIndex, value)) && unchanged(this))
      && (msg.Key? && msg.name != "esc" && msg.name != "enter" ==>
            cmd == NoCmd && Edited() == EditKeyWithKills(old(Edited()), msg.name))
    }

    /** `Update` and `handleInput`: esc goes back to the row detail, enter
        asks for the edited value to be written, any other key edits. */
    method Update(msg: Msg) returns (cmd: Cmd)
      requires Valid()
      modifies this`value, this`cursor
      ensures Valid()
      ensures UpdateEffect(msg, cmd)
    {
      cmd := NoCmd;
      if msg.Key? {
        var k := msg.name;
        if k == "esc" {
          cmd := Emit(SwitchToRowDetail(rowIndex));
        } else if k == "enter" {
          cmd := Emit(UpdateCellRequest(rowIndex, colIndex, value));
        } else {
          Edit(k);
        }
      }
    }

    /** The editing keys of `handleInput`, on the value and its cursor. */
    method Edit(k: string)
      requires Valid()
      modifies this`value, this`cursor
      ensures Valid()
      ensures Edited() == EditKeyWithKills(old(Edited()), k)
    {
      if k == "delete" || k == "ctrl+d" {
        if cursor < |value| {
          value := value[..cursor] + value[cursor + 1..];
        }
      } else if k == "ctrl+k" {
        value := value[..cursor];
      } else if k == "ctrl+u" {
        value := value[cursor..];
        cursor := 0;
      } else {
        Move(k);
      }
    }

    /** The keys both variants' editors share, with the earlier variant's
        white space. */
    method Move(k: string)
      requires Valid()
      modifies this`value, this`cursor
      ensures Valid()
      ensures Edited() == EditKey(QueryWhitespace, old(Edited()), k)
    {
      if k == "left" {
        if cursor > 0 {
          cursor := cursor - 1;
        }
      } else if k == "right" {
        if cursor < |value| {
          cursor := cursor + 1;
        }
      } else if k == "ctrl+left" {
        cursor := WordLeft(QueryWhitespace, value, cursor);
      } else if k == "ctrl+right" {
        cursor := WordRight(QueryWhitespace, value, cursor);
      } else if k == "home" || k == "ctrl+a" {
        cursor := 0;
      } else if k == "end" || k == "ctrl+e" {
        cursor := |value|;
      } else if k == "backspace" {
        if cursor > 0 {
          value := value[..cursor - 1] + value[cursor..];
          cursor := cursor - 1;
        }
      } else if k == "ctrl+w" {
        var p := WordLeft(QueryWhitespace, value, cursor);
        value := value[..p] + value[cursor..];
        cursor := p;
      } else if |k| == 1 {
        value := value[..cursor] + k + value[cursor..];
        cursor := cursor + 1;
      }
    }
  }
}
