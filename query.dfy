/** The query screen of the current variant (`QueryModel`): a one-line SQL
    editor above a result table. With the focus on the editor, keys edit the
    query, enter runs it in the background and esc leaves; with the focus on
    the results, keys move the selection, `i` goes back to the editor and
    enter opens the selected row. A finished query fills the shared cache's
    rows so that the row detail and the cell editor work on the results. */
module Query {
  import opened Caret
  import opened GoText
  import opened Session
  import opened Messages
  import opened QueryRewrite

  const UpKeys: set<string> := {"up", "k"}
  const DownKeys: set<string> := {"down", "j"}
  const BackKeys: set<string> := {"esc", "q"}

  /** `executeQuery`'s background work: the query, with the key columns put
      in by `ensureIDColumns` (as the code cuts it), is run; what comes back
      is its columns and rows, or the failure alone. */
  function Completion(store: Store, query: string): (m: Msg)
    ensures m.QueryCompleted?
    ensures m.failed <==> store.run(WithIdColumnsAsWritten(query, store)).None?
    ensures !m.failed ==>
              var result := store.run(WithIdColumnsAsWritten(query, store)).value;
              m.results == result.rows && m.columns == result.columns
  {
    match store.run(WithIdColumnsAsWritten(query, store))
    case Some(result) => QueryCompleted(result.rows, result.columns, false)
    case None => QueryCompleted([], [], true)
  }

  /** A successful completion of a query that the rewrite applies to shows
      the rows of a statement that starts with SELECT, names every primary
      key of the queried table and ends with the query's FROM clause. */
  lemma CompletionNamesKeys(store: Store, query: string)
    requires RewritePlan(query, store).Some?
    requires !Completion(store, query).failed
    ensures var sent := WithIdColumnsAsWritten(query, store);
      var keys := PrimaryKeysOf(store, TableNameAfterFrom(query));
      var from := Index(ToLower(TrimSpace(query)), "from");
      && store.run(sent).Some?
      && Completion(store, query).results == store.run(sent).value.rows
      && HasPrefix(sent, "SELECT ")
      && 0 <= from <= |query| && HasSuffix(sent, " " + query[from..])
      && forall k :: 0 <= k < |keys| ==> Contains(sent, keys[k])
  {
  }

  class QueryModel {
    const shared: SharedData
    var query: string
    var cursor: nat
    var focusOnInput: bool
    var selectedRow: int
    var results: seq<seq<string>>
    var columns: seq<string>
    /** Whether the last query failed (`err != nil`). */
    var failed: bool
    var gPressed: bool

    /** `NewQueryModel`: an empty query with the focus on it, no results. */
    constructor (shared: SharedData)
      ensures this.shared == shared && Initial()
      ensures Valid() && InRange()
    {
      this.shared := shared;
      query, cursor, focusOnInput := "", 0, true;
      selectedRow, results, columns := 0, [], [];
      failed, gPressed := false, false;
    }

    predicate Valid()
      reads this
    {
      cursor <= |query|
    }

    /** The fields `NewQueryModel` starts with: an empty query with the focus
        on it, no results and no error. */
    predicate Initial()
      reads this
    {
      && query == "" && cursor == 0 && focusOnInput
      && selectedRow == 0 && results == [] && columns == [] && !failed && !gPressed
    }

    /** The selected row is one of the results (or 0 when there are none). */
    predicate InRange()
      reads this
    {
      0 <= selectedRow && (selectedRow < |results| || selectedRow == 0)
    }

    /** The query being edited, with its cursor. */
    function Edited(): Line
      reads this
    {
      Line(query, cursor)
    }

    /** What a message does to this view, as `Update` promises it; the
        dispatcher passes this on for the view on show. */
    twostate predicate UpdateEffect(msg: Msg, cmd: Cmd)
      requires old(Valid())
      reads this, shared
    {
      && unchanged(shared)
      && results == old(results) && columns == old(columns) && failed == old(failed)
      && (!msg.Key? ==> cmd == NoCmd && unchanged(this))
      && (msg.Key? && old(focusOnInput) ==>
            && focusOnInput && selectedRow == old(selectedRow) && gPressed == old(gPressed)
            && cmd == InputCmd(msg.name, old(query))
            && Edited() == (if msg.name in {"esc", "enter"} then old(Edited())
                            else EditKey(UnicodeByteSpace, old(Edited()), msg.name)))
      && (msg.Key? && !old(focusOnInput) ==>
            && query == old(query) && cursor == old(cursor)
            && ResultsEffect(msg.name, cmd))
    }

    /** `Update`: a key goes to the editor or to the results, whichever has
        the focus; other messages (the cursor blink) change nothing modelled. */
    method Update(msg: Msg) returns (cmd: Cmd)
      requires Valid()
      modifies this`query, this`cursor, this`focusOnInput, this`selectedRow, this`gPressed
      ensures Valid()
      ensures UpdateEffect(msg, cmd)
      ensures old(InRange()) ==> InRange()
    {
      cmd := NoCmd;
      match msg {
        case Key(k) =>
          if focusOnInput {
            cmd := HandleQueryInput(k);
          } else {
            cmd := HandleResultsNavigation(k);
          }
        case _ =>
      }
    }

    /** What a key sent to the editor asks for: esc leaves for the table
        list, enter runs a query that is not blank. */
    static function InputCmd(k: string, query: string): (cmd: Cmd)
      ensures cmd == NoCmd || cmd == Emit(SwitchToTableListClear) || cmd == ExecuteQuery(query)
      ensures cmd == Emit(SwitchToTableListClear) <==> k == "esc"
      ensures cmd.ExecuteQuery? <==> k == "enter" && TrimSpace(query) != ""
    {
      if k == "esc" then Emit(SwitchToTableListClear)
      else if k == "enter" && TrimSpace(query) != "" then ExecuteQuery(query)
      else NoCmd
    }

    /** What a key sent to the results asks for: esc or q leaves for the table
        list, enter opens the selected row when there are results. */
    static function ResultsCmd(k: string, count: nat, selected: int): (cmd: Cmd)
      ensures cmd == NoCmd || cmd == Emit(SwitchToTableListClear) || cmd == Emit(SwitchToRowDetailFromQuery(selected))
      ensures cmd == Emit(SwitchToTableListClear) <==> k in BackKeys
      ensures cmd == Emit(SwitchToRowDetailFromQuery(selected)) <==> k == "enter" && count > 0
    {
      if k in BackKeys then Emit(SwitchToTableListClear)
      else if k == "enter" && count > 0 then Emit(SwitchToRowDetailFromQuery(selected))
      else NoCmd
    }

    /** `handleQueryInput`. */
    method HandleQueryInput(k: string) returns (cmd: Cmd)
      requires Valid()
      modifies this`query, this`cursor
      ensures Valid()
      ensures cmd == InputCmd(k, old(query))
      ensures k in {"esc", "enter"} ==> unchanged(this)
      ensures k !in {"esc", "enter"} ==> Edited() == EditKey(UnicodeByteSpace, old(Edited()), k)
    {
      cmd := NoCmd;
      if k == "esc" {
        cmd := Emit(SwitchToTableListClear);
      } else if k == "enter" {
        if TrimSpace(query) != "" {
          cmd := ExecuteQuery(query);
        }
      } else {
        Edit(k);
      }
    }

    /** The editing keys, on the query and its cursor. */
    method Edit(k: string)
      requires Valid()
      modifies this`query, this`cursor
      ensures Valid()
      ensures Edited() == EditKey(UnicodeByteSpace, old(Edited()), k)
    {
      if k == "backspace" {
        if cursor > 0 {
          query := query[..cursor - 1] + query[cursor..];
          cursor := cursor - 1;
        }
      } else if k == "left" {
        if cursor > 0 {
          cursor := cursor - 1;
        }
      } else if k == "right" {
        if cursor < |query| {
          cursor := cursor + 1;
        }
      } else if k == "home" || k == "ctrl+a" {
        cursor := 0;
      } else if k == "end" || k == "ctrl+e" {
        cursor := |query|;
      } else if k == "ctrl+left" {
        cursor := WordLeft(UnicodeByteSpace, query, cursor);
      } else if k == "ctrl+right" {
        cursor := WordRight(UnicodeByteSpace, query, cursor);
      } else if k == "ctrl+w" {
        DeleteWordLeft();
      } else if |k| == 1 {
        query := query[..cursor] + k + query[cursor..];
        cursor := cursor + 1;
      }
    }

    /** `deleteWordLeft`: remove the word left of the cursor (nothing at the start). */
    method DeleteWordLeft()
      requires Valid()
      modifies this`query, this`cursor
      ensures Valid()
      ensures Edited() == Caret.DeleteWordLeft(UnicodeByteSpace, old(Edited()))
    {
      if cursor == 0 {
        assert query[..0] + query[0..] == query;
        return;
      }
      var p := WordLeft(UnicodeByteSpace, query, cursor);
      query := query[..p] + query[cursor..];
      cursor := p;
    }

    /** What a key does to the results: `i` gives the focus back to the
        editor, `gg` and `G` go to the first and last row, up and down step
        within the results, and the command is `ResultsCmd`. */
    twostate predicate ResultsEffect(k: string, cmd: Cmd)
      reads this
    {
      && cmd == ResultsCmd(k, |results|, old(selectedRow))
      && gPressed == (k == "g" && !old(gPressed))
      && focusOnInput == (k == "i")
      && (k == "g" && old(gPressed) ==> selectedRow == 0)
      && (k == "G" ==> selectedRow == (if |results| > 0 then |results| - 1 else old(selectedRow)))
      && (k in UpKeys ==> selectedRow == (if old(selectedRow) > 0 then old(selectedRow) - 1 else old(selectedRow)))
      && (k in DownKeys ==>
            selectedRow == (if old(selectedRow) < |results| - 1 then old(selectedRow) + 1 else old(selectedRow)))
      && (!(k in {"g", "G"} + UpKeys + DownKeys) || (k == "g" && !old(gPressed)) ==> selectedRow == old(selectedRow))
    }

    /** `handleResultsNavigation`. Every key but the first `g` of a `gg`
        cancels a pending `g`. */
    method HandleResultsNavigation(k: string) returns (cmd: Cmd)
      requires !focusOnInput
      modifies this`selectedRow, this`gPressed, this`focusOnInput
      ensures ResultsEffect(k, cmd)
      ensures old(InRange()) ==> InRange()
    {
      cmd := NoCmd;
      if k in BackKeys {
        gPressed := false;
        cmd := Emit(SwitchToTableListClear);
      } else if k == "g" {
        if gPressed {
          selectedRow := 0;
          gPressed := false;
        } else {
          gPressed := true;
        }
      } else if k == "G" {
        if |results| > 0 {
          selectedRow := |results| - 1;
        }
        gPressed := false;
      } else if k == "i" {
        gPressed := false;
        focusOnInput := true;
      } else if k == "enter" {
        gPressed := false;
        if |results| > 0 {
          cmd := Emit(SwitchToRowDetailFromQuery(selectedRow));
        }
      } else if k in UpKeys {
        gPressed := false;
        if selectedRow > 0 {
          selectedRow := selectedRow - 1;
        }
      } else if k in DownKeys {
        gPressed := false;
        if selectedRow < |results| - 1 {
          selectedRow := selectedRow + 1;
        }
      } else {
        gPressed := false;
      }
    }

    /** What `HandleCompletion` does; the query text and its cursor stay. */
    twostate predicate CompletionEffect(rows: seq<seq<string>>, cols: seq<string>, err: bool)
      reads this, shared
    {
      && query == old(query) && cursor == old(cursor) && gPressed == old(gPressed)
      && (err ==>
            && failed && unchanged(shared)
            && results == old(results) && columns == old(columns)
            && focusOnInput == old(focusOnInput) && selectedRow == old(selectedRow))
      && (!err ==>
            && results == rows && columns == cols && !focusOnInput && selectedRow == 0 && !failed
            && shared.Snapshot() == old(shared.Snapshot()).(cells := old(shared.Cells) + rows,
                                                             filteredData := Span(|old(shared.Cells)|, |rows|),
                                                             columns := cols, isQueryResult := true)
            && shared.Valid() && shared.FilteredRows() == rows)
    }

    /** `handleQueryCompletion`: a failure is only remembered; a result
        becomes the screen's results and the shared cache's rows and columns,
        marked as a query result, with the focus on its first row. */
    method HandleCompletion(rows: seq<seq<string>>, cols: seq<string>, err: bool)
      requires shared.Valid()
      modifies shared, this`results, this`columns, this`focusOnInput, this`selectedRow, this`failed
      ensures shared.Valid()
      ensures CompletionEffect(rows, cols, err)
    {
      if err {
        failed := true;
        return;
      }
      results, columns := rows, cols;
      shared.ShowQueryRows(rows, cols);
      focusOnInput, selectedRow, failed := false, 0, false;
    }
  }
}
