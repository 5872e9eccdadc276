/** The query screen of the earlier variant (`queryModel`): a one-line SQL
    editor and the result table under it. Tab moves the focus between them
    when there are results; enter runs the query (on the editor, at once and
    unchanged) or opens the selected result row, after guessing which table
    the query read from. */
module LegacyQuery {
  import opened Options
  import opened Caret
  import opened GoText
  import opened Util
  import opened Session
  import opened Messages
  import opened LegacyTableList

  /** The words `detectSourceTable` refuses to take for a table name. */
  const StopWords: set<string> := {"where", "order", "group", "having", "limit", "join", "inner", "left", "right", "on"}

  /** The first word after the first " from " (spaces on both sides) of the
      trimmed, lower-cased query, if there is one. */
  function FromWord(query: string): (w: Option<string>)
    ensures w.Some? ==> w.value != [] && NoSpace(w.value)
    ensures Index(ToLower(TrimSpace(query)), " from ") == -1 ==> w.None?
    ensures var lower := ToLower(TrimSpace(query));
      var i := Index(lower, " from ");
      i != -1 ==> i + 6 <= |lower| && (w.None? <==> FirstRun(lower[i + 6..]) == [])
    ensures var lower := ToLower(TrimSpace(query));
      var i := Index(lower, " from ");
      i != -1 && w.Some? ==> i + 6 <= |lower| && w.value == FirstRun(lower[i + 6..])
  {
    var lower := ToLower(TrimSpace(query));
    var i := Index(lower, " from ");
    if i == -1 then None
    else
      var words := Fields(TrimSpace(lower[i + 6..]));
      FirstFieldOfTrimmed(lower[i + 6..]);
      if words == [] then None else Some(words[0])
  }

  /** The index of the first table, from `k` on, whose lower-cased name is
      `w` (the length when there is none). */
  function FirstNamedFrom(tables: seq<string>, w: string, k: nat): (i: nat)
    requires k <= |tables|
    ensures k <= i <= |tables|
    ensures i < |tables| ==> ToLower(tables[i]) == w
    ensures forall j :: k <= j < i ==> ToLower(tables[j]) != w
    decreases |tables| - k
  {
    if k == |tables| || ToLower(tables[k]) == w then k
    else FirstNamedFrom(tables, w, k + 1)
  }

  /** The first table whose lower-cased name is `w`, in its own case, or ""
      when there is none. */
  function FirstNamed(tables: seq<string>, w: string): (r: string)
    ensures (forall j :: 0 <= j < |tables| ==> ToLower(tables[j]) != w) ==> r == ""
    ensures r != "" ==> r in tables && ToLower(r) == w
  {
    var i := FirstNamedFrom(tables, w, 0);
    if i < |tables| then tables[i] else ""
  }

  /** `detectSourceTable`, as a function of the query and the table names. */
  function SourceTable(query: string, tables: seq<string>): (t: string)
    ensures FromWord(query).None? ==> t == ""
    ensures t != "" ==>
              && FromWord(query).Some? && FromWord(query).value !in StopWords
              && t in tables && ToLower(t) == FromWord(query).value
    ensures FromWord(query).Some? && FromWord(query).value !in StopWords
            && (exists j :: 0 <= j < |tables| && ToLower(tables[j]) == FromWord(query).value) ==>
              t != ""
  {
    match FromWord(query)
    case None => ""
    case Some(w) => if w in StopWords then "" else FirstNamed(tables, w)
  }

  /** The guess does not depend on the letter case the query is typed in. */
  lemma SourceTableIgnoresCase(query: string, tables: seq<string>)
    ensures SourceTable(ToLower(query), tables) == SourceTable(query, tables)
  {
    FromWordIgnoresCase(query);
  }

  /** The word after " from " is found in the lower-cased query, so
      lower-casing the query first changes nothing. */
  lemma FromWordIgnoresCase(query: string)
    ensures FromWord(ToLower(query)) == FromWord(query)
  {
    TrimSpaceOfLower(query);
    LowerTwice(TrimSpace(query));
    assert ToLower(TrimSpace(ToLower(query))) == ToLower(TrimSpace(query));
  }

  lemma {:induction false} TrimStartOfLower(s: string)
    ensures TrimStart(ToLower(s)) == TrimStart(s)
    decreases |s|
  {
    if s != [] {
      assert ToLower(s)[1..] == ToLower(s[1..]);
      TrimStartOfLower(s[1..]);
    }
  }

  lemma {:induction false} TrimEndOfLower(s: string)
    ensures TrimEnd(ToLower(s)) == TrimEnd(s)
    decreases |s|
  {
    if s != [] {
      assert ToLower(s)[..|s| - 1] == ToLower(s[..|s| - 1]);
      TrimEndOfLower(s[..|s| - 1]);
    }
  }

  /** Trimming and lower-casing commute: case folding leaves white space alone. */
  lemma TrimSpaceOfLower(s: string)
    ensures TrimSpace(ToLower(s)) == ToLower(TrimSpace(s))
  {
    TrimStartOfLower(s);
    TrimEndOfLower(s);
    var a, b := TrimStart(s), TrimEnd(s);
    if a < |s| {
      TrimSpaceBetween(s);
      TrimSpaceBetween(ToLower(s));
      LowerSlice(s, a, b);
    } else {
      assert TrimSpace(s) == [] && TrimSpace(ToLower(s)) == [];
    }
  }

  /** Lower-casing a slice is slicing the lower-cased text. */
  lemma LowerSlice(s: string, a: nat, b: nat)
    requires a <= b <= |s|
    ensures ToLower(s)[a..b] == ToLower(s[a..b])
  {
  }

  lemma LowerTwice(s: string)
    ensures ToLower(ToLower(s)) == ToLower(s)
  {
  }

  /** The selection after a key in the results (`handleResultsNavigation`):
      it stays on a result row, moves by one for up and down and by at most
      ten for the page keys. */
  function ResultsMove(k: string, count: int, sel: int): (r: int)
    ensures count > 0 && 0 <= sel < count ==> 0 <= r < count
    ensures k in UpKeys + DownKeys ==> sel - 1 <= r <= sel + 1
    ensures k in UpKeys ==> r == (if sel > 0 then sel - 1 else sel)
    ensures k in DownKeys ==> r == (if sel < count - 1 then sel + 1 else sel)
    ensures k in {"page_up", "page_down"} && count > 0 && 0 <= sel < count ==> sel - 10 <= r <= sel + 10
    ensures k == "page_up" ==> r == Max(0, sel - 10)
    ensures k == "page_down" ==> r == Min(count - 1, sel + 10)
    ensures k == "home" ==> r == 0
    ensures k == "end" ==> r == (if count > 0 then count - 1 else sel)
    ensures !(k in UpKeys + DownKeys + {"home", "end", "page_up", "page_down"}) ==> r == sel
  {
    if k in UpKeys then (if sel > 0 then sel - 1 else sel)
    else if k in DownKeys then (if sel < count - 1 then sel + 1 else sel)
    else if k == "home" then 0
    else if k == "end" then (if count > 0 then count - 1 else sel)
    else if k == "page_up" then Max(0, sel - 10)
    else if k == "page_down" then Min(count - 1, sel + 10)
    else sel
  }

  /** The loop of `detectSourceTable` over the table names. */
  method FindNamed(tables: seq<string>, w: string) returns (t: string)
    ensures t == FirstNamed(tables, w)
  {
    var i := 0;
    while i < |tables|
      invariant 0 <= i <= |tables|
      invariant forall j :: 0 <= j < i ==> ToLower(tables[j]) != w
    {
      if ToLower(tables[i]) == w {
        return tables[i];
      }
      i := i + 1;
    }
    return "";
  }

  class QueryModel {
    const shared: SharedData
    var query: string
    var cursor: nat
    var results: seq<seq<string>>
    var columns: seq<string>
    var focusOnInput: bool
    var selectedRow: int

    /** `newQueryModel`: an empty query with the focus on it, no results. */
    constructor (shared: SharedData)
      ensures this.shared == shared && Initial()
      ensures Valid() && FocusSound() && InRange()
    {
      this.shared := shared;
      query, cursor, focusOnInput := "", 0, true;
      selectedRow, results, columns := 0, [], [];
    }

    /** The cursor is inside the query. */
    predicate Valid()
      reads this
    {
      cursor <= |query|
    }

    /** The results have the focus only when there are some: tab refuses to
        move it to an empty table. Only the dispatcher's `returnToQueryMsg`
        can break this, and no view of this variant sends that message. */
    predicate FocusSound()
      reads this
    {
      !focusOnInput ==> |results| > 0
    }

    /** The fields `newQueryModel` starts with: an empty query with the focus
        on it, and no results. */
    predicate Initial()
      reads this
    {
      query == "" && cursor == 0 && focusOnInput && selectedRow == 0 && results == [] && columns == []
    }

    /** The selected row is one of the results (or 0 when there are none). */
    predicate InRange()
      reads this
    {
      0 <= selectedRow && (selectedRow < |results| || selectedRow == 0)
    }

    /** The query being edited, with its cursor. */
    function Edited(): Line
      reads this
    {
      Line(query, cursor)
    }

    /** What a message does to this view, as `Update` promises it; the
        dispatcher passes this on for the view on show. */
    twostate predicate UpdateEffect(msg: Msg, store: Store, cmd: Cmd)
      requires old(Valid()) && shared.Valid()
      reads this, shared
    {
      && (!msg.Key? ==> cmd == NoCmd && unchanged(this) && unchanged(shared))
      && (cmd == NoCmd || cmd == Emit(SwitchToTableList) || cmd == Emit(SwitchToRowDetailFromQuery(old(selectedRow))))
      && (msg.Key? ==> InputEffect(msg.name, store, cmd))
    }

    /** `Update`: keys go to `handleInput`; nothing else concerns this view. */
    method Update(msg: Msg, store: Store) returns (cmd: Cmd)
      requires Valid() && shared.Valid()
      modifies this, shared
      ensures Valid() && shared.Valid()
      ensures UpdateEffect(msg, store, cmd)
      ensures old(FocusSound()) ==> FocusSound()
      ensures old(InRange() && FocusSound()) ==> InRange()
    {
      cmd := NoCmd;
      if msg.Key? {
        cmd := HandleInput(msg.name, store);
      }
    }

    /** What a key does to this view: esc leaves for the table list; tab
        moves the focus when there are results; enter runs the query when the
        editor has the focus (`ExecuteEffect`) and opens the selected row
        otherwise (`OpenEffect`); the other keys edit the query or move the
        selection, whichever has the focus. */
    twostate predicate InputEffect(k: string, store: Store, cmd: Cmd)
      requires old(Valid()) && shared.Valid()
      reads this, shared
    {
      if k == "esc" then cmd == Emit(SwitchToTableList) && unchanged(this) && unchanged(shared)
      else if k == "tab" then
        && cmd == NoCmd && unchanged(shared)
        && query == old(query) && cursor == old(cursor) && results == old(results) && columns == old(columns)
        && (if |results| > 0
            then focusOnInput == !old(focusOnInput) && selectedRow == (if focusOnInput then old(selectedRow) else 0)
            else focusOnInput == old(focusOnInput) && selectedRow == old(selectedRow))
      else if k == "enter" then
        if old(focusOnInput) then cmd == NoCmd && ExecuteEffect(store) else OpenEffect(cmd)
      else if old(focusOnInput) then
        && cmd == NoCmd && unchanged(shared)
        && Edited() == EditKeyWithKills(old(Edited()), k)
        && results == old(results) && columns == old(columns) && focusOnInput && selectedRow == old(selectedRow)
      else
        && cmd == NoCmd && unchanged(shared)
        && query == old(query) && cursor == old(cursor) && results == old(results) && columns == old(columns)
        && !focusOnInput && selectedRow == ResultsMove(k, |results|, old(selectedRow))
    }

    /** What running the query does: a blank query, or one the database
        refuses, changes nothing; otherwise its columns and rows become the
        results, with the first row selected and the focus on the editor. */
    twostate predicate ExecuteEffect(store: Store)
      reads this, shared
    {
      && query == old(query) && cursor == old(cursor) && unchanged(shared)
      && (TrimSpace(query) == "" || store.run(query).None? ==>
            && results == old(results) && columns == old(columns)
            && selectedRow == old(selectedRow) && focusOnInput == old(focusOnInput))
      && (TrimSpace(query) != "" && store.run(query).Some? ==>
            && results == store.run(query).value.rows && columns == store.run(query).value.columns
            && selectedRow == 0 && focusOnInput)
    }

    /** What enter on the results does: when the selected row is a result,
        the results become the shared cache's shown rows, marked as a query
        result of the table `detectSourceTable` names, and the row detail is
        asked for; otherwise nothing happens. The view itself is unchanged. */
    twostate predicate OpenEffect(cmd: Cmd)
      requires shared.Valid()
      reads this, shared
    {
      && unchanged(this)
      && (!(|results| > 0 && selectedRow < |results|) ==> cmd == NoCmd && unchanged(shared))
      && (|results| > 0 && selectedRow < |results| ==>
            && cmd == Emit(SwitchToRowDetailFromQuery(selectedRow))
            && shared.Snapshot() == old(shared.Snapshot()).(cells := old(shared.Cells) + results,
                                                             filteredData := Span(|old(shared.Cells)|, |results|),
                                                             columns := columns, isQueryResult := true,
                                                             queryTableName := SourceTable(query, old(shared.Tables)))
            && shared.FilteredRows() == results)
    }

    /** `handleInput`: esc leaves for the table list; tab and enter act on
        the focus; the other keys go to the part that has the focus. */
    method HandleInput(k: string, store: Store) returns (cmd: Cmd)
      requires Valid() && shared.Valid()
      modifies this, shared
      ensures Valid() && shared.Valid()
      ensures k != "esc" && cmd != NoCmd ==>
                k == "enter" && !old(focusOnInput) && cmd == Emit(SwitchToRowDetailFromQuery(old(selectedRow)))
      ensures k != "enter" ==> unchanged(shared)
      ensures InputEffect(k, store, cmd)
      ensures old(FocusSound()) ==> FocusSound()
      ensures old(InRange() && FocusSound()) ==> InRange()
    {
      cmd := NoCmd;
      if k == "esc" {
        cmd := Emit(SwitchToTableList);
      } else if k == "tab" {
        if |results| > 0 {
          focusOnInput := !focusOnInput;
          if !focusOnInput {
            selectedRow := 0;
          }
        }
      } else if k == "enter" {
        if focusOnInput {
          Execute(store);
        } else {
          cmd := OpenSelected();
        }
      } else if focusOnInput {
        Edit(k);
      } else {
        selectedRow := Navigate(k);
      }
    }

    /** `executeQuery`: a blank query does nothing, and neither does one the
        database refuses; otherwise its columns and rows become the results,
        with the first row selected and the focus kept on the editor. The
        query is sent as typed. */
    method Execute(store: Store)
      requires Valid()
      modifies this`results, this`columns, this`selectedRow, this`focusOnInput
      ensures Valid()
      ensures TrimSpace(query) == "" || store.run(query).None? ==>
                && results == old(results) && columns == old(columns)
                && selectedRow == old(selectedRow) && focusOnInput == old(focusOnInput)
      ensures TrimSpace(query) != "" && store.run(query).Some? ==>
                && results == store.run(query).value.rows && columns == store.run(query).value.columns
                && selectedRow == 0 && focusOnInput
      ensures old(InRange()) ==> InRange()
    {
      if TrimSpace(query) == "" {
        return;
      }
      match store.run(query) {
        case None =>
        case Some(result) =>
          columns := result.columns;
          results := result.rows;
          selectedRow := 0;
          focusOnInput := true;
      }
    }

    /** Enter on the results: when the selected row is a result, the results
        become the shared cache's shown rows and columns, marked as a query
        result of the table `detectSourceTable` names, and the row detail is
        asked for. */
    method OpenSelected() returns (cmd: Cmd)
      requires shared.Valid()
      modifies shared
      ensures shared.Valid()
      ensures !(|results| > 0 && selectedRow < |results|) ==> cmd == NoCmd && unchanged(shared)
      ensures |results| > 0 && selectedRow < |results| ==>
                && cmd == Emit(SwitchToRowDetailFromQuery(selectedRow))
                && shared.Snapshot() == old(shared.Snapshot()).(cells := old(shared.Cells) + results,
                                                                 filteredData := Span(|old(shared.Cells)|, |results|),
                                                                 columns := columns, isQueryResult := true,
                                                                 queryTableName := SourceTable(query, old(shared.Tables)))
                && shared.FilteredRows() == results
    {
      cmd := NoCmd;
      if |results| > 0 && selectedRow < |results| {
        var t := DetectSourceTable();
        ghost var before := shared.Cells;
        var refs := shared.AddRows(results);
        RowsOfSpan(before, results);
        shared.FilteredData, shared.Columns, shared.IsQueryResult, shared.QueryTableName := refs, columns, true, t;
        cmd := Emit(SwitchToRowDetailFromQuery(selectedRow));
      }
    }

    /** `detectSourceTable`: the table named after " from ", looked up among
        the shared table names. */
    method DetectSourceTable() returns (t: string)
      ensures t == SourceTable(query, shared.Tables)
    {
      var w := FromWord(query);
      if w.None? || w.value in StopWords {
        return "";
      }
      t := FindNamed(shared.Tables, w.value);
    }

    /** `handleResultsNavigation`. */
    method Navigate(k: string) returns (row: int)
      ensures row == ResultsMove(k, |results|, selectedRow)
    {
      row := selectedRow;
      if k in UpKeys {
        if row > 0 {
          row := row - 1;
        }
      } else if k in DownKeys {
        if row < |results| - 1 {
          row := row + 1;
        }
      } else if k == "home" {
        row := 0;
      } else if k == "end" {
        if |results| > 0 {
          row := |results| - 1;
        }
      } else if k == "page_up" {
        row := Max(0, row - 10);
      } else if k == "page_down" {
        row := Min(|results| - 1, row + 10);
      }
    }

    /** `handleInputControls`: the editing keys, on the query and its cursor. */
    method Edit(k: string)
      requires Valid()
      modifies this`query, this`cursor
      ensures Valid()
      ensures Edited() == EditKeyWithKills(old(Edited()), k)
    {
      if k == "delete" || k == "ctrl+d" {
        if cursor < |query| {
          query := query[..cursor] + query[cursor + 1..];
        }
      } else if k == "ctrl+k" {
        query := query[..cursor];
      } else if k == "ctrl+u" {
        query := query[cursor..];
        cursor := 0;
      } else {
        Move(k);
      }
    }

    /** The keys both variants' editors share, with the earlier variant's
        white space (`isWhitespace`). */
    method Move(k: string)
      requires Valid()
      modifies this`query, this`cursor
      ensures Valid()
      ensures Edited() == EditKey(QueryWhitespace, old(Edited()), k)
    {
      if k == "left" {
        if cursor > 0 {
          cursor := cursor - 1;
        }
      } else if k == "right" {
        if cursor < |query| {
          cursor := cursor + 1;
        }
      } else if k == "ctrl+left" {
        cursor := WordLeft(QueryWhitespace, query, cursor);
      } else if k == "ctrl+right" {
        cursor := WordRight(QueryWhitespace, query, cursor);
      } else if k == "home" || k == "ctrl+a" {
        cursor := 0;
      } else if k == "end" || k == "ctrl+e" {
        cursor := |query|;
      } else if k == "backspace" {
        if cursor > 0 {
          query := query[..cursor - 1] + query[cursor..];
          cursor := cursor - 1;
        }
      } else if k == "ctrl+w" {
        var p := WordLeft(QueryWhitespace, query, cursor);
        query := query[..p] + query[cursor..];
        cursor := p;
      } else if |k| == 1 {
        query := query[..cursor] + k + query[cursor..];
        cursor := cursor + 1;
      }
    }
  }
}
