/** The row browser of the current variant (`TableDataModel`): the current
    page of the selected table, a fuzzy row filter, a row selection that
    scrolls across page boundaries, and vim-style `gg`/`G`. Load errors are
    ignored here, as the source ignores them; a Go panic inside a load ends in
    `Crash`. */
module TableData {
  import opened GoText
  import opened Util
  import opened Fuzzy
  import opened Ranking
  import opened Session
  import opened Messages

  const UpKeys: set<string> := {"up", "k"}
  const DownKeys: set<string> := {"down", "j"}
  const LeftKeys: set<string> := {"left", "h"}
  const RightKeys: set<string> := {"right", "l"}
  /** The navigation keys that leave the view or change mode. */
  const NavCommandKeys: set<string> := {"q", "esc", "enter", "/", "s"}

  /** How well one cell matches the search text: both lower-cased, and a space
      starts a word. */
  function CellScore(cell: string, search: string): int {
    Score(ToLower(cell), ToLower(search), true)
  }

  /** A row's score: the best score of its cells, and never below zero. */
  function RowScore(row: seq<string>, search: string): (s: int)
    ensures s >= 0
    ensures forall c :: c in row ==> CellScore(c, search) <= s
    ensures s > 0 ==> exists c :: c in row && CellScore(c, search) == s
  {
    if row == [] then 0
    else
      var init := row[..|row| - 1];
      var last := row[|row| - 1];
      assert row == init + [last];
      var best := RowScore(init, search);
      var score := CellScore(last, search);
      if score > best then score else best
  }

  /** A row is listed exactly when one of its cells matches at all. */
  lemma RowMatchesIffSomeCellMatches(row: seq<string>, search: string)
    ensures RowScore(row, search) > 0 <==> exists c :: c in row && CellScore(c, search) > 0
  {
    if exists c :: c in row && CellScore(c, search) > 0 {
      var c :| c in row && CellScore(c, search) > 0;
      assert CellScore(c, search) <= RowScore(row, search);
    }
  }

  /** For cells of at most 100 bytes, a row matches exactly when the search
      text, lower-cased, can be read off one of its lower-cased cells in order. */
  lemma ShortCellsMatchBySubsequence(row: seq<string>, search: string)
    requires forall k :: 0 <= k < |row| ==> |row[k]| <= 100
    ensures RowScore(row, search) > 0 <==> exists c :: c in row && IsSubsequence(ToLower(c), ToLower(search))
  {
    RowMatchesIffSomeCellMatches(row, search);
    forall c | c in row
      ensures CellScore(c, search) > 0 <==> IsSubsequence(ToLower(c), ToLower(search))
    {
      ShortTextMatchesIffSubsequence(ToLower(c), ToLower(search), true);
    }
  }

  /** The score of the row a reference denotes. */
  function RefScore(cells: seq<seq<string>>, ref: nat, search: string): int {
    if ref < |cells| then RowScore(cells[ref], search) else 0
  }

  /** The rows that match the search text at all, in the order listed. */
  function MatchingRows(cells: seq<seq<string>>, refs: seq<nat>, search: string): (r: seq<nat>)
    ensures |r| <= |refs|
    ensures forall x :: x in r <==> x in refs && RefScore(cells, x, search) > 0
  {
    if refs == [] then []
    else
      var last := refs[|refs| - 1];
      assert refs == refs[..|refs| - 1] + [last];
      MatchingRows(cells, refs[..|refs| - 1], search) + (if RefScore(cells, last, search) > 0 then [last] else [])
  }

  /** The scored rows the filter collects before sorting. */
  function RowCandidates(cells: seq<seq<string>>, refs: seq<nat>, search: string): (ms: seq<Match<nat>>)
    ensures forall k :: 0 <= k < |ms| ==> ms[k].score == RefScore(cells, ms[k].item, search) > 0
    ensures Items(ms) == MatchingRows(cells, refs, search)
  {
    if refs == [] then []
    else
      var init := RowCandidates(cells, refs[..|refs| - 1], search);
      var last := refs[|refs| - 1];
      var score := RefScore(cells, last, search);
      if score > 0 then
        assert Items(init + [Match(last, score)]) == Items(init) + [last];
        init + [Match(last, score)]
      else init
  }

  /** What `filterData` leaves in `FilteredData`: the rows of `TableData` when
      the search is empty; otherwise exactly the matching rows, best first. */
  predicate DataFiltered(cells: seq<seq<string>>, tableData: seq<nat>, search: string, filtered: seq<nat>) {
    if search == "" then filtered == tableData
    else
      && multiset(filtered) == multiset(MatchingRows(cells, tableData, search))
      && forall i, j :: 0 <= i < j < |filtered| ==>
           RefScore(cells, filtered[i], search) >= RefScore(cells, filtered[j], search)
  }

  /** The inner loop of `filterData`: the best score over a row's cells. */
  method BestScore(row: seq<string>, search: string) returns (best: int)
    ensures best == RowScore(row, search)
  {
    var lower := ToLower(search);
    best := 0;
    for i := 0 to |row|
      invariant best == RowScore(row[..i], search)
    {
      assert row[..i + 1][..i] == row[..i];
      var score := FuzzyScore(ToLower(row[i]), lower, true);
      if score > best {
        best := score;
      }
    }
    assert row[..|row|] == row;
  }

  /** The outer loop of `filterData`: every row with a positive score. */
  method ScoreRows(cells: seq<seq<string>>, refs: seq<nat>, search: string) returns (matches: seq<Match<nat>>)
    requires RefsIn(refs, |cells|)
    ensures matches == RowCandidates(cells, refs, search)
  {
    matches := [];
    for i := 0 to |refs|
      invariant matches == RowCandidates(cells, refs[..i], search)
    {
      var score := BestScore(cells[refs[i]], search);
      RowCandidatesStep(cells, refs, i, search);
      if score > 0 {
        matches := matches + [Match(refs[i], score)];
      }
    }
    assert refs[..|refs|] == refs;
  }

  /** One more reference adds its row, with its score, when that is positive. */
  lemma RowCandidatesStep(cells: seq<seq<string>>, refs: seq<nat>, i: nat, search: string)
    requires i < |refs|
    ensures var score := RefScore(cells, refs[i], search);
      RowCandidates(cells, refs[..i + 1], search)
      == RowCandidates(cells, refs[..i], search) + (if score > 0 then [Match(refs[i], score)] else [])
  {
    assert refs[..i + 1][..i] == refs[..i];
  }

  /** The search branch of `filterData`: the matching rows, best first. */
  method RankRows(cells: seq<seq<string>>, refs: seq<nat>, search: string) returns (filtered: seq<nat>)
    requires RefsIn(refs, |cells|)
    ensures RefsIn(filtered, |cells|)
    ensures multiset(filtered) == multiset(MatchingRows(cells, refs, search))
    ensures forall i, j :: 0 <= i < j < |filtered| ==>
              RefScore(cells, filtered[i], search) >= RefScore(cells, filtered[j], search)
  {
    var matches := ScoreRows(cells, refs, search);
    var sorted := SortByScore(matches);
    SortedItemsByKey(sorted, matches, x => RefScore(cells, x, search));
    filtered := ItemsOf(sorted);
    forall k | 0 <= k < |filtered|
      ensures filtered[k] < |cells|
    {
      assert filtered[k] in multiset(MatchingRows(cells, refs, search));
    }
  }

  /** The rows on screen (`View`): a window of at most `Max(1, height - 10)`
      rows that scrolls just far enough to hold the selection. */
  function Window(selectedRow: int, count: nat, height: int): (w: (int, int))
    ensures 0 <= selectedRow < count ==> 0 <= w.0 <= selectedRow < w.1 <= count
    ensures 0 <= w.0 && w.1 <= count
    ensures w.1 - w.0 == Min(count, Max(1, height - 10))
    ensures selectedRow < Max(1, height - 10) ==> w.0 == 0
    ensures w.0 > 0 ==> w.1 == Min(count, selectedRow + 1)
  {
    var visible := Max(1, height - 10);
    var start := if count > visible && selectedRow >= visible then Min(selectedRow - visible + 1, count - visible) else 0;
    (start, Min(count, start + visible))
  }

  /** Page `p` below the last page is full; the last page of a non-empty table
      holds what is left over. */
  lemma PageSizes(all: seq<seq<string>>, p: nat)
    ensures p < MaxPage(|all|) ==> |PageSlice(all, p)| == PageSize
    ensures |all| > 0 && p == MaxPage(|all|) ==> |PageSlice(all, p)| == |all| - p * PageSize > 0
  {
  }

  /** The page after one below the last page has rows. */
  lemma NextPageHasRows(all: seq<seq<string>>, p: nat)
    requires p < MaxPage(|all|)
    ensures |PageSlice(all, p + 1)| > 0
  {
    PageSizes(all, p + 1);
  }

  /** The page before a page in range is full. */
  lemma PreviousPageFull(all: seq<seq<string>>, p: nat)
    requires 0 < p <= MaxPage(|all|)
    ensures |PageSlice(all, p - 1)| == PageSize
  {
    PageSizes(all, p - 1);
  }

  /** A row at or past the end of the last page is at or past the table's
      last row. */
  lemma NoRowAfterLastPage(all: seq<seq<string>>, p: nat, row: int)
    requires p == MaxPage(|all|) && row >= |PageSlice(all, p)| - 1
    ensures p * PageSize + row >= |all| - 1
  {
    PageSizes(all, p);
  }

  class TableDataModel {
    const shared: SharedData
    /** The search box's text. */
    var search: string
    var searching: bool
    var selectedRow: int
    var gPressed: bool
    var focused: bool

    /** `NewTableDataModel`: focused, first row, no search. */
    constructor (shared: SharedData)
      ensures this.shared == shared && Initial()
    {
      this.shared := shared;
      search, searching, selectedRow := "", false, 0;
      gPressed, focused := false, true;
    }

    /** The fields `NewTableDataModel` starts with: no search, the first row,
        and the focus. */
    predicate Initial()
      reads this
    {
      search == "" && !searching && selectedRow == 0 && !gPressed && focused
    }

    /** The table the view shows is loaded: the selection names a table the
        store knows, and `TotalRows` is that table's row count. */
    predicate Synced(store: Store)
      reads shared
    {
      && 0 <= shared.SelectedTable < |shared.FilteredTables|
      && store.tableInfo(shared.FilteredTables[shared.SelectedTable]).Some?
      && store.contents(shared.FilteredTables[shared.SelectedTable]).Some?
      && shared.TotalRows == |store.contents(shared.FilteredTables[shared.SelectedTable]).value|
    }

    predicate PageInRange()
      reads shared
    {
      shared.CurrentPage <= MaxPage(shared.TotalRows)
    }

    /** The loaded page is on screen unfiltered. */
    predicate PageShown(store: Store)
      reads shared
    {
      && Synced(store)
      && PageInRange()
      && |shared.TableData| == |PageSlice(store.contents(shared.FilteredTables[shared.SelectedTable]).value, shared.CurrentPage)|
      && shared.FilteredData == shared.TableData
    }

    /** The selection's position in the whole table. */
    function GlobalIndex(): int
      reads this, shared
    {
      shared.CurrentPage * PageSize + selectedRow
    }

    /** `filterData`: rebuild `FilteredData` from `TableData` and the search,
        and go back to the first row when the selection fell off its end. */
    method FilterData()
      requires shared.Valid()
      modifies this`selectedRow, shared`FilteredData
      ensures shared.Valid()
      ensures DataFiltered(shared.Cells, shared.TableData, search, shared.FilteredData)
      ensures selectedRow == (if old(selectedRow) >= |shared.FilteredData| then 0 else old(selectedRow))
    {
      if search == "" {
        shared.FilteredData := shared.TableData;
      } else {
        shared.FilteredData := RankRows(shared.Cells, shared.TableData, search);
      }
      if selectedRow >= |shared.FilteredData| {
        selectedRow := 0;
      }
    }

    /** Move to page `page`, load it, and refilter when `refilter` is set; the
        load's own errors are ignored. */
    method Reload(store: Store, page: nat, refilter: bool) returns (cmd: Cmd)
      requires shared.Valid()
      modifies shared, this`selectedRow
      ensures shared.Valid()
      ensures cmd == Crash || cmd == NoCmd
      ensures cmd == Crash <==> old(shared.SelectedTable) < 0
      ensures cmd == NoCmd ==>
                var loaded := LoadResult(old(shared.Snapshot()).(currentPage := page), store).0;
                && shared.Snapshot() == loaded.(filteredData := shared.FilteredData)
                && shared.CurrentPage == page
                && (refilter ==> DataFiltered(shared.Cells, shared.TableData, search, shared.FilteredData)
                                 && selectedRow == (if old(selectedRow) >= |shared.FilteredData| then 0 else old(selectedRow)))
                && (!refilter ==> shared.Snapshot() == loaded && selectedRow == old(selectedRow))
      ensures old(Synced(store)) && page <= MaxPage(old(shared.TotalRows)) ==>
                && Synced(store) && PageInRange()
                && |shared.TableData| ==
                   |PageSlice(store.contents(shared.FilteredTables[shared.SelectedTable]).value, page)|
                && ((refilter && search == "") || !refilter ==> shared.FilteredData == shared.TableData)
    {
      shared.CurrentPage := page;
      var r := shared.LoadTableData(store);
      if r.Panic? {
        return Crash;
      }
      if refilter {
        FilterData();
      }
      cmd := NoCmd;
    }

    /** What `GoToStart` does. */
    twostate predicate GoToStartEffect(store: Store, cmd: Cmd)
      requires old(shared.Valid())
      reads this, shared
    {
      && (cmd == NoCmd || cmd == Crash)
      && (cmd == NoCmd ==> gPressed == !old(gPressed))
      && (!old(gPressed) ==> cmd == NoCmd && unchanged(shared) && selectedRow == old(selectedRow))
      && (old(gPressed) ==>
            && (cmd == Crash <==> old(shared.SelectedTable) < 0)
            && (cmd == NoCmd ==>
                  && shared.Snapshot() == LoadResult(old(shared.Snapshot()).(currentPage := 0), store).0.(filteredData := shared.FilteredData)
                  && shared.CurrentPage == 0 && selectedRow == 0
                  && DataFiltered(shared.Cells, shared.TableData, search, shared.FilteredData)))
    }

    /** `gg`: the first `g` only arms it; the second goes to the first row of
        page 0, reloaded and refiltered. */
    method GoToStart(store: Store) returns (cmd: Cmd)
      requires shared.Valid()
      modifies shared, this`selectedRow, this`gPressed
      ensures shared.Valid()
      ensures GoToStartEffect(store, cmd)
      ensures old(Synced(store) && PageInRange()) ==> Synced(store) && PageInRange() && cmd == NoCmd
      ensures old(PageShown(store)) && search == "" ==> PageShown(store)
    {
      if gPressed {
        cmd := Reload(store, 0, true);
        if cmd == Crash {
          return;
        }
        selectedRow := 0;
        gPressed := false;
      } else {
        gPressed := true;
        cmd := NoCmd;
      }
    }

    /** What `GoToEnd` does. */
    twostate predicate GoToEndEffect(store: Store, cmd: Cmd)
      requires old(shared.Valid())
      reads this, shared
    {
      && (cmd == NoCmd || cmd == Crash)
      && (cmd == NoCmd ==> !gPressed)
      && (cmd == Crash <==> old(shared.SelectedTable) < 0)
      && (cmd == NoCmd ==>
            && shared.Snapshot() == LoadResult(old(shared.Snapshot()).(currentPage := MaxPage(old(shared.TotalRows))), store).0.(filteredData := shared.FilteredData)
            && shared.CurrentPage == MaxPage(old(shared.TotalRows))
            && selectedRow == |shared.FilteredData| - 1
            && DataFiltered(shared.Cells, shared.TableData, search, shared.FilteredData))
    }

    /** `G`: the last row of the last page, reloaded and refiltered; the row is
        -1 when that page filters to nothing. */
    method GoToEnd(store: Store) returns (cmd: Cmd)
      requires shared.Valid()
      modifies shared, this`selectedRow, this`gPressed
      ensures shared.Valid()
      ensures GoToEndEffect(store, cmd)
      ensures old(Synced(store)) ==> Synced(store) && PageInRange() && cmd == NoCmd
      ensures old(PageShown(store)) && search == "" ==> PageShown(store)
    {
      var maxPage := MaxPage(shared.TotalRows);
      cmd := Reload(store, maxPage, true);
      if cmd == Crash {
        return;
      }
      assert shared.CurrentPage == maxPage;
      assert DataFiltered(shared.Cells, shared.TableData, search, shared.FilteredData);
      selectedRow := |shared.FilteredData| - 1;
      gPressed := false;
    }

    /** What `RowUp` does. */
    twostate predicate RowUpEffect(store: Store, cmd: Cmd)
      requires old(shared.Valid())
      reads this, shared
    {
      && (cmd == NoCmd || cmd == Crash)
      && !gPressed
      && (old(selectedRow) > 0 ==> selectedRow == old(selectedRow) - 1 && unchanged(shared) && cmd == NoCmd)
      && (old(selectedRow) <= 0 && old(shared.CurrentPage) == 0 ==>
            selectedRow == old(selectedRow) && unchanged(shared) && cmd == NoCmd)
      && (old(selectedRow) <= 0 && old(shared.CurrentPage) > 0 ==>
            && (cmd == Crash <==> old(shared.SelectedTable) < 0)
            && (cmd == NoCmd ==>
                  && shared.Snapshot() == LoadResult(old(shared.Snapshot()).(currentPage := old(shared.CurrentPage) - 1), store).0.(filteredData := shared.FilteredData)
                  && shared.CurrentPage == old(shared.CurrentPage) - 1
                  && selectedRow == |shared.FilteredData| - 1
                  && DataFiltered(shared.Cells, shared.TableData, search, shared.FilteredData)))
    }

    /** Up: the row above, or from the first row of a page the last row of the
        page before, reloaded and refiltered. */
    method RowUp(store: Store) returns (cmd: Cmd)
      requires shared.Valid()
      modifies shared, this`selectedRow, this`gPressed
      ensures shared.Valid()
      ensures RowUpEffect(store, cmd)
      ensures old(Synced(store) && PageInRange()) ==> Synced(store) && PageInRange() && cmd == NoCmd
      ensures old(PageShown(store) && 0 <= selectedRow < |shared.FilteredData| && GlobalIndex() > 0) && search == "" ==>
                && PageShown(store) && 0 <= selectedRow < |shared.FilteredData|
                && GlobalIndex() == old(GlobalIndex()) - 1
    {
      cmd := NoCmd;
      if selectedRow > 0 {
        selectedRow := selectedRow - 1;
      } else if shared.CurrentPage > 0 {
        cmd := BackToLastRow(store);
      }
      gPressed := false;
    }

    /** The page before, reloaded and refiltered, on its last row; a full
        page when the table was in step with the store. */
    method BackToLastRow(store: Store) returns (cmd: Cmd)
      requires shared.Valid() && shared.CurrentPage > 0
      modifies shared, this`selectedRow
      ensures shared.Valid()
      ensures cmd == NoCmd || cmd == Crash
      ensures cmd == Crash <==> old(shared.SelectedTable) < 0
      ensures cmd == NoCmd ==>
                && shared.Snapshot() == LoadResult(old(shared.Snapshot()).(currentPage := old(shared.CurrentPage) - 1), store).0.(filteredData := shared.FilteredData)
                && shared.CurrentPage == old(shared.CurrentPage) - 1
                && selectedRow == |shared.FilteredData| - 1
                && DataFiltered(shared.Cells, shared.TableData, search, shared.FilteredData)
      ensures old(Synced(store) && PageInRange()) ==>
                && Synced(store) && PageInRange() && cmd == NoCmd
                && |shared.TableData| == PageSize
                && |shared.TableData| == |PageSlice(store.contents(shared.FilteredTables[shared.SelectedTable]).value, shared.CurrentPage)|
                && (search == "" ==> shared.FilteredData == shared.TableData)
    {
      var p := shared.CurrentPage;
      cmd := Reload(store, p - 1, true);
      if cmd == Crash {
        return;
      }
      if old(Synced(store) && PageInRange()) {
        PreviousPageFull(store.contents(shared.FilteredTables[shared.SelectedTable]).value, p);
      }
      ghost var reloaded := shared.Snapshot();
      selectedRow := |shared.FilteredData| - 1;
      assert shared.Snapshot() == reloaded;
    }

    /** What `RowDown` does. */
    twostate predicate RowDownEffect(store: Store, cmd: Cmd)
      requires old(shared.Valid())
      reads this, shared
    {
      && (cmd == NoCmd || cmd == Crash)
      && !gPressed
      && (old(selectedRow) < |old(shared.FilteredData)| - 1 ==>
            selectedRow == old(selectedRow) + 1 && unchanged(shared) && cmd == NoCmd)
      && (old(selectedRow) >= |old(shared.FilteredData)| - 1 && old(shared.CurrentPage) >= MaxPage(old(shared.TotalRows)) ==>
            selectedRow == old(selectedRow) && unchanged(shared) && cmd == NoCmd)
      && (old(selectedRow) >= |old(shared.FilteredData)| - 1 && old(shared.CurrentPage) < MaxPage(old(shared.TotalRows)) ==>
            && (cmd == Crash <==> old(shared.SelectedTable) < 0)
            && (cmd == NoCmd ==>
                  && shared.Snapshot() == LoadResult(old(shared.Snapshot()).(currentPage := old(shared.CurrentPage) + 1), store).0.(filteredData := shared.FilteredData)
                  && shared.CurrentPage == old(shared.CurrentPage) + 1 && selectedRow == 0
                  && DataFiltered(shared.Cells, shared.TableData, search, shared.FilteredData)))
    }

    /** Down: the row below, or from the last row of a page that is not the
        last the first row of the next page, reloaded and refiltered. */
    method RowDown(store: Store) returns (cmd: Cmd)
      requires shared.Valid()
      modifies shared, this`selectedRow, this`gPressed
      ensures shared.Valid()
      ensures RowDownEffect(store, cmd)
      ensures old(Synced(store) && PageInRange()) ==> Synced(store) && PageInRange() && cmd == NoCmd
      ensures old(PageShown(store) && 0 <= selectedRow < |shared.FilteredData| && GlobalIndex() < shared.TotalRows - 1)
              && search == "" ==>
                && PageShown(store) && 0 <= selectedRow < |shared.FilteredData|
                && GlobalIndex() == old(GlobalIndex()) + 1
    {
      cmd := NoCmd;
      if selectedRow < |shared.FilteredData| - 1 {
        selectedRow := selectedRow + 1;
      } else {
        var maxPage := MaxPage(shared.TotalRows);
        if shared.CurrentPage < maxPage {
          cmd := OnToFirstRow(store);
        } else if old(PageShown(store)) {
          NoRowAfterLastPage(store.contents(shared.FilteredTables[shared.SelectedTable]).value, shared.CurrentPage, selectedRow);
        }
      }
      gPressed := false;
    }

    /** The page after, reloaded and refiltered, on its first row; a page
        with rows when the table was in step with the store. */
    method OnToFirstRow(store: Store) returns (cmd: Cmd)
      requires shared.Valid() && shared.CurrentPage < MaxPage(shared.TotalRows)
      modifies shared, this`selectedRow
      ensures shared.Valid()
      ensures cmd == NoCmd || cmd == Crash
      ensures cmd == Crash <==> old(shared.SelectedTable) < 0
      ensures cmd == NoCmd ==>
                && shared.Snapshot() == LoadResult(old(shared.Snapshot()).(currentPage := old(shared.CurrentPage) + 1), store).0.(filteredData := shared.FilteredData)
                && shared.CurrentPage == old(shared.CurrentPage) + 1 && selectedRow == 0
                && DataFiltered(shared.Cells, shared.TableData, search, shared.FilteredData)
      ensures old(Synced(store) && PageInRange()) ==>
                && Synced(store) && PageInRange() && cmd == NoCmd
                && |shared.TableData| > 0
                && |shared.TableData| == |PageSlice(store.contents(shared.FilteredTables[shared.SelectedTable]).value, shared.CurrentPage)|
                && (search == "" ==> shared.FilteredData == shared.TableData)
      ensures old(PageShown(store)) ==> |old(shared.FilteredData)| == PageSize
    {
      var p := shared.CurrentPage;
      if PageShown(store) {
        PageSizes(store.contents(shared.FilteredTables[shared.SelectedTable]).value, p);
      }
      cmd := Reload(store, p + 1, true);
      if cmd == Crash {
        return;
      }
      if old(Synced(store) && PageInRange()) {
        NextPageHasRows(store.contents(shared.FilteredTables[shared.SelectedTable]).value, p);
      }
      ghost var reloaded := shared.Snapshot();
      selectedRow := 0;
      assert shared.Snapshot() == reloaded;
    }

    /** What `PageLeft` does. */
    twostate predicate PageLeftEffect(store: Store, cmd: Cmd)
      requires old(shared.Valid())
      reads this, shared
    {
      && (cmd == NoCmd || cmd == Crash)
      && !gPressed
      && (old(shared.CurrentPage) == 0 ==> selectedRow == old(selectedRow) && unchanged(shared) && cmd == NoCmd)
      && (old(shared.CurrentPage) > 0 ==>
            && (cmd == Crash <==> old(shared.SelectedTable) < 0)
            && (cmd == NoCmd ==>
                  && shared.Snapshot() == LoadResult(old(shared.Snapshot()).(currentPage := old(shared.CurrentPage) - 1), store).0
                  && selectedRow == 0))
    }

    /** Left: the page before, reloaded but not refiltered, first row. */
    method PageLeft(store: Store) returns (cmd: Cmd)
      requires shared.Valid()
      modifies shared, this`selectedRow, this`gPressed
      ensures shared.Valid()
      ensures PageLeftEffect(store, cmd)
      ensures old(Synced(store) && PageInRange()) ==> Synced(store) && PageInRange() && cmd == NoCmd
    {
      cmd := NoCmd;
      if shared.CurrentPage > 0 {
        cmd := Reload(store, shared.CurrentPage - 1, false);
        if cmd == NoCmd {
          selectedRow := 0;
        }
      }
      gPressed := false;
    }

    /** What `PageRight` does. */
    twostate predicate PageRightEffect(store: Store, cmd: Cmd)
      requires old(shared.Valid())
      reads this, shared
    {
      && (cmd == NoCmd || cmd == Crash)
      && !gPressed
      && (old(shared.CurrentPage) >= MaxPage(old(shared.TotalRows)) ==>
            selectedRow == old(selectedRow) && unchanged(shared) && cmd == NoCmd)
      && (old(shared.CurrentPage) < MaxPage(old(shared.TotalRows)) ==>
            && (cmd == Crash <==> old(shared.SelectedTable) < 0)
            && (cmd == NoCmd ==>
                  && shared.Snapshot() == LoadResult(old(shared.Snapshot()).(currentPage := old(shared.CurrentPage) + 1), store).0
                  && selectedRow == 0))
    }

    /** Right: the next page unless this is the last, reloaded but not
        refiltered, first row. */
    method PageRight(store: Store) returns (cmd: Cmd)
      requires shared.Valid()
      modifies shared, this`selectedRow, this`gPressed
      ensures shared.Valid()
      ensures PageRightEffect(store, cmd)
      ensures old(Synced(store) && PageInRange()) ==> Synced(store) && PageInRange() && cmd == NoCmd
    {
      cmd := NoCmd;
      var maxPage := MaxPage(shared.TotalRows);
      if shared.CurrentPage < maxPage {
        cmd := Reload(store, shared.CurrentPage + 1, false);
        if cmd == NoCmd {
          selectedRow := 0;
        }
      }
      gPressed := false;
    }

    /** What `Refresh` does. */
    twostate predicate RefreshEffect(store: Store, cmd: Cmd)
      requires old(shared.Valid())
      reads this, shared
    {
      && (cmd == NoCmd || cmd == Crash)
      && !gPressed
      && (cmd == Crash <==> old(shared.SelectedTable) < 0)
      && (cmd == NoCmd ==>
            var loaded := LoadResult(old(shared.Snapshot()), store);
            && (loaded.1.Success? ==>
                  && shared.Snapshot() == loaded.0.(filteredData := shared.FilteredData)
                  && DataFiltered(shared.Cells, shared.TableData, search, shared.FilteredData)
                  && selectedRow == (if old(selectedRow) >= |shared.FilteredData| then 0 else old(selectedRow)))
            && (!loaded.1.Success? ==> shared.Snapshot() == loaded.0 && selectedRow == old(selectedRow)))
    }

    /** Refresh: reload the page, and refilter only when the load worked. */
    method Refresh(store: Store) returns (cmd: Cmd)
      requires shared.Valid()
      modifies shared, this`selectedRow, this`gPressed
      ensures shared.Valid()
      ensures RefreshEffect(store, cmd)
      ensures old(Synced(store) && PageInRange()) ==> Synced(store) && PageInRange() && cmd == NoCmd
      ensures old(PageShown(store)) && search == "" ==> PageShown(store)
    {
      gPressed := false;
      var r := shared.LoadTableData(store);
      if r.Panic? {
        return Crash;
      }
      if r.Success? {
        FilterData();
      }
      cmd := NoCmd;
    }

    /** What `HandleSearchInput` does. */
    twostate predicate SearchInputEffect(k: string, typed: string, cmd: Cmd)
      reads this, shared
    {
      && cmd == NoCmd
      && focused == old(focused) && gPressed == old(gPressed)
      && searching == (old(searching) && k != "esc" && k != "enter")
      && search == (if k == "esc" || k == "enter" then old(search) else typed)
      && shared.Snapshot() == old(shared.Snapshot()).(filteredData := shared.FilteredData)
      && DataFiltered(shared.Cells, shared.TableData, search, shared.FilteredData)
      && selectedRow == (if old(selectedRow) >= |shared.FilteredData| then 0 else old(selectedRow))
    }

    /** `handleSearchInput`: esc and enter both leave the search box keeping
        its text and refilter; any other key edits the text and refilters. */
    method HandleSearchInput(k: string, typed: string) returns (cmd: Cmd)
      requires shared.Valid()
      modifies this`search, this`searching, this`selectedRow, shared`FilteredData
      ensures shared.Valid()
      ensures SearchInputEffect(k, typed, cmd)
    {
      if k == "esc" || k == "enter" {
        searching := false;
      } else {
        search := typed;
      }
      FilterData();
      cmd := NoCmd;
    }

    /** What `HandleNavigation` does: the command keys are `Command`'s, the
        rest `Move`'s, and neither touches the focus. */
    twostate predicate NavigationEffect(k: string, store: Store, cmd: Cmd)
      requires old(shared.Valid())
      reads this, shared
    {
      && focused == old(focused)
      && searching == (old(searching) || k == "/")
      && search == (if k == "esc" || k == "/" then "" else old(search))
      && (if k in NavCommandKeys then CommandEffect(k, cmd) else MoveEffect(k, store, cmd))
    }

    /** `handleNavigation`. Every key but the first `g` of a `gg` cancels a
        pending `g`. While the view shows a loaded table, no key takes the page
        past the last one. */
    method HandleNavigation(k: string, store: Store) returns (cmd: Cmd)
      requires shared.Valid()
      modifies this, shared
      ensures shared.Valid()
      ensures cmd != Crash ==> gPressed == (k == "g" && !old(gPressed))
      ensures NavigationEffect(k, store, cmd)
      ensures old(Synced(store) && PageInRange()) ==> Synced(store) && PageInRange() && cmd != Crash
    {
      if k in NavCommandKeys {
        cmd := Command(k);
      } else {
        cmd := Move(k, store);
      }
    }

    /** What `Command` does. */
    twostate predicate CommandEffect(k: string, cmd: Cmd)
      reads this, shared
    {
      && !gPressed
      && searching == (old(searching) || k == "/")
      && search == (if k == "esc" || k == "/" then "" else old(search))
      && (k == "q" || (k == "esc" && old(search) == "") ==>
            cmd == Emit(SwitchToTableListClear) && unchanged(shared) && selectedRow == old(selectedRow))
      && (k == "esc" && old(search) != "" ==>
            && cmd == NoCmd && shared.FilteredData == shared.TableData
            && shared.Snapshot() == old(shared.Snapshot()).(filteredData := shared.FilteredData)
            && selectedRow == (if old(selectedRow) >= |shared.FilteredData| then 0 else old(selectedRow)))
      && (k == "enter" ==>
            && cmd == (if |old(shared.FilteredData)| > 0 then Emit(SwitchToRowDetail(old(selectedRow))) else NoCmd)
            && unchanged(shared) && selectedRow == old(selectedRow))
      && (k == "s" ==> cmd == Emit(SwitchToQuery) && unchanged(shared) && selectedRow == old(selectedRow))
      && (k !in {"q", "esc", "enter", "s"} ==> cmd == NoCmd && unchanged(shared) && selectedRow == old(selectedRow))
    }

    /** The keys that leave the view or change mode: `q` and esc (unless it
        clears a search) go back to the table list, enter opens the selected
        row, `/` opens the search box, `s` goes to the query view. */
    method Command(k: string) returns (cmd: Cmd)
      requires shared.Valid()
      modifies this`search, this`searching, this`gPressed, this`selectedRow, shared`FilteredData
      ensures shared.Valid()
      ensures CommandEffect(k, cmd)
    {
      gPressed := false;
      cmd := NoCmd;
      if k == "q" {
        cmd := Emit(SwitchToTableListClear);
      } else if k == "esc" {
        if search != "" {
          search := "";
          FilterData();
        } else {
          cmd := Emit(SwitchToTableListClear);
        }
      } else if k == "enter" {
        if |shared.FilteredData| > 0 {
          cmd := Emit(SwitchToRowDetail(selectedRow));
        }
      } else if k == "/" {
        searching := true;
        search := "";
      } else if k == "s" {
        cmd := Emit(SwitchToQuery);
      }
    }

    /** What `Move` does: each moving key is its handler's effect. */
    twostate predicate MoveEffect(k: string, store: Store, cmd: Cmd)
      requires old(shared.Valid())
      reads this, shared
    {
      if k == "g" then GoToStartEffect(store, cmd)
      else if k == "G" then GoToEndEffect(store, cmd)
      else if k == "r" then RefreshEffect(store, cmd)
      else if k in UpKeys then RowUpEffect(store, cmd)
      else if k in DownKeys then RowDownEffect(store, cmd)
      else if k in LeftKeys then PageLeftEffect(store, cmd)
      else if k in RightKeys then PageRightEffect(store, cmd)
      else cmd == NoCmd && !gPressed && unchanged(shared) && selectedRow == old(selectedRow)
    }

    /** The moving keys: `g`, `G`, refresh and the four arrows; any other key
        only cancels a pending `g`. */
    method Move(k: string, store: Store) returns (cmd: Cmd)
      requires shared.Valid()
      modifies shared, this`selectedRow, this`gPressed
      ensures shared.Valid()
      ensures cmd != Crash ==> gPressed == (k == "g" && !old(gPressed))
      ensures MoveEffect(k, store, cmd)
      ensures old(Synced(store) && PageInRange()) ==> Synced(store) && PageInRange() && cmd != Crash
    {
      if k == "g" {
        cmd := GoToStart(store);
      } else if k == "G" {
        cmd := GoToEnd(store);
      } else if k == "r" {
        cmd := Refresh(store);
      } else if k in UpKeys {
        cmd := RowUp(store);
      } else if k in DownKeys {
        cmd := RowDown(store);
      } else if k in LeftKeys {
        cmd := PageLeft(store);
      } else if k in RightKeys {
        cmd := PageRight(store);
      } else {
        gPressed := false;
        cmd := NoCmd;
      }
    }

    /** What a message does to this view, as `Update` promises it; the
        dispatcher passes this on for the view on show. */
    twostate predicate UpdateEffect(msg: Msg, store: Store, typed: string, cmd: Cmd)
      requires old(shared.Valid()) && shared.Valid()
      reads this, shared
    {
      && (!old(focused) ==> cmd == NoCmd && unchanged(this) && unchanged(shared))
      && (old(focused) && msg.Key? && old(searching) ==> SearchInputEffect(msg.name, typed, cmd))
      && (old(focused) && msg.Key? && !old(searching) ==> NavigationEffect(msg.name, store, cmd))
      && (old(focused) && !msg.Key? ==>
            && cmd == NoCmd
            && (old(searching) ==>
                  && search == typed
                  && searching && focused && gPressed == old(gPressed)
                  && shared.Snapshot() == old(shared.Snapshot()).(filteredData := shared.FilteredData)
                  && DataFiltered(shared.Cells, shared.TableData, search, shared.FilteredData)
                  && selectedRow == (if old(selectedRow) >= |shared.FilteredData| then 0 else old(selectedRow)))
            && (!old(searching) ==> unchanged(this) && unchanged(shared)))
    }

    /** `Update`: nothing while unfocused; keys go to the search box while
        searching and to navigation otherwise; any other message reaches the
        search box while searching and refilters. */
    method Update(msg: Msg, store: Store, typed: string) returns (cmd: Cmd)
      requires shared.Valid()
      modifies this, shared
      ensures shared.Valid()
      ensures UpdateEffect(msg, store, typed, cmd)
      ensures old(focused) && msg.Key? && !old(searching) && old(Synced(store) && PageInRange()) ==>
                Synced(store) && PageInRange() && cmd != Crash
    {
      cmd := NoCmd;
      if !focused {
        return;
      }
      if msg.Key? {
        if searching {
          cmd := HandleSearchInput(msg.name, typed);
        } else {
          cmd := HandleNavigation(msg.name, store);
        }
      } else if searching {
        search := typed;
        FilterData();
      }
    }
  }
}
