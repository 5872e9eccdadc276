/** The row browser of the earlier variant (`tableDataModel`): the current
    page of the selected table, a search typed into the view that keeps, in
    page order, the rows with a cell containing it, a selection that stays on
    the page, and paging that only asks the dispatcher to reload. */
module LegacyTableData {
  import opened Util
  import opened Session
  import opened Messages
  import opened LegacyTableList
  import GoText

  const RefreshKeys: set<string> := {"r"}

  /** Some cell of the row contains the search text, both lower-cased. */
  predicate RowMentions(row: seq<string>, search: string) {
    exists k :: 0 <= k < |row| && Mentions(row[k], search)
  }

  /** The rows, by reference, that have a cell containing the search text, in
      the order listed. */
  function ContainingRows(cells: seq<seq<string>>, refs: seq<nat>, search: string): (r: seq<nat>)
    requires RefsIn(refs, |cells|)
    ensures |r| <= |refs| && RefsIn(r, |cells|)
    ensures forall x :: x in r <==> x in refs && RowMentions(cells[x], search)
  {
    if refs == [] then []
    else
      var last := refs[|refs| - 1];
      assert refs == refs[..|refs| - 1] + [last];
      ContainingRows(cells, refs[..|refs| - 1], search) + (if RowMentions(cells[last], search) then [last] else [])
  }

  /** The empty search is contained in every cell. */
  lemma EmptySearchMentioned(cell: string, search: string)
    requires |search| == 0
    ensures Mentions(cell, search)
  {
    GoText.ContainsAt(GoText.ToLower(cell), GoText.ToLower(search), 0);
  }

  /** So the empty search keeps every row that has a cell; `filterData`
      copies the page for it, which differs only for rows without cells. */
  lemma {:induction false} EmptySearchKeepsRowsWithCells(cells: seq<seq<string>>, refs: seq<nat>, search: string)
    requires RefsIn(refs, |cells|) && |search| == 0
    requires forall k :: 0 <= k < |refs| ==> cells[refs[k]] != []
    ensures ContainingRows(cells, refs, search) == refs
  {
    if refs != [] {
      var init, last := refs[..|refs| - 1], refs[|refs| - 1];
      assert forall k :: 0 <= k < |init| ==> init[k] == refs[k];
      EmptySearchKeepsRowsWithCells(cells, init, search);
      EmptySearchMentioned(cells[last][0], search);
      assert RowMentions(cells[last], search);
      assert ContainingRows(cells, refs, search) == init + [last];
      assert init + [last] == refs;
    }
  }

  /** What `filterData` leaves in `FilteredData`. */
  predicate DataFiltered(cells: seq<seq<string>>, tableData: seq<nat>, search: string, filtered: seq<nat>)
    requires RefsIn(tableData, |cells|)
  {
    filtered == (if search == "" then tableData else ContainingRows(cells, tableData, search))
  }

  /** The inner loop of `filterData`: look for a cell containing the search
      text, stopping at the first. */
  method AnyCellContains(row: seq<string>, search: string) returns (found: bool)
    ensures found == RowMentions(row, search)
  {
    var lower := GoText.ToLower(search);
    var i := 0;
    while i < |row| && !GoText.Contains(GoText.ToLower(row[i]), lower)
      invariant 0 <= i <= |row|
      invariant forall k :: 0 <= k < i ==> !Mentions(row[k], search)
    {
      i := i + 1;
    }
    found := i < |row|;
  }

  /** The search branch of `filterData`: keep each row with a matching cell. */
  method KeepRows(cells: seq<seq<string>>, refs: seq<nat>, search: string) returns (kept: seq<nat>)
    requires RefsIn(refs, |cells|)
    ensures kept == ContainingRows(cells, refs, search)
  {
    kept := [];
    for i := 0 to |refs|
      invariant kept == ContainingRows(cells, refs[..i], search)
    {
      assert refs[..i + 1][..i] == refs[..i];
      var found := AnyCellContains(cells[refs[i]], search);
      if found {
        kept := kept + [refs[i]];
      }
    }
    assert refs[..|refs|] == refs;
  }

  /** `getVisibleRowCount`: the terminal height less nine reserved lines, two
      more while searching, and at least one. */
  function VisibleRowCount(height: int, searching: bool): (n: int)
    ensures n >= 1
    ensures n >= height - 11
    ensures searching ==> n <= VisibleRowCount(height, false)
    ensures !searching && height > 9 ==> n == height - 9
    ensures !searching && height <= 9 ==> n == 1
    ensures searching && height > 11 ==> n == height - 11
    ensures searching && height <= 11 ==> n == 1
  {
    Max(1, height - (if searching then 11 else 9))
  }

  class TableDataModel {
    const shared: SharedData
    var selectedRow: int
    var search: string
    var searching: bool

    /** `newTableDataModel`. */
    constructor (shared: SharedData)
      ensures this.shared == shared && Initial()
      ensures InRange()
    {
      this.shared := shared;
      selectedRow, search, searching := 0, "", false;
    }

    /** The fields `newTableDataModel` starts with: the first row and no
        search. */
    predicate Initial()
      reads this
    {
      selectedRow == 0 && search == "" && !searching
    }

    /** The selection is one of the shown rows (or 0 when none are shown). */
    predicate InRange()
      reads this, shared
    {
      0 <= selectedRow && (selectedRow < |shared.FilteredData| || selectedRow == 0)
    }

    /** The page shown exists: it lies between 0 and the last page. */
    predicate PageInRange()
      reads shared
    {
      shared.CurrentPage <= MaxPage(shared.TotalRows)
    }

    /** What a message does to this view, as `Update` promises it; the
        dispatcher passes this on for the view on show. */
    twostate predicate UpdateEffect(msg: Msg, cmd: Cmd)
      requires shared.Valid()
      reads this, shared
    {
      && (!msg.Key? ==> cmd == NoCmd && unchanged(this) && unchanged(shared))
      && (msg.Key? && old(searching) ==> SearchInputEffect(msg.name, cmd))
      && (msg.Key? && !old(searching) ==> NavigationEffect(msg.name, cmd))
    }

    /** `Update`: keys go to the search text while searching and to navigation
        otherwise; nothing else concerns this view. */
    method Update(msg: Msg) returns (cmd: Cmd)
      requires shared.Valid()
      modifies this, shared`FilteredData, shared`CurrentPage
      ensures shared.Valid()
      ensures UpdateEffect(msg, cmd)
      ensures old(InRange()) ==> InRange()
      ensures old(PageInRange()) ==> PageInRange()
    {
      cmd := NoCmd;
      match msg {
        case Key(k) =>
          if searching {
            cmd := HandleSearchInput(k);
          } else {
            cmd := HandleNavigation(k);
          }
        case _ =>
      }
    }

    /** What a key does while searching: esc and enter leave the search,
        keeping its text; backspace drops the last byte and a one-byte key is
        appended; the rows are refiltered after each of these, the page stays
        and nothing is asked of the dispatcher. */
    twostate predicate SearchInputEffect(k: string, cmd: Cmd)
      requires shared.Valid()
      reads this, shared
    {
      && cmd == NoCmd
      && shared.Snapshot() == old(shared.Snapshot()).(filteredData := shared.FilteredData)
      && shared.CurrentPage == old(shared.CurrentPage)
      && searching == (k != "esc" && k != "enter" && old(searching))
      && search == (if k == "backspace" && |old(search)| > 0 then old(search)[..|old(search)| - 1]
                    else if k != "backspace" && |k| == 1 then old(search) + k
                    else old(search))
      && var refilter := k == "esc" || k == "enter" || (k == "backspace" && |old(search)| > 0) || (k != "backspace" && |k| == 1);
        && (refilter ==>
              && DataFiltered(shared.Cells, shared.TableData, search, shared.FilteredData)
              && selectedRow == (if old(selectedRow) >= |shared.FilteredData| then 0 else old(selectedRow)))
        && (!refilter ==> shared.FilteredData == old(shared.FilteredData) && selectedRow == old(selectedRow))
    }

    /** `handleSearchInput`: esc and enter leave the search, keeping its text;
        backspace drops the last byte and a one-byte key is appended; the rows
        are refiltered after each of these. */
    method HandleSearchInput(k: string) returns (cmd: Cmd)
      requires shared.Valid()
      modifies this`search, this`searching, this`selectedRow, shared`FilteredData
      ensures shared.Valid()
      ensures SearchInputEffect(k, cmd)
      ensures old(InRange()) ==> InRange()
    {
      if k == "esc" || k == "enter" {
        searching := false;
        FilterData();
      } else if k == "backspace" {
        if |search| > 0 {
          search := search[..|search| - 1];
          FilterData();
        }
      } else if |k| == 1 {
        search := search + k;
        FilterData();
      }
      cmd := NoCmd;
    }

    /** What a key does outside a search: esc goes back to the table list,
        `/` starts an empty search, enter opens the selected row when rows are
        shown, r asks for a reload, up and down move within the page, and left
        and right step the page, return to its first row and ask for a
        reload; the shown rows stay as they are. */
    twostate predicate NavigationEffect(k: string, cmd: Cmd)
      reads this, shared
    {
      && shared.Snapshot() == old(shared.Snapshot()).(currentPage := shared.CurrentPage)
      && shared.FilteredData == old(shared.FilteredData)
      && search == (if k == "/" then "" else old(search))
      && searching == (k == "/" || old(searching))
      && (k == "esc" ==> cmd == Emit(SwitchToTableList))
      && (k == "enter" ==> cmd == (if |shared.FilteredData| > 0 then Emit(SwitchToRowDetail(old(selectedRow))) else NoCmd))
      && (k == "r" ==> cmd == Emit(RefreshData))
      && (k in LeftKeys ==>
            if old(shared.CurrentPage) > 0
            then shared.CurrentPage == old(shared.CurrentPage) - 1 && selectedRow == 0 && cmd == Emit(RefreshData)
            else shared.CurrentPage == old(shared.CurrentPage) && selectedRow == old(selectedRow) && cmd == NoCmd)
      && (k in RightKeys ==>
            if old(shared.CurrentPage) < MaxPage(shared.TotalRows)
            then shared.CurrentPage == old(shared.CurrentPage) + 1 && selectedRow == 0 && cmd == Emit(RefreshData)
            else shared.CurrentPage == old(shared.CurrentPage) && selectedRow == old(selectedRow) && cmd == NoCmd)
      && (k in UpKeys ==>
            selectedRow == (if old(selectedRow) > 0 then old(selectedRow) - 1 else old(selectedRow)))
      && (k in DownKeys ==>
            selectedRow == (if old(selectedRow) < |shared.FilteredData| - 1 then old(selectedRow) + 1 else old(selectedRow)))
      && (k !in LeftKeys + RightKeys ==> shared.CurrentPage == old(shared.CurrentPage))
      && (k !in LeftKeys + RightKeys + UpKeys + DownKeys ==> selectedRow == old(selectedRow))
      && (!(k in {"esc", "enter", "r"} + LeftKeys + RightKeys) ==> cmd == NoCmd)
    }

    /** `handleNavigation`: esc goes back to the table list, enter opens the
        selected row when rows are shown, r asks for a reload, up and down stay
        on the page, and left and right step the page, return to its first row
        and ask for a reload. */
    method HandleNavigation(k: string) returns (cmd: Cmd)
      modifies this`search, this`searching, this`selectedRow, shared`CurrentPage
      ensures NavigationEffect(k, cmd)
      ensures old(InRange()) ==> InRange()
      ensures old(PageInRange()) ==> PageInRange()
    {
      cmd := NoCmd;
      if k == "esc" {
        cmd := Emit(SwitchToTableList);
      } else if k == "/" {
        searching := true;
        search := "";
      } else if k == "enter" {
        if |shared.FilteredData| > 0 {
          cmd := Emit(SwitchToRowDetail(selectedRow));
        }
      } else if k == "r" {
        cmd := Emit(RefreshData);
      } else if k in UpKeys {
        if selectedRow > 0 {
          selectedRow := selectedRow - 1;
        }
      } else if k in DownKeys {
        if selectedRow < |shared.FilteredData| - 1 {
          selectedRow := selectedRow + 1;
        }
      } else if k in LeftKeys {
        if shared.CurrentPage > 0 {
          shared.CurrentPage := shared.CurrentPage - 1;
          selectedRow := 0;
          cmd := Emit(RefreshData);
        }
      } else if k in RightKeys {
        var maxPage := Max(0, Quo(shared.TotalRows - 1, PageSize));
        assert maxPage == MaxPage(shared.TotalRows);
        if shared.CurrentPage < maxPage {
          shared.CurrentPage := shared.CurrentPage + 1;
          selectedRow := 0;
          cmd := Emit(RefreshData);
        }
      }
    }

    /** `filterData`: rebuild the shown rows from the page and the search
        text, and go back to the first row when the selection fell off the
        end. */
    method FilterData()
      requires shared.Valid()
      modifies this`selectedRow, shared`FilteredData
      ensures shared.Valid()
      ensures DataFiltered(shared.Cells, shared.TableData, search, shared.FilteredData)
      ensures selectedRow == (if old(selectedRow) >= |shared.FilteredData| then 0 else old(selectedRow))
      ensures old(InRange()) ==> InRange()
    {
      if search == "" {
        shared.FilteredData := shared.TableData;
      } else {
        shared.FilteredData := KeepRows(shared.Cells, shared.TableData, search);
      }
      if selectedRow >= |shared.FilteredData| {
        selectedRow := 0;
      }
    }
  }
}
