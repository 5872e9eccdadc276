/** The table list of the current variant (`TableListModel`): a fuzzy search
    box over the table names, a selection with vim-style `gg`/`G`, and paging
    by the terminal's height. The search box's own editing is not modelled:
    where the box processes a message, the text it holds afterwards is passed
    in as `typed`. */
module TableList {
  import opened GoText
  import opened Util
  import opened Fuzzy
  import opened Ranking
  import opened Session
  import opened Messages

  const UpKeys: set<string> := {"up", "k"}
  const DownKeys: set<string> := {"down", "j"}
  const LeftKeys: set<string> := {"left", "h"}
  const RightKeys: set<string> := {"right", "l"}
  const CommandKeys: set<string> := {"esc", "/", "enter", "s"}

  /** How well a table name matches the search text: both lower-cased, and a
      space does not start a word. */
  function TableScore(name: string, search: string): int {
    Score(ToLower(name), ToLower(search), false)
  }

  /** The tables that match the search text at all, in catalog order. */
  function Matching(tables: seq<string>, search: string): (r: seq<string>)
    ensures |r| <= |tables|
    ensures forall t :: t in r <==> t in tables && TableScore(t, search) > 0
  {
    if tables == [] then []
    else
      var last := tables[|tables| - 1];
      assert tables == tables[..|tables| - 1] + [last];
      Matching(tables[..|tables| - 1], search) + (if TableScore(last, search) > 0 then [last] else [])
  }

  /** The scored candidates the filter collects before sorting. */
  function Candidates(tables: seq<string>, search: string): (ms: seq<Match<string>>)
    ensures forall k :: 0 <= k < |ms| ==> ms[k].score == TableScore(ms[k].item, search) > 0
    ensures Items(ms) == Matching(tables, search)
  {
    if tables == [] then []
    else
      var init := Candidates(tables[..|tables| - 1], search);
      var last := tables[|tables| - 1];
      var score := TableScore(last, search);
      if score > 0 then
        assert Items(init + [Match(last, score)]) == Items(init) + [last];
        init + [Match(last, score)]
      else init
  }

  /** What `filterTables` leaves in the filtered list: everything when the
      search is empty; otherwise exactly the matching tables, best first. */
  predicate Filtered(tables: seq<string>, search: string, filtered: seq<string>) {
    if search == "" then filtered == tables
    else
      && multiset(filtered) == multiset(Matching(tables, search))
      && forall i, j :: 0 <= i < j < |filtered| ==> TableScore(filtered[i], search) >= TableScore(filtered[j], search)
  }

  /** A table is listed exactly when it is in the catalog and matches the search. */
  lemma FilteredMembership(tables: seq<string>, search: string, filtered: seq<string>, t: string)
    requires Filtered(tables, search, filtered)
    ensures t in filtered <==> t in tables && (search == "" || TableScore(t, search) > 0)
  {
    if search != "" {
      assert t in filtered <==> t in multiset(filtered);
      assert t in Matching(tables, search) <==> t in multiset(Matching(tables, search));
    }
  }

  /** For names of at most 100 bytes, a table matches exactly when the search
      text, lower-cased, can be read off its lower-cased name in order. */
  lemma ShortNamesMatchBySubsequence(tables: seq<string>, search: string)
    requires forall k :: 0 <= k < |tables| ==> |tables[k]| <= 100
    ensures forall t :: t in Matching(tables, search) <==> t in tables && IsSubsequence(ToLower(t), ToLower(search))
  {
    forall t | t in tables
      ensures TableScore(t, search) > 0 <==> IsSubsequence(ToLower(t), ToLower(search))
    {
      ShortTextMatchesIffSubsequence(ToLower(t), ToLower(search), false);
    }
  }

  /** The number of names one page of the list shows: the terminal height less
      eight reserved lines, two more while searching, and at least one. */
  function VisibleCount(height: int, searching: bool): (n: int)
    ensures n >= 1
    ensures n >= height - 10
    ensures searching ==> n <= VisibleCount(height, false)
    ensures !searching && height > 8 ==> n == height - 8
    ensures !searching && height <= 8 ==> n == 1
    ensures searching && height > 10 ==> n == height - 10
    ensures searching && height <= 10 ==> n == 1
  {
    Max(1, height - (if searching then 10 else 8))
  }

  /** The first row of the page after `page` is a row of the list, and lies
      on that next page, when `page` is before the last page. */
  lemma NextPageStart(page: int, v: int, count: int)
    requires v >= 1 && 0 <= page < Quo(count - 1, v)
    ensures 0 <= (page + 1) * v < count
    ensures Quo((page + 1) * v, v) == page + 1
  {
    NonNegMul(page + 1, v);
    MulMonotone(v, page + 1, Quo(count - 1, v));
    QuoOfMultiple(page + 1, v);
  }

  /** The first row of the page before the one holding `sel` is a row before
      `sel`, and lies on that page. */
  lemma PreviousPageStart(page: int, v: int, sel: int)
    requires v >= 1 && 0 <= sel && page == Quo(sel, v) && page > 0
    ensures 0 <= (page - 1) * v <= sel
    ensures Quo((page - 1) * v, v) == page - 1
  {
    NonNegMul(page - 1, v);
    assert (page - 1) * v + v == page * v;
    QuoOfMultiple(page - 1, v);
  }

  /** The search branch of `filterTables`: score every table, keep those above
      zero, sort them best first and take their names. */
  method RankTables(tables: seq<string>, search: string) returns (names: seq<string>)
    ensures multiset(names) == multiset(Matching(tables, search))
    ensures forall i, j :: 0 <= i < j < |names| ==> TableScore(names[i], search) >= TableScore(names[j], search)
  {
    var matches := ScoreTables(tables, search);
    var sorted := SortByScore(matches);
    SortedItemsByKey(sorted, matches, t => TableScore(t, search));
    names := ItemsOf(sorted);
  }

  /** The scoring loop of `filterTables`. */
  method ScoreTables(tables: seq<string>, search: string) returns (matches: seq<Match<string>>)
    ensures matches == Candidates(tables, search)
  {
    var lower := ToLower(search);
    matches := [];
    for i := 0 to |tables|
      invariant matches == Candidates(tables[..i], search)
    {
      var score := FuzzyScore(ToLower(tables[i]), lower, false);
      assert tables[..i + 1][..i] == tables[..i];
      if score > 0 {
        matches := matches + [Match(tables[i], score)];
      }
    }
    assert tables[..|tables|] == tables;
  }

  class TableListModel {
    const shared: SharedData
    /** The search box's text. */
    var search: string
    var searching: bool
    var selectedTable: int
    var currentPage: int
    var gPressed: bool
    var focused: bool
    var showFullHelp: bool

    /** `NewTableListModel`: focused, nothing selected beyond the first name. */
    constructor (shared: SharedData)
      ensures this.shared == shared && Initial()
    {
      this.shared := shared;
      search, searching := "", false;
      selectedTable, currentPage := 0, 0;
      gPressed, focused, showFullHelp := false, true, false;
    }

    /** The fields `NewTableListModel` starts with: no search, the first
        name on the first page, the focus, and the short help. */
    predicate Initial()
      reads this
    {
      search == "" && !searching && selectedTable == 0 && currentPage == 0 && !gPressed && focused && !showFullHelp
    }

    function Visible(): int
      reads this, shared
    {
      VisibleCount(shared.Height, searching)
    }

    /** The selection points into the filtered list (or is 0 when it is empty). */
    predicate InRange()
      reads this, shared
    {
      0 <= selectedTable && (selectedTable < |shared.FilteredTables| || selectedTable == 0)
    }

    /** The page shown is the one holding the selection. */
    predicate OnPage()
      reads this, shared
    {
      currentPage == Quo(selectedTable, Visible())
    }

    /** `adjustPage`: show the page that holds the selection. */
    method AdjustPage()
      modifies this`currentPage
      ensures OnPage()
    {
      currentPage := Quo(selectedTable, Visible());
    }

    /** The list is rebuilt from the catalog and the search text, and the
        selection goes back to the top when it fell off the list's end. */
    twostate predicate Refiltered()
      reads this, shared
    {
      && Filtered(shared.Tables, search, shared.FilteredTables)
      && (old(selectedTable) >= |shared.FilteredTables| ==> selectedTable == 0 && currentPage == 0)
      && (old(selectedTable) < |shared.FilteredTables| ==>
            selectedTable == old(selectedTable) && currentPage == old(currentPage))
    }

    /** `filterTables`: rebuild the filtered list from the catalog and the search
        text, and go back to the top when the selection fell off its end. */
    method FilterTables()
      modifies this`selectedTable, this`currentPage, shared`FilteredTables
      ensures Refiltered()
    {
      if search == "" {
        shared.FilteredTables := shared.Tables;
      } else {
        shared.FilteredTables := RankTables(shared.Tables, search);
      }
      if selectedTable >= |shared.FilteredTables| {
        selectedTable := 0;
        currentPage := 0;
      }
    }
    /** What `HandleSearchInput` does. */
    twostate predicate SearchInputEffect(k: string, typed: string, cmd: Cmd)
      reads this, shared
    {
      && cmd == NoCmd && gPressed == old(gPressed)
      && searching == (old(searching) && k != "esc" && k != "enter")
      && search == (if k == "esc" then "" else if k == "enter" then old(search) else typed)
      && shared.Snapshot() == old(shared.Snapshot()).(filteredTables := shared.FilteredTables)
      && (k == "esc" && old(search) == "" ==>
            shared.FilteredTables == old(shared.FilteredTables)
            && selectedTable == old(selectedTable) && currentPage == old(currentPage))
      && (!(k == "esc" && old(search) == "") ==> Refiltered())
    }

    /** `handleSearchInput`: esc leaves the search box (clearing a non-empty
        search), enter leaves it keeping the search, any other key edits it;
        the list is refiltered each time the search may have changed. */
    method HandleSearchInput(k: string, typed: string) returns (cmd: Cmd)
      modifies this`search, this`searching, this`selectedTable, this`currentPage, shared`FilteredTables
      ensures SearchInputEffect(k, typed, cmd)
      ensures old(InRange()) ==> InRange()
    {
      if k == "esc" {
        searching := false;
        if search != "" {
          search := "";
          FilterTables();
        }
      } else if k == "enter" {
        searching := false;
        FilterTables();
      } else {
        search := typed;
        FilterTables();
      }
      cmd := NoCmd;
    }

    /** What `HandleNavigation` does: `r` is `Refresh`'s, the command keys
        `Command`'s and every other key `Move`'s. */
    twostate predicate NavigationEffect(k: string, store: Store, cmd: Cmd)
      reads this, shared
    {
      if k == "r" then
        && cmd == NoCmd && !gPressed && search == old(search) && searching == old(searching)
        && RefreshEffect(store)
      else if k in CommandKeys then CommandEffect(k, cmd)
      else
        && cmd == NoCmd && search == old(search) && searching == old(searching)
        && unchanged(shared) && MoveEffect(k)
    }

    /** `handleNavigation`. Every key but the first `g` of a `gg` cancels a
        pending `g`; the moving keys are `Move`'s. No key but `/` takes the
        selection off the list or the page off the selection. */
    method HandleNavigation(k: string, store: Store) returns (cmd: Cmd)
      modifies shared, this`search, this`searching, this`gPressed, this`selectedTable, this`currentPage
      ensures gPressed == (k == "g" && !old(gPressed))
      ensures NavigationEffect(k, store, cmd)
      ensures k != "/" && old(InRange() && OnPage()) ==> InRange() && OnPage()
    {
      if k == "r" {
        gPressed := false;
        Refresh(store);
        cmd := NoCmd;
      } else if k in CommandKeys {
        cmd := Command(k);
      } else {
        Move(k);
        cmd := NoCmd;
      }
    }

    /** What `Command` does. */
    twostate predicate CommandEffect(k: string, cmd: Cmd)
      reads this, shared
    {
      && search == (if k == "esc" || k == "/" then "" else old(search))
      && searching == (old(searching) || k == "/")
      && !gPressed
      && shared.Snapshot() == old(shared.Snapshot()).(filteredTables := shared.FilteredTables)
      && (k == "esc" && old(search) != "" ==> Refiltered())
      && (!(k == "esc" && old(search) != "") ==>
            shared.FilteredTables == old(shared.FilteredTables)
            && selectedTable == old(selectedTable) && currentPage == old(currentPage))
      && cmd == (if k == "enter" && |old(shared.FilteredTables)| > 0 then Emit(SwitchToTableData(old(selectedTable)))
                 else if k == "s" then Emit(SwitchToQuery)
                 else NoCmd)
    }

    /** The keys that neither move the selection nor reload. */
    method Command(k: string) returns (cmd: Cmd)
      requires k in CommandKeys
      modifies this`search, this`searching, this`gPressed, this`selectedTable, this`currentPage, shared`FilteredTables
      ensures CommandEffect(k, cmd)
      ensures k != "/" && old(InRange() && OnPage()) ==> InRange() && OnPage()
    {
      cmd := NoCmd;
      gPressed := false;
      if k == "esc" {
        ClearSearch();
      } else if k == "/" {
        searching := true;
        search := "";
      } else if k == "enter" {
        if |shared.FilteredTables| > 0 {
          cmd := Emit(SwitchToTableData(selectedTable));
        }
      } else {
        cmd := Emit(SwitchToQuery);
      }
    }

    /** Escape outside the search box: a non-empty search is cleared and the
        full list comes back. */
    method ClearSearch()
      modifies this`search, this`selectedTable, this`currentPage, shared`FilteredTables
      ensures search == ""
      ensures old(search) != "" ==> Refiltered()
      ensures old(search) == "" ==>
                shared.FilteredTables == old(shared.FilteredTables)
                && selectedTable == old(selectedTable) && currentPage == old(currentPage)
      ensures old(InRange() && OnPage()) ==> InRange() && OnPage()
    {
      if search != "" {
        search := "";
        FilterTables();
      }
    }

    /** What `Refresh` does. */
    twostate predicate RefreshEffect(store: Store)
      reads this, shared
    {
      && shared.Snapshot() == old(shared.Snapshot()).(tables := shared.Tables, filteredTables := shared.FilteredTables)
      && (store.catalog.Some? ==> shared.Tables == store.catalog.value && Refiltered())
      && (store.catalog.None? ==>
            && shared.Tables == old(shared.Tables) && shared.FilteredTables == old(shared.FilteredTables)
            && selectedTable == old(selectedTable) && currentPage == old(currentPage))
    }

    /** The refresh key: reload the catalog and, when that worked, refilter. */
    method Refresh(store: Store)
      modifies shared, this`selectedTable, this`currentPage
      ensures RefreshEffect(store)
      ensures old(InRange() && OnPage()) ==> InRange() && OnPage()
    {
      var loaded := shared.LoadTables(store);
      if loaded.Success? {
        FilterTables();
      }
    }

    /** What `Move` does. */
    twostate predicate MoveEffect(k: string)
      reads this, shared
    {
      && gPressed == (k == "g" && !old(gPressed))
      && (k == "g" && old(gPressed) ==> selectedTable == 0 && currentPage == 0)
      && (k == "g" && !old(gPressed) ==> selectedTable == old(selectedTable) && currentPage == old(currentPage))
      && (k == "G" && |shared.FilteredTables| > 0 ==> selectedTable == |shared.FilteredTables| - 1 && OnPage())
      && (k == "G" && |shared.FilteredTables| == 0 ==>
            selectedTable == old(selectedTable) && currentPage == old(currentPage))
      && (k in UpKeys ==>
            if old(selectedTable) > 0 then selectedTable == old(selectedTable) - 1 && OnPage()
            else selectedTable == old(selectedTable) && currentPage == old(currentPage))
      && (k in DownKeys ==>
            if old(selectedTable) < |shared.FilteredTables| - 1 then selectedTable == old(selectedTable) + 1 && OnPage()
            else selectedTable == old(selectedTable) && currentPage == old(currentPage))
      && (k in LeftKeys ==>
            if old(currentPage) > 0 then currentPage == old(currentPage) - 1 && selectedTable == currentPage * Visible()
            else selectedTable == old(selectedTable) && currentPage == old(currentPage))
      && (k in RightKeys ==>
            if old(currentPage) < Quo(|shared.FilteredTables| - 1, Visible()) then
              currentPage == old(currentPage) + 1
              && selectedTable == Min(currentPage * Visible(), |shared.FilteredTables| - 1)
            else selectedTable == old(selectedTable) && currentPage == old(currentPage))
      && (k !in {"g", "G"} + UpKeys + DownKeys + LeftKeys + RightKeys ==>
            selectedTable == old(selectedTable) && currentPage == old(currentPage))
    }

    /** The moving keys `g`, `G`, up, down, left and right; any other key only
        cancels a pending `g`. */
    method Move(k: string)
      modifies this`selectedTable, this`currentPage, this`gPressed
      ensures MoveEffect(k)
      ensures old(InRange() && OnPage()) ==> InRange() && OnPage()
    {
      if k == "g" {
        if gPressed {
          selectedTable := 0;
          currentPage := 0;
          gPressed := false;
        } else {
          gPressed := true;
        }
      } else if k == "G" {
        if |shared.FilteredTables| > 0 {
          selectedTable := |shared.FilteredTables| - 1;
          AdjustPage();
        }
        gPressed := false;
      } else if k in UpKeys {
        gPressed := false;
        if selectedTable > 0 {
          selectedTable := selectedTable - 1;
          AdjustPage();
        }
      } else if k in DownKeys {
        gPressed := false;
        if selectedTable < |shared.FilteredTables| - 1 {
          selectedTable := selectedTable + 1;
          AdjustPage();
        }
      } else if k in LeftKeys {
        gPressed := false;
        PageLeft();
      } else if k in RightKeys {
        gPressed := false;
        PageRight();
      } else {
        gPressed := false;
      }
    }

    /** The left key: one page back, selecting its first name. */
    method PageLeft()
      modifies this`currentPage, this`selectedTable
      ensures old(currentPage) > 0 ==> currentPage == old(currentPage) - 1 && selectedTable == currentPage * Visible()
      ensures old(currentPage) <= 0 ==> currentPage == old(currentPage) && selectedTable == old(selectedTable)
      ensures old(InRange() && OnPage()) ==> InRange() && OnPage()
    {
      if currentPage > 0 {
        ghost var before := selectedTable;
        currentPage := currentPage - 1;
        selectedTable := currentPage * Visible();
        if old(InRange() && OnPage()) {
          PreviousPageStart(old(currentPage), Visible(), before);
        }
      }
    }

    /** The right key: one page on, unless this is the last page, selecting its
        first name. */
    method PageRight()
      modifies this`currentPage, this`selectedTable
      ensures var maxPage := Quo(|shared.FilteredTables| - 1, Visible());
        && (old(currentPage) < maxPage ==>
              currentPage == old(currentPage) + 1
              && selectedTable == Min(currentPage * Visible(), |shared.FilteredTables| - 1))
        && (old(currentPage) >= maxPage ==> currentPage == old(currentPage) && selectedTable == old(selectedTable))
      ensures old(InRange() && OnPage()) ==> InRange() && OnPage()
    {
      var v := Visible();
      var maxPage := Quo(|shared.FilteredTables| - 1, v);
      if currentPage < maxPage {
        if InRange() && OnPage() {
          NextPageStart(currentPage, v, |shared.FilteredTables|);
        }
        currentPage := currentPage + 1;
        selectedTable := currentPage * v;
        if selectedTable >= |shared.FilteredTables| {
          selectedTable := |shared.FilteredTables| - 1;
        }
      }
    }

    /** A key goes to the search box while searching and to navigation
        otherwise; neither changes the focus, the help or the window size. */
    method HandleKey(k: string, store: Store, typed: string) returns (cmd: Cmd)
      modifies this`search, this`searching, this`gPressed, this`selectedTable, this`currentPage, shared
      ensures old(searching) ==> SearchInputEffect(k, typed, cmd)
      ensures !old(searching) ==> NavigationEffect(k, store, cmd)
      ensures shared.Width == old(shared.Width) && shared.Height == old(shared.Height)
      ensures old(shared.Valid()) ==> shared.Valid()
    {
      if searching {
        cmd := HandleSearchInput(k, typed);
      } else {
        cmd := HandleNavigation(k, store);
      }
    }

    /** Another message reaches the search box: its text becomes the search
        and the list is refiltered. */
    method TakeTyped(typed: string)
      modifies this`search, this`selectedTable, this`currentPage, shared`FilteredTables
      ensures search == typed
      ensures shared.Snapshot() == old(shared.Snapshot()).(filteredTables := shared.FilteredTables)
      ensures Refiltered()
    {
      search := typed;
      FilterTables();
    }

    /** What a message does to this view, as `Update` promises it; the
        dispatcher passes this on for the view on show. */
    twostate predicate UpdateEffect(msg: Msg, store: Store, typed: string, cmd: Cmd)
      reads this, shared
    {
      && (!old(focused) ==> cmd == NoCmd && unchanged(this) && unchanged(shared))
      && (old(focused) && msg.ToggleHelp? ==>
            && cmd == NoCmd && showFullHelp == !old(showFullHelp) && unchanged(shared)
            && focused && search == old(search) && searching == old(searching) && gPressed == old(gPressed)
            && selectedTable == old(selectedTable) && currentPage == old(currentPage))
      && (old(focused) && msg.Key? && old(searching) ==> SearchInputEffect(msg.name, typed, cmd))
      && (old(focused) && msg.Key? && !old(searching) ==> NavigationEffect(msg.name, store, cmd))
      && (old(focused) && msg.Key? ==> focused && showFullHelp == old(showFullHelp))
      && (old(focused) && !msg.Key? && !msg.ToggleHelp? ==>
            && cmd == NoCmd
            && (old(searching) ==>
                  && search == typed && searching && focused
                  && gPressed == old(gPressed) && showFullHelp == old(showFullHelp)
                  && shared.Snapshot() == old(shared.Snapshot()).(filteredTables := shared.FilteredTables)
                  && Refiltered())
            && (!old(searching) ==> unchanged(this) && unchanged(shared)))
    }

    /** `Update`: nothing while unfocused; the help toggle; keys go to the search
        box while searching and to navigation otherwise; any other message
        reaches the search box while searching and refilters. */
    method Update(msg: Msg, store: Store, typed: string) returns (cmd: Cmd)
      modifies this, shared
      ensures UpdateEffect(msg, store, typed, cmd)
      ensures shared.Width == old(shared.Width) && shared.Height == old(shared.Height)
      ensures old(shared.Valid()) ==> shared.Valid()
    {
      cmd := NoCmd;
      if !focused {
        return;
      }
      match msg {
        case ToggleHelp =>
          showFullHelp := !showFullHelp;
        case Key(k) =>
          cmd := HandleKey(k, store, typed);
        case _ =>
          if searching {
            TakeTyped(typed);
          }
      }
    }
  }
}
