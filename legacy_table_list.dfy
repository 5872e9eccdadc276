/** The table list of the earlier variant (`tableListModel`): a search typed
    into the view itself that keeps, in catalog order, the tables whose name
    contains it, a selection, and paging by the terminal's height. There is no
    `gg`/`G` and no help toggle, and q never reaches this view (the dispatcher
    quits on it). */
module LegacyTableList {
  import opened GoText
  import opened Util
  import opened Session
  import opened Messages
  import Fuzzy
  import TableList

  const UpKeys: set<string> := {"up", "k"}
  const DownKeys: set<string> := {"down", "j"}
  const LeftKeys: set<string> := {"left", "h"}
  const RightKeys: set<string> := {"right", "l"}

  /** The name contains the search text, both lower-cased. */
  predicate Mentions(name: string, search: string) {
    Contains(ToLower(name), ToLower(search))
  }

  /** The tables whose name contains the search text, in catalog order. */
  function Containing(tables: seq<string>, search: string): (r: seq<string>)
    ensures |r| <= |tables|
    ensures forall t :: t in r <==> t in tables && Mentions(t, search)
  {
    if tables == [] then []
    else
      var last := tables[|tables| - 1];
      assert tables == tables[..|tables| - 1] + [last];
      Containing(tables[..|tables| - 1], search) + (if Mentions(last, search) then [last] else [])
  }

  /** Filtering keeps the catalog's order: the filter of two lists one after
      the other is the filter of the first followed by that of the second. */
  lemma {:induction false} ContainingAppend(a: seq<string>, b: seq<string>, search: string)
    ensures Containing(a + b, search) == Containing(a, search) + Containing(b, search)
    decreases |b|
  {
    if b == [] {
      assert a + b == a;
    } else {
      var init := b[..|b| - 1];
      var last := b[|b| - 1];
      assert (a + b)[..|a + b| - 1] == a + init;
      assert (a + b)[|a + b| - 1] == last;
      ContainingAppend(a, init, search);
    }
  }

  /** Every name contains the empty text, so the copy `filterTables` makes for
      an empty search is what the filter would give anyway. */
  lemma {:induction false} EmptySearchKeepsAll(tables: seq<string>)
    ensures Containing(tables, "") == tables
  {
    if tables != [] {
      var last := tables[|tables| - 1];
      assert OccursAt(ToLower(last), ToLower(""), 0);
      EmptySearchKeepsAll(tables[..|tables| - 1]);
      assert tables[..|tables| - 1] + [last] == tables;
    }
  }

  /** What `filterTables` leaves in the filtered list. */
  predicate Filtered(tables: seq<string>, search: string, filtered: seq<string>) {
    filtered == (if search == "" then tables else Containing(tables, search))
  }

  /** The search branch of `filterTables`: keep each table whose name
      contains the search text. */
  method KeepContaining(tables: seq<string>, search: string) returns (kept: seq<string>)
    ensures kept == Containing(tables, search)
  {
    var lower := ToLower(search);
    kept := [];
    for i := 0 to |tables|
      invariant kept == Containing(tables[..i], search)
    {
      assert tables[..i + 1][..i] == tables[..i];
      if Contains(ToLower(tables[i]), lower) {
        kept := kept + [tables[i]];
      }
    }
    assert tables[..|tables|] == tables;
  }

  class TableListModel {
    const shared: SharedData
    var search: string
    var searching: bool
    var selectedTable: int
    var currentPage: int

    /** `newTableListModel`. */
    constructor (shared: SharedData)
      ensures this.shared == shared && Initial()
      ensures InRange() && OnPage()
    {
      this.shared := shared;
      search, searching := "", false;
      selectedTable, currentPage := 0, 0;
    }

    /** `getVisibleCount`: the same reserve of lines as the current variant. */
    function Visible(): int
      reads this, shared
    {
      TableList.VisibleCount(shared.Height, searching)
    }

    /** The fields `newTableListModel` starts with: no search, and the first
        name on the first page. */
    predicate Initial()
      reads this
    {
      search == "" && !searching && selectedTable == 0 && currentPage == 0
    }

    /** The selection points into the filtered list (or is 0 when it is empty). */
    predicate InRange()
      reads this, shared
    {
      0 <= selectedTable && (selectedTable < |shared.FilteredTables| || selectedTable == 0)
    }

    /** The page shown is the one holding the selection. */
    predicate OnPage()
      reads this, shared
    {
      currentPage == Quo(selectedTable, Visible())
    }

    /** What a message does to this view, as `Update` promises it; the
        dispatcher passes this on for the view on show. */
    twostate predicate UpdateEffect(msg: Msg, store: Store, cmd: Cmd)
      reads this, shared
    {
      && (!msg.Key? ==> cmd == NoCmd && unchanged(this) && unchanged(shared))
      && (msg.Key? && old(searching) ==> SearchInputEffect(msg.name, cmd) && unchanged(shared`Tables))
      && (msg.Key? && !old(searching) ==> NavigationEffect(msg.name, store, cmd))
      && (shared.Snapshot() == old(shared.Snapshot()).(tables := shared.Tables, filteredTables := shared.FilteredTables))
    }

    /** `Update`: keys go to the search text while searching and to navigation
        otherwise; nothing else concerns this view. */
    method Update(msg: Msg, store: Store) returns (cmd: Cmd)
      modifies this, shared
      ensures UpdateEffect(msg, store, cmd)
      ensures old(InRange() && OnPage()) ==> InRange()
    {
      cmd := NoCmd;
      match msg {
        case Key(k) =>
          if searching {
            cmd := HandleSearchInput(k);
          } else {
            cmd := HandleNavigation(k, store);
          }
        case _ =>
      }
    }

    /** What a key does while searching: esc and enter leave the search,
        keeping its text; backspace drops the last byte and a one-byte key is
        appended; the list is refiltered after each of these, and nothing is
        asked of the dispatcher. */
    twostate predicate SearchInputEffect(k: string, cmd: Cmd)
      reads this, shared
    {
      && cmd == NoCmd
      && searching == (k != "esc" && k != "enter" && old(searching))
      && search == (if k == "backspace" && |old(search)| > 0 then old(search)[..|old(search)| - 1]
                    else if k != "backspace" && |k| == 1 then old(search) + k
                    else old(search))
      && var refilter := k == "esc" || k == "enter" || (k == "backspace" && |old(search)| > 0) || (k != "backspace" && |k| == 1);
        && (refilter ==> Refiltered())
        && (!refilter ==> shared.FilteredTables == old(shared.FilteredTables)
                          && selectedTable == old(selectedTable) && currentPage == old(currentPage))
    }

    /** `handleSearchInput`: esc and enter leave the search, keeping its text;
        backspace drops the last byte and a one-byte key is appended; the list
        is refiltered after each of these. */
    method HandleSearchInput(k: string) returns (cmd: Cmd)
      modifies this`search, this`searching, this`selectedTable, this`currentPage, shared`FilteredTables
      ensures SearchInputEffect(k, cmd)
      ensures old(InRange()) ==> InRange()
    {
      if k == "esc" || k == "enter" {
        searching := false;
        FilterTables();
      } else if k == "backspace" {
        if |search| > 0 {
          search := search[..|search| - 1];
          FilterTables();
        }
      } else if |k| == 1 {
        search := search + k;
        FilterTables();
      }
      cmd := NoCmd;
    }

    /** What a key does outside a search: `/` starts an empty search, r
        reloads and refilters the names, enter asks for the selected table's
        rows and s for the query screen, and the moving keys move the
        selection or the page. */
    twostate predicate NavigationEffect(k: string, store: Store, cmd: Cmd)
      reads this, shared
    {
      && search == (if k == "/" then "" else old(search))
      && searching == (k == "/" || old(searching))
      && (k == "r" && store.catalog.Some? ==> shared.Tables == store.catalog.value && Refiltered())
      && (!(k == "r" && store.catalog.Some?) ==>
            shared.Tables == old(shared.Tables) && shared.FilteredTables == old(shared.FilteredTables))
      && cmd == (if k == "enter" && |old(shared.FilteredTables)| > 0 then Emit(SwitchToTableData(old(selectedTable)))
                 else if k == "s" then Emit(SwitchToQuery)
                 else NoCmd)
      && (k in {"/", "enter", "s"} || (k == "r" && store.catalog.None?) ==>
            selectedTable == old(selectedTable) && currentPage == old(currentPage))
      && (k !in {"/", "enter", "s", "r"} ==> MoveEffect(k))
    }

    /** `handleNavigation`. No key but `/` takes the selection off the list or
        the page off the selection; `/` starts an empty search but leaves the
        list as the previous search filtered it. */
    method HandleNavigation(k: string, store: Store) returns (cmd: Cmd)
      modifies shared, this`search, this`searching, this`selectedTable, this`currentPage
      ensures shared.Snapshot() == old(shared.Snapshot()).(tables := shared.Tables, filteredTables := shared.FilteredTables)
      ensures NavigationEffect(k, store, cmd)
      ensures k != "/" && old(InRange() && OnPage()) ==> InRange() && OnPage()
    {
      cmd := NoCmd;
      if k == "/" {
        searching := true;
        search := "";
      } else if k == "enter" {
        if |shared.FilteredTables| > 0 {
          cmd := Emit(SwitchToTableData(selectedTable));
        }
      } else if k == "s" {
        cmd := Emit(SwitchToQuery);
      } else if k == "r" {
        Reload(store);
      } else {
        Move(k);
      }
    }

    /** The r key of `handleNavigation`: reload the names and, when that
        worked, refilter them with the search text. */
    method Reload(store: Store)
      modifies shared, this`selectedTable, this`currentPage
      ensures shared.Snapshot() == old(shared.Snapshot()).(tables := shared.Tables, filteredTables := shared.FilteredTables)
      ensures store.catalog.Some? ==> shared.Tables == store.catalog.value && Refiltered()
      ensures store.catalog.None? ==>
                && shared.Tables == old(shared.Tables) && shared.FilteredTables == old(shared.FilteredTables)
                && selectedTable == old(selectedTable) && currentPage == old(currentPage)
      ensures old(InRange() && OnPage()) ==> InRange() && OnPage()
    {
      var loaded := shared.LoadTables(store);
      if loaded.Success? {
        FilterTables();
      }
    }

    /** What `Move` does: up and down move the selection one name and show
        its page, left and right turn the page and select its first name; at
        either end of the list, and for any other key, nothing changes. */
    twostate predicate MoveEffect(k: string)
      reads this, shared
    {
      && (k in UpKeys ==>
            if old(selectedTable) > 0 then selectedTable == old(selectedTable) - 1 && OnPage()
            else selectedTable == old(selectedTable) && currentPage == old(currentPage))
      && (k in DownKeys ==>
            if old(selectedTable) < |shared.FilteredTables| - 1 then selectedTable == old(selectedTable) + 1 && OnPage()
            else selectedTable == old(selectedTable) && currentPage == old(currentPage))
      && (k in LeftKeys ==>
            if old(currentPage) > 0 then currentPage == old(currentPage) - 1 && selectedTable == currentPage * Visible()
            else selectedTable == old(selectedTable) && currentPage == old(currentPage))
      && (k in RightKeys ==>
            if old(currentPage) < Quo(|shared.FilteredTables| - 1, Visible()) then
              currentPage == old(currentPage) + 1
              && selectedTable == Min(currentPage * Visible(), |shared.FilteredTables| - 1)
            else selectedTable == old(selectedTable) && currentPage == old(currentPage))
      && (k !in UpKeys + DownKeys + LeftKeys + RightKeys ==>
            selectedTable == old(selectedTable) && currentPage == old(currentPage))
    }

    /** The moving keys; any other key changes nothing. */
    method Move(k: string)
      modifies this`selectedTable, this`currentPage
      ensures MoveEffect(k)
      ensures old(InRange() && OnPage()) ==> InRange() && OnPage()
    {
      if k in UpKeys {
        if selectedTable > 0 {
          selectedTable := selectedTable - 1;
          AdjustPage();
        }
      } else if k in DownKeys {
        if selectedTable < |shared.FilteredTables| - 1 {
          selectedTable := selectedTable + 1;
          AdjustPage();
        }
      } else if k in LeftKeys {
        PageLeft();
      } else if k in RightKeys {
        PageRight();
      }
    }

    /** `adjustPage`: show the page that holds the selection. */
    method AdjustPage()
      modifies this`currentPage
      ensures OnPage()
    {
      currentPage := Quo(selectedTable, Visible());
    }

    /** The left key: one page back, selecting its first name. */
    method PageLeft()
      modifies this`currentPage, this`selectedTable
      ensures old(currentPage) > 0 ==> currentPage == old(currentPage) - 1 && selectedTable == currentPage * Visible()
      ensures old(currentPage) <= 0 ==> currentPage == old(currentPage) && selectedTable == old(selectedTable)
      ensures old(InRange() && OnPage()) ==> InRange() && OnPage()
    {
      if currentPage > 0 {
        ghost var before := selectedTable;
        currentPage := currentPage - 1;
        selectedTable := currentPage * Visible();
        if old(InRange() && OnPage()) {
          TableList.PreviousPageStart(old(currentPage), Visible(), before);
        }
      }
    }

    /** The right key: one page on, unless this is the last page, selecting
        its first name (or the last name, when the page starts past it). */
    method PageRight()
      modifies this`currentPage, this`selectedTable
      ensures var maxPage := Quo(|shared.FilteredTables| - 1, Visible());
        && (old(currentPage) < maxPage ==>
              currentPage == old(currentPage) + 1
              && selectedTable == Min(currentPage * Visible(), |shared.FilteredTables| - 1))
        && (old(currentPage) >= maxPage ==> currentPage == old(currentPage) && selectedTable == old(selectedTable))
      ensures old(InRange() && OnPage()) ==> InRange() && OnPage()
    {
      var v := Visible();
      var maxPage := Quo(|shared.FilteredTables| - 1, v);
      if currentPage < maxPage {
        if InRange() && OnPage() {
          TableList.NextPageStart(currentPage, v, |shared.FilteredTables|);
        }
        currentPage := currentPage + 1;
        selectedTable := currentPage * v;
        if selectedTable >= |shared.FilteredTables| {
          selectedTable := |shared.FilteredTables| - 1;
        }
      }
    }

    /** The list is rebuilt from the catalog and the search text, and the
        selection goes back to the top when it fell off the list's end. */
    twostate predicate Refiltered()
      reads this, shared
    {
      && Filtered(shared.Tables, search, shared.FilteredTables)
      && (old(selectedTable) >= |shared.FilteredTables| ==> selectedTable == 0 && currentPage == 0)
      && (old(selectedTable) < |shared.FilteredTables| ==>
            selectedTable == old(selectedTable) && currentPage == old(currentPage))
    }

    /** `filterTables`: rebuild the filtered list from the catalog and the
        search text, and go back to the top when the selection fell off its
        end. */
    method FilterTables()
      modifies this`selectedTable, this`currentPage, shared`FilteredTables
      ensures Refiltered()
      ensures old(InRange()) ==> InRange()
    {
      if search == "" {
        shared.FilteredTables := shared.Tables;
      } else {
        shared.FilteredTables := KeepContaining(shared.Tables, search);
      }
      if selectedTable >= |shared.FilteredTables| {
        selectedTable := 0;
        currentPage := 0;
      }
    }
  }
}
