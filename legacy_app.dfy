/** The dispatcher of the earlier variant (`model` in main.go): the same
    sticky error and the same view switches on one shared cache as the
    current one, except that `q` and ctrl+c quit before any view sees them,
    there is no suspend key, and a row opened from the query results is an
    ordinary row detail. */
module LegacyApp {
  import opened Session
  import opened Messages
  import EditCell
  import LegacyTableList
  import LegacyTableData
  import LegacyRowDetail
  import LegacyEditCell
  import LegacyQuery

  /** The keys that end the program from every view, whatever it is doing. */
  const QuitKeys: set<string> := {"ctrl+c", "q"}

  /** The screen on show (`currentView`): one of the five views, none at all
      when the tables could not be listed at start-up, or `Halted` once Go has
      panicked and the program is gone. */
  datatype View =
    | TableListView(tableList: LegacyTableList.TableListModel)
    | TableDataView(tableData: LegacyTableData.TableDataModel)
    | RowDetailView(rowDetail: LegacyRowDetail.RowDetailModel)
    | EditCellView(editCell: LegacyEditCell.EditCellModel)
    | QueryView(query: LegacyQuery.QueryModel)
    | NoView
    | Halted
  {
    predicate Live() {
      !NoView? && !Halted?
    }

    /** The view's cache, which `getSharedData` hands on to the next view. */
    function Shared(): SharedData
      requires Live()
    {
      match this
      case TableListView(t) => t.shared
      case TableDataView(t) => t.shared
      case RowDetailView(r) => r.shared
      case EditCellView(e) => e.shared
      case QueryView(q) => q.shared
    }

    /** The view itself, without its cache. */
    function Screen(): object
      requires Live()
    {
      match this
      case TableListView(t) => t
      case TableDataView(t) => t
      case RowDetailView(r) => r
      case EditCellView(e) => e
      case QueryView(q) => q
    }

    /** The view and its cache: what updating the view may change. */
    function Objects(): set<object> {
      match this
      case TableListView(t) => {t, t.shared}
      case TableDataView(t) => {t, t.shared}
      case RowDetailView(r) => {r, r.shared}
      case EditCellView(e) => {e, e.shared}
      case QueryView(q) => {q, q.shared}
      case _ => {}
    }
  }

  /** The messages the switch in `Update` does not consume: they go on to the
      view unless an error is showing. The clearing table-list switch, the
      finished query and the help toggle belong to the current variant and
      reach this one's views as unknown messages. */
  predicate Forwarded(msg: Msg) {
    || (msg.Key? && msg.name !in QuitKeys) || msg.WindowSize?
    || msg.SwitchToTableListClear? || msg.QueryCompleted? || msg.ToggleHelp? || msg.Other?
  }

  class Model {
    var view: View
    /** Whether an error is showing (`err != nil`). */
    var failed: bool
    var width: int
    var height: int

    /** Every view's cache is well formed and every editor's cursor lies in
        its text; without a view, the start-up error is showing. */
    predicate Valid()
      reads this, view.Objects()
    {
      match view
      case TableListView(t) => t.shared.Valid()
      case TableDataView(t) => t.shared.Valid()
      case RowDetailView(r) => r.shared.Valid()
      case EditCellView(e) => e.shared.Valid() && e.Valid()
      case QueryView(q) => q.shared.Valid() && q.Valid()
      case NoView => failed
      case Halted => true
    }

    /** The cache `getSharedData` hands out: the view's own, or else an
        empty one. */
    function Current(): SharedState
      reads this, view.Objects()
    {
      if view.Live() then view.Shared().Snapshot() else Unloaded
    }

    /** `initialModel` once the database is open: the table list of the
        listed tables in an 80x24 window, or, when the tables cannot be
        listed, only the error. */
    constructor (store: Store)
      ensures Valid() && !view.Halted?
      ensures store.catalog.None? ==> failed && view == NoView && width == 0 && height == 0
      ensures store.catalog.Some? ==>
                && !failed && view.TableListView? && fresh(view.Objects()) && width == 80 && height == 24
                && view.Shared().Snapshot() == Unloaded.(tables := store.catalog.value, filteredTables := store.catalog.value)
                && view.tableList.search == "" && view.tableList.selectedTable == 0
    {
      var shared := new SharedData();
      var r := shared.LoadTables(store);
      if r.Failure? {
        view, failed, width, height := NoView, true, 0, 0;
      } else {
        var t := new LegacyTableList.TableListModel(shared);
        view, failed, width, height := TableListView(t), false, 80, 24;
      }
    }

    /** `getSharedData`. */
    method GetShared() returns (s: SharedData)
      requires Valid()
      ensures view.Live() ==> s == view.Shared()
      ensures !view.Live() ==> fresh(s)
      ensures s.Valid() && s.Snapshot() == Current()
    {
      if view.Live() {
        s := view.Shared();
      } else {
        s := new SharedData();
      }
    }

    /** `Update`. `q` and ctrl+c quit from every view, even while a search
        or a cell is being typed and even over an error. The error is never
        cleared, and while it shows no message reaches the view. A saved cell
        always leads back to the row detail. */
    method Update(msg: Msg, store: Store) returns (cmd: Cmd)
      requires Valid() && !view.Halted?
      modifies this, view.Objects()
      ensures Valid()
      ensures cmd == Crash <==> view.Halted?
      ensures old(failed) ==> failed
      ensures msg.Key? && msg.name in QuitKeys ==>
                cmd == Quit && view == old(view) && failed == old(failed) && unchanged(old(view).Objects())
      ensures Forwarded(msg) ==> failed == old(failed) && (view == old(view) || view.Halted?)
      ensures Forwarded(msg) && old(failed) ==>
                cmd == NoCmd && (!msg.WindowSize? ==> unchanged(old(view).Objects()))
      ensures Forwarded(msg) && !old(failed) && !(msg.WindowSize? && old(view).TableListView?) ==>
                ViewEffect(old(view), msg, store, cmd)
      ensures msg.SwitchToTableList? || msg.SwitchToRowDetail? || msg.SwitchToRowDetailFromQuery?
              || msg.SwitchToEditCell? || msg.SwitchToQuery? || msg.ReturnToQuery? ==>
                SwitchEffect(msg, cmd)
      ensures msg.UpdateCellRequest? || msg.SwitchToTableData? || msg.RefreshData? ==> CacheEffect(msg, store, cmd)
    {
      if Forwarded(msg) || msg.Key? {
        cmd := Pass(msg, store);
      } else if msg.UpdateCellRequest? || msg.SwitchToTableData? || msg.RefreshData? {
        cmd := CacheMessage(msg, store);
      } else {
        cmd := SwitchView(msg);
      }
    }

    /** The messages `Update`'s switch handles without consuming them: the
        quit keys, and the window size, which the table list's cache also
        records; the rest go on to the view. */
    method Pass(msg: Msg, store: Store) returns (cmd: Cmd)
      requires Valid() && !view.Halted?
      requires Forwarded(msg) || msg.Key?
      modifies this, view.Objects()
      ensures Valid()
      ensures cmd == Crash <==> view.Halted?
      ensures failed == old(failed) && (view == old(view) || view.Halted?)
      ensures msg.Key? && msg.name in QuitKeys ==> cmd == Quit && view == old(view) && unchanged(old(view).Objects())
      ensures Forwarded(msg) && old(failed) ==>
                cmd == NoCmd && (!msg.WindowSize? ==> unchanged(old(view).Objects()))
      ensures msg.WindowSize? ==> width == msg.width && height == msg.height
      ensures !msg.WindowSize? ==> width == old(width) && height == old(height)
      ensures msg.WindowSize? && old(view).TableListView? ==>
                old(view).Shared().Width == msg.width && old(view).Shared().Height == msg.height
      ensures !old(failed) && !(msg.Key? && msg.name in QuitKeys) && !(msg.WindowSize? && old(view).TableListView?) ==>
                ViewEffect(old(view), msg, store, cmd)
    {
      if msg.Key? && msg.name in QuitKeys {
        return Quit;
      }
      cmd := Deliver(msg, store);
    }

    /** A message that is not one of the quit keys: the window size is recorded,
        and the message goes on to the view. */
    method Deliver(msg: Msg, store: Store) returns (cmd: Cmd)
      requires Valid() && !view.Halted?
      modifies this, view.Objects()
      ensures Valid()
      ensures cmd == Crash <==> view.Halted?
      ensures failed == old(failed) && (view == old(view) || view.Halted?)
      ensures old(failed) ==> cmd == NoCmd && (!msg.WindowSize? ==> unchanged(old(view).Objects()))
      ensures msg.WindowSize? ==> width == msg.width && height == msg.height
      ensures !msg.WindowSize? ==> width == old(width) && height == old(height)
      ensures msg.WindowSize? && old(view).TableListView? ==>
                old(view).Shared().Width == msg.width && old(view).Shared().Height == msg.height
      ensures !old(failed) && !(msg.WindowSize? && old(view).TableListView?) ==> ViewEffect(old(view), msg, store, cmd)
    {
      if msg.WindowSize? {
        cmd := Resize(msg, store);
      } else {
        cmd := ForwardUnlessFailed(msg, store);
      }
    }

    /** The window size: the dispatcher records it, and so does the table
        list's cache when the table list is on show; then the message goes on
        to the view. */
    method Resize(msg: Msg, store: Store) returns (cmd: Cmd)
      requires Valid() && !view.Halted? && msg.WindowSize?
      modifies this, view.Objects()
      ensures Valid()
      ensures cmd == Crash <==> view.Halted?
      ensures failed == old(failed) && (view == old(view) || view.Halted?)
      ensures old(failed) ==> cmd == NoCmd
      ensures width == msg.width && height == msg.height
      ensures old(view).TableListView? ==>
                old(view).Shared().Width == msg.width && old(view).Shared().Height == msg.height
      ensures !old(failed) && !old(view).TableListView? ==> ViewEffect(old(view), msg, store, cmd)
    {
      width, height := msg.width, msg.height;
      if view.TableListView? {
        view.tableList.shared.Width, view.tableList.shared.Height := msg.width, msg.height;
      }
      cmd := ForwardUnlessFailed(msg, store);
    }

    /** What a switch message does: the view it names replaces the one on
        show, on the same cache; the query screen that receives
        `returnToQueryMsg` only hands the focus to its results. */
    twostate predicate SwitchEffect(msg: Msg, cmd: Cmd)
      requires old(Valid()) && !old(view).Halted?
      reads this, view.Objects()
    {
      && (msg.SwitchToTableList? ==>
            && cmd == NoCmd && view.TableListView? && fresh(view.tableList)
            && view.tableList.Initial() && view.Shared().Snapshot() == old(Current()))
      && (msg.SwitchToRowDetail? || msg.SwitchToRowDetailFromQuery? ==>
            && cmd == NoCmd && view.RowDetailView? && fresh(view.rowDetail)
            && view.rowDetail.rowIndex == msg.rowIndex && view.rowDetail.selectedCol == 0
            && view.Shared().Snapshot() == old(Current()))
      && (msg.SwitchToEditCell? ==>
            var rows := Rows(old(Current()).cells, old(Current()).filteredData);
            && (cmd == Crash <==> !EditCell.Opens(rows, msg.rowIndex, msg.colIndex))
            && (cmd != Crash ==>
                  && cmd == NoCmd && view.EditCellView? && fresh(view.editCell)
                  && view.editCell.rowIndex == msg.rowIndex && view.editCell.colIndex == msg.colIndex
                  && view.editCell.original == EditCell.StartText(rows, msg.rowIndex, msg.colIndex)
                  && view.editCell.value == view.editCell.original
                  && view.editCell.cursor == |view.editCell.value|
                  && view.Shared().Snapshot() == old(Current())))
      && (msg.SwitchToQuery? || (msg.ReturnToQuery? && !old(view).QueryView?) ==>
            && cmd == NoCmd && view.QueryView? && fresh(view.query) && view.query.Initial()
            && view.Shared().Snapshot() == old(Current()))
      && (msg.ReturnToQuery? && old(view).QueryView? ==>
            && cmd == NoCmd && view == old(view) && unchanged(view.Shared())
            && !view.query.focusOnInput && view.query.results == old(view.query.results)
            && view.query.query == old(view.query.query) && view.query.cursor == old(view.query.cursor)
            && view.query.selectedRow == old(view.query.selectedRow) && view.query.columns == old(view.query.columns))
    }

    /** The messages that replace the view, on the same cache. */
    method SwitchView(msg: Msg) returns (cmd: Cmd)
      requires Valid() && !view.Halted?
      requires msg.SwitchToTableList? || msg.SwitchToRowDetail? || msg.SwitchToRowDetailFromQuery?
               || msg.SwitchToEditCell? || msg.SwitchToQuery? || msg.ReturnToQuery?
      modifies this`view, view.Objects()
      ensures Valid()
      ensures cmd == Crash <==> view.Halted?
      ensures SwitchEffect(msg, cmd)
    {
      if msg.SwitchToTableList? {
        cmd := ShowTableList();
      } else if msg.SwitchToRowDetail? || msg.SwitchToRowDetailFromQuery? {
        cmd := ShowRowDetail(msg.rowIndex);
      } else if msg.SwitchToEditCell? {
        cmd := ShowEditCell(msg.rowIndex, msg.colIndex);
      } else if msg.SwitchToQuery? {
        cmd := ShowQuery();
      } else if view.QueryView? {
        view.query.focusOnInput := false;
        cmd := NoCmd;
      } else {
        cmd := ShowQuery();
      }
    }

    /** What a cache message does: a table's first page loads and opens its
        rows, the page on show reloads, and a cell is written and the row
        detail asked for. */
    twostate predicate CacheEffect(msg: Msg, store: Store, cmd: Cmd)
      requires old(Valid()) && !old(view).Halted?
      reads this, view.Objects()
    {
      && (msg.SwitchToTableData? ==>
            var (st, r) := LoadResult(old(Current()).(selectedTable := msg.tableIndex), store);
            && (r.Panic? <==> cmd == Crash)
            && (r.Success? ==> cmd == NoCmd && failed == old(failed) && view.TableDataView? && fresh(view.tableData)
                               && view.tableData.Initial() && view.Shared().Snapshot() == st)
            && (r.Failure? ==> cmd == NoCmd && failed && view == old(view)
                               && (view.Live() ==> view.Shared().Snapshot() == st && unchanged(view.Screen()))))
      && (msg.RefreshData? ==>
            var (st, r) := LoadResult(old(Current()), store);
            && (r.Panic? <==> cmd == Crash)
            && (!r.Panic? ==> cmd == NoCmd && view == old(view) && failed == (old(failed) || r.Failure?)
                              && (view.Live() ==> view.Shared().Snapshot() == st && unchanged(view.Screen()))))
      && (msg.UpdateCellRequest? ==>
            var (st, r) := UpdateResult(old(Current()), store, msg.rowIndex, msg.colIndex, msg.value);
            && (r.Panic? <==> cmd == Crash)
            && (!r.Panic? ==> cmd == Emit(SwitchToRowDetail(msg.rowIndex)) && view == old(view)
                              && failed == (old(failed) || r.Failure?)
                              && (view.Live() ==> view.Shared().Snapshot() == st && unchanged(view.Screen()))))
    }

    /** The messages that work on the cache: loading a table's page, and
        saving a cell. */
    method CacheMessage(msg: Msg, store: Store) returns (cmd: Cmd)
      requires Valid() && !view.Halted?
      requires msg.UpdateCellRequest? || msg.SwitchToTableData? || msg.RefreshData?
      modifies this`view, this`failed, view.Objects()
      ensures Valid()
      ensures cmd == Crash <==> view.Halted?
      ensures old(failed) ==> failed
      ensures CacheEffect(msg, store, cmd)
    {
      if msg.SwitchToTableData? {
        cmd := ShowTableData(msg.tableIndex, store);
      } else if msg.RefreshData? {
        cmd := Refresh(store);
      } else {
        cmd := SaveCell(msg.rowIndex, msg.colIndex, msg.value, store);
      }
    }

    /** What the view that was on show (`before`) does with a message it is
        handed: what that view's own `Update` promises. */
    twostate predicate ViewEffect(before: View, msg: Msg, store: Store, cmd: Cmd)
      requires old(Valid()) && old(view) == before && before.Live()
      reads before.Objects()
    {
      match before
      case TableListView(t) => t.UpdateEffect(msg, store, cmd)
      case TableDataView(t) => t.shared.Valid() && t.UpdateEffect(msg, cmd)
      case RowDetailView(r) => r.UpdateEffect(msg, cmd)
      case EditCellView(e) => e.UpdateEffect(msg, cmd)
      case QueryView(q) => q.shared.Valid() && q.UpdateEffect(msg, store, cmd)
    }

    /** The end of `Update`: nothing while an error shows, otherwise the
        view's own update; a Go panic there ends the program. */
    method ForwardUnlessFailed(msg: Msg, store: Store) returns (cmd: Cmd)
      requires Valid() && !view.Halted?
      modifies this`view, view.Objects()
      ensures Valid()
      ensures cmd == Crash <==> view.Halted?
      ensures view == old(view) || view.Halted?
      ensures old(failed) ==> cmd == NoCmd && unchanged(old(view).Objects())
      ensures !old(failed) ==> ViewEffect(old(view), msg, store, cmd)
      ensures old(view).TableListView? ==>
                old(view).Shared().Width == old(view.Shared().Width) && old(view).Shared().Height == old(view.Shared().Height)
    {
      if failed {
        return NoCmd;
      }
      match view {
        case TableListView(t) =>
          cmd := t.Update(msg, store);
        case TableDataView(t) =>
          cmd := t.Update(msg);
        case RowDetailView(r) =>
          cmd := r.Update(msg);
        case EditCellView(e) =>
          cmd := e.Update(msg);
        case QueryView(q) =>
          cmd := q.Update(msg, store);
      }
      if cmd == Crash {
        view := Halted;
      }
    }

    /** `switchToTableListMsg`: a fresh table list on the same cache. */
    method ShowTableList() returns (cmd: Cmd)
      requires Valid() && !view.Halted?
      modifies this`view
      ensures Valid() && cmd == NoCmd
      ensures view.TableListView? && fresh(view.tableList) && view.tableList.Initial()
      ensures old(view).Live() ==> view.Shared() == old(view).Shared()
      ensures view.Shared().Snapshot() == old(Current())
    {
      var shared := GetShared();
      var t := new LegacyTableList.TableListModel(shared);
      view := TableListView(t);
      return NoCmd;
    }

    /** `switchToTableDataMsg`: select the table and load its page; the table
        data view opens only when that succeeds, otherwise the error shows
        over the view that was there. */
    method ShowTableData(tableIndex: int, store: Store) returns (cmd: Cmd)
      requires Valid() && !view.Halted?
      modifies this`view, this`failed, view.Objects()
      ensures Valid()
      ensures old(failed) ==> failed
      ensures cmd == Crash <==> view.Halted?
      ensures var (st, r) := LoadResult(old(Current()).(selectedTable := tableIndex), store);
        && (r.Panic? <==> cmd == Crash)
        && (r.Success? ==> cmd == NoCmd && failed == old(failed) && view.TableDataView? && fresh(view.tableData)
                           && view.tableData.Initial() && view.Shared().Snapshot() == st)
        && (r.Failure? ==> cmd == NoCmd && failed && view == old(view)
                           && (view.Live() ==> view.Shared().Snapshot() == st && unchanged(view.Screen())))
    {
      var shared := GetShared();
      shared.SelectedTable := tableIndex;
      var r := shared.LoadTableData(store);
      if r.Panic? {
        view := Halted;
        return Crash;
      }
      if r.Failure? {
        failed := true;
        return NoCmd;
      }
      var t := new LegacyTableData.TableDataModel(shared);
      view := TableDataView(t);
      return NoCmd;
    }

    /** `refreshDataMsg`: reload the current page; a failure shows as the error. */
    method Refresh(store: Store) returns (cmd: Cmd)
      requires Valid() && !view.Halted?
      modifies this`view, this`failed, view.Objects()
      ensures Valid()
      ensures old(failed) ==> failed
      ensures cmd == Crash <==> view.Halted?
      ensures var (st, r) := LoadResult(old(Current()), store);
        && (r.Panic? <==> cmd == Crash)
        && (!r.Panic? ==> cmd == NoCmd && view == old(view) && failed == (old(failed) || r.Failure?)
                          && (view.Live() ==> view.Shared().Snapshot() == st && unchanged(view.Screen())))
    {
      var shared := GetShared();
      var r := shared.LoadTableData(store);
      if r.Panic? {
        view := Halted;
        return Crash;
      }
      if r.Failure? {
        failed := true;
      }
      return NoCmd;
    }

    /** `switchToRowDetailMsg` and `switchToRowDetailFromQueryMsg`: both open
        a plain row detail on the row. */
    method ShowRowDetail(rowIndex: int) returns (cmd: Cmd)
      requires Valid() && !view.Halted?
      modifies this`view
      ensures Valid() && cmd == NoCmd
      ensures view.RowDetailView? && fresh(view.rowDetail)
      ensures view.rowDetail.rowIndex == rowIndex && view.rowDetail.selectedCol == 0
      ensures old(view).Live() ==> view.Shared() == old(view).Shared()
      ensures view.Shared().Snapshot() == old(Current())
    {
      var shared := GetShared();
      var r := new LegacyRowDetail.RowDetailModel(shared, rowIndex);
      view := RowDetailView(r);
      return NoCmd;
    }

    /** `switchToEditCellMsg`: the editor on the cell; Go panics when the row
        index is negative, or the column index is for an existing row. */
    method ShowEditCell(rowIndex: int, colIndex: int) returns (cmd: Cmd)
      requires Valid() && !view.Halted?
      modifies this`view
      ensures Valid()
      ensures cmd == Crash <==> view.Halted?
      ensures var rows := Rows(old(Current()).cells, old(Current()).filteredData);
        && (cmd == Crash <==> !EditCell.Opens(rows, rowIndex, colIndex))
        && (cmd != Crash ==>
              && cmd == NoCmd && view.EditCellView? && fresh(view.editCell)
              && view.editCell.rowIndex == rowIndex && view.editCell.colIndex == colIndex
              && view.editCell.original == EditCell.StartText(rows, rowIndex, colIndex)
              && view.editCell.value == view.editCell.original
              && view.editCell.cursor == |view.editCell.value|
              && view.Shared().Snapshot() == old(Current()))
    {
      var shared := GetShared();
      if !EditCell.Opens(shared.FilteredRows(), rowIndex, colIndex) {
        view := Halted;
        return Crash;
      }
      var e := new LegacyEditCell.EditCellModel(shared, rowIndex, colIndex);
      view := EditCellView(e);
      return NoCmd;
    }

    /** `switchToQueryMsg`: an empty query screen. */
    method ShowQuery() returns (cmd: Cmd)
      requires Valid() && !view.Halted?
      modifies this`view
      ensures Valid() && cmd == NoCmd
      ensures view.QueryView? && fresh(view.query) && view.query.Initial()
      ensures view.Shared().Snapshot() == old(Current())
    {
      var shared := GetShared();
      var q := new LegacyQuery.QueryModel(shared);
      view := QueryView(q);
      return NoCmd;
    }

    /** `updateCellMsg`: write the cell; a failure shows as the error, and
        either way the row detail of the edited row comes next. */
    method SaveCell(rowIndex: int, colIndex: int, v: string, store: Store) returns (cmd: Cmd)
      requires Valid() && !view.Halted?
      modifies this`view, this`failed, view.Objects()
      ensures Valid()
      ensures old(failed) ==> failed
      ensures cmd == Crash <==> view.Halted?
      ensures var (st, r) := UpdateResult(old(Current()), store, rowIndex, colIndex, v);
                && (r.Panic? <==> cmd == Crash)
                && (!r.Panic? ==> cmd == Emit(SwitchToRowDetail(rowIndex)) && view == old(view)
                                  && failed == (old(failed) || r.Failure?)
                                  && (view.Live() ==> view.Shared().Snapshot() == st && unchanged(view.Screen())))
    {
      var shared := GetShared();
      var r := shared.UpdateCell(store, rowIndex, colIndex, v);
      if r.Panic? {
        view := Halted;
        return Crash;
      }
      if r.Failure? {
        failed := true;
      }
      return Emit(SwitchToRowDetail(rowIndex));
    }
  }
}
