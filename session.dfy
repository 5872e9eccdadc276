/** The session cache every view shares (`SharedData` in the current variant,
    `sharedData` in the earlier one; their methods are the same code). The
    database is an abstract `Store`. Rows live in an explicit row heap `cells`:
    `TableData` and `FilteredData` hold references into it, so a row reached
    through both is the same row, as two Go slices that share a backing row do. */
module Session {
  import opened Options
  import opened GoText
  import opened Util

  /** Rows per page of table data. */
  const PageSize: nat := 20

  /** What `PRAGMA table_info` reports of a table: its columns in order, and
      `primaryKeys`, the columns whose `pk` entry is 1. SQLite numbers the
      columns of a primary key from 1, so this holds at most the first column
      of a composite key, and the key columns the UPDATE matches on are
      those. */
  datatype TableInfo = TableInfo(columns: seq<string>, primaryKeys: seq<string>)

  /** An SQL statement and the values bound to its `?` placeholders. */
  datatype Statement = Statement(sql: string, args: seq<string>)

  datatype QueryResult = QueryResult(columns: seq<string>, rows: seq<seq<string>>)

  /** What the browser asks of the database, each answer `None` when the query
      fails: the table names, one table's columns and primary keys, all rows of a
      table in storage order, the value the lookup of a column missing from a
      query result returns (given the table, the column and the row), whether an
      UPDATE succeeds, and the result of a free-form query. */
  datatype Store = Store(
    catalog: Option<seq<string>>,
    tableInfo: string -> Option<TableInfo>,
    contents: string -> Option<seq<seq<string>>>,
    fallback: (string, string, seq<string>) -> Option<string>,
    exec: Statement -> bool,
    run: string -> Option<QueryResult>)

  datatype Error =
    | InvalidTableSelection
    | InvalidRowOrColumn
    | NoSourceTable
    | TableInfoFailed(table: string)
    | KeyValueMissing(column: string)
    | DatabaseError

  /** The outcome of an operation that can fail with an error or, where Go
      indexes out of range, panic. */
  datatype Outcome<T> = Success(value: T) | Failure(error: Error) | Panic

  /** The last page index, with Go's truncating division: 0 for an empty table. */
  function MaxPage(totalRows: nat): (p: nat)
    ensures totalRows == 0 ==> p == 0
    ensures totalRows > 0 ==> p * PageSize < totalRows <= p * PageSize + PageSize
  {
    Quo(totalRows - 1, PageSize)
  }

  /** `LIMIT 20 OFFSET page*20` over rows in storage order. */
  function PageSlice<T>(rows: seq<T>, page: nat): (r: seq<T>)
    ensures page * PageSize >= |rows| ==> r == []
    ensures page * PageSize < |rows| ==> |r| == Min(PageSize, |rows| - page * PageSize)
    ensures forall k :: 0 <= k < |r| ==> page * PageSize + k < |rows| && r[k] == rows[page * PageSize + k]
  {
    var start := page * PageSize;
    if start >= |rows| then [] else rows[start..Min(start + PageSize, |rows|)]
  }

  /** Row `k` of a table is row `k % 20` of page `k / 20`. */
  lemma RowOnItsPage<T>(rows: seq<T>, k: nat)
    requires k < |rows|
    ensures k % PageSize < |PageSlice(rows, k / PageSize)|
    ensures PageSlice(rows, k / PageSize)[k % PageSize] == rows[k]
  {
    assert (k / PageSize) * PageSize + k % PageSize == k;
  }

  /** The last page holds at least one row of a non-empty table, and every page
      after it is empty. */
  lemma LastPage<T>(rows: seq<T>, page: nat)
    ensures |rows| > 0 ==> PageSlice(rows, MaxPage(|rows|)) != []
    ensures page > MaxPage(|rows|) ==> PageSlice(rows, page) == []
  {
    if page > MaxPage(|rows|) {
      assert page * PageSize >= (MaxPage(|rows|) + 1) * PageSize;
    }
  }

  predicate RefsIn(refs: seq<nat>, n: nat) {
    forall k :: 0 <= k < |refs| ==> refs[k] < n
  }

  /** The rows a list of references denotes. */
  function Rows(cells: seq<seq<string>>, refs: seq<nat>): (r: seq<seq<string>>)
    requires RefsIn(refs, |cells|)
    ensures |r| == |refs|
    ensures forall k :: 0 <= k < |refs| ==> r[k] == cells[refs[k]]
  {
    seq(|refs|, k requires 0 <= k < |refs| => cells[refs[k]])
  }

  /** References to `n` rows stored from index `start` on. */
  function Span(start: nat, n: nat): (r: seq<nat>)
    ensures |r| == n
    ensures forall k :: 0 <= k < n ==> r[k] == start + k
  {
    seq(n, k requires 0 <= k < n => start + k)
  }

  /** Rows appended to the heap are read back, in order, through the
      references to their slots. */
  lemma RowsOfSpan(cells: seq<seq<string>>, rows: seq<seq<string>>)
    ensures RefsIn(Span(|cells|, |rows|), |cells + rows|)
    ensures Rows(cells + rows, Span(|cells|, |rows|)) == rows
  {
  }

  /** Every field of the cache, as one value. */
  datatype SharedState = SharedState(
    tables: seq<string>,
    filteredTables: seq<string>,
    cells: seq<seq<string>>,
    tableData: seq<nat>,
    filteredData: seq<nat>,
    columns: seq<string>,
    primaryKeys: seq<string>,
    selectedTable: int,
    totalRows: nat,
    currentPage: nat,
    width: int,
    height: int,
    isQueryResult: bool,
    queryTableName: string)
  {
    predicate Valid() {
      RefsIn(tableData, |cells|) && RefsIn(filteredData, |cells|)
    }
  }

  /** A cache with nothing loaded, in an 80x24 window. */
  const Unloaded := SharedState([], [], [], [], [], [], [], 0, 0, 0, 80, 24, false, "")

  /** What `LoadTableData` leaves behind, and what it reports. */
  function LoadResult(st: SharedState, store: Store): (r: (SharedState, Outcome<()>))
    requires st.Valid()
    ensures r.0.Valid()
    ensures r.1.Failure? && r.1.error == InvalidTableSelection <==> st.selectedTable >= |st.filteredTables|
    ensures r.0.currentPage == st.currentPage && r.0.selectedTable == st.selectedTable
    ensures r.0.tables == st.tables && r.0.filteredTables == st.filteredTables
  {
    if st.selectedTable >= |st.filteredTables| then (st, Failure(InvalidTableSelection))
    else if st.selectedTable < 0 then (st, Panic)
    else
      var table := st.filteredTables[st.selectedTable];
      match store.tableInfo(table)
      case None => (st, Failure(DatabaseError))
      case Some(info) =>
        var st1 := st.(columns := info.columns, primaryKeys := info.primaryKeys);
        match store.contents(table)
        case None => (st1, Failure(DatabaseError))
        case Some(all) =>
          var page := PageSlice(all, st.currentPage);
          var refs := Span(|st.cells|, |page|);
          (st1.(totalRows := |all|, cells := st.cells + page, tableData := refs, filteredData := refs,
                isQueryResult := false, queryTableName := ""),
           Success(()))
  }

  /** A successful load shows the current page of the selected table, twice
      over: `FilteredData` holds the very rows `TableData` holds. The rows are
      new; no row loaded earlier is touched or reused. */
  lemma LoadShowsPage(st: SharedState, store: Store)
    requires st.Valid()
    requires LoadResult(st, store).1.Success?
    ensures 0 <= st.selectedTable < |st.filteredTables|
    ensures var table := st.filteredTables[st.selectedTable];
      && store.tableInfo(table).Some? && store.contents(table).Some?
      && var st' := LoadResult(st, store).0;
      && Rows(st'.cells, st'.tableData) == PageSlice(store.contents(table).value, st.currentPage)
      && st'.filteredData == st'.tableData
      && st'.totalRows == |store.contents(table).value|
      && st'.columns == store.tableInfo(table).value.columns
      && st'.primaryKeys == store.tableInfo(table).value.primaryKeys
      && !st'.isQueryResult && st'.queryTableName == ""
      && st'.cells[..|st.cells|] == st.cells
      && forall k :: 0 <= k < |st'.tableData| ==> st'.tableData[k] >= |st.cells|
  {
    var table := st.filteredTables[st.selectedTable];
    var st' := LoadResult(st, store).0;
    var page := PageSlice(store.contents(table).value, st.currentPage);
    assert st'.cells == st.cells + page;
    assert Rows(st'.cells, st'.tableData) == page;
  }

  /** A load that fails or panics leaves every row, every row list and the query
      context as they were. */
  lemma LoadFailureKeepsRows(st: SharedState, store: Store)
    requires st.Valid()
    requires !LoadResult(st, store).1.Success?
    ensures var st' := LoadResult(st, store).0;
      && st'.cells == st.cells && st'.tableData == st.tableData && st'.filteredData == st.filteredData
      && st'.totalRows == st.totalRows
      && st'.isQueryResult == st.isQueryResult && st'.queryTableName == st.queryTableName
  {
  }

  // ---------------------------------------------------------------------------
  // Source-table inference

  /** `slices.Contains` for every column of a query result. */
  predicate Covers(tableColumns: seq<string>, columns: seq<string>) {
    forall c :: c in columns ==> c in tableColumns
  }

  /** Table `t` can be looked up and has every one of `columns`. */
  predicate Fits(tableInfo: string -> Option<TableInfo>, t: string, columns: seq<string>) {
    tableInfo(t).Some? && Covers(tableInfo(t).value.columns, columns)
  }

  function FirstSupersetFrom(tables: seq<string>, tableInfo: string -> Option<TableInfo>, columns: seq<string>, i: nat): (r: Option<string>)
    requires i <= |tables|
    ensures r.None? ==> forall k :: i <= k < |tables| ==> !Fits(tableInfo, tables[k], columns)
    ensures r.Some? ==> exists k :: i <= k < |tables| && tables[k] == r.value && Fits(tableInfo, r.value, columns)
                          && forall j :: i <= j < k ==> !Fits(tableInfo, tables[j], columns)
    decreases |tables| - i
  {
    if i == |tables| then None
    else if Fits(tableInfo, tables[i], columns) then Some(tables[i])
    else FirstSupersetFrom(tables, tableInfo, columns, i + 1)
  }

  /** The first table, in catalog order, whose columns include every column of
      the result; tables whose lookup fails are skipped. */
  function FirstSuperset(tables: seq<string>, tableInfo: string -> Option<TableInfo>, columns: seq<string>): (r: Option<string>)
    ensures r.None? ==> forall k :: 0 <= k < |tables| ==> !Fits(tableInfo, tables[k], columns)
    ensures r.Some? ==> exists k :: 0 <= k < |tables| && tables[k] == r.value && Fits(tableInfo, r.value, columns)
                          && forall j :: 0 <= j < k ==> !Fits(tableInfo, tables[j], columns)
  {
    FirstSupersetFrom(tables, tableInfo, columns, 0)
  }

  /** The inner loop of the inference: does the table have every column? */
  method HasAllColumns(tableColumns: seq<string>, columns: seq<string>) returns (b: bool)
    ensures b == Covers(tableColumns, columns)
  {
    for j := 0 to |columns|
      invariant forall k :: 0 <= k < j ==> columns[k] in tableColumns
    {
      if columns[j] !in tableColumns {
        return false;
      }
    }
    return true;
  }

  // ---------------------------------------------------------------------------
  // WHERE clauses and key values

  /** The columns that identify a row: the primary keys, or every column of a
      table that has none. */
  function KeyColumns(info: TableInfo): seq<string> {
    if info.primaryKeys != [] then info.primaryKeys else info.columns
  }

  /** "k1 = ? AND k2 = ? AND ...". */
  function WhereClause(keys: seq<string>): (w: string)
    ensures keys == [] <==> w == []
  {
    if |keys| == 0 then ""
    else if |keys| == 1 then keys[0] + " = ?"
    else WhereClause(keys[..|keys| - 1]) + " AND " + keys[|keys| - 1] + " = ?"
  }

  /** Number of occurrences of `c` in `s`. */
  function Count(s: string, c: char): nat {
    if s == [] then 0 else Count(s[..|s| - 1], c) + (if s[|s| - 1] == c then 1 else 0)
  }

  lemma {:induction false} CountAppend(a: string, b: string, c: char)
    ensures Count(a + b, c) == Count(a, c) + Count(b, c)
    decreases |b|
  {
    if b == [] {
      assert a + b == a;
    } else {
      assert (a + b)[..|a + b| - 1] == a + b[..|b| - 1];
      CountAppend(a, b[..|b| - 1], c);
    }
  }

  lemma CountNone(s: string, c: char)
    requires c !in s
    ensures Count(s, c) == 0
  {
    if s != [] {
      assert c !in s[..|s| - 1];
      CountNone(s[..|s| - 1], c);
    }
  }

  /** The WHERE clause has one placeholder per key column. */
  lemma {:induction false} WherePlaceholders(keys: seq<string>)
    requires forall k :: 0 <= k < |keys| ==> '?' !in keys[k]
    ensures Count(WhereClause(keys), '?') == |keys|
  {
    if |keys| == 1 {
      CountNone(keys[0], '?');
      CountNone(" = ", '?');
      assert " = ?"[..3] == " = ";
      CountAppend(keys[0], " = ?", '?');
    } else if |keys| > 1 {
      var init := keys[..|keys| - 1];
      var last := keys[|keys| - 1];
      assert forall k :: 0 <= k < |init| ==> init[k] == keys[k];
      WherePlaceholders(init);
      CountNone(last, '?');
      CountNone(" = ", '?');
      assert " = ?"[..3] == " = ";
      CountNone(" AND ", '?');
      CountAppend(WhereClause(init), " AND ", '?');
      CountAppend(WhereClause(init) + " AND ", last, '?');
      CountAppend(WhereClause(init) + " AND " + last, " = ?", '?');
    }
  }

  /** Index of the first column named `name` that the row reaches, or -1. */
  function LocalIndexFrom(columns: seq<string>, row: seq<string>, name: string, i: nat): (r: int)
    requires i <= |columns|
    ensures r == -1 || (i <= r < |columns| && r < |row| && columns[r] == name)
    ensures r == -1 ==> forall j :: i <= j < |columns| && j < |row| ==> columns[j] != name
    ensures r != -1 ==> forall j :: i <= j < r && j < |row| ==> columns[j] != name
    decreases |columns| - i
  {
    if i == |columns| then -1
    else if columns[i] == name && i < |row| then i
    else LocalIndexFrom(columns, row, name, i + 1)
  }

  /** The local branch of `findColumnValue`: the cell under the first column of
      that name that the row reaches. */
  function LocalValue(columns: seq<string>, row: seq<string>, name: string): (r: Option<string>)
    ensures r.None? <==> forall j :: 0 <= j < |columns| && j < |row| ==> columns[j] != name
    ensures r.Some? ==> exists j :: 0 <= j < |columns| && j < |row| && columns[j] == name && row[j] == r.value
                          && forall i :: 0 <= i < j && i < |row| ==> columns[i] != name
  {
    var i := LocalIndexFrom(columns, row, name, 0);
    if i == -1 then None else Some(row[i])
  }

  /** The database fallback of `findColumnValue` builds a WHERE clause that is
      non-empty exactly when there are two or more primary keys (a separator is
      written even for a key missing from the result) or the only key is a
      column of the result. */
  predicate FallbackReady(primaryKeys: seq<string>, columns: seq<string>) {
    |primaryKeys| >= 2 || (|primaryKeys| == 1 && primaryKeys[0] in columns)
  }

  /** `findColumnValue` on one row of the cache. */
  function ColumnValue(st: SharedState, store: Store, row: seq<string>, name: string): Option<string> {
    var local := LocalValue(st.columns, row, name);
    if local.Some? then local
    else if st.isQueryResult && FallbackReady(st.primaryKeys, st.columns) then
      store.fallback(st.queryTableName, name, row)
    else None
  }

  /** The values of the key columns, in order, or the first key without one. */
  function KeyValues(st: SharedState, store: Store, row: seq<string>, keys: seq<string>): (r: Outcome<seq<string>>)
    ensures !r.Panic?
    ensures r.Success? <==> forall k :: 0 <= k < |keys| ==> ColumnValue(st, store, row, keys[k]).Some?
    ensures r.Success? ==>
              && |r.value| == |keys|
              && forall k :: 0 <= k < |keys| ==> ColumnValue(st, store, row, keys[k]) == Some(r.value[k])
    ensures r.Failure? ==>
              exists k :: && 0 <= k < |keys| && r.error == KeyValueMissing(keys[k])
                          && ColumnValue(st, store, row, keys[k]).None?
                          && forall j :: 0 <= j < k ==> ColumnValue(st, store, row, keys[j]).Some?
  {
    if keys == [] then Success([])
    else
      var init := keys[..|keys| - 1];
      var last := keys[|keys| - 1];
      var prefix := KeyValues(st, store, row, init);
      if prefix.Failure? then
        assert forall k :: 0 <= k < |init| ==> keys[k] == init[k];
        prefix
      else
        assert forall k :: 0 <= k < |init| ==> keys[k] == init[k];
        match ColumnValue(st, store, row, last)
        case None => Failure(KeyValueMissing(last))
        case Some(v) => Success(prefix.value + [v])
  }

  /** Once the values of a prefix of the keys fail, so do those of all the keys. */
  lemma {:induction false} KeyValuesFailureSticks(st: SharedState, store: Store, row: seq<string>, keys: seq<string>, i: nat)
    requires i <= |keys|
    requires KeyValues(st, store, row, keys[..i]).Failure?
    ensures KeyValues(st, store, row, keys) == KeyValues(st, store, row, keys[..i])
    decreases |keys| - i
  {
    if i < |keys| {
      assert keys[..i + 1][..i] == keys[..i];
      KeyValuesFailureSticks(st, store, row, keys, i + 1);
    } else {
      assert keys[..i] == keys;
    }
  }

  /** `findColumnValue` for a negative row index, where every read of the row
      panics: a column of the result would be read from the row, and so would
      any primary key of a query result that is a column; otherwise the
      database fallback runs with no values from the row. */
  function NoRowValue(st: SharedState, store: Store, name: string): (r: Outcome<string>)
    ensures r.Panic? <==>
              name in st.columns
              || (st.isQueryResult && exists k :: 0 <= k < |st.primaryKeys| && st.primaryKeys[k] in st.columns)
    ensures r.Failure? ==> r.error == KeyValueMissing(name)
    ensures !r.Panic? ==>
              && (r.Success? <==> ColumnValue(st, store, [], name).Some?)
              && (r.Success? ==> ColumnValue(st, store, [], name) == Some(r.value))
  {
    if name in st.columns then Panic
    else if st.isQueryResult && |st.primaryKeys| > 0 then
      if exists k :: 0 <= k < |st.primaryKeys| && st.primaryKeys[k] in st.columns then Panic
      else if |st.primaryKeys| >= 2 then
        match store.fallback(st.queryTableName, name, [])
        case Some(x) => Success(x)
        case None => Failure(KeyValueMissing(name))
      else Failure(KeyValueMissing(name))
    else Failure(KeyValueMissing(name))
  }

  /** The values of the key columns for a negative row index, or the first
      key column whose lookup fails or panics. */
  function NoRowValues(st: SharedState, store: Store, keys: seq<string>): (r: Outcome<seq<string>>)
    ensures r.Success? <==> forall k :: 0 <= k < |keys| ==> NoRowValue(st, store, keys[k]).Success?
    ensures r.Success? ==>
              && |r.value| == |keys|
              && forall k :: 0 <= k < |keys| ==> NoRowValue(st, store, keys[k]) == Success(r.value[k])
    ensures !r.Success? ==>
              exists k :: && 0 <= k < |keys| && !NoRowValue(st, store, keys[k]).Success?
                          && (r.Panic? <==> NoRowValue(st, store, keys[k]).Panic?)
                          && (r.Failure? ==> r.error == NoRowValue(st, store, keys[k]).error)
                          && forall j :: 0 <= j < k ==> NoRowValue(st, store, keys[j]).Success?
  {
    if keys == [] then Success([])
    else
      var init := keys[..|keys| - 1];
      var last := keys[|keys| - 1];
      var prefix := NoRowValues(st, store, init);
      assert forall k :: 0 <= k < |init| ==> keys[k] == init[k];
      if !prefix.Success? then prefix
      else
        match NoRowValue(st, store, last)
        case Panic => Panic
        case Failure(e) => Failure(e)
        case Success(x) => Success(prefix.value + [x])
  }

  /** Once the values of a prefix of the keys fail or panic, so do those of
      all the keys. */
  lemma {:induction false} NoRowValuesSticks(st: SharedState, store: Store, keys: seq<string>, i: nat)
    requires i <= |keys|
    requires !NoRowValues(st, store, keys[..i]).Success?
    ensures NoRowValues(st, store, keys) == NoRowValues(st, store, keys[..i])
    decreases |keys|
  {
    if i < |keys| {
      var init := keys[..|keys| - 1];
      assert init[..i] == keys[..i];
      NoRowValuesSticks(st, store, init, i);
    } else {
      assert keys[..i] == keys;
    }
  }

  // ---------------------------------------------------------------------------
  // Cache reconciliation after an UPDATE

  /** `row` agrees with `edited` at every position both have, except `col`. */
  predicate AgreesExcept(row: seq<string>, edited: seq<string>, col: nat) {
    forall j :: 0 <= j < |row| && j < |edited| && j != col ==> row[j] == edited[j]
  }

  predicate Reconcilable(row: seq<string>, edited: seq<string>, col: nat) {
    |row| > col && AgreesExcept(row, edited, col)
  }

  function FirstAgreeingFrom(cells: seq<seq<string>>, refs: seq<nat>, edited: seq<string>, col: nat, i: nat): (k: int)
    requires RefsIn(refs, |cells|) && i <= |refs|
    ensures k == -1 || (i <= k < |refs| && Reconcilable(cells[refs[k]], edited, col))
    ensures forall j :: i <= j < (if k == -1 then |refs| else k) ==> !Reconcilable(cells[refs[j]], edited, col)
    decreases |refs| - i
  {
    if i == |refs| then -1
    else if Reconcilable(cells[refs[i]], edited, col) then i
    else FirstAgreeingFrom(cells, refs, edited, col, i + 1)
  }

  /** The position in `TableData` of the first row that can take the edit, or -1. */
  function FirstAgreeing(cells: seq<seq<string>>, refs: seq<nat>, edited: seq<string>, col: nat): (k: int)
    requires RefsIn(refs, |cells|)
    ensures k == -1 || (0 <= k < |refs| && Reconcilable(cells[refs[k]], edited, col))
    ensures forall j :: 0 <= j < (if k == -1 then |refs| else k) ==> !Reconcilable(cells[refs[j]], edited, col)
  {
    FirstAgreeingFrom(cells, refs, edited, col, 0)
  }

  /** The row heap after writing `v` into cell `col` of row `ref` and then into
      the first `TableData` row that agrees with the edited row elsewhere. */
  function Reconciled(cells: seq<seq<string>>, tableData: seq<nat>, ref: nat, col: nat, v: string): (r: seq<seq<string>>)
    requires RefsIn(tableData, |cells|) && ref < |cells| && col < |cells[ref]|
    ensures |r| == |cells|
    ensures forall x :: 0 <= x < |r| ==> |r[x]| == |cells[x]|
  {
    var c1 := cells[ref := cells[ref][col := v]];
    var k := FirstAgreeing(c1, tableData, c1[ref], col);
    if k == -1 then c1 else c1[tableData[k] := c1[tableData[k]][col := v]]
  }

  /** Reconciliation writes `v` into column `col` of the edited row and of at
      most one other row, the first `TableData` row agreeing with the edited row
      everywhere else; every other cell keeps its value. */
  lemma ReconciledFrame(cells: seq<seq<string>>, tableData: seq<nat>, ref: nat, col: nat, v: string)
    requires RefsIn(tableData, |cells|) && ref < |cells| && col < |cells[ref]|
    ensures var r := Reconciled(cells, tableData, ref, col, v);
      && r[ref][col] == v
      && (forall x, j :: 0 <= x < |r| && 0 <= j < |r[x]| && j != col ==> r[x][j] == cells[x][j])
      && var c1 := cells[ref := cells[ref][col := v]];
         var k := FirstAgreeing(c1, tableData, c1[ref], col);
         && (k != -1 ==> r[tableData[k]][col] == v)
         && forall x :: 0 <= x < |r| && x != ref && (k == -1 || x != tableData[k]) ==> r[x] == cells[x]
  {
  }

  /** When the edited row is itself one of the `TableData` rows, as after a load,
      some `TableData` row always takes the edit. */
  lemma AliasedRowIsFound(cells: seq<seq<string>>, tableData: seq<nat>, ref: nat, col: nat, v: string, m: nat)
    requires RefsIn(tableData, |cells|) && ref < |cells| && col < |cells[ref]|
    requires m < |tableData| && tableData[m] == ref
    ensures var c1 := cells[ref := cells[ref][col := v]];
      0 <= FirstAgreeing(c1, tableData, c1[ref], col) <= m
  {
    var c1 := cells[ref := cells[ref][col := v]];
    assert Reconcilable(c1[tableData[m]], c1[ref], col);
  }

  /** Two identical rows of a page: editing the second through `FilteredData`
      also rewrites the first, which agrees with it outside the edited column. */
  lemma DuplicateRowsBothChange()
    ensures Reconciled([["1", "a"], ["1", "a"]], [0, 1], 1, 1, "b") == [["1", "b"], ["1", "b"]]
  {
    var cells := [["1", "a"], ["1", "a"]];
    var c1 := cells[1 := cells[1][1 := "b"]];
    assert cells[1][1 := "b"] == ["1", "b"];
    assert c1 == [["1", "a"], ["1", "b"]];
    assert AgreesExcept(c1[0], c1[1], 1) by {
      forall j | 0 <= j < 2 && j != 1
        ensures c1[0][j] == c1[1][j]
      {
        assert j == 0;
      }
    }
    assert FirstAgreeing(c1, [0, 1], c1[1], 1) == 0;
    assert c1[0 := c1[0][1 := "b"]] == [["1", "b"], ["1", "b"]];
  }

  /** `RowMatches`: the inner loop of the reconciliation. */
  method RowMatches(row: seq<string>, edited: seq<string>, col: nat) returns (m: bool)
    ensures m == AgreesExcept(row, edited, col)
  {
    for j := 0 to |row|
      invariant forall i :: 0 <= i < j && i < |edited| && i != col ==> row[i] == edited[i]
    {
      if j < |edited| && row[j] != edited[j] && j != col {
        return false;
      }
    }
    return true;
  }

  // ---------------------------------------------------------------------------
  // UpdateCell

  /** The table an edit is written to: for a query result the remembered source
      table, else the inferred one (remembered from then on); otherwise the
      selected table. */
  function Target(st: SharedState, store: Store): (r: (SharedState, Outcome<string>))
    ensures r.0 == st.(queryTableName := r.0.queryTableName)
    ensures r.0.queryTableName != st.queryTableName ==>
              st.isQueryResult && st.queryTableName == "" && r.1 == Success(r.0.queryTableName)
    ensures r.1.Failure? ==> r.0 == st && r.1.error == NoSourceTable
  {
    if st.isQueryResult then
      if st.queryTableName != "" then (st, Success(st.queryTableName))
      else
        match FirstSuperset(st.tables, store.tableInfo, st.columns)
        case Some(t) => (st.(queryTableName := t), Success(t))
        case None => (st, Failure(NoSourceTable))
    else if 0 <= st.selectedTable < |st.filteredTables| then (st, Success(st.filteredTables[st.selectedTable]))
    else (st, Panic)
  }

  /** The UPDATE that writes `v` into `column` of the row whose keys have `values`. */
  function UpdateStatement(table: string, column: string, keys: seq<string>, v: string, values: seq<string>): Statement {
    Statement("UPDATE " + table + " SET " + column + " = ? WHERE " + WhereClause(keys), [v] + values)
  }

  /** What `UpdateCell(rowIndex, colIndex, v)` leaves behind, and the statement
      it ran. Only the upper bounds of the indices are checked, so a negative
      index reaches the code: a negative column panics where the column name is
      read, after the target table is chosen, and a negative row where the row
      is first read (`NoRowValues`), or at the write-back once the UPDATE ran. */
  function UpdateResult(st: SharedState, store: Store, rowIndex: int, colIndex: int, v: string): (r: (SharedState, Outcome<Statement>))
    requires st.Valid()
    ensures r.0.Valid()
    ensures rowIndex >= |st.filteredData| || colIndex >= |st.columns| ==> r == (st, Failure(InvalidRowOrColumn))
  {
    if rowIndex >= |st.filteredData| || colIndex >= |st.columns| then (st, Failure(InvalidRowOrColumn))
    else
      var (st1, target) := Target(st, store);
      if target.Panic? then (st1, Panic)
      else if target.Failure? then (st1, Failure(target.error))
      else if colIndex < 0 then (st1, Panic)
      else
        var table := target.value;
        match store.tableInfo(table)
        case None => (st1, Failure(TableInfoFailed(table)))
        case Some(info) =>
          var keys := KeyColumns(info);
          if rowIndex < 0 then
            var values := NoRowValues(st1, store, keys);
            if values.Panic? then (st1, Panic)
            else if values.Failure? then (st1, Failure(values.error))
            else if !store.exec(UpdateStatement(table, st1.columns[colIndex], keys, v, values.value)) then
              (st1, Failure(DatabaseError))
            else (st1, Panic)
          else
          var ref := st1.filteredData[rowIndex];
          var values := KeyValues(st1, store, st1.cells[ref], keys);
          if values.Failure? then (st1, Failure(values.error))
          else
            var stmt := UpdateStatement(table, st1.columns[colIndex], keys, v, values.value);
            if !store.exec(stmt) then (st1, Failure(DatabaseError))
            else if colIndex >= |st1.cells[ref]| then (st1, Panic)
            else (st1.(cells := Reconciled(st1.cells, st1.tableData, ref, colIndex, v)), Success(stmt))
  }

  /** A successful edit writes through the target table's key columns: the
      target is the remembered or newly inferred source table of a query
      result, or else the selected table; the statement sets the edited column
      where every key column equals a bound value; and apart from the
      remembered source table and the row heap nothing else changes. */
  lemma UpdateSucceeded(st: SharedState, store: Store, rowIndex: int, colIndex: int, v: string)
    requires st.Valid()
    requires UpdateResult(st, store, rowIndex, colIndex, v).1.Success?
    ensures 0 <= rowIndex < |st.filteredData| && 0 <= colIndex < |st.columns|
    ensures colIndex < |Rows(st.cells, st.filteredData)[rowIndex]|
    ensures !st.isQueryResult ==> 0 <= st.selectedTable < |st.filteredTables|
    ensures var (st', r) := UpdateResult(st, store, rowIndex, colIndex, v);
      && st' == st.(queryTableName := st'.queryTableName, cells := st'.cells)
      && (st.isQueryResult && st.queryTableName != "" ==> st'.queryTableName == st.queryTableName)
      && (st.isQueryResult && st.queryTableName == "" ==>
            Some(st'.queryTableName) == FirstSuperset(st.tables, store.tableInfo, st.columns))
      && (!st.isQueryResult ==> st'.queryTableName == st.queryTableName)
      && var table := if st.isQueryResult then st'.queryTableName else st.filteredTables[st.selectedTable];
      && store.tableInfo(table).Some?
      && var keys := KeyColumns(store.tableInfo(table).value);
      && r.value.sql == "UPDATE " + table + " SET " + st.columns[colIndex] + " = ? WHERE " + WhereClause(keys)
      && |r.value.args| == |keys| + 1 && r.value.args[0] == v
  {
    UpdateUnfolds(st, store, rowIndex, colIndex, v);
    var (st1, target) := Target(st, store);
    assert Rows(st.cells, st.filteredData)[rowIndex] == st1.cells[st1.filteredData[rowIndex]];
  }

  /** The values bound after the new one are, in order, the edited row's
      values for the key columns. */
  lemma UpdateKeyArguments(st: SharedState, store: Store, rowIndex: int, colIndex: int, v: string)
    requires st.Valid()
    requires UpdateResult(st, store, rowIndex, colIndex, v).1.Success?
    ensures 0 <= rowIndex < |st.filteredData|
    ensures var (st', r) := UpdateResult(st, store, rowIndex, colIndex, v);
      var table := Target(st, store).1.value;
      && store.tableInfo(table).Some?
      && var keys := KeyColumns(store.tableInfo(table).value);
      && |r.value.args| == |keys| + 1
      && forall k :: 0 <= k < |keys| ==>
           ColumnValue(st', store, Rows(st.cells, st.filteredData)[rowIndex], keys[k]) == Some(r.value.args[k + 1])
  {
    UpdateUnfolds(st, store, rowIndex, colIndex, v);
    var (st1, target) := Target(st, store);
    var keys := KeyColumns(store.tableInfo(target.value).value);
    var ref := st1.filteredData[rowIndex];
    var row := st1.cells[ref];
    var st' := UpdateResult(st, store, rowIndex, colIndex, v).0;
    assert Rows(st.cells, st.filteredData)[rowIndex] == row;
    forall k | 0 <= k < |keys|
      ensures ColumnValue(st', store, row, keys[k]) == ColumnValue(st1, store, row, keys[k])
    {
    }
  }

  /** After a successful edit the edited row shows the new value in the
      edited column and is otherwise as it was. */
  lemma UpdateShowsValue(st: SharedState, store: Store, rowIndex: int, colIndex: int, v: string)
    requires st.Valid()
    requires UpdateResult(st, store, rowIndex, colIndex, v).1.Success?
    ensures 0 <= rowIndex < |st.filteredData| && colIndex < |Rows(st.cells, st.filteredData)[rowIndex]|
    ensures var st' := UpdateResult(st, store, rowIndex, colIndex, v).0;
      Rows(st'.cells, st'.filteredData)[rowIndex] == Rows(st.cells, st.filteredData)[rowIndex][colIndex := v]
  {
    UpdateUnfolds(st, store, rowIndex, colIndex, v);
    var (st1, target) := Target(st, store);
    var ref := st1.filteredData[rowIndex];
    var row := st1.cells[ref];
    var st' := UpdateResult(st, store, rowIndex, colIndex, v).0;
    assert Rows(st.cells, st.filteredData)[rowIndex] == row;
    ReconciledFrame(st1.cells, st1.tableData, ref, colIndex, v);
    assert st'.cells[ref] == row[colIndex := v];
    assert Rows(st'.cells, st'.filteredData)[rowIndex] == st'.cells[ref];
  }

  /** The steps a successful `UpdateCell` goes through: a target table with
      known columns, a value for every key column, and a cell to write. */
  lemma UpdateUnfolds(st: SharedState, store: Store, rowIndex: int, colIndex: int, v: string)
    requires st.Valid()
    requires UpdateResult(st, store, rowIndex, colIndex, v).1.Success?
    ensures 0 <= rowIndex < |st.filteredData| && 0 <= colIndex < |st.columns|
    ensures Target(st, store).1.Success?
    ensures var (st1, target) := Target(st, store);
      && store.tableInfo(target.value).Some?
      && var keys := KeyColumns(store.tableInfo(target.value).value);
      && var ref := st1.filteredData[rowIndex];
      && KeyValues(st1, store, st1.cells[ref], keys).Success?
      && colIndex < |st1.cells[ref]|
      && UpdateResult(st, store, rowIndex, colIndex, v)
         == (st1.(cells := Reconciled(st1.cells, st1.tableData, ref, colIndex, v)),
             Success(UpdateStatement(target.value, st1.columns[colIndex], keys, v,
                                     KeyValues(st1, store, st1.cells[ref], keys).value)))
  {
  }

  /** Only the target table's key columns, with no `?` in any name, give a
      statement with one argument per placeholder. */
  lemma UpdatePlaceholders(st: SharedState, store: Store, rowIndex: int, colIndex: int, v: string)
    requires st.Valid()
    requires UpdateResult(st, store, rowIndex, colIndex, v).1.Success?
    requires var (st', r) := UpdateResult(st, store, rowIndex, colIndex, v);
      var table := if st.isQueryResult then st'.queryTableName else st.filteredTables[st.selectedTable];
      && '?' !in table && '?' !in st.columns[colIndex]
      && forall k :: 0 <= k < |KeyColumns(store.tableInfo(table).value)| ==>
           '?' !in KeyColumns(store.tableInfo(table).value)[k]
    ensures var r := UpdateResult(st, store, rowIndex, colIndex, v).1;
      Count(r.value.sql, '?') == |r.value.args|
  {
    UpdateSucceeded(st, store, rowIndex, colIndex, v);
    var (st', r) := UpdateResult(st, store, rowIndex, colIndex, v);
    var table := if st.isQueryResult then st'.queryTableName else st.filteredTables[st.selectedTable];
    StatementPlaceholders(table, st.columns[colIndex], KeyColumns(store.tableInfo(table).value));
  }

  /** An UPDATE over names without `?` has one placeholder for the new value and
      one per key column. */
  lemma StatementPlaceholders(table: string, column: string, keys: seq<string>)
    requires '?' !in table && '?' !in column
    requires forall k :: 0 <= k < |keys| ==> '?' !in keys[k]
    ensures Count("UPDATE " + table + " SET " + column + " = ? WHERE " + WhereClause(keys), '?') == |keys| + 1
  {
    var head := "UPDATE " + table + " SET " + column;
    var middle := " = ? WHERE ";
    assert '?' !in head;
    CountNone(head, '?');
    MiddlePlaceholder();
    WherePlaceholders(keys);
    CountAppend(head, middle, '?');
    CountAppend(head + middle, WhereClause(keys), '?');
  }

  lemma MiddlePlaceholder()
    ensures Count(" = ? WHERE ", '?') == 1
  {
    var a, b := " = ?", " WHERE ";
    assert a + b == " = ? WHERE ";
    assert a[..|a| - 1] == " = ";
    CountNone(" = ", '?');
    CountNone(b, '?');
    CountAppend(a, b, '?');
  }

  /** An edit that fails or panics changes no cell; at most it remembers the
      inferred source table. */
  lemma UpdateFailureKeepsRows(st: SharedState, store: Store, rowIndex: int, colIndex: int, v: string)
    requires st.Valid()
    requires !UpdateResult(st, store, rowIndex, colIndex, v).1.Success?
    ensures var st' := UpdateResult(st, store, rowIndex, colIndex, v).0;
      st' == st.(queryTableName := st'.queryTableName)
  {
  }

  /** An edit of a query result whose source table is neither remembered nor
      inferable is refused. */
  lemma UpdateNeedsSourceTable(st: SharedState, store: Store, rowIndex: int, colIndex: int, v: string)
    requires st.Valid()
    requires rowIndex < |st.filteredData| && colIndex < |st.columns|
    requires st.isQueryResult && st.queryTableName == ""
    requires FirstSuperset(st.tables, store.tableInfo, st.columns).None?
    ensures UpdateResult(st, store, rowIndex, colIndex, v) == (st, Failure(NoSourceTable))
  {
  }

  /** A negative column that passes the upper-bound check panics as soon as
      the target table is known, before any database lookup. */
  lemma NegativeColumnPanics(st: SharedState, store: Store, rowIndex: int, colIndex: int, v: string)
    requires st.Valid()
    requires rowIndex < |st.filteredData| && colIndex < 0
    requires Target(st, store).1.Success?
    ensures UpdateResult(st, store, rowIndex, colIndex, v) == (Target(st, store).0, Panic)
  {
  }

  /** A negative row never gets its cell written: the edit fails with the
      error Go returns first, or panics where the row is read. */
  lemma NegativeRowNeverWrites(st: SharedState, store: Store, rowIndex: int, colIndex: int, v: string)
    requires st.Valid()
    requires rowIndex < 0
    ensures var (st', r) := UpdateResult(st, store, rowIndex, colIndex, v);
      && !r.Success?
      && st' == st.(queryTableName := st'.queryTableName)
  {
  }

  /** The cache the views share. */
  class SharedData {
    var Tables: seq<string>
    var FilteredTables: seq<string>
    /** The row heap: every row loaded so far. */
    var Cells: seq<seq<string>>
    var TableData: seq<nat>
    var FilteredData: seq<nat>
    var Columns: seq<string>
    var PrimaryKeys: seq<string>
    var SelectedTable: int
    var TotalRows: nat
    var CurrentPage: nat
    var Width: int
    var Height: int
    var IsQueryResult: bool
    var QueryTableName: string

    function Snapshot(): SharedState
      reads this
    {
      SharedState(Tables, FilteredTables, Cells, TableData, FilteredData, Columns, PrimaryKeys,
                  SelectedTable, TotalRows, CurrentPage, Width, Height, IsQueryResult, QueryTableName)
    }

    predicate Valid()
      reads this
    {
      Snapshot().Valid()
    }

    /** The rows `FilteredData` shows. */
    function FilteredRows(): (r: seq<seq<string>>)
      reads this
      requires Valid()
      ensures |r| == |FilteredData|
    {
      Rows(Cells, FilteredData)
    }

    /** `NewSharedData`: nothing loaded, an 80x24 window. */
    constructor ()
      ensures Snapshot() == Unloaded
      ensures Valid()
    {
      Tables, FilteredTables, Cells, TableData, FilteredData := [], [], [], [], [];
      Columns, PrimaryKeys := [], [];
      SelectedTable, TotalRows, CurrentPage := 0, 0, 0;
      Width, Height := 80, 24;
      IsQueryResult, QueryTableName := false, "";
    }

    /** `LoadTables`: the catalog becomes the table list and the filtered list. */
    method LoadTables(store: Store) returns (r: Outcome<()>)
      modifies this
      ensures store.catalog.None? ==> r == Failure(DatabaseError) && Snapshot() == old(Snapshot())
      ensures store.catalog.Some? ==>
                && r == Success(())
                && Snapshot() == old(Snapshot()).(tables := store.catalog.value, filteredTables := store.catalog.value)
    {
      if store.catalog.None? {
        return Failure(DatabaseError);
      }
      var names := store.catalog.value;
      Tables := [];
      for i := 0 to |names|
        invariant Tables == names[..i]
        invariant Snapshot() == old(Snapshot()).(tables := names[..i])
      {
        Tables := Tables + [names[i]];
      }
      assert names[..|names|] == names;
      FilteredTables := Tables;
      return Success(());
    }

    /** `LoadTableData`: load the current page of the selected table into fresh rows. */
    method LoadTableData(store: Store) returns (r: Outcome<()>)
      requires Valid()
      modifies this
      ensures Valid()
      ensures Snapshot() == LoadResult(old(Snapshot()), store).0
      ensures r == LoadResult(old(Snapshot()), store).1
    {
      ghost var st := Snapshot();
      if SelectedTable >= |FilteredTables| {
        return Failure(InvalidTableSelection);
      }
      if SelectedTable < 0 {
        return Panic;
      }
      var table := FilteredTables[SelectedTable];
      var info := store.tableInfo(table);
      if info.None? {
        return Failure(DatabaseError);
      }
      Columns := info.value.columns;
      PrimaryKeys := info.value.primaryKeys;
      var all := store.contents(table);
      if all.None? {
        assert Snapshot() == st.(columns := info.value.columns, primaryKeys := info.value.primaryKeys);
        return Failure(DatabaseError);
      }
      ShowRows(all.value);
      return Success(());
    }

    /** The end of a successful load: the current page of `all` becomes both
        `TableData` and `FilteredData`, and the query context is cleared. */
    method ShowRows(all: seq<seq<string>>)
      requires Valid()
      modifies this
      ensures Valid()
      ensures var page := PageSlice(all, old(CurrentPage));
        var refs := Span(|old(Cells)|, |page|);
        Snapshot() == old(Snapshot()).(totalRows := |all|, cells := old(Cells) + page, tableData := refs,
                                        filteredData := refs, isQueryResult := false, queryTableName := "")
    {
      TotalRows := |all|;
      var page := PageSlice(all, CurrentPage);
      TableData := AddRows(page);
      FilteredData := TableData;
      IsQueryResult := false;
      QueryTableName := "";
    }

    /** Store fresh rows (such as a query's result) and return references to them. */
    method AddRows(rows: seq<seq<string>>) returns (refs: seq<nat>)
      requires Valid()
      modifies this
      ensures Valid()
      ensures refs == Span(|old(Cells)|, |rows|) && RefsIn(refs, |Cells|)
      ensures Snapshot() == old(Snapshot()).(cells := old(Cells) + rows)
    {
      refs := [];
      ghost var before := Snapshot();
      for i := 0 to |rows|
        invariant refs == Span(|before.cells|, i)
        invariant Snapshot() == before.(cells := before.cells + rows[..i])
      {
        Cells := Cells + [rows[i]];
        refs := refs + [|Cells| - 1];
        assert rows[..i + 1] == rows[..i] + [rows[i]];
      }
      assert rows[..|rows|] == rows;
    }

    /** The cache side of a completed query: the result rows go to new slots
        of the row heap and are shown as a query result with their columns;
        the rest of the cache is kept. */
    method ShowQueryRows(rows: seq<seq<string>>, cols: seq<string>)
      requires Valid()
      modifies this
      ensures Valid()
      ensures Snapshot() == old(Snapshot()).(cells := old(Cells) + rows, filteredData := Span(|old(Cells)|, |rows|),
                                             columns := cols, isQueryResult := true)
      ensures FilteredRows() == rows
    {
      var refs := AddRows(rows);
      RowsOfSpan(old(Cells), rows);
      FilteredData, Columns, IsQueryResult := refs, cols, true;
    }

    /** `inferTableFromQueryResult`: find the first table that has every result
        column, and remember it as the source table. */
    method InferTable(store: Store) returns (t: Option<string>)
      modifies this
      ensures t == FirstSuperset(old(Tables), store.tableInfo, old(Columns))
      ensures Snapshot() == old(Snapshot()).(queryTableName := if t.Some? then t.value else old(QueryTableName))
    {
      var tables := Tables;
      for i := 0 to |tables|
        invariant FirstSupersetFrom(tables, store.tableInfo, Columns, i) == FirstSuperset(tables, store.tableInfo, Columns)
        invariant Snapshot() == old(Snapshot())
      {
        var info := store.tableInfo(tables[i]);
        if info.Some? {
          var hasAll := HasAllColumns(info.value.columns, Columns);
          if hasAll {
            QueryTableName := tables[i];
            return Some(tables[i]);
          }
        }
      }
      return None;
    }

    /** `findColumnValue` on one row: its cell under the first column of that
        name, else the database fallback for a query result with primary keys. */
    method FindColumnValue(store: Store, row: seq<string>, name: string) returns (r: Option<string>)
      ensures r == ColumnValue(Snapshot(), store, row, name)
    {
      for i := 0 to |Columns|
        invariant LocalIndexFrom(Columns, row, name, i) == LocalIndexFrom(Columns, row, name, 0)
      {
        if Columns[i] == name && i < |row| {
          return Some(row[i]);
        }
      }
      if IsQueryResult && |PrimaryKeys| > 0 && FallbackReady(PrimaryKeys, Columns) {
        return store.fallback(QueryTableName, name, row);
      }
      return None;
    }

    /** The target-table choice at the start of `UpdateCell`. */
    method ResolveTarget(store: Store) returns (t: Outcome<string>)
      modifies this
      ensures Snapshot() == Target(old(Snapshot()), store).0
      ensures t == Target(old(Snapshot()), store).1
    {
      if IsQueryResult {
        if QueryTableName != "" {
          return Success(QueryTableName);
        }
        var inferred := InferTable(store);
        if inferred.None? {
          return Failure(NoSourceTable);
        }
        return Success(inferred.value);
      }
      if !(0 <= SelectedTable < |FilteredTables|) {
        return Panic;
      }
      return Success(FilteredTables[SelectedTable]);
    }

    /** The WHERE-clause loop of `UpdateCell`: the clause over the key columns
        and the values bound to it, or the first key column without a value. */
    method KeyArguments(store: Store, row: seq<string>, keys: seq<string>) returns (where: string, args: Outcome<seq<string>>)
      ensures args == KeyValues(Snapshot(), store, row, keys)
      ensures args.Success? ==> where == WhereClause(keys)
    {
      where := "";
      var values := [];
      for i := 0 to |keys|
        invariant where == WhereClause(keys[..i])
        invariant KeyValues(Snapshot(), store, row, keys[..i]) == Success(values)
      {
        assert keys[..i + 1][..i] == keys[..i];
        if i > 0 {
          where := where + " AND ";
        }
        var value := FindColumnValue(store, row, keys[i]);
        if value.None? {
          KeyValuesFailureSticks(Snapshot(), store, row, keys, i + 1);
          return where, Failure(KeyValueMissing(keys[i]));
        }
        where := where + keys[i] + " = ?";
        values := values + [value.value];
      }
      assert keys[..|keys|] == keys;
      return where, Success(values);
    }

    /** `findColumnValue` for a negative row index: the search of the
        result's columns, then the primary keys of a query result, panics on
        the first name it finds, since that reads the row. */
    method NoRowColumnValue(store: Store, name: string) returns (r: Outcome<string>)
      ensures r == NoRowValue(Snapshot(), store, name)
    {
      for i := 0 to |Columns|
        invariant forall j :: 0 <= j < i ==> Columns[j] != name
      {
        if Columns[i] == name {
          return Panic;
        }
      }
      if IsQueryResult && |PrimaryKeys| > 0 {
        for i := 0 to |PrimaryKeys|
          invariant forall j :: 0 <= j < i ==> PrimaryKeys[j] !in Columns
        {
          if PrimaryKeys[i] in Columns {
            return Panic;
          }
        }
        if |PrimaryKeys| >= 2 {
          var value := store.fallback(QueryTableName, name, []);
          if value.Some? {
            return Success(value.value);
          }
        }
      }
      return Failure(KeyValueMissing(name));
    }

    /** The WHERE-clause loop of `UpdateCell` for a negative row index. */
    method NoRowArguments(store: Store, keys: seq<string>) returns (where: string, args: Outcome<seq<string>>)
      ensures args == NoRowValues(Snapshot(), store, keys)
      ensures args.Success? ==> where == WhereClause(keys)
    {
      where := "";
      var values := [];
      for i := 0 to |keys|
        invariant where == WhereClause(keys[..i])
        invariant NoRowValues(Snapshot(), store, keys[..i]) == Success(values)
      {
        assert keys[..i + 1][..i] == keys[..i];
        if i > 0 {
          where := where + " AND ";
        }
        var value := NoRowColumnValue(store, keys[i]);
        if !value.Success? {
          NoRowValuesSticks(Snapshot(), store, keys, i + 1);
          return where, if value.Panic? then Panic else Failure(value.error);
        }
        where := where + keys[i] + " = ?";
        values := values + [value.value];
      }
      assert keys[..|keys|] == keys;
      return where, Success(values);
    }

    /** The write-back at the end of `UpdateCell`: the edited row, then the first
        `TableData` row that agrees with it outside the edited column. */
    method WriteBack(ref: nat, col: nat, v: string)
      requires Valid() && ref < |Cells| && col < |Cells[ref]|
      modifies this
      ensures Valid()
      ensures Snapshot() == old(Snapshot()).(cells := Reconciled(old(Cells), old(TableData), ref, col, v))
    {
      ghost var c0 := Cells;
      Cells := Cells[ref := Cells[ref][col := v]];
      var edited := Cells[ref];
      var i := 0;
      while i < |TableData|
        invariant i <= |TableData|
        invariant Cells == c0[ref := c0[ref][col := v]]
        invariant Snapshot() == old(Snapshot()).(cells := Cells)
        invariant Valid()
        invariant FirstAgreeingFrom(Cells, TableData, edited, col, i) == FirstAgreeing(Cells, TableData, edited, col)
      {
        var candidate := Cells[TableData[i]];
        if |candidate| > col {
          var matches := RowMatches(candidate, edited, col);
          if matches {
            Cells := Cells[TableData[i] := Cells[TableData[i]][col := v]];
            return;
          }
        }
        i := i + 1;
      }
    }

    /** `UpdateCell`: write one cell through to the database and the cache. */
    method UpdateCell(store: Store, rowIndex: int, colIndex: int, v: string) returns (r: Outcome<Statement>)
      requires Valid()
      modifies this
      ensures Valid()
      ensures Snapshot() == UpdateResult(old(Snapshot()), store, rowIndex, colIndex, v).0
      ensures r == UpdateResult(old(Snapshot()), store, rowIndex, colIndex, v).1
    {
      if rowIndex >= |FilteredData| || colIndex >= |Columns| {
        return Failure(InvalidRowOrColumn);
      }
      var target := ResolveTarget(store);
      if target.Panic? {
        return Panic;
      }
      if target.Failure? {
        return Failure(target.error);
      }
      if colIndex < 0 {
        return Panic;
      }
      var table := target.value;
      var column := Columns[colIndex];
      var info := store.tableInfo(table);
      if info.None? {
        return Failure(TableInfoFailed(table));
      }
      var keys := KeyColumns(info.value);
      if rowIndex < 0 {
        var where, values := NoRowArguments(store, keys);
        if !values.Success? {
          return if values.Panic? then Panic else Failure(values.error);
        }
        if !store.exec(Statement("UPDATE " + table + " SET " + column + " = ? WHERE " + where, [v] + values.value)) {
          return Failure(DatabaseError);
        }
        return Panic;
      }
      var ref := FilteredData[rowIndex];
      var where, args := KeyArguments(store, Cells[ref], keys);
      if args.Failure? {
        return Failure(args.error);
      }
      var stmt := Statement("UPDATE " + table + " SET " + column + " = ? WHERE " + where, [v] + args.value);
      if !store.exec(stmt) {
        return Failure(DatabaseError);
      }
      if colIndex >= |Cells[ref]| {
        return Panic;
      }
      WriteBack(ref, colIndex, v);
      return Success(stmt);
    }
  }
}
