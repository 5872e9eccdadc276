/** How the current variant's query screen rewrites a free-form SELECT before
    running it (`ensureIDColumns`, `extractTableName`, `getTablePrimaryKeys`):
    when the query reads one table with primary keys and names none of them,
    the keys are put in front of its column list, so that a result row can
    later be written back. */
module QueryRewrite {
  import opened Options
  import opened GoText
  import opened Session

  /** The quote bytes stripped from a table name. */
  const Quotes: set<char> := {'"', '\'', '`'}

  /** `extractTableName`: the first word after the first "from" (in any case),
      with quotes stripped; empty when there is no such word. */
  function TableNameAfterFrom(query: string): (t: string)
    ensures Index(ToLower(query), "from") == -1 ==> t == ""
    ensures Index(ToLower(query), "from") != -1 ==>
              && Index(ToLower(query), "from") + 4 <= |query|
              && t == TrimChars(FirstRun(query[Index(ToLower(query), "from") + 4..]), Quotes)
    ensures NoSpace(t)
    ensures t == [] || (t[0] !in Quotes && t[|t| - 1] !in Quotes)
  {
    var lower := ToLower(query);
    var i := Index(lower, "from");
    if i == -1 then "" else assert |lower| == |query|; FirstWord(query[i + 4..])
  }

  /** The first white-space separated word of the text, quotes stripped. */
  function FirstWord(rest: string): (t: string)
    ensures t == TrimChars(FirstRun(rest), Quotes)
    ensures NoSpace(t)
    ensures t == [] || (t[0] !in Quotes && t[|t| - 1] !in Quotes)
  {
    var parts := Fields(TrimSpace(rest));
    FirstFieldOfTrimmed(rest);
    if parts == [] then "" else TrimChars(parts[0], Quotes)
  }

  /** `getTablePrimaryKeys`: the table's primary-key columns, none when the
      lookup fails. */
  function PrimaryKeysOf(store: Store, table: string): seq<string> {
    match store.tableInfo(table)
    case Some(info) => info.primaryKeys
    case None => []
  }

  /** Some key is already named in the (lower-cased) query. */
  predicate MentionsKey(lowerQuery: string, keys: seq<string>) {
    exists k :: 0 <= k < |keys| && Contains(lowerQuery, ToLower(keys[k]))
  }

  /** The decision to rewrite: the keys to add and where FROM starts in the
      trimmed query. */
  datatype Plan = Plan(keys: seq<string>, from: nat)

  /** A query that starts with "select" has it at index 0 ... */
  lemma SelectComesFirst(lower: string)
    requires HasPrefix(lower, "select")
    ensures Index(lower, "select") == 0
  {
    assert OccursAt(lower, "select", 0);
  }

  /** ... and any "from" in it starts after it. */
  lemma FromAfterSelect(lower: string)
    requires HasPrefix(lower, "select") && Index(lower, "from") != -1
    ensures 6 <= Index(lower, "from")
  {
    var i := Index(lower, "from");
    assert lower[i..i + 4][0] == lower[i] == 'f';
    forall j | 0 <= j < 6
      ensures lower[j] != 'f'
    {
      assert lower[j] == lower[..6][j];
      assert lower[..6][j] in "select";
    }
  }

  /** The conditions under which `ensureIDColumns` rewrites `query`: it is a
      SELECT, a table name follows FROM, that table has primary keys, none of
      them is named yet, it is not `select *`, and FROM occurs in the trimmed
      query. */
  predicate Rewrites(query: string, store: Store) {
    var lower := ToLower(TrimSpace(query));
    var table := TableNameAfterFrom(query);
    var keys := PrimaryKeysOf(store, table);
    && HasPrefix(lower, "select") && table != "" && keys != []
    && !MentionsKey(lower, keys) && !Contains(lower, "select *") && Contains(lower, "from")
  }

  /** Whether `ensureIDColumns` rewrites `query`, and if so with which keys
      and where FROM starts in the trimmed query. (The code's further check
      that FROM comes after SELECT cannot fail once the query starts with
      SELECT.) */
  function RewritePlan(query: string, store: Store): (p: Option<Plan>)
    ensures p.Some? <==> Rewrites(query, store)
    ensures p.Some? ==>
      var lower := ToLower(TrimSpace(query));
      && p.value.keys == PrimaryKeysOf(store, TableNameAfterFrom(query))
      && p.value.from == Index(lower, "from")
      && 6 <= p.value.from && p.value.from + 4 <= |TrimSpace(query)| <= |query|
  {
    var lower := ToLower(TrimSpace(query));
    var table := TableNameAfterFrom(query);
    var keys := PrimaryKeysOf(store, table);
    if !HasPrefix(lower, "select") || table == "" || keys == [] || MentionsKey(lower, keys) then None
    else if Contains(lower, "select *") then None
    else
      var selectIndex := Index(lower, "select");
      var fromIndex := Index(lower, "from");
      SelectComesFirst(lower);
      if fromIndex == -1 then None
      else
        FromAfterSelect(lower);
        Some(Plan(keys, fromIndex))
  }

  /** The rewritten text: "SELECT ", the keys joined by ", ", ", ", the
      column list between SELECT and FROM (trimmed), a space, and the text from
      FROM on. It names every key and ends with the FROM clause. */
  function Spliced(text: string, keys: seq<string>, from: nat): (r: string)
    requires 6 <= from <= |text|
    ensures HasPrefix(r, "SELECT ")
    ensures HasSuffix(r, " " + text[from..])
    ensures forall k :: 0 <= k < |keys| ==> Contains(r, keys[k])
  {
    var cols := TrimSpace(text[6..from]);
    var joined := Join(keys, ", ");
    var after := ", " + cols + " " + text[from..];
    JoinedPartsOccur("SELECT ", keys, ", ", after);
    var r := "SELECT " + joined + after;
    r
  }

  /** The splice keeps the column list the query had. */
  lemma SplicedKeepsColumns(text: string, keys: seq<string>, from: nat)
    requires 6 <= from <= |text|
    ensures Contains(Spliced(text, keys, from), TrimSpace(text[6..from]))
  {
    var cols := TrimSpace(text[6..from]);
    var joined := Join(keys, ", ");
    var after := ", " + cols + " " + text[from..];
    var r := Spliced(text, keys, from);
    assert r == "SELECT " + joined + after;
    assert OccursAt(r, cols, 7 + |joined| + 2);
    ContainsAt(r, cols, 7 + |joined| + 2);
  }

  /** The rewritten query, written as the code does it: the positions of
      SELECT and FROM are found in the trimmed, lower-cased query, but the
      splice cuts the query as typed. With white space before SELECT the cuts
      land early. */
  function WithIdColumnsAsWritten(query: string, store: Store): (r: string)
    ensures RewritePlan(query, store).None? ==> r == query
    ensures RewritePlan(query, store).Some? ==>
              var p := RewritePlan(query, store).value;
              && HasPrefix(r, "SELECT ")
              && HasSuffix(r, " " + query[p.from..])
              && forall k :: 0 <= k < |p.keys| ==> Contains(r, p.keys[k])
  {
    match RewritePlan(query, store)
    case None => query
    case Some(p) => Spliced(query, p.keys, p.from)
  }

  /** `ensureIDColumns` as intended: the splice cuts the trimmed query, whose
      positions the plan holds. */
  function WithIdColumns(query: string, store: Store): (r: string)
    ensures RewritePlan(query, store).None? ==> r == query
    ensures RewritePlan(query, store).Some? ==>
              var p := RewritePlan(query, store).value;
              && HasPrefix(r, "SELECT ")
              && HasSuffix(r, " " + TrimSpace(query)[p.from..])
              && forall k :: 0 <= k < |p.keys| ==> Contains(r, p.keys[k])
  {
    match RewritePlan(query, store)
    case None => query
    case Some(p) => Spliced(TrimSpace(query), p.keys, p.from)
  }

  /** Every part of a joined list occurs in the joined text. */
  lemma {:induction false} JoinHasParts(parts: seq<string>, sep: string, k: nat)
    requires k < |parts|
    ensures exists j :: OccursAt(Join(parts, sep), parts[k], j)
    decreases |parts|
  {
    if |parts| == 1 {
      assert OccursAt(Join(parts, sep), parts[0], 0);
    } else {
      var head := parts[0] + sep;
      assert Join(parts, sep) == head + Join(parts[1..], sep);
      if k == 0 {
        assert OccursAt(Join(parts, sep), parts[0], 0);
      } else {
        JoinHasParts(parts[1..], sep, k - 1);
        var j :| OccursAt(Join(parts[1..], sep), parts[k], j);
        assert OccursAt(Join(parts, sep), parts[k], |head| + j);
      }
    }
  }

  /** ... and so in any text the joined list is part of. */
  lemma JoinedPartsOccur(before: string, parts: seq<string>, sep: string, after: string)
    ensures forall k :: 0 <= k < |parts| ==> Contains(before + Join(parts, sep) + after, parts[k])
  {
    var s := before + Join(parts, sep) + after;
    forall k | 0 <= k < |parts|
      ensures Contains(s, parts[k])
    {
      JoinHasParts(parts, sep, k);
      var j :| OccursAt(Join(parts, sep), parts[k], j);
      assert OccursAt(s, parts[k], |before| + j);
      ContainsAt(s, parts[k], |before| + j);
    }
  }

  /** For a query typed without surrounding white space the code does what was
      intended. */
  lemma AsWrittenAgreesWhenTrimmed(query: string, store: Store)
    requires TrimSpace(query) == query
    ensures WithIdColumnsAsWritten(query, store) == WithIdColumns(query, store)
  {
  }

  /** A query that already names one of its table's keys is left alone. */
  lemma NamedKeyBlocks(query: string, store: Store, k: nat)
    requires k < |PrimaryKeysOf(store, TableNameAfterFrom(query))|
    requires Contains(ToLower(TrimSpace(query)), ToLower(PrimaryKeysOf(store, TableNameAfterFrom(query))[k]))
    ensures WithIdColumns(query, store) == query
  {
    assert MentionsKey(ToLower(TrimSpace(query)), PrimaryKeysOf(store, TableNameAfterFrom(query)));
    assert !Rewrites(query, store);
  }

  /** Lower-casing keeps an occurrence where it is. */
  lemma LowerKeepsOccurrence(s: string, p: string, j: nat)
    requires OccursAt(s, p, j)
    ensures OccursAt(ToLower(s), ToLower(p), j)
  {
    assert ToLower(s)[j..j + |p|] == ToLower(s[j..j + |p|]);
  }

  /** Trimming keeps an occurrence that starts the text, or that a byte other
      than white space follows. */
  lemma TrimKeepsOccurrence(s: string, p: string, j: nat, c: nat)
    requires OccursAt(s, p, j) && j + |p| <= c < |s| && !IsAsciiSpace(s[c]) && !IsAsciiSpace(s[0])
    ensures OccursAt(TrimSpace(s), p, j)
  {
    assert TrimStart(s) == 0;
    assert c < TrimEnd(s);
    assert TrimSpace(s) == s[..TrimEnd(s)];
  }

  /** The first key of the spliced text sits right after "SELECT ", before
      a comma. */
  lemma KeyBeforeComma(joined: string, key: string, after: string)
    requires OccursAt(joined, key, 0) && after != [] && after[0] == ','
    ensures var r := "SELECT " + joined + after;
      && OccursAt(r, key, 7) && 7 + |joined| < |r| && r[7 + |joined|] == ',' && r[0] == 'S'
  {
    var r := "SELECT " + joined + after;
    assert r[7..7 + |key|] == joined[0..|key|];
  }

  /** The spliced text, trimmed and lower-cased, still names the first key:
      the comma after the keys keeps trimming away from it. */
  lemma SplicedNamesFirstKey(text: string, keys: seq<string>, from: nat)
    requires 6 <= from <= |text| && keys != []
    ensures Contains(ToLower(TrimSpace(Spliced(text, keys, from))), ToLower(keys[0]))
  {
    var joined := Join(keys, ", ");
    var after := ", " + TrimSpace(text[6..from]) + " " + text[from..];
    var r := Spliced(text, keys, from);
    assert r == "SELECT " + joined + after;
    var key := keys[0];
    assert |keys| > 1 ==> joined == key + ", " + Join(keys[1..], ", ");
    assert OccursAt(joined, key, 0);
    KeyBeforeComma(joined, key, after);
    TrimKeepsOccurrence(r, key, 7, 7 + |joined|);
    LowerKeepsOccurrence(TrimSpace(r), key, 7);
    ContainsAt(ToLower(TrimSpace(r)), ToLower(key), 7);
  }

  /** Rewriting is done once: a second pass over a rewritten query, when it
      reads the same table, leaves it alone, because the query now names a key. */
  lemma SecondPassKeeps(query: string, store: Store)
    requires RewritePlan(query, store).Some?
    requires TableNameAfterFrom(WithIdColumns(query, store)) == TableNameAfterFrom(query)
    ensures WithIdColumns(WithIdColumns(query, store), store) == WithIdColumns(query, store)
  {
    var p := RewritePlan(query, store).value;
    var r := WithIdColumns(query, store);
    assert r == Spliced(TrimSpace(query), p.keys, p.from);
    SplicedNamesFirstKey(TrimSpace(query), p.keys, p.from);
    NamedKeyBlocks(r, store, 0);
  }

  /** The loop of `ensureIDColumns` that looks for a key the query already
      names. */
  method NamesKey(lowerQuery: string, keys: seq<string>) returns (named: bool)
    ensures named == MentionsKey(lowerQuery, keys)
  {
    var i := 0;
    while i < |keys|
      invariant 0 <= i <= |keys|
      invariant forall k :: 0 <= k < i ==> !Contains(lowerQuery, ToLower(keys[k]))
    {
      if Contains(lowerQuery, ToLower(keys[i])) {
        return true;
      }
      i := i + 1;
    }
    return false;
  }

  /** `ensureIDColumns`, with its loop over the keys; like the code, it cuts
      the query as typed (see `WithIdColumnsAsWritten`). */
  method EnsureIdColumns(query: string, store: Store) returns (r: string)
    ensures r == WithIdColumnsAsWritten(query, store)
  {
    var lowerQuery := ToLower(TrimSpace(query));
    if !HasPrefix(lowerQuery, "select") {
      return query;
    }
    var tableName := TableNameAfterFrom(query);
    if tableName == "" {
      return query;
    }
    var keys := PrimaryKeysOf(store, tableName);
    if keys == [] {
      return query;
    }
    var named := NamesKey(lowerQuery, keys);
    if named {
      return query;
    }
    r := AddKeys(query, keys, store);
  }

  /** The rest of `ensureIDColumns`, once the query is a SELECT whose table
      has keys it does not name: skip `select *`, find FROM, splice. */
  method AddKeys(query: string, keys: seq<string>, ghost store: Store) returns (r: string)
    requires var lowerQuery := ToLower(TrimSpace(query));
      && HasPrefix(lowerQuery, "select") && TableNameAfterFrom(query) != ""
      && keys == PrimaryKeysOf(store, TableNameAfterFrom(query)) != [] && !MentionsKey(lowerQuery, keys)
    ensures r == WithIdColumnsAsWritten(query, store)
  {
    var lowerQuery := ToLower(TrimSpace(query));
    if Contains(lowerQuery, "select *") {
      assert RewritePlan(query, store).None? by {
        assert !Rewrites(query, store);
      }
      return query;
    }
    var selectIndex := Index(lowerQuery, "select");
    var fromIndex := Index(lowerQuery, "from");
    SelectComesFirst(lowerQuery);
    if selectIndex == -1 || fromIndex == -1 || fromIndex <= selectIndex {
      assert RewritePlan(query, store).None? by {
        if fromIndex != -1 {
          FromAfterSelect(lowerQuery);
        }
        assert !Rewrites(query, store);
      }
      return query;
    }
    assert RewritePlan(query, store) == Some(Plan(keys, fromIndex)) by {
      FromAfterSelect(lowerQuery);
      assert Rewrites(query, store);
    }
    r := Spliced(query, keys, fromIndex);
  }

  /** "SELECT name FROM users" on a table keyed by `id` becomes
      "SELECT id, name FROM users". */
  lemma AddsIdToSimpleSelect(query: string, store: Store)
    requires query == "SELECT name FROM users"
    requires PrimaryKeysOf(store, "users") == ["id"]
    ensures WithIdColumns(query, store) == "SELECT id, name FROM users"
  {
    Example("", query, store);
    ExampleSplice(query);
  }

  /** The finding: one space before SELECT makes the code cut the column list
      and the FROM clause one byte early, so the query it runs selects a
      column `T` (the last letter of SELECT) instead of `name`; the corrected
      rewrite gives the same query as without the space. */
  lemma LeadingSpaceGarblesColumns(query: string, store: Store)
    requires query == " SELECT name FROM users"
    requires PrimaryKeysOf(store, "users") == ["id"]
    ensures WithIdColumnsAsWritten(query, store) == "SELECT id, T name  FROM users"
    ensures WithIdColumns(query, store) == "SELECT id, name FROM users"
  {
    LeadingSpaceAsWritten(query, store);
    LeadingSpaceCorrected(query, store);
  }

  lemma LeadingSpaceAsWritten(query: string, store: Store)
    requires query == " SELECT name FROM users"
    requires PrimaryKeysOf(store, "users") == ["id"]
    ensures WithIdColumnsAsWritten(query, store) == "SELECT id, T name  FROM users"
  {
    Example(" ", query, store);
    ExampleSpliceUntrimmed(query);
  }

  lemma LeadingSpaceCorrected(query: string, store: Store)
    requires query == " SELECT name FROM users"
    requires PrimaryKeysOf(store, "users") == ["id"]
    ensures WithIdColumns(query, store) == "SELECT id, name FROM users"
  {
    Example(" ", query, store);
    ExampleSplice(TrimSpace(query));
  }

  /** The splice of one key. */
  lemma SplicedOneKey(text: string, key: string, from: nat)
    requires 6 <= from <= |text|
    ensures Spliced(text, [key], from) == "SELECT " + key + (", " + TrimSpace(text[6..from]) + " " + text[from..])
  {
  }

  lemma ExampleSplice(t: string)
    requires t == "SELECT name FROM users"
    ensures Spliced(t, ["id"], 12) == "SELECT id, name FROM users"
  {
    ExampleSlices(t);
    SplicedOneKey(t, "id", 12);
    TrimSpaceBetweenBlanks("name");
    ExampleRewritten();
  }

  lemma ExampleSlices(t: string)
    requires t == "SELECT name FROM users"
    ensures |t| == 22 && t[6..12] == [' '] + "name" + [' '] && t[12..] == "FROM users"
  {
  }

  lemma ExampleRewritten()
    ensures "SELECT " + "id" + (", " + "name" + " " + "FROM users") == "SELECT id, name FROM users"
  {
  }

  lemma ExampleSpliceUntrimmed(t: string)
    requires t == " SELECT name FROM users"
    ensures Spliced(t, ["id"], 12) == "SELECT id, T name  FROM users"
  {
    ExampleSlicesUntrimmed(t);
    SplicedOneKey(t, "id", 12);
    TrimSpaceOfTrimmed("T name");
    ExampleGarbled();
  }

  lemma ExampleSlicesUntrimmed(t: string)
    requires t == " SELECT name FROM users"
    ensures |t| == 23 && t[6..12] == "T name" && t[12..] == " FROM users"
  {
  }

  lemma ExampleGarbled()
    ensures "SELECT " + "id" + (", " + "T name" + " " + " FROM users") == "SELECT id, T name  FROM users"
  {
  }

  /** The facts both examples need: the query, "SELECT name FROM users" with
      `ws` in front, is rewritten with key `id`, FROM at 12 in its trimmed
      text. */
  lemma Example(ws: string, q: string, store: Store)
    requires ws == "" || ws == " "
    requires q == ws + "SELECT name FROM users"
    requires PrimaryKeysOf(store, "users") == ["id"]
    ensures TrimSpace(q) == "SELECT name FROM users"
    ensures RewritePlan(q, store) == Some(Plan(["id"], 12))
  {
    ExampleTrim(ws, q);
    ExampleTable(ws, q);
    ExamplePlan(q, store);
  }

  /** The plan for a query that trims to the example and names "users". */
  lemma ExamplePlan(q: string, store: Store)
    requires TrimSpace(q) == "SELECT name FROM users" && TableNameAfterFrom(q) == "users"
    requires PrimaryKeysOf(store, "users") == ["id"]
    ensures RewritePlan(q, store) == Some(Plan(["id"], 12))
  {
    var t := TrimSpace(q);
    ExampleLower("", t);
    var lower := ToLower(t);
    ExampleLowerFacts(lower);
    PlanOf(q, store, lower, "users", ["id"], 12);
  }

  /** `RewritePlan` from the facts it tests. */
  lemma PlanOf(q: string, store: Store, lower: string, table: string, keys: seq<string>, from: nat)
    requires lower == ToLower(TrimSpace(q)) && table == TableNameAfterFrom(q)
    requires keys == PrimaryKeysOf(store, table) && table != "" && keys != []
    requires HasPrefix(lower, "select") && !MentionsKey(lower, keys) && !Contains(lower, "select *")
    requires Index(lower, "from") == from
    ensures RewritePlan(q, store) == Some(Plan(keys, from))
  {
  }

  /** What the lower-cased trimmed example shows to the rewrite. */
  lemma ExampleLowerFacts(lower: string)
    requires lower == ("" + "select name ") + "from users"
    ensures HasPrefix(lower, "select") && Index(lower, "from") == 12
    ensures !MentionsKey(lower, ["id"]) && !Contains(lower, "select *")
  {
    ExampleFromIndex("");
    ExampleNoKeyNoStar(lower);
  }

  lemma ExampleTrim(ws: string, q: string)
    requires ws == "" || ws == " "
    requires q == ws + "SELECT name FROM users"
    ensures TrimSpace(q) == "SELECT name FROM users"
  {
    var t := "SELECT name FROM users";
    if ws == "" {
      assert q == t;
      TrimSpaceOfTrimmed(t);
    } else {
      assert q == [' '] + t;
      TrimSpaceAfterBlank(t);
    }
  }

  /** The lower-cased example, with `ws` in front. */
  lemma ExampleLower(ws: string, q: string)
    requires ws == "" || ws == " "
    requires q == ws + "SELECT name FROM users"
    ensures ToLower(q) == (ws + "select name ") + "from users"
  {
    var pre, tail := ws + "SELECT name ", "FROM users";
    assert q == pre + tail;
    ToLowerAppend(pre, tail);
    ToLowerAppend(ws, "SELECT name ");
    assert ToLower(ws) == ws;
    assert ToLower("SELECT name ") == "select name ";
    assert ToLower(tail) == "from users";
  }

  /** FROM starts right after the column list. */
  lemma ExampleFromIndex(ws: string)
    requires ws == "" || ws == " "
    ensures Index((ws + "select name ") + "from users", "from") == |ws| + 12
  {
    IndexAfter(ws + "select name ", "from users", "from");
  }

  /** One blank, then the table name, follows FROM. */
  lemma ExampleTail(ws: string, q: string)
    requires ws == "" || ws == " "
    requires q == ws + "SELECT name FROM users"
    ensures |ws| + 16 <= |q| && q[|ws| + 16..] == [' '] + "users"
  {
  }

  lemma ExampleTable(ws: string, q: string)
    requires ws == "" || ws == " "
    requires q == ws + "SELECT name FROM users"
    ensures TableNameAfterFrom(q) == "users"
  {
    ExampleLower(ws, q);
    ExampleFromIndex(ws);
    var i := |ws| + 12;
    assert Index(ToLower(q), "from") == i;
    ExampleTail(ws, q);
    UsersIsPlainWord();
    TableNameAt(q, i, "users");
  }

  /** The example's table name is one unquoted word. */
  lemma UsersIsPlainWord()
    ensures NoSpace("users") && "users"[0] !in Quotes && "users"[4] !in Quotes
  {
  }

  /** The table name is text of the query after the first "from", with only
      white space and quotes between the two. */
  lemma TableNameOccursAfterFrom(query: string, i: int)
    requires i == Index(ToLower(query), "from") && i != -1
    ensures exists j ::
      && i + 4 <= j
      && OccursAt(query, TableNameAfterFrom(query), j)
      && (forall k :: i + 4 <= k < j ==> IsAsciiSpace(query[k]) || query[k] in Quotes)
  {
    var t := TableNameAfterFrom(query);
    var j := TrimmedRunAt(query[i + 4..], Quotes);
    OccursAfter(query, i + 4, t, j, Quotes);
  }

  /** The table name is the word after the first "from" when exactly one
      blank separates them and nothing follows the word. */
  lemma TableNameAt(q: string, i: nat, name: string)
    requires Index(ToLower(q), "from") == i && i + 4 <= |q|
    requires q[i + 4..] == [' '] + name
    requires name != [] && NoSpace(name) && name[0] !in Quotes && name[|name| - 1] !in Quotes
    ensures TableNameAfterFrom(q) == name
  {
    var rest := q[Index(ToLower(q), "from") + 4..];
    assert rest == [' '] + name;
    WordAfterBlank(rest, name);
  }

  /** Only the first field is looked at: a first field of quotes alone
      gives no name, even with a word after it. */
  lemma QuotesOnlyFirstWord(rest: string)
    requires rest == " '' users"
    ensures FirstWord(rest) == ""
  {
    var quotes := "''";
    assert rest[1..] == quotes + " users";
    FirstRunOfWordThenSpace(quotes, " users");
    WordLenUnique(quotes, 2);
    assert FirstRun(rest) == quotes;
  }

  /** A blank and then one unquoted word: that word is the only field. */
  lemma WordAfterBlank(rest: string, name: string)
    requires rest == [' '] + name
    requires name != [] && NoSpace(name) && name[0] !in Quotes && name[|name| - 1] !in Quotes
    ensures FirstWord(rest) == name && TrimChars(FirstRun(rest), Quotes) == name
  {
    assert !IsAsciiSpace(name[0]) && !IsAsciiSpace(name[|name| - 1]);
    TrimSpaceAfterBlank(name);
    FieldsOfWord(name);
    TrimCharsOfKept(name, Quotes);
  }

  lemma ExampleNoKeyNoStar(lower: string)
    requires lower == "select name " + "from users"
    ensures !MentionsKey(lower, ["id"])
    ensures !Contains(lower, "select *")
  {
    assert ToLower("id") == "id";
    AbsentByte(lower, "id", 0);
    AbsentByte(lower, "select *", 7);
  }
}
