/** Ordering candidates by score, highest first, the way `sort.Slice` with a
    "greater score first" comparison does it. `sort.Slice` is not stable, so
    nothing is promised about the relative order of equal scores: only that the
    result is a rearrangement of the input whose scores never increase. */
module Ranking {

  /** A candidate and the score it was given. */
  datatype Match<T> = Match(item: T, score: int)

  function Items<T>(ms: seq<Match<T>>): (r: seq<T>)
    ensures |r| == |ms|
    ensures forall i :: 0 <= i < |ms| ==> r[i] == ms[i].item
  {
    seq(|ms|, i requires 0 <= i < |ms| => ms[i].item)
  }

  predicate Descending<T>(ms: seq<Match<T>>) {
    forall i, j :: 0 <= i < j < |ms| ==> ms[i].score >= ms[j].score
  }

  lemma ItemsCons<T>(m: Match<T>, ms: seq<Match<T>>)
    ensures Items([m] + ms) == [m.item] + Items(ms)
  {
  }

  /** Insert one candidate before the first candidate it does not score below. */
  function Insert<T>(m: Match<T>, ms: seq<Match<T>>): (r: seq<Match<T>>)
    ensures |r| == |ms| + 1
    ensures forall k :: 0 <= k < |r| ==> r[k] == m || r[k] in ms
  {
    if ms == [] then [m]
    else if ms[0].score <= m.score then [m] + ms
    else [ms[0]] + Insert(m, ms[1..])
  }

  /** Inserting into a list ordered by descending score keeps it ordered. */
  lemma {:induction false} InsertDescending<T>(m: Match<T>, ms: seq<Match<T>>)
    requires Descending(ms)
    ensures Descending(Insert(m, ms))
  {
    if ms != [] && ms[0].score > m.score {
      var rest := Insert(m, ms[1..]);
      InsertDescending(m, ms[1..]);
      forall k | 0 <= k < |rest|
        ensures rest[k].score <= ms[0].score
      {
        if rest[k] != m {
          var k' :| 0 <= k' < |ms[1..]| && ms[1..][k'] == rest[k];
          assert ms[k' + 1] == rest[k];
        }
      }
    }
  }

  /** Inserting adds exactly the one candidate. */
  lemma {:induction false} InsertPermutes<T>(m: Match<T>, ms: seq<Match<T>>)
    ensures multiset(Insert(m, ms)) == multiset(ms) + multiset{m}
  {
    if ms != [] && ms[0].score > m.score {
      var rest := Insert(m, ms[1..]);
      InsertPermutes(m, ms[1..]);
      assert ms == [ms[0]] + ms[1..];
      calc {
        multiset(Insert(m, ms));
        multiset([ms[0]] + rest);
        multiset{ms[0]} + multiset(rest);
        multiset{ms[0]} + multiset(ms[1..]) + multiset{m};
        multiset(ms) + multiset{m};
      }
    }
  }

  /** Inserting adds exactly the candidate's item to the items. */
  lemma {:induction false} InsertItems<T>(m: Match<T>, ms: seq<Match<T>>)
    ensures multiset(Items(Insert(m, ms))) == multiset(Items(ms)) + multiset{m.item}
  {
    if ms == [] {
    } else if ms[0].score <= m.score {
      ItemsCons(m, ms);
    } else {
      var rest := Insert(m, ms[1..]);
      InsertItems(m, ms[1..]);
      assert ms == [ms[0]] + ms[1..];
      ItemsCons(ms[0], ms[1..]);
      ItemsCons(ms[0], rest);
      calc {
        multiset(Items(Insert(m, ms)));
        multiset(Items([ms[0]] + rest));
        multiset([ms[0].item] + Items(rest));
        multiset{ms[0].item} + multiset(Items(rest));
        multiset{ms[0].item} + multiset(Items(ms[1..])) + multiset{m.item};
        multiset([ms[0].item] + Items(ms[1..])) + multiset{m.item};
        multiset(Items(ms)) + multiset{m.item};
      }
    }
  }

  /** `sort.Slice(matches, score[i] > score[j])`: some rearrangement of the
      candidates in which scores never increase. */
  method SortByScore<T(==)>(ms: seq<Match<T>>) returns (r: seq<Match<T>>)
    ensures Descending(r)
    ensures multiset(r) == multiset(ms)
    ensures multiset(Items(r)) == multiset(Items(ms))
  {
    r := [];
    for i := 0 to |ms|
      invariant Descending(r)
      invariant multiset(r) == multiset(ms[..i])
      invariant multiset(Items(r)) == multiset(Items(ms[..i]))
    {
      assert ms[..i + 1] == ms[..i] + [ms[i]];
      assert Items(ms[..i + 1]) == Items(ms[..i]) + [ms[i].item];
      InsertDescending(ms[i], r);
      InsertPermutes(ms[i], r);
      InsertItems(ms[i], r);
      r := Insert(ms[i], r);
    }
    assert ms[..|ms|] == ms;
  }

  /** When every candidate's score is `f` of its item, a list sorted by score
      lists its items in order of non-increasing `f`. */
  lemma SortedItemsByKey<T>(r: seq<Match<T>>, ms: seq<Match<T>>, f: T -> int)
    requires Descending(r) && multiset(r) == multiset(ms)
    requires forall k :: 0 <= k < |ms| ==> ms[k].score == f(ms[k].item)
    ensures forall i, j :: 0 <= i < j < |r| ==> f(Items(r)[i]) >= f(Items(r)[j])
  {
    forall k | 0 <= k < |r|
      ensures r[k].score == f(r[k].item)
    {
      assert r[k] in multiset(ms);
      var k' :| 0 <= k' < |ms| && ms[k'] == r[k];
    }
  }

  /** The loop that copies the items out of the sorted candidates. */
  method ItemsOf<T>(ms: seq<Match<T>>) returns (items: seq<T>)
    ensures items == Items(ms)
  {
    items := [];
    for i := 0 to |ms|
      invariant items == Items(ms[..i])
    {
      assert Items(ms[..i + 1]) == Items(ms[..i]) + [ms[i].item];
      items := items + [ms[i].item];
    }
    assert ms[..|ms|] == ms;
  }
}
