/** Byte-string primitives of Go's `strings` package, as the browser uses them.
    A `char` stands for one byte of a Go string; case folding covers ASCII only. */
module GoText {

  /** The white space `strings.TrimSpace` and `strings.Fields` recognise in ASCII text. */
  predicate IsAsciiSpace(c: char) {
    c == ' ' || c == '\t' || c == '\n' || c == '\U{0B}' || c == '\U{0C}' || c == '\r'
  }

  function LowerChar(c: char): char {
    if 'A' <= c <= 'Z' then (c as int + 32) as char else c
  }

  /** `strings.ToLower` on ASCII text. */
  function ToLower(s: string): (r: string)
    ensures |r| == |s|
    ensures forall i :: 0 <= i < |s| ==> r[i] == LowerChar(s[i])
  {
    seq(|s|, i requires 0 <= i < |s| => LowerChar(s[i]))
  }

  lemma ToLowerAppend(a: string, b: string)
    ensures ToLower(a + b) == ToLower(a) + ToLower(b)
  {
  }

  predicate HasPrefix(s: string, p: string) {
    |p| <= |s| && s[..|p|] == p
  }

  predicate HasSuffix(s: string, p: string) {
    |p| <= |s| && s[|s| - |p|..] == p
  }

  /** `p` occurs in `s` starting at byte `j`. */
  predicate OccursAt(s: string, p: string, j: int) {
    0 <= j && j + |p| <= |s| && s[j..j + |p|] == p
  }

  /** `strings.Index(s[k..], p) + k`, or -1: the first occurrence at or after `k`. */
  function IndexFrom(s: string, p: string, k: nat): (r: int)
    requires k <= |s|
    ensures r == -1 || (k <= r && OccursAt(s, p, r))
    ensures r == -1 ==> forall j :: k <= j && OccursAt(s, p, j) ==> false
    ensures r != -1 ==> forall j :: k <= j < r ==> !OccursAt(s, p, j)
    decreases |s| - k
  {
    if k + |p| > |s| then -1
    else if s[k..k + |p|] == p then k
    else IndexFrom(s, p, k + 1)
  }

  /** `strings.Index`: the first occurrence of `p` in `s`, or -1. */
  function Index(s: string, p: string): (r: int)
    ensures r == -1 <==> forall j :: !OccursAt(s, p, j)
    ensures r != -1 ==> OccursAt(s, p, r) && forall j :: 0 <= j < r ==> !OccursAt(s, p, j)
    ensures r != -1 ==> 0 <= r && r + |p| <= |s|
  {
    IndexFrom(s, p, 0)
  }

  /** `strings.Contains`. */
  predicate Contains(s: string, p: string) {
    Index(s, p) != -1
  }

  lemma ContainsAt(s: string, p: string, j: int)
    requires OccursAt(s, p, j)
    ensures Contains(s, p)
  {
  }

  /** Index of the first byte of `s` that is not ASCII white space (|s| when none). */
  function TrimStart(s: string): (a: nat)
    ensures a <= |s|
    ensures forall i :: 0 <= i < a ==> IsAsciiSpace(s[i])
    ensures a < |s| ==> !IsAsciiSpace(s[a])
  {
    if s == [] || !IsAsciiSpace(s[0]) then 0 else 1 + TrimStart(s[1..])
  }

  /** Index just past the last byte of `s` that is not ASCII white space (0 when none). */
  function TrimEnd(s: string): (b: nat)
    ensures b <= |s|
    ensures forall i :: b <= i < |s| ==> IsAsciiSpace(s[i])
    ensures b > 0 ==> !IsAsciiSpace(s[b - 1])
  {
    if s == [] || !IsAsciiSpace(s[|s| - 1]) then |s| else TrimEnd(s[..|s| - 1])
  }

  /** `strings.TrimSpace` on ASCII text: the slice of `s` from its first byte
      that is not white space on, with only white space after it. */
  function TrimSpace(s: string): (r: string)
    ensures |r| <= |s|
    ensures r == [] || (!IsAsciiSpace(r[0]) && !IsAsciiSpace(r[|r| - 1]))
    ensures TrimStart(s) + |r| <= |s| && r == s[TrimStart(s)..TrimStart(s) + |r|]
    ensures forall i :: TrimStart(s) + |r| <= i < |s| ==> IsAsciiSpace(s[i])
  {
    var a := TrimStart(s);
    if a == |s| then [] else
      assert !IsAsciiSpace(s[a]);
      var b := TrimEnd(s);
      assert a < b;
      s[a..b]
  }

  /** Text with a byte other than white space trims to the slice between
      its first and its last such byte. */
  lemma TrimSpaceBetween(s: string)
    requires TrimStart(s) < |s|
    ensures TrimStart(s) < TrimEnd(s) && TrimSpace(s) == s[TrimStart(s)..TrimEnd(s)]
  {
    assert !IsAsciiSpace(s[TrimStart(s)]);
  }

  /** Length of the leading run of non-space bytes. */
  function WordLen(s: string): (n: nat)
    ensures n <= |s|
    ensures forall i :: 0 <= i < n ==> !IsAsciiSpace(s[i])
    ensures n < |s| ==> IsAsciiSpace(s[n])
  {
    if s == [] || IsAsciiSpace(s[0]) then 0 else 1 + WordLen(s[1..])
  }

  predicate NoSpace(w: string) {
    forall i :: 0 <= i < |w| ==> !IsAsciiSpace(w[i])
  }

  /** `strings.Fields` on ASCII text: the maximal runs of non-space bytes, in order. */
  function Fields(s: string): (ws: seq<string>)
    ensures forall k :: 0 <= k < |ws| ==> ws[k] != [] && NoSpace(ws[k])
    ensures ws == [] <==> forall i :: 0 <= i < |s| ==> IsAsciiSpace(s[i])
    decreases |s|
  {
    if s == [] then []
    else if IsAsciiSpace(s[0]) then Fields(s[1..])
    else
      var n := WordLen(s);
      [s[..n]] + Fields(s[n..])
  }

  /** The first run of bytes that are not white space: it starts at the first
      such byte and stops before the next white space or at the end. */
  function FirstRun(s: string): (r: string)
    ensures TrimStart(s) + |r| <= |s| && r == s[TrimStart(s)..TrimStart(s) + |r|]
    ensures NoSpace(r)
    ensures TrimStart(s) + |r| < |s| ==> IsAsciiSpace(s[TrimStart(s) + |r|])
    decreases |s|
  {
    if s == [] then []
    else if IsAsciiSpace(s[0]) then
      var r := FirstRun(s[1..]);
      assert s[1..][TrimStart(s[1..])..TrimStart(s[1..]) + |r|] == s[1 + TrimStart(s[1..])..1 + TrimStart(s[1..]) + |r|];
      r
    else s[..WordLen(s)]
  }

  /** The first field is the first run of non-space bytes. */
  lemma {:induction false} FieldsHead(s: string)
    requires Fields(s) != []
    ensures Fields(s)[0] == FirstRun(s)
    decreases |s|
  {
    if IsAsciiSpace(s[0]) {
      FieldsHead(s[1..]);
    }
  }

  /** Trimming the ends first does not change the first run. */
  lemma FirstRunOfTrimmed(s: string)
    ensures FirstRun(TrimSpace(s)) == FirstRun(s)
  {
    var a := TrimStart(s);
    if a < |s| {
      var t := TrimSpace(s);
      var b := a + |t|;
      var rest := s[b..];
      assert s[a..] == t + rest;
      assert rest == [] || IsAsciiSpace(rest[0]) by {
        if rest != [] { assert rest[0] == s[b]; }
      }
      FirstRunOfWordThenSpace(t, rest);
      FirstRunSkipsSpace(s);
    }
  }

  /** The first field of the trimmed text is its first run; there is none
      exactly when that run is empty. */
  lemma FirstFieldOfTrimmed(s: string)
    ensures Fields(TrimSpace(s)) == [] <==> FirstRun(s) == []
    ensures Fields(TrimSpace(s)) != [] ==> Fields(TrimSpace(s))[0] == FirstRun(s)
  {
    var t := TrimSpace(s);
    FirstRunOfTrimmed(s);
    if Fields(t) != [] {
      FieldsHead(t);
    } else {
      FirstRunOfBlank(t);
    }
  }

  /** Blank text has an empty first run. */
  lemma FirstRunOfBlank(s: string)
    requires forall i :: 0 <= i < |s| ==> IsAsciiSpace(s[i])
    ensures FirstRun(s) == []
  {
    assert TrimStart(s) == |s|;
  }

  /** The first run with the cutset trimmed from its ends is text of `s` at
      the offset returned, with only white space and cutset bytes before it. */
  lemma TrimmedRunAt(s: string, cutset: set<char>) returns (j: nat)
    ensures OccursAt(s, TrimChars(FirstRun(s), cutset), j)
    ensures forall k :: 0 <= k < j ==> IsAsciiSpace(s[k]) || s[k] in cutset
  {
    j := TrimmedSliceAt(s, FirstRun(s), TrimStart(s), cutset);
  }

  /** `TrimmedRunAt` for any slice that only white space precedes. */
  lemma TrimmedSliceAt(s: string, run: string, a: nat, cutset: set<char>) returns (j: nat)
    requires a + |run| <= |s| && run == s[a..a + |run|]
    requires forall i :: 0 <= i < a ==> IsAsciiSpace(s[i])
    ensures OccursAt(s, TrimChars(run, cutset), j)
    ensures forall k :: 0 <= k < j ==> IsAsciiSpace(s[k]) || s[k] in cutset
  {
    var c := CutStart(run, cutset);
    j := a + c;
    SliceWithin(s, run, TrimChars(run, cutset), a, c);
    CutBeforeRun(s, run, a, c, cutset);
  }

  /** White space before a slice, and bytes of the cutset at the front of
      the slice, are all the text holds before the rest of the slice. */
  lemma CutBeforeRun(s: string, run: string, a: nat, c: nat, cutset: set<char>)
    requires a + |run| <= |s| && run == s[a..a + |run|]
    requires forall i :: 0 <= i < a ==> IsAsciiSpace(s[i])
    requires c <= |run| && forall i :: 0 <= i < c ==> run[i] in cutset
    ensures forall k :: 0 <= k < a + c ==> IsAsciiSpace(s[k]) || s[k] in cutset
  {
    forall k | a <= k < a + c
      ensures s[k] in cutset
    {
      assert run[k - a] == s[k];
    }
  }

  /** What occurs in a suffix occurs in the text, shifted by the suffix's start. */
  lemma OccursAfter(s: string, m: nat, t: string, j: nat, cutset: set<char>)
    requires m <= |s| && OccursAt(s[m..], t, j)
    requires forall k :: 0 <= k < j ==> IsAsciiSpace(s[m..][k]) || s[m..][k] in cutset
    ensures OccursAt(s, t, m + j)
    ensures forall k :: m <= k < m + j ==> IsAsciiSpace(s[k]) || s[k] in cutset
  {
    assert s[m + j..m + j + |t|] == s[m..][j..j + |t|];
    forall k | m <= k < m + j
      ensures IsAsciiSpace(s[k]) || s[k] in cutset
    {
      assert s[k] == s[m..][k - m];
    }
  }

  /** A slice of a slice is a slice. */
  lemma SliceWithin(s: string, run: string, t: string, a: nat, c: nat)
    requires a + |run| <= |s| && run == s[a..a + |run|]
    requires c + |t| <= |run| && t == run[c..c + |t|]
    ensures OccursAt(s, t, a + c)
  {
    forall k | 0 <= k < |t|
      ensures s[a + c + k] == t[k]
    {
      assert t[k] == run[c + k];
      assert run[c + k] == s[a + c + k];
    }
    assert s[a + c..a + c + |t|] == t;
  }

  /** Leading white space does not change the first run. */
  lemma {:induction false} FirstRunSkipsSpace(s: string)
    ensures FirstRun(s[TrimStart(s)..]) == FirstRun(s)
    decreases |s|
  {
    if s != [] && IsAsciiSpace(s[0]) {
      FirstRunSkipsSpace(s[1..]);
      assert s[1..][TrimStart(s[1..])..] == s[TrimStart(s)..];
    } else {
      assert s[0..] == s;
    }
  }

  /** What follows a word after white space does not change the first run. */
  lemma FirstRunOfWordThenSpace(t: string, rest: string)
    requires t != [] && !IsAsciiSpace(t[0])
    requires rest == [] || IsAsciiSpace(rest[0])
    ensures FirstRun(t + rest) == FirstRun(t)
  {
    WordLenOfPrefix(t, rest);
    var n := WordLen(t);
    assert (t + rest)[0] == t[0];
    assert (t + rest)[..n] == t[..n];
  }

  /** Splitting at one white-space byte splits the fields: with the two facts
      that a word is its own only field and blank text has none, this pins
      `Fields` down on every text. */
  lemma {:induction false} FieldsSplitAtSpace(a: string, c: char, b: string)
    requires IsAsciiSpace(c)
    ensures Fields(a + [c] + b) == Fields(a) + Fields(b)
    decreases |a|, 1
  {
    var s := a + [c] + b;
    if a == [] {
      assert s[1..] == b;
    } else if IsAsciiSpace(a[0]) {
      assert s[1..] == a[1..] + [c] + b;
      FieldsSplitAtSpace(a[1..], c, b);
    } else {
      FieldsSplitAfterWord(a, c, b);
    }
  }

  /** `FieldsSplitAtSpace` when `a` starts with a word. */
  lemma {:induction false} FieldsSplitAfterWord(a: string, c: char, b: string)
    requires IsAsciiSpace(c)
    requires a != [] && !IsAsciiSpace(a[0])
    ensures Fields(a + [c] + b) == Fields(a) + Fields(b)
    decreases |a|, 0
  {
    var n := WordLen(a);
    if n < |a| {
      FieldsSplitAtSpace(a[n..], c, b);
      FieldsSplitWordThenMore(a, c, b);
    } else {
      FieldsSplitWholeWord(a, c, b);
    }
  }

  /** `FieldsSplitAfterWord` when more text follows the leading word of `a`,
      given the split of that text. */
  lemma FieldsSplitWordThenMore(a: string, c: char, b: string)
    requires IsAsciiSpace(c)
    requires a != [] && !IsAsciiSpace(a[0]) && WordLen(a) < |a|
    requires Fields(a[WordLen(a)..] + [c] + b) == Fields(a[WordLen(a)..]) + Fields(b)
    ensures Fields(a + [c] + b) == Fields(a) + Fields(b)
  {
    var n := WordLen(a);
    FieldsAfterWordThenSpace(a, c, b);
    assert Fields(a) == [a[..n]] + Fields(a[n..]);
    ConsAppend(a[..n], Fields(a[n..]), Fields(b));
  }

  lemma ConsAppend(w: string, x: seq<string>, y: seq<string>)
    ensures [w] + (x + y) == ([w] + x) + y
  {
  }

  /** `FieldsSplitAfterWord` when `a` is one word. */
  lemma FieldsSplitWholeWord(a: string, c: char, b: string)
    requires IsAsciiSpace(c)
    requires a != [] && !IsAsciiSpace(a[0]) && WordLen(a) == |a|
    ensures Fields(a + [c] + b) == Fields(a) + Fields(b)
  {
    FieldsAfterWordThenSpace(a, c, b);
    var t := [c] + b;
    assert a[..|a|] == a && a[|a|..] + [c] + b == t;
    assert t[0] == c && t[1..] == b;
    assert Fields(t) == Fields(b);
    FieldsOfWord(a);
  }

  /** A word, then white space: the word is the first field. */
  lemma FieldsAfterWordThenSpace(a: string, c: char, b: string)
    requires IsAsciiSpace(c)
    requires a != [] && !IsAsciiSpace(a[0])
    ensures Fields(a + [c] + b) == [a[..WordLen(a)]] + Fields(a[WordLen(a)..] + [c] + b)
  {
    var n := WordLen(a);
    var t := [c] + b;
    FieldsAfterWord(a, t);
    assert a + [c] + b == a + t;
    assert a[n..] + t == a[n..] + [c] + b;
  }

  /** Text that starts with a word, followed by white space or nothing, has
      that word as its first field. */
  lemma FieldsAfterWord(a: string, rest: string)
    requires a != [] && !IsAsciiSpace(a[0])
    requires rest == [] || IsAsciiSpace(rest[0]) || WordLen(a) < |a|
    ensures Fields(a + rest) == [a[..WordLen(a)]] + Fields(a[WordLen(a)..] + rest)
  {
    WordLenOfPrefix(a, rest);
    AppendSlices(a, rest, WordLen(a));
    FieldsOfWordFirst(a + rest);
  }

  lemma AppendSlices(a: string, rest: string, n: nat)
    requires n <= |a|
    ensures a != [] ==> (a + rest)[0] == a[0]
    ensures (a + rest)[..n] == a[..n] && (a + rest)[n..] == a[n..] + rest
  {
  }

  /** Text that starts with a word: that word, then the fields of the rest. */
  lemma FieldsOfWordFirst(s: string)
    requires s != [] && !IsAsciiSpace(s[0])
    ensures Fields(s) == [s[..WordLen(s)]] + Fields(s[WordLen(s)..])
  {
  }

  /** The leading run of a text is the leading run of any longer text that
      puts white space, or nothing, right after the run. */
  lemma WordLenOfPrefix(a: string, rest: string)
    requires rest == [] || IsAsciiSpace(rest[0]) || WordLen(a) < |a|
    ensures WordLen(a + rest) == WordLen(a)
  {
    var s := a + rest;
    var n := WordLen(a);
    assert forall i :: 0 <= i < n ==> s[i] == a[i];
    if n < |a| {
      assert s[n] == a[n];
    } else if rest != [] {
      assert s[n] == rest[0];
    }
    WordLenUnique(s, n);
  }

  /** `WordLen` is the only length its contract allows. */
  lemma WordLenUnique(s: string, n: nat)
    requires n <= |s|
    requires forall i :: 0 <= i < n ==> !IsAsciiSpace(s[i])
    requires n < |s| ==> IsAsciiSpace(s[n])
    ensures WordLen(s) == n
  {
  }

  /** The non-space bytes of `s`, in order. */
  function NonSpace(s: string): string {
    if s == [] then [] else (if IsAsciiSpace(s[0]) then [] else [s[0]]) + NonSpace(s[1..])
  }

  function Concat(ws: seq<string>): string {
    if ws == [] then [] else ws[0] + Concat(ws[1..])
  }

  lemma ConcatAppend(a: seq<string>, b: seq<string>)
    ensures Concat(a + b) == Concat(a) + Concat(b)
  {
    if a == [] {
      assert a + b == b;
    } else {
      assert (a + b)[1..] == a[1..] + b;
      ConcatAppend(a[1..], b);
    }
  }

  lemma NonSpaceAppend(a: string, b: string)
    ensures NonSpace(a + b) == NonSpace(a) + NonSpace(b)
  {
    if a == [] {
      assert a + b == b;
    } else {
      assert (a + b)[1..] == a[1..] + b;
      NonSpaceAppend(a[1..], b);
    }
  }

  lemma NonSpaceOfWord(w: string)
    requires NoSpace(w)
    ensures NonSpace(w) == w
  {
    if w != [] {
      NonSpaceOfWord(w[1..]);
    }
  }

  /** Splitting into fields loses exactly the white space: the fields, glued together,
      are the non-space bytes of the text. */
  lemma {:induction false} FieldsKeepNonSpace(s: string)
    ensures Concat(Fields(s)) == NonSpace(s)
    decreases |s|
  {
    if s == [] {
    } else if IsAsciiSpace(s[0]) {
      FieldsKeepNonSpace(s[1..]);
    } else {
      var n := WordLen(s);
      FieldsKeepNonSpace(s[n..]);
      NonSpaceOfWord(s[..n]);
      assert s == s[..n] + s[n..];
      NonSpaceAppend(s[..n], s[n..]);
    }
  }

  /** Index of the first byte of `s` outside `cutset` (|s| when none). */
  function CutStart(s: string, cutset: set<char>): (a: nat)
    ensures a <= |s|
    ensures forall i :: 0 <= i < a ==> s[i] in cutset
    ensures a < |s| ==> s[a] !in cutset
  {
    if s == [] || s[0] !in cutset then 0 else 1 + CutStart(s[1..], cutset)
  }

  /** Index just past the last byte of `s` outside `cutset` (0 when none). */
  function CutEnd(s: string, cutset: set<char>): (b: nat)
    ensures b <= |s|
    ensures forall i :: b <= i < |s| ==> s[i] in cutset
    ensures b > 0 ==> s[b - 1] !in cutset
  {
    if s == [] || s[|s| - 1] !in cutset then |s| else CutEnd(s[..|s| - 1], cutset)
  }

  /** `strings.Trim(s, cutset)`: the slice of `s` from its first byte outside
      `cutset` on, with only bytes of `cutset` after it. */
  function TrimChars(s: string, cutset: set<char>): (r: string)
    ensures |r| <= |s|
    ensures r == [] || (r[0] !in cutset && r[|r| - 1] !in cutset)
    ensures CutStart(s, cutset) + |r| <= |s| && r == s[CutStart(s, cutset)..CutStart(s, cutset) + |r|]
    ensures forall i :: CutStart(s, cutset) + |r| <= i < |s| ==> s[i] in cutset
  {
    var a := CutStart(s, cutset);
    if a == |s| then [] else
      assert s[a] !in cutset;
      var b := CutEnd(s, cutset);
      assert a < b;
      s[a..b]
  }

  /** A text with no space at either end is its own `TrimSpace`. */
  lemma TrimSpaceOfTrimmed(s: string)
    requires s != [] && !IsAsciiSpace(s[0]) && !IsAsciiSpace(s[|s| - 1])
    ensures TrimSpace(s) == s
  {
    assert TrimStart(s) == 0;
    assert s[0..|s|] == s;
  }

  /** One leading blank is trimmed away. */
  lemma TrimSpaceAfterBlank(s: string)
    requires s != [] && !IsAsciiSpace(s[0]) && !IsAsciiSpace(s[|s| - 1])
    ensures TrimSpace([' '] + s) == s
  {
    var t := [' '] + s;
    assert t[1..] == s;
    assert TrimStart(t) == 1;
    assert t[1..|t|] == s;
  }

  /** One blank on each side is trimmed away. */
  lemma TrimSpaceBetweenBlanks(s: string)
    requires s != [] && !IsAsciiSpace(s[0]) && !IsAsciiSpace(s[|s| - 1])
    ensures TrimSpace([' '] + s + [' ']) == s
  {
    var t := [' '] + s + [' '];
    assert t[1..] == s + [' '];
    assert TrimStart(t) == 1;
    assert t[..|t| - 1] == [' '] + s;
    assert TrimEnd(t) == |t| - 1;
    assert t[1..|t| - 1] == s;
  }

  /** A word with no space is one field, its whole self. */
  lemma {:induction false} WordLenOfWord(w: string)
    requires NoSpace(w)
    ensures WordLen(w) == |w|
    decreases |w|
  {
    if w != [] {
      WordLenOfWord(w[1..]);
    }
  }

  lemma FieldsOfWord(w: string)
    requires w != [] && NoSpace(w)
    ensures Fields(w) == [w]
  {
    WordLenOfWord(w);
    assert w[..|w|] == w;
    assert w[|w|..] == [];
  }

  /** A text whose ends are outside the cutset is its own `TrimChars`. */
  lemma TrimCharsOfKept(s: string, cutset: set<char>)
    requires s != [] && s[0] !in cutset && s[|s| - 1] !in cutset
    ensures TrimChars(s, cutset) == s
  {
    assert CutStart(s, cutset) == 0;
    assert s[0..|s|] == s;
  }

  /** When `p` starts right after `a` and its first byte does not occur in
      `a`, that is where `strings.Index` finds it. */
  lemma IndexAfter(a: string, b: string, p: string)
    requires p != [] && HasPrefix(b, p) && p[0] !in a
    ensures Index(a + b, p) == |a|
  {
    var s := a + b;
    assert s[|a|..|a| + |p|] == b[..|p|];
    assert OccursAt(s, p, |a|);
    forall j | 0 <= j < |a|
      ensures !OccursAt(s, p, j)
    {
      assert s[j] == a[j];
      assert s[j] in a;
      if j + |p| <= |s| {
        assert s[j..j + |p|][0] == s[j];
      }
    }
  }

  /** A pattern with a byte that `s` lacks does not occur in `s`. */
  lemma AbsentByte(s: string, p: string, m: nat)
    requires m < |p| && p[m] !in s
    ensures !Contains(s, p)
  {
    forall j
      ensures !OccursAt(s, p, j)
    {
      if 0 <= j && j + |p| <= |s| {
        assert s[j + m] in s;
        assert s[j..j + |p|][m] == s[j + m];
      }
    }
  }

  /** `strings.Join`. */
  function Join(parts: seq<string>, sep: string): string {
    if parts == [] then []
    else if |parts| == 1 then parts[0]
    else parts[0] + sep + Join(parts[1..], sep)
  }
}
