/** One-line text buffers with a caret, as the cell editor and the SQL input edit them.
    A `char` stands for one byte; the caret is a byte offset into the text. */
module Caret {

  /** The two notions of white space used for word motion:
      `unicode.IsSpace` applied to a single byte (the current variant), and the
      four-byte set of the earlier variant's `isWhitespace`. */
  datatype Spaces = UnicodeByteSpace | QueryWhitespace

  predicate IsSpace(ws: Spaces, c: char) {
    match ws
    case UnicodeByteSpace =>
      c == '\t' || c == '\n' || c == '\U{0B}' || c == '\U{0C}' || c == '\r' || c == ' '
      || c == '\U{85}' || c == '\U{A0}'
    case QueryWhitespace =>
      c == ' ' || c == '\t' || c == '\n' || c == '\r'
  }

  /** Offset `i` is where a word begins: a non-space byte at the start or after a space. */
  predicate WordStart(ws: Spaces, t: string, i: int) {
    0 <= i < |t| && !IsSpace(ws, t[i]) && (i == 0 || IsSpace(ws, t[i - 1]))
  }

  /** Start of the run of white space that ends at `p`. */
  function SpaceRunStart(ws: Spaces, t: string, p: nat): (q: nat)
    requires p <= |t|
    ensures q <= p
    ensures forall i :: q <= i < p ==> IsSpace(ws, t[i])
    ensures q == 0 || !IsSpace(ws, t[q - 1])
  {
    if p == 0 || !IsSpace(ws, t[p - 1]) then p else SpaceRunStart(ws, t, p - 1)
  }

  /** Start of the run of non-space bytes that ends at `p`. */
  function WordRunStart(ws: Spaces, t: string, p: nat): (q: nat)
    requires p <= |t|
    ensures q <= p
    ensures forall i :: q <= i < p ==> !IsSpace(ws, t[i])
    ensures q == 0 || IsSpace(ws, t[q - 1])
  {
    if p == 0 || IsSpace(ws, t[p - 1]) then p else WordRunStart(ws, t, p - 1)
  }

  /** End of the run of non-space bytes that starts at `p`. */
  function WordRunEnd(ws: Spaces, t: string, p: nat): (q: nat)
    requires p <= |t|
    ensures p <= q <= |t|
    ensures forall i :: p <= i < q ==> !IsSpace(ws, t[i])
    ensures q == |t| || IsSpace(ws, t[q])
    decreases |t| - p
  {
    if p == |t| || IsSpace(ws, t[p]) then p else WordRunEnd(ws, t, p + 1)
  }

  /** End of the run of white space that starts at `p`. */
  function SpaceRunEnd(ws: Spaces, t: string, p: nat): (q: nat)
    requires p <= |t|
    ensures p <= q <= |t|
    ensures forall i :: p <= i < q ==> IsSpace(ws, t[i])
    ensures q == |t| || !IsSpace(ws, t[q])
    decreases |t| - p
  {
    if p == |t| || !IsSpace(ws, t[p]) then p else SpaceRunEnd(ws, t, p + 1)
  }

  /** Where ctrl+left takes the caret: the start of the nearest word that begins
      before `p` (or 0), so that no word begins strictly between the two. */
  function WordLeftPos(ws: Spaces, t: string, p: nat): (r: nat)
    requires p <= |t|
    ensures r <= p
    ensures p > 0 ==> r < p
    ensures r == 0 || (r < p && WordStart(ws, t, r))
    ensures forall i :: r < i < p ==> !WordStart(ws, t, i)
  {
    if p == 0 then 0
    else
      var s := SpaceRunStart(ws, t, p);
      var r := WordRunStart(ws, t, s);
      assert r > 0 ==> r < s;
      r
  }

  /** Where ctrl+right takes the caret: the start of the next word after `p`
      (or the end of the text), so that no word begins strictly between the two. */
  function WordRightPos(ws: Spaces, t: string, p: nat): (r: nat)
    requires p <= |t|
    ensures p <= r <= |t|
    ensures p < |t| ==> p < r
    ensures r == |t| || WordStart(ws, t, r)
    ensures forall i :: p < i < r ==> !WordStart(ws, t, i)
  {
    if p >= |t| then |t|
    else
      var w := WordRunEnd(ws, t, p);
      var r := SpaceRunEnd(ws, t, w);
      assert r < |t| ==> w < r;
      r
  }

  /** The ctrl+left loop: skip white space leftwards, then the word before it. */
  method WordLeft(ws: Spaces, t: string, pos: nat) returns (r: nat)
    requires pos <= |t|
    ensures r == WordLeftPos(ws, t, pos)
  {
    if pos == 0 {
      return 0;
    }
    r := pos;
    while r > 0 && IsSpace(ws, t[r - 1])
      invariant r <= pos
      invariant SpaceRunStart(ws, t, r) == SpaceRunStart(ws, t, pos)
    {
      r := r - 1;
    }
    ghost var s := r;
    while r > 0 && !IsSpace(ws, t[r - 1])
      invariant r <= s
      invariant WordRunStart(ws, t, r) == WordRunStart(ws, t, s)
    {
      r := r - 1;
    }
  }

  /** The ctrl+right loop: skip the word under the caret, then the white space after it. */
  method WordRight(ws: Spaces, t: string, pos: nat) returns (r: nat)
    requires pos <= |t|
    ensures r == WordRightPos(ws, t, pos)
  {
    if pos >= |t| {
      return |t|;
    }
    r := pos;
    while r < |t| && !IsSpace(ws, t[r])
      invariant pos <= r <= |t|
      invariant WordRunEnd(ws, t, r) == WordRunEnd(ws, t, pos)
    {
      r := r + 1;
    }
    ghost var w := r;
    while r < |t| && IsSpace(ws, t[r])
      invariant w <= r <= |t|
      invariant SpaceRunEnd(ws, t, r) == SpaceRunEnd(ws, t, w)
    {
      r := r + 1;
    }
  }

  /** Word motion over "hello world" in both directions. */
  lemma HelloWorld(ws: Spaces)
    ensures WordLeftPos(ws, "hello world", 11) == 6
    ensures WordLeftPos(ws, "hello world", 6) == 0
    ensures WordRightPos(ws, "hello world", 0) == 6
    ensures WordRightPos(ws, "hello world", 6) == 11
  {
    HelloWorldLeft(ws);
    HelloWorldRight(ws);
  }

  lemma HelloWorldLeft(ws: Spaces)
    ensures WordLeftPos(ws, "hello world", 11) == 6
    ensures WordLeftPos(ws, "hello world", 6) == 0
  {
    var t := "hello world";
    assert IsSpace(ws, t[5]);
    assert !IsSpace(ws, t[6]) && !IsSpace(ws, t[4]);
    assert SpaceRunStart(ws, t, 11) == 11;
    assert WordRunStart(ws, t, 11) == 6;
    assert SpaceRunStart(ws, t, 6) == 5;
    assert WordRunStart(ws, t, 5) == 0;
  }

  lemma HelloWorldRight(ws: Spaces)
    ensures WordRightPos(ws, "hello world", 0) == 6
    ensures WordRightPos(ws, "hello world", 6) == 11
  {
    var t := "hello world";
    assert IsSpace(ws, t[5]);
    assert !IsSpace(ws, t[6]) && !IsSpace(ws, t[4]);
    assert WordRunEnd(ws, t, 0) == 5;
    assert SpaceRunEnd(ws, t, 5) == 6;
    assert WordRunEnd(ws, t, 6) == 11;
  }

  /** A text together with a caret position inside it (0 ..= length). */
  datatype Line = Line(text: string, caret: nat) {
    predicate Valid() {
      caret <= |text|
    }
  }

  /** Insert a one-byte key at the caret and step past it; longer key names
      (such as "pgup") are not text and leave the line as it is. */
  function InsertKey(l: Line, key: string): (r: Line)
    requires l.Valid()
    ensures r.Valid()
    ensures |key| != 1 ==> r == l
    ensures |key| == 1 ==>
              && |r.text| == |l.text| + 1 && r.caret == l.caret + 1
              && r.text[l.caret] == key[0]
              && r.text[..l.caret] == l.text[..l.caret] && r.text[r.caret..] == l.text[l.caret..]
  {
    if |key| == 1 then Line(l.text[..l.caret] + key + l.text[l.caret..], l.caret + 1)
    else l
  }

  /** Backspace: remove the byte before the caret (nothing at the start). */
  function Backspace(l: Line): (r: Line)
    requires l.Valid()
    ensures r.Valid()
    ensures l.caret == 0 ==> r == l
    ensures l.caret > 0 ==>
              && |r.text| == |l.text| - 1 && r.caret == l.caret - 1
              && r.text[..r.caret] == l.text[..r.caret] && r.text[r.caret..] == l.text[l.caret..]
  {
    if l.caret > 0 then Line(l.text[..l.caret - 1] + l.text[l.caret..], l.caret - 1)
    else l
  }

  /** Delete (or ctrl+d): remove the byte under the caret (nothing at the end). */
  function DeleteForward(l: Line): (r: Line)
    requires l.Valid()
    ensures r.Valid() && r.caret == l.caret
    ensures l.caret == |l.text| ==> r == l
    ensures l.caret < |l.text| ==>
              && |r.text| == |l.text| - 1
              && r.text[..r.caret] == l.text[..r.caret] && r.text[r.caret..] == l.text[r.caret + 1..]
  {
    if l.caret < |l.text| then Line(l.text[..l.caret] + l.text[l.caret + 1..], l.caret)
    else l
  }

  /** ctrl+k: keep only the text before the caret. */
  function KillToEnd(l: Line): (r: Line)
    requires l.Valid()
    ensures r.Valid() && r.caret == l.caret == |r.text|
    ensures r.text + l.text[l.caret..] == l.text
  {
    Line(l.text[..l.caret], l.caret)
  }

  /** ctrl+u: keep only the text from the caret on, and move the caret to the start. */
  function KillToStart(l: Line): (r: Line)
    requires l.Valid()
    ensures r.Valid() && r.caret == 0
    ensures l.text[..l.caret] + r.text == l.text
  {
    Line(l.text[l.caret..], 0)
  }

  /** ctrl+w: delete from the start of the word left of the caret up to the caret. */
  function DeleteWordLeft(ws: Spaces, l: Line): (r: Line)
    requires l.Valid()
    ensures r.Valid()
    ensures r.caret == WordLeftPos(ws, l.text, l.caret)
    ensures r.text[..r.caret] == l.text[..r.caret] && r.text[r.caret..] == l.text[l.caret..]
    ensures l.caret > 0 ==> |r.text| < |l.text|
  {
    var p := WordLeftPos(ws, l.text, l.caret);
    Line(l.text[..p] + l.text[l.caret..], p)
  }

  /** The keys that only move the caret. */
  const MotionKeys: set<string> := {"left", "right", "home", "ctrl+a", "end", "ctrl+e", "ctrl+left", "ctrl+right"}

  /** A key pressed in the current variant's one-line editors (the cell editor
      and the query box), after the view has taken esc and enter: caret motion,
      backspace, ctrl+w, or the insertion of a one-byte key. */
  function EditKey(ws: Spaces, l: Line, k: string): (r: Line)
    requires l.Valid()
    ensures r.Valid()
    ensures k in MotionKeys ==> r.text == l.text
    ensures r.text != l.text ==> k == "backspace" || k == "ctrl+w" || |k| == 1
    ensures k !in MotionKeys && k != "backspace" && k != "ctrl+w" && |k| != 1 ==> r == l
    ensures |k| == 1 ==> r == InsertKey(l, k)
  {
    if k == "backspace" then Backspace(l)
    else if k == "left" then (if l.caret > 0 then Line(l.text, l.caret - 1) else l)
    else if k == "right" then (if l.caret < |l.text| then Line(l.text, l.caret + 1) else l)
    else if k == "home" || k == "ctrl+a" then Line(l.text, 0)
    else if k == "end" || k == "ctrl+e" then Line(l.text, |l.text|)
    else if k == "ctrl+left" then Line(l.text, WordLeftPos(ws, l.text, l.caret))
    else if k == "ctrl+right" then Line(l.text, WordRightPos(ws, l.text, l.caret))
    else if k == "ctrl+w" then DeleteWordLeft(ws, l)
    else InsertKey(l, k)
  }

  /** The earlier variant's editors: the same keys with its own white space,
      plus delete (or ctrl+d), ctrl+k and ctrl+u. */
  function EditKeyWithKills(l: Line, k: string): (r: Line)
    requires l.Valid()
    ensures r.Valid()
    ensures k in MotionKeys ==> r.text == l.text
    ensures k in {"ctrl+k", "ctrl+u"} ==> |r.text| <= |l.text|
    ensures |k| == 1 ==> r == InsertKey(l, k)
  {
    if k == "delete" || k == "ctrl+d" then DeleteForward(l)
    else if k == "ctrl+k" then KillToEnd(l)
    else if k == "ctrl+u" then KillToStart(l)
    else EditKey(QueryWhitespace, l, k)
  }

  /** Typing a byte and then pressing backspace leaves the line as it was, in
      both variants' editors. */
  lemma TypeThenBackspace(ws: Spaces, l: Line, key: string)
    requires l.Valid() && |key| == 1
    ensures EditKey(ws, EditKey(ws, l, key), "backspace") == l
    ensures EditKeyWithKills(EditKeyWithKills(l, key), "backspace") == l
  {
    BackspaceUndoesInsert(l, key);
  }

  /** ctrl+k and ctrl+u split the line at the caret: what one keeps and the
      other keeps, together, are the whole text. */
  lemma KillsSplitAtCaret(l: Line)
    requires l.Valid()
    ensures EditKeyWithKills(l, "ctrl+k").text + EditKeyWithKills(l, "ctrl+u").text == l.text
  {
    assert l.text[..l.caret] + l.text[l.caret..] == l.text;
  }

  /** Backspace undoes the insertion of a one-byte key. */
  lemma BackspaceUndoesInsert(l: Line, key: string)
    requires l.Valid() && |key| == 1
    ensures Backspace(InsertKey(l, key)) == l
  {
    var r := InsertKey(l, key);
    assert r.text[..r.caret - 1] + r.text[r.caret..] == l.text;
  }

  /** Typing the byte that backspace removed restores the line. */
  lemma InsertUndoesBackspace(l: Line)
    requires l.Valid() && l.caret > 0
    ensures InsertKey(Backspace(l), [l.text[l.caret - 1]]) == l
  {
    var b := Backspace(l);
    assert b.text[..b.caret] + [l.text[l.caret - 1]] + b.text[b.caret..] == l.text;
  }

  /** Typing the byte that delete removed, then stepping left, restores the line. */
  lemma InsertUndoesDelete(l: Line)
    requires l.Valid() && l.caret < |l.text|
    ensures var r := InsertKey(DeleteForward(l), [l.text[l.caret]]);
      r.text == l.text && r.caret == l.caret + 1
  {
    var d := DeleteForward(l);
    assert d.text[..d.caret] + [l.text[l.caret]] + d.text[d.caret..] == l.text;
  }

  /** The bytes ctrl+w removes, put back, restore the text. */
  lemma DeleteWordLeftRemovesOneSpan(ws: Spaces, l: Line)
    requires l.Valid()
    ensures var r := DeleteWordLeft(ws, l);
      r.text[..r.caret] + l.text[r.caret..l.caret] + r.text[r.caret..] == l.text
  {
    var r := DeleteWordLeft(ws, l);
    assert l.text == l.text[..r.caret] + l.text[r.caret..l.caret] + l.text[l.caret..];
  }
}
