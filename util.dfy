/** The arithmetic and text helpers both variants share: `Min`, `Max`, Go's
    truncating division, `TruncateString` and `WrapText`. */
module Util {
  import opened GoText

  function Min(a: int, b: int): (r: int)
    ensures r <= a && r <= b
    ensures r == a || r == b
  {
    if a < b then a else b
  }

  function Max(a: int, b: int): (r: int)
    ensures r >= a && r >= b
    ensures r == a || r == b
  {
    if a > b then a else b
  }

  /** Go's `/` on integers: the quotient truncated toward zero (Dafny's `/`
      rounds toward negative infinity for a negative dividend). */
  function Quo(a: int, b: int): (q: int)
    requires b > 0
    ensures a >= 0 ==> 0 <= q * b <= a < q * b + b
    ensures a < 0 ==> q * b - b < a <= q * b <= 0
  {
    if a >= 0 then
      DivBounds(a, b);
      a / b
    else
      var n := (-a) / b;
      DivBounds(-a, b);
      NegMul(n, b);
      -n
  }

  lemma DivBounds(n: nat, b: int)
    requires b > 0
    ensures 0 <= (n / b) * b <= n < (n / b) * b + b
  {
    assert n == (n / b) * b + n % b;
  }

  /** Dividing an exact multiple gives back the factor. */
  lemma QuoOfMultiple(p: nat, b: int)
    requires b > 0
    ensures Quo(p * b, b) == p
  {
    NonNegMul(p, b);
    var q := Quo(p * b, b);
    assert (p - q) * b == p * b - q * b;
    ZeroFactor(p - q, b);
  }

  lemma NonNegMul(x: nat, b: int)
    requires b > 0
    ensures x * b >= 0
  {
  }

  lemma ZeroFactor(x: int, b: int)
    requires b > 0 && 0 <= x * b < b
    ensures x == 0
  {
  }

  lemma NegMul(n: int, b: int)
    ensures (-n) * b == -(n * b)
  {
  }

  /** `TruncateString`: the text itself when it fits, otherwise its first
      `maxLen - 3` bytes followed by "...". Go panics on the slice when a text
      longer than `maxLen` meets a `maxLen` below 3. */
  function TruncateString(s: string, maxLen: int): (r: string)
    requires |s| <= maxLen || maxLen >= 3
    ensures |s| <= maxLen ==> r == s
    ensures |s| > maxLen ==>
              && |r| == maxLen
              && r[..maxLen - 3] == s[..maxLen - 3]
              && r[maxLen - 3..] == "..."
  {
    if |s| <= maxLen then s else s[..maxLen - 3] + "..."
  }

  /** Truncating a second time changes nothing. */
  lemma TruncateIdempotent(s: string, maxLen: int)
    requires |s| <= maxLen || maxLen >= 3
    ensures TruncateString(TruncateString(s, maxLen), maxLen) == TruncateString(s, maxLen)
  {
  }

  /** The width-sized pieces the inner loop of `WrapText` cuts from a word
      longer than the width, and what is left of the word afterwards. */
  function Chunks(w: string, width: nat): (cs: seq<string>)
    requires width > 0
    ensures forall k :: 0 <= k < |cs| ==> |cs[k]| == width
    decreases |w|
  {
    if |w| > width then [w[..width]] + Chunks(w[width..], width) else []
  }

  function Rest(w: string, width: nat): (r: string)
    requires width > 0
    ensures |r| <= width
    ensures |w| > 0 ==> |r| > 0
    decreases |w|
  {
    if |w| > width then Rest(w[width..], width) else w
  }

  lemma {:induction false} ChunksAndRest(w: string, width: nat)
    requires width > 0
    ensures Concat(Chunks(w, width)) + Rest(w, width) == w
    decreases |w|
  {
    if |w| > width {
      ChunksAndRest(w[width..], width);
      assert w == w[..width] + w[width..];
    }
  }

  /** One turn of the outer loop of `WrapText`: the word `w` either extends the
      current line, or starts a new one (cut into width-sized pieces first when
      the current line is empty). Yields the new current line and finished lines. */
  function Step(w: string, width: nat, current: string, lines: seq<string>): (r: (string, seq<string>))
    requires width > 0
    ensures |r.1| >= |lines| && r.1[..|lines|] == lines
  {
    if |current| + |w| + 1 > width then
      if current != "" then (w, lines + [current])
      else (Rest(w, width), lines + Chunks(w, width))
    else
      (if current != "" then current + " " + w else w, lines)
  }

  /** The outer loop of `WrapText` from some word on: `current` is the line
      being built and `lines` the lines already finished. */
  function WrapFrom(words: seq<string>, width: nat, current: string, lines: seq<string>): (r: seq<string>)
    requires width > 0
    ensures |r| >= |lines| && r[..|lines|] == lines
    decreases |words|
  {
    if words == [] then
      if current != "" then lines + [current] else lines
    else
      var next := Step(words[0], width, current, lines);
      WrapFrom(words[1..], width, next.0, next.1)
  }

  /** `WrapText`: the text itself, as one line, when the width is not positive
      or the text holds no words; otherwise the words laid out greedily. */
  function Wrap(text: string, width: int): (r: seq<string>)
    ensures width <= 0 || Fields(text) == [] ==> r == [text]
  {
    if width <= 0 then [text]
    else
      var words := Fields(text);
      if words == [] then [text] else WrapFrom(words, width, "", [])
  }

  method WrapText(text: string, width: int) returns (lines: seq<string>)
    ensures lines == Wrap(text, width)
  {
    if width <= 0 {
      return [text];
    }
    var words := Fields(text);
    if |words| == 0 {
      return [text];
    }
    lines := [];
    var current := "";
    for i := 0 to |words|
      invariant WrapFrom(words[i..], width, current, lines) == Wrap(text, width)
    {
      var word := words[i];
      assert words[i..][0] == word && words[i..][1..] == words[i + 1..];
      ghost var next := Step(word, width, current, lines);
      assert WrapFrom(words[i..], width, current, lines) == WrapFrom(words[i + 1..], width, next.0, next.1);
      if |current| + |word| + 1 > width {
        if current != "" {
          lines := lines + [current];
          current := word;
        } else {
          ghost var original := word;
          ghost var before := lines;
          while |word| > width
            invariant before + Chunks(original, width) == lines + Chunks(word, width)
            invariant Rest(word, width) == Rest(original, width)
            decreases |word|
          {
            lines := lines + [word[..width]];
            word := word[width..];
          }
          assert Chunks(word, width) == [] && Rest(word, width) == word;
          assert lines == before + Chunks(original, width);
          current := word;
        }
      } else {
        if current != "" {
          current := current + " " + word;
        } else {
          current := word;
        }
      }
    }
    if current != "" {
      lines := lines + [current];
    }
  }

  /** A line as `WrapText` lays it out: non-empty, no white space at either end,
      and its only white space single ' ' bytes between words. */
  predicate SingleSpaced(line: string) {
    && line != []
    && !IsAsciiSpace(line[0])
    && !IsAsciiSpace(line[|line| - 1])
    && forall i :: 0 <= i < |line| && IsAsciiSpace(line[i]) ==>
         line[i] == ' ' && i + 1 < |line| && !IsAsciiSpace(line[i + 1])
  }

  /** A line longer than the width is one word that was never cut. */
  predicate WellWrapped(line: string, width: nat) {
    SingleSpaced(line) && (|line| > width ==> NoSpace(line))
  }

  lemma JoinWithSpace(current: string, w: string)
    requires SingleSpaced(current) && w != [] && NoSpace(w)
    ensures SingleSpaced(current + " " + w)
  {
    var line := current + " " + w;
    forall i | 0 <= i < |line| && IsAsciiSpace(line[i])
      ensures line[i] == ' ' && i + 1 < |line| && !IsAsciiSpace(line[i + 1])
    {
      if i < |current| {
        assert line[i] == current[i];
        if i + 1 < |current| {
          assert line[i + 1] == current[i + 1];
        }
      }
    }
  }

  lemma StepWellWrapped(w: string, width: nat, current: string, lines: seq<string>)
    requires width > 0 && w != [] && NoSpace(w)
    requires forall k :: 0 <= k < |lines| ==> WellWrapped(lines[k], width)
    requires current == [] || WellWrapped(current, width)
    ensures var next := Step(w, width, current, lines);
      && (next.0 == [] || WellWrapped(next.0, width))
      && forall k :: 0 <= k < |next.1| ==> WellWrapped(next.1[k], width)
  {
    assert SingleSpaced(w);
    if |current| + |w| + 1 > width {
      if current == "" {
        ChunksWellWrapped(w, width);
        RestWellWrapped(w, width);
      }
    } else if current != "" {
      JoinWithSpace(current, w);
    }
  }

  lemma {:induction false} WrapFromWellWrapped(words: seq<string>, width: nat, current: string, lines: seq<string>)
    requires width > 0
    requires forall k :: 0 <= k < |words| ==> words[k] != [] && NoSpace(words[k])
    requires forall k :: 0 <= k < |lines| ==> WellWrapped(lines[k], width)
    requires current == [] || WellWrapped(current, width)
    ensures forall k :: 0 <= k < |WrapFrom(words, width, current, lines)| ==>
              WellWrapped(WrapFrom(words, width, current, lines)[k], width)
    decreases |words|
  {
    if words != [] {
      var next := Step(words[0], width, current, lines);
      StepWellWrapped(words[0], width, current, lines);
      WrapFromWellWrapped(words[1..], width, next.0, next.1);
    }
  }

  lemma {:induction false} ChunksWellWrapped(w: string, width: nat)
    requires width > 0 && NoSpace(w)
    ensures forall k :: 0 <= k < |Chunks(w, width)| ==> WellWrapped(Chunks(w, width)[k], width)
    decreases |w|
  {
    if |w| > width {
      ChunksWellWrapped(w[width..], width);
      assert SingleSpaced(w[..width]);
    }
  }

  lemma {:induction false} RestWellWrapped(w: string, width: nat)
    requires width > 0 && w != [] && NoSpace(w)
    ensures WellWrapped(Rest(w, width), width)
    decreases |w|
  {
    if |w| > width {
      RestWellWrapped(w[width..], width);
    }
  }

  /** Every line of a wrapped text is single-spaced, and only a word that did
      not fit after other words can make a line longer than the width. */
  lemma WrapLinesWellWrapped(text: string, width: int)
    requires width > 0 && Fields(text) != []
    ensures forall k :: 0 <= k < |Wrap(text, width)| ==> WellWrapped(Wrap(text, width)[k], width)
  {
    WrapFromWellWrapped(Fields(text), width, "", []);
  }

  lemma FlatAppend(a: seq<string>, b: seq<string>)
    ensures NonSpace(Concat(a + b)) == NonSpace(Concat(a)) + NonSpace(Concat(b))
  {
    ConcatAppend(a, b);
    NonSpaceAppend(Concat(a), Concat(b));
  }

  lemma FlatOne(x: string)
    ensures Concat([x]) == x
  {
  }

  lemma StepKeepsNonSpace(w: string, width: nat, current: string, lines: seq<string>)
    requires width > 0 && NoSpace(w)
    ensures var next := Step(w, width, current, lines);
      NonSpace(Concat(next.1)) + NonSpace(next.0) == NonSpace(Concat(lines)) + NonSpace(current) + w
  {
    NonSpaceOfWord(w);
    if |current| + |w| + 1 > width {
      if current != "" {
        FlatAppend(lines, [current]);
        FlatOne(current);
      } else {
        var cs := Chunks(w, width);
        FlatAppend(lines, cs);
        ChunksAndRest(w, width);
        NonSpaceAppend(Concat(cs), Rest(w, width));
      }
    } else if current != "" {
      NonSpaceAppend(current + " ", w);
      NonSpaceAppend(current, " ");
    }
  }

  lemma {:induction false} WrapFromKeepsNonSpace(words: seq<string>, width: nat, current: string, lines: seq<string>)
    requires width > 0
    requires forall k :: 0 <= k < |words| ==> NoSpace(words[k])
    ensures NonSpace(Concat(WrapFrom(words, width, current, lines)))
         == NonSpace(Concat(lines)) + NonSpace(current) + Concat(words)
    decreases |words|
  {
    if words == [] {
      if current != "" {
        FlatAppend(lines, [current]);
        FlatOne(current);
      }
    } else {
      var next := Step(words[0], width, current, lines);
      StepKeepsNonSpace(words[0], width, current, lines);
      WrapFromKeepsNonSpace(words[1..], width, next.0, next.1);
      assert words == [words[0]] + words[1..];
      ConcatAppend([words[0]], words[1..]);
      FlatOne(words[0]);
    }
  }

  /** Wrapping keeps every non-space byte of the text, in order. */
  lemma WrapKeepsNonSpace(text: string, width: int)
    requires width > 0 && Fields(text) != []
    ensures NonSpace(Concat(Wrap(text, width))) == NonSpace(text)
  {
    var words := Fields(text);
    forall k | 0 <= k < |words|
      ensures NoSpace(words[k])
    {
    }
    WrapFromKeepsNonSpace(words, width, "", []);
    FieldsKeepNonSpace(text);
  }

  /** A long word after another word is moved to its own line uncut, so that
      line is wider than the width; the same word first on a line is cut. */
  lemma LongWordExamples()
    ensures Wrap("a bbbbb", 3) == ["a", "bbbbb"]
    ensures Wrap("bbbbb", 3) == ["bbb", "bb"]
  {
    var t, w := "a bbbbb", "bbbbb";
    assert t[..1] == "a" && t[2..] == w && w[3..] == "bb" && w[..3] == "bbb";
    assert WordLen(w) == 5 && w[..5] == w && w[5..] == [];
    assert Fields(w) == [w];
    assert WordLen(t) == 1;
    assert Fields(t[1..]) == Fields(w);
    assert Fields(t) == ["a", w];
    assert Chunks("bb", 3) == [];
    assert Chunks(w, 3) == ["bbb"];
    assert Rest(w, 3) == "bb";
  }
}
