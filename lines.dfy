/** Line splitting as Python's `str.splitlines()` (without `keepends`) does it,
    restricted to the line feed as the only line break, plus the sequence
    reversal that `reversed(...)` performs. */
module Lines {

  /** All pieces of `s` between line feeds, including an empty last piece when
      `s` ends with a line feed; `Split("")` is `[""]`. */
  function Split(s: string): (r: seq<string>)
    ensures |r| >= 1
    decreases |s|
  {
    if s == [] then [[]]
    else
      var rest := Split(s[1..]);
      if s[0] == '\n' then [[]] + rest
      else [[s[0]] + rest[0]] + rest[1..]
  }

  /** The pieces joined back with a line feed between each two. */
  function Join(pieces: seq<string>): (s: string)
    requires pieces != []
    ensures pieces[0] <= s
    ensures |pieces| > 1 ==> |s| > |pieces[0]| && s[|pieces[0]|] == '\n'
    decreases |pieces|
  {
    if |pieces| == 1 then pieces[0]
    else pieces[0] + "\n" + Join(pieces[1..])
  }

  /** `s.splitlines()`: the empty text has no lines, and a final line feed
      ends the last line instead of starting an empty one. */
  function SplitLines(s: string): (r: seq<string>)
    ensures s == [] <==> r == []
  {
    if s == [] then []
    else if s[|s| - 1] == '\n' then Split(s[..|s| - 1])
    else Split(s)
  }

  /** `reversed(s)` as a sequence. */
  function Reverse<T>(s: seq<T>): (r: seq<T>)
    ensures |r| == |s|
  {
    if s == [] then [] else Reverse(s[1..]) + [s[0]]
  }

  /** No piece of a split contains a line feed. */
  lemma {:induction false} SplitPiecesHaveNoBreak(s: string)
    ensures forall i :: 0 <= i < |Split(s)| ==> '\n' !in Split(s)[i]
    decreases |s|
  {
    if s != [] {
      SplitPiecesHaveNoBreak(s[1..]);
    }
  }

  /** Joining the pieces of a split gives back the text. */
  lemma {:induction false} JoinSplit(s: string)
    ensures Join(Split(s)) == s
    decreases |s|
  {
    if s != [] {
      JoinSplit(s[1..]);
      assert s == [s[0]] + s[1..];
      SplitCons(s[0], s[1..], s);
      JoinSplitCons(s[0], Split(s[1..]), s[1..], Split(s));
    }
  }

  /** Joining the pieces after one step of `Split` puts the character back
      in front. */
  lemma JoinSplitCons(c: char, rest: seq<string>, t: string, p: seq<string>)
    requires rest != [] && Join(rest) == t
    requires p == if c == '\n' then [[]] + rest else [[c] + rest[0]] + rest[1..]
    ensures Join(p) == [c] + t
  {
    if c == '\n' {
      JoinCons([], rest, p);
    } else if |rest| == 1 {
      assert p == [[c] + rest[0]];
    } else {
      JoinCons([c] + rest[0], rest[1..], p);
      JoinCons(rest[0], rest[1..], rest);
    }
  }

  /** One step of `Join`, for pieces `q` known to be `[x] + p`. */
  lemma JoinCons(x: string, p: seq<string>, q: seq<string>)
    requires p != [] && q == [x] + p
    ensures Join(q) == x + "\n" + Join(p)
  {
    assert q[0] == x && q[1..] == p;
  }

  /** Splitting the join of line-feed-free pieces gives back the pieces. */
  lemma {:induction false} SplitJoin(pieces: seq<string>)
    requires pieces != []
    requires forall i :: 0 <= i < |pieces| ==> '\n' !in pieces[i]
    ensures Split(Join(pieces)) == pieces
    decreases |pieces|
  {
    if |pieces| == 1 {
      SplitOfLine(pieces[0]);
    } else {
      var rest := pieces[1..];
      assert forall i :: 0 <= i < |rest| ==> rest[i] == pieces[i + 1];
      SplitJoin(rest);
      assert pieces == [pieces[0]] + rest;
      JoinCons(pieces[0], rest, pieces);
      SplitAround(pieces[0], Join(rest));
      SplitOfLine(pieces[0]);
    }
  }

  /** A text without a line feed is a single piece. */
  lemma {:induction false} SplitOfLine(s: string)
    requires '\n' !in s
    ensures Split(s) == [s]
    decreases |s|
  {
    if s != [] {
      assert '\n' !in s[1..] by {
        forall i | 0 <= i < |s| - 1 ensures s[1..][i] != '\n' { assert s[1..][i] == s[i + 1]; }
      }
      SplitOfLine(s[1..]);
      assert [s[0]] + s[1..] == s;
    }
  }

  /** A line feed between two texts separates their pieces. */
  lemma {:induction false} SplitAround(a: string, b: string)
    ensures Split(a + "\n" + b) == Split(a) + Split(b)
    decreases |a|
  {
    var s := a + "\n" + b;
    if a == [] {
      SplitCons('\n', b, s);
      assert Split(a) == [[]];
    } else {
      var t := a[1..] + "\n" + b;
      assert s == [a[0]] + t;
      assert a == [a[0]] + a[1..];
      SplitCons(a[0], t, s);
      SplitCons(a[0], a[1..], a);
      SplitAround(a[1..], b);
      PrependPiece(a[0], Split(a[1..]), Split(b));
    }
  }

  /** One step of `Split`, for a text `s` known to be `[c] + t`. */
  lemma SplitCons(c: char, t: string, s: string)
    requires s == [c] + t
    ensures Split(s) == if c == '\n' then [[]] + Split(t) else [[c] + Split(t)[0]] + Split(t)[1..]
  {
    assert s[0] == c && s[1..] == t;
  }

  /** Extending the first piece of `p` by `c` commutes with appending `q`. */
  lemma PrependPiece(c: char, p: seq<string>, q: seq<string>)
    requires p != []
    ensures [[c] + (p + q)[0]] + (p + q)[1..] == ([[c] + p[0]] + p[1..]) + q
    ensures [[]] + (p + q) == ([[]] + p) + q
  {
    assert (p + q)[1..] == p[1..] + q;
  }

  /** A text that splits into two or more lines is its first line, a line
      feed and a non-empty remainder that splits into the other lines. */
  lemma SplitLinesFirst(c: string)
    requires |SplitLines(c)| >= 2
    ensures var first := SplitLines(c)[0];
      && |first| < |c| - 1
      && c == first + "\n" + c[|first| + 1..]
      && SplitLines(c[|first| + 1..]) == SplitLines(c)[1..]
  {
    var i := LineEnd(c);
    if i >= |c| - 1 {
      var h := c[..|c| - 1];
      forall j | 0 <= j < |h| ensures h[j] != '\n' {
        assert h[j] == c[j];
      }
      assert OneLine(c);
      OneLineIff(c);
      assert false;
    }
    var a, r := c[..i], c[i + 1..];
    assert c == a + "\n" + r by {
      assert c == c[..i] + [c[i]] + c[i + 1..];
    }
    assert '\n' !in a by {
      forall j | 0 <= j < i ensures a[j] != '\n' { assert a[j] == c[j]; }
    }
    SplitLinesAfterLine(a, r);
  }

  /** The position of the first line feed of `s`, or its length when it has
      none. */
  function LineEnd(s: string): (i: nat)
    ensures i <= |s|
    ensures forall j :: 0 <= j < i ==> s[j] != '\n'
    ensures i < |s| ==> s[i] == '\n'
    decreases |s|
  {
    if s == [] || s[0] == '\n' then 0 else 1 + LineEnd(s[1..])
  }

  /** A line followed by a line feed and a non-empty remainder is the first
      of the lines, and the remainder gives the others. */
  lemma SplitLinesAfterLine(a: string, r: string)
    requires '\n' !in a && r != []
    ensures SplitLines(a + "\n" + r) == [a] + SplitLines(r)
  {
    SplitLinesAround(a, r);
    SplitOfLine(a);
  }

  /** A final line feed only ends the last line. */
  lemma SplitLinesAppendBreak(x: string)
    ensures SplitLines(x + "\n") == Split(x)
  {
    assert (x + "\n")[..|x|] == x;
  }

  /** Without a final line feed the lines are the pieces. */
  lemma SplitLinesUnterminated(x: string)
    requires x != [] && x[|x| - 1] != '\n'
    ensures SplitLines(x) == Split(x)
  {
  }

  /** A line feed that is not the last character separates the pieces of
      what precedes it from the lines of what follows it. */
  lemma SplitLinesAround(x: string, r: string)
    requires r != []
    ensures SplitLines(x + "\n" + r) == Split(x) + SplitLines(r)
  {
    var s := x + "\n" + r;
    if r[|r| - 1] == '\n' {
      var r' := r[..|r| - 1];
      var m := x + "\n" + r';
      AppendAround(x, r', r, m, s);
      SplitLinesOfTerminated(m, s);
      SplitLinesOfTerminated(r', r);
      SplitAround(x, r');
    } else {
      assert s[|s| - 1] == r[|r| - 1];
      SplitLinesUnterminated(s);
      SplitLinesUnterminated(r);
      SplitAround(x, r);
    }
  }

  /** Moving the final line feed of `r` to the end of `x + "\n" + r`. */
  lemma AppendAround(x: string, r': string, r: string, m: string, s: string)
    requires r != [] && r[|r| - 1] == '\n' && r' == r[..|r| - 1]
    requires m == x + "\n" + r' && s == x + "\n" + r
    ensures r == r' + "\n" && s == m + "\n"
  {
    assert r == r' + "\n";
  }

  /** `SplitLinesAppendBreak` for a text `s` known to be `m + "\n"`. */
  lemma SplitLinesOfTerminated(m: string, s: string)
    requires s == m + "\n"
    ensures SplitLines(s) == Split(m)
  {
    SplitLinesAppendBreak(m);
  }

  /** `splitlines` drops exactly the one empty piece a final line feed leaves. */
  lemma SplitLinesDropsTrailingEmpty(s: string)
    requires s != [] && s[|s| - 1] == '\n'
    ensures Split(s) == SplitLines(s) + [[]]
  {
    var x := s[..|s| - 1];
    assert s == x + "\n";
    SplitAppendBreak(x);
    SplitLinesAppendBreak(x);
  }

  /** A final line feed adds one empty piece. */
  lemma SplitAppendBreak(x: string)
    ensures Split(x + "\n") == Split(x) + [[]]
  {
    assert x + "\n" + [] == x + "\n";
    SplitAround(x, []);
    assert Split([]) == [[]];
  }

  /** The lines of a text without a line feed anywhere but possibly at its
      end are that text without the line feed. */
  lemma SplitLinesOfOneLine(s: string)
    requires s != []
    requires '\n' !in s[..|s| - 1]
    ensures SplitLines(s) == [if s[|s| - 1] == '\n' then s[..|s| - 1] else s]
  {
    if s[|s| - 1] == '\n' {
      SplitOfLine(s[..|s| - 1]);
    } else {
      assert '\n' !in s by {
        forall i | 0 <= i < |s| ensures s[i] != '\n' {
          if i < |s| - 1 { assert s[..|s| - 1][i] == s[i]; }
        }
      }
      SplitOfLine(s);
    }
  }

  /** A single line, possibly ended by a line feed: no line feed anywhere
      but at the very end. */
  predicate OneLine(s: string) {
    s == [] || '\n' !in s[..|s| - 1]
  }

  /** `splitlines` gives at most one line exactly for single-line texts. */
  lemma OneLineIff(s: string)
    ensures OneLine(s) <==> |SplitLines(s)| <= 1
  {
    if s != [] {
      if OneLine(s) {
        SplitLinesOfOneLine(s);
      } else {
        var i :| 0 <= i < |s| - 1 && s[..|s| - 1][i] == '\n';
        assert s == s[..i] + "\n" + s[i + 1..];
        SplitLinesAround(s[..i], s[i + 1..]);
      }
    }
  }

  /** Reversal turns a concatenation around. */
  lemma {:induction false} ReverseAppend<T>(a: seq<T>, b: seq<T>)
    ensures Reverse(a + b) == Reverse(b) + Reverse(a)
    decreases |a|
  {
    if a == [] {
      assert a + b == b;
    } else {
      assert (a + b)[1..] == a[1..] + b;
      ReverseAppend(a[1..], b);
    }
  }

  /** Element `k` of the reversal is element `|s| - 1 - k` of the original. */
  lemma {:induction false} ReverseAt<T>(s: seq<T>, k: nat)
    requires k < |s|
    ensures Reverse(s)[k] == s[|s| - 1 - k]
    decreases |s|
  {
    if k < |s| - 1 {
      ReverseAt(s[1..], k);
    }
  }
}
