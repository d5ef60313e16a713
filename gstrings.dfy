/** The GLib string-splitting calls the converter relies on (g_strsplit and
    g_strv_length), as pure functions over strings. */
module GStrings {

  /** The delimiter `d` occurs in `s` starting at index `i`. */
  predicate OccursAt(s: string, d: string, i: nat)
  {
    i + |d| <= |s| && s[i..i + |d|] == d
  }

  /** The delimiter `d` occurs nowhere in `s`. */
  predicate Free(s: string, d: string)
  {
    forall i: nat | i <= |s| :: !OccursAt(s, d, i)
  }

  /** Unbounded splitting of a non-empty string: scan left to right, cut at
      each occurrence of `d` and drop it; the text after the last occurrence
      is the final piece (possibly empty). */
  function Pieces(s: string, d: string): (p: seq<string>)
    requires d != ""
    ensures |p| >= 1
    ensures |p[0]| <= |s| && s[..|p[0]|] == p[0]
    ensures |p| > 1 ==> OccursAt(s, d, |p[0]|)
    decreases |s|
  {
    if |s| < |d| then [s]
    else if s[..|d|] == d then [""] + Pieces(s[|d|..], d)
    else
      var q := Pieces(s[1..], d);
      [[s[0]] + q[0]] + q[1..]
  }

  /** g_strsplit(s, d, -1): the empty string splits into no pieces at all. */
  function GSplit(s: string, d: string): (v: seq<string>)
    requires d != ""
    ensures s == "" <==> v == []
  {
    if s == "" then [] else Pieces(s, d)
  }

  /** g_strsplit(s, d, 2): at most one cut, at the first occurrence of `d`. */
  function GSplit2(s: string, d: string): (v: seq<string>)
    requires d != ""
    ensures |v| <= 2
    ensures s == "" <==> v == []
  {
    if s == "" then []
    else
      var p := Pieces(s, d);
      if |p| == 1 then [s] else [p[0], s[|p[0]| + |d|..]]
  }

  /** Pieces put back together with the delimiter between them. */
  function Join(p: seq<string>, d: string): string
    requires |p| >= 1
  {
    if |p| == 1 then p[0] else p[0] + d + Join(p[1..], d)
  }

  /** Number of occurrences of `c` in `s`. */
  function CountChar(s: string, c: char): nat
  {
    if s == [] then 0 else (if s[0] == c then 1 else 0) + CountChar(s[1..], c)
  }

  /** Splitting loses nothing: joining the pieces gives back the input. */
  lemma {:induction false} JoinPieces(s: string, d: string)
    requires d != ""
    ensures Join(Pieces(s, d), d) == s
    decreases |s|
  {
    if |s| < |d| {
    } else if s[..|d|] == d {
      var q := Pieces(s[|d|..], d);
      JoinPieces(s[|d|..], d);
      JoinAfterEmpty(q, d);
      assert s == d + s[|d|..];
    } else {
      var q := Pieces(s[1..], d);
      JoinPieces(s[1..], d);
      JoinAfterChar(s[0], q, d);
      assert s == [s[0]] + s[1..];
    }
  }

  lemma JoinAfterEmpty(q: seq<string>, d: string)
    requires |q| >= 1
    ensures Join([""] + q, d) == d + Join(q, d)
  {
    assert ([""] + q)[1..] == q;
  }

  lemma JoinAfterChar(c: char, q: seq<string>, d: string)
    requires |q| >= 1
    ensures Join([[c] + q[0]] + q[1..], d) == [c] + Join(q, d)
  {
    var p := [[c] + q[0]] + q[1..];
    assert p[1..] == q[1..];
  }

  /** No piece contains the delimiter. */
  lemma {:induction false} PiecesFree(s: string, d: string)
    requires d != ""
    ensures forall k :: 0 <= k < |Pieces(s, d)| ==> Free(Pieces(s, d)[k], d)
    decreases |s|
  {
    var p := Pieces(s, d);
    if |s| < |d| {
      forall i: nat | i <= |s| ensures !OccursAt(s, d, i) { }
    } else if s[..|d|] == d {
      PiecesFree(s[|d|..], d);
      assert forall k :: 1 <= k < |p| ==> p[k] == Pieces(s[|d|..], d)[k - 1];
      forall i: nat | i <= |p[0]| ensures !OccursAt(p[0], d, i) { }
    } else {
      var q := Pieces(s[1..], d);
      PiecesFree(s[1..], d);
      assert forall k :: 1 <= k < |p| ==> p[k] == q[k];
      var h := [s[0]] + q[0];
      assert h == s[..|h|];
      forall i: nat | i <= |h| ensures !OccursAt(h, d, i) {
        if i == 0 {
          if |d| <= |h| {
            assert h[..|d|] == s[..|d|];
          }
        } else if OccursAt(h, d, i) {
          assert h[i..i + |d|] == q[0][i - 1..i - 1 + |d|];
          assert OccursAt(q[0], d, i - 1);
        }
      }
    }
  }

  /** Joining a list of two or more pieces ends with the delimiter and the
      last piece. */
  lemma {:induction false} JoinLast(p: seq<string>, d: string)
    requires |p| >= 2
    ensures Join(p, d) == Join(p[..|p| - 1], d) + d + p[|p| - 1]
    decreases |p|
  {
    if |p| > 2 {
      JoinLast(p[1..], d);
      assert p[1..][..|p| - 2] == p[..|p| - 1][1..];
    }
  }

  /** Splitting on a one-character delimiter yields one more piece than the
      number of occurrences of that character. */
  lemma {:induction false} PiecesCount(s: string, c: char)
    ensures |Pieces(s, [c])| == CountChar(s, c) + 1
    decreases |s|
  {
    if s != [] {
      PiecesCount(s[1..], c);
      if s[0] == c {
        assert s[..1] == [c];
        assert s[1..] == s[|[c]|..];
      }
    }
  }

  /** For a one-character delimiter, splitting distributes over a
      concatenation made at one occurrence of the delimiter. */
  lemma {:induction false} PiecesConcat(a: string, c: char, b: string)
    ensures Pieces(a + [c] + b, [c]) == Pieces(a, [c]) + Pieces(b, [c])
    decreases |a|
  {
    var s := a + [c] + b;
    if a == [] {
      assert s == [c] + b;
      PiecesStep(s, c);
      PiecesStep([], c);
    } else {
      assert s[0] == a[0] && s[1..] == a[1..] + [c] + b;
      PiecesConcat(a[1..], c, b);
      PiecesStep(s, c);
      PiecesStep(a, c);
    }
  }

  /** Splitting `a.b` at dots gives the pieces of `a`, then those of `b`. */
  lemma PiecesAtDot(a: string, b: string)
    ensures Pieces(a + "." + b, ".") == Pieces(a, ".") + Pieces(b, ".")
  {
    assert a + "." + b == a + ['.'] + b;
    PiecesConcat(a, '.', b);
  }

  /** One step of the one-character split, by the first character. */
  lemma PiecesStep(s: string, c: char)
    ensures s == [] ==> Pieces(s, [c]) == [""]
    ensures s != [] && s[0] == c ==> Pieces(s, [c]) == [""] + Pieces(s[1..], [c])
    ensures s != [] && s[0] != c ==>
      var q := Pieces(s[1..], [c]);
      Pieces(s, [c]) == [[s[0]] + q[0]] + q[1..]
  {
  }

  /** A string free of the one-character delimiter is a single piece. */
  lemma {:induction false} PiecesOfFree(s: string, c: char)
    requires c !in s
    ensures Pieces(s, [c]) == [s]
  {
    PiecesCount(s, c);
    CountZero(s, c);
    JoinPieces(s, [c]);
  }

  /** A text free of the delimiter is a single piece. */
  lemma PiecesOfFreeText(s: string, d: string)
    requires d != "" && Free(s, d)
    ensures Pieces(s, d) == [s]
  {
    JoinPieces(s, d);
  }

  /** Splitting once at a dot cuts at the first one. */
  lemma SplitAtFirstDot(head: string, rest: string)
    requires '.' !in head
    ensures GSplit2(head + "." + rest, ".") == [head, rest]
  {
    var s := head + "." + rest;
    assert s == head + ['.'] + rest;
    PiecesConcat(head, '.', rest);
    PiecesOfFree(head, '.');
    assert s[|head| + 1..] == rest;
  }

  lemma {:induction false} CountZero(s: string, c: char)
    ensures CountChar(s, c) == 0 <==> c !in s
    decreases |s|
  {
    if s != [] {
      CountZero(s[1..], c);
      assert s == [s[0]] + s[1..];
    }
  }

  /** A one-character delimiter occurs in `s` exactly when `c` is in `s`. */
  lemma FreeSingle(s: string, c: char)
    ensures Free(s, [c]) <==> c !in s
  {
    if c in s {
      var i :| 0 <= i < |s| && s[i] == c;
      assert OccursAt(s, [c], i);
    } else {
      forall i: nat | i <= |s| ensures !OccursAt(s, [c], i) {
        if i < |s| {
          assert s[i..i + 1] == [s[i]];
        }
      }
    }
  }

  /** What g_strsplit(s, d, 2) promises: no piece when `s` is empty; the
      whole string when `d` does not occur; otherwise the text before the
      first occurrence and everything after it. */
  lemma GSplit2Spec(s: string, d: string)
    requires d != ""
    ensures var v := GSplit2(s, d);
      && (|v| == 1 ==> v[0] == s && Free(s, d))
      && (|v| == 2 ==> v[0] + d + v[1] == s && Free(v[0], d))
      && (|v| == 2 <==> !Free(s, d))
  {
    var v := GSplit2(s, d);
    if s != "" {
      var p := Pieces(s, d);
      PiecesFree(s, d);
      JoinPieces(s, d);
      if |p| > 1 {
        assert OccursAt(s, d, |p[0]|);
        assert s == s[..|p[0]|] + s[|p[0]|..|p[0]| + |d|] + s[|p[0]| + |d|..];
      }
    } else {
      assert !OccursAt(s, d, 0);
      forall i: nat | i <= |s| ensures !OccursAt(s, d, i) { }
    }
  }
}
