/** The symbol-name block of main (src/main.c): keep the text after the
    last `data/`, take what follows its first dot, and turn every slash of
    that into an underscore. */
module SymbolName {
  import opened Wrappers
  import opened GStrings

  /** The conventional data root that leading directories are cut at. */
  const DataRoot := "data/"

  /** The one error of the block: the remaining text has no dot. */
  datatype SymbolError = NoExtension
  {
    /** The exit status main returns for it. */
    function ExitCode(): nat { 3 }
  }

  /** The last piece of splitting `path` at every `data/`; an empty argument,
      which splits into no pieces, gives the empty text. */
  function AfterDataRoot(path: string): string
  {
    var v := GSplit(path, DataRoot);
    if v == [] then "" else v[|v| - 1]
  }

  /** `s` with every `/` replaced by `_`. */
  function Underscored(s: string): string
  {
    if s == [] then [] else [if s[0] == '/' then '_' else s[0]] + Underscored(s[1..])
  }

  /** The reference definition of the block: the text after the first dot
      of what follows the last `data/`, with slashes made underscores. */
  function SymbolSpec(arg: string): Result<string, SymbolError>
  {
    var v := GSplit2(AfterDataRoot(arg), ".");
    if |v| < 2 then Err(NoExtension) else Ok(Underscored(v[1]))
  }

  /** The in-place loop over the copied string. */
  method ReplaceSlashes(a: array<char>)
    modifies a
    ensures a[..] == Underscored(old(a[..]))
  {
    for i := 0 to a.Length
      invariant forall k :: 0 <= k < i ==> a[k] == (if old(a[k]) == '/' then '_' else old(a[k]))
      invariant forall k :: i <= k < a.Length ==> a[k] == old(a[k])
    {
      if a[i] == '/' {
        a[i] := '_';
      }
    }
    ghost var was := old(a[..]);
    UnderscoredAt(was);
    assert a[..] == Underscored(was);
  }

  /** Lines 203-234 of main: the symbolic name, or exit status 3 when there
      is no dot. */
  method DeriveSymbol(arg: string) returns (r: Result<string, SymbolError>)
    ensures r == SymbolSpec(arg)
  {
    var tmpstrv := GSplit(arg, DataRoot);
    var tmpsz := |tmpstrv|;
    var tmpstr := if tmpsz == 0 then "" else tmpstrv[tmpsz - 1];
    tmpstrv := GSplit2(tmpstr, ".");
    tmpsz := |tmpstrv|;
    if tmpsz < 2 {
      return Err(NoExtension);
    }
    var piece := tmpstrv[1];
    var name := new char[|piece|](i requires 0 <= i < |piece| => piece[i]);
    assert name[..] == piece;
    ReplaceSlashes(name);
    return Ok(name[..]);
  }

  // ---------------------------------------------------------------------
  // Properties

  /** The replacement keeps the length, turns each `/` into `_`, leaves every
      other character as it is, and so leaves no `/`. */
  lemma {:induction false} UnderscoredAt(s: string)
    ensures |Underscored(s)| == |s|
    ensures forall k :: 0 <= k < |s| ==>
      Underscored(s)[k] == (if s[k] == '/' then '_' else s[k])
    ensures '/' !in Underscored(s)
    decreases |s|
  {
    if s != [] {
      UnderscoredAt(s[1..]);
      assert forall k :: 1 <= k < |s| ==> Underscored(s)[k] == Underscored(s[1..])[k - 1];
    }
  }

  /** A string without slashes is its own replacement. */
  lemma UnderscoredNoSlash(s: string)
    requires '/' !in s
    ensures Underscored(s) == s
  {
  }

  /** What is kept of the path is a suffix of it that holds no `data/`:
      either the whole path (when `data/` does not occur) or the text after
      an occurrence of `data/`. */
  lemma AfterDataRootSpec(path: string)
    ensures var r := AfterDataRoot(path);
      && |r| <= |path| && path[|path| - |r|..] == r
      && Free(r, DataRoot)
      && (r == path || (|r| + |DataRoot| <= |path| && path[|path| - |r| - |DataRoot|..|path| - |r|] == DataRoot))
      && (Free(path, DataRoot) ==> r == path)
  {
    var d := DataRoot;
    var r := AfterDataRoot(path);
    if path == "" {
      forall i: nat | i <= |r| ensures !OccursAt(r, d, i) { }
    } else {
      var v := Pieces(path, d);
      PiecesFree(path, d);
      JoinPieces(path, d);
      if |v| > 1 {
        JoinLast(v, d);
        var front := Join(v[..|v| - 1], d);
        assert path == front + d + r;
        assert path[|path| - |r|..] == r;
        assert path[|path| - |r| - |d|..|path| - |r|] == d;
        assert OccursAt(path, d, |v[0]|);
      }
    }
  }

  /** A name is derived exactly when the kept text has a dot; the name is
      what follows the first dot, with each `/` made `_`. */
  lemma SymbolSpecFacts(arg: string)
    ensures SymbolSpec(arg).Ok? <==> '.' in AfterDataRoot(arg)
    ensures SymbolSpec(arg).Err? ==> SymbolSpec(arg).error.ExitCode() == 3
    ensures SymbolSpec(arg).Ok? ==>
      var tail := AfterDataRoot(arg);
      var v := GSplit2(tail, ".");
      var name := SymbolSpec(arg).value;
      && tail == v[0] + "." + v[1] && '.' !in v[0]
      && |name| == |v[1]| && '/' !in name
      && forall k :: 0 <= k < |name| ==> name[k] == (if v[1][k] == '/' then '_' else v[1][k])
  {
    var tail := AfterDataRoot(arg);
    GSplit2Spec(tail, ".");
    FreeSingle(tail, '.');
    var v := GSplit2(tail, ".");
    if |v| == 2 {
      FreeSingle(v[0], '.');
      UnderscoredAt(v[1]);
    }
  }

  /** A text in which the first character of the delimiter never occurs is
      free of the delimiter. */
  lemma FreeOfFirst(s: string, d: string)
    requires d != "" && d[0] !in s
    ensures Free(s, d)
  {
  }

  /** The example path `data/sprites/hero.8t.iml64.png` keeps `sprites/hero.8t.iml64.png`
      and yields the name `8t.iml64.png`: the part after the first dot. */
  lemma HeroSymbol()
    ensures AfterDataRoot("data/sprites/hero.8t.iml64.png") == "sprites/hero.8t.iml64.png"
    ensures SymbolSpec("data/sprites/hero.8t.iml64.png") == Ok("8t.iml64.png")
  {
    var path := "data/sprites/hero.8t.iml64.png";
    var rest := "sprites/hero.8t.iml64.png";
    assert path == DataRoot + rest && path[..5] == DataRoot && path[5..] == rest;
    FreeOfFirst(rest, DataRoot);
    PiecesOfFreeText(rest, DataRoot);
    assert Pieces(path, DataRoot) == [""] + [rest];
    HeroExtension();
  }

  lemma HeroExtension()
    ensures GSplit2("sprites/hero.8t.iml64.png", ".") == ["sprites/hero", "8t.iml64.png"]
    ensures Underscored("8t.iml64.png") == "8t.iml64.png"
  {
    assert "sprites/hero.8t.iml64.png" == "sprites/hero" + "." + "8t.iml64.png";
    SplitAtFirstDot("sprites/hero", "8t.iml64.png");
    UnderscoredNoSlash("8t.iml64.png");
  }
}
