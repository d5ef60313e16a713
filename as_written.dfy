/** Four places of src/main.c as written, each beside the corrected
    definition the rest of the model uses. Of the palette-size loop only the
    guard and the sequence of indices it reads are modelled here, not the
    accumulation of the digits. */
module AsWritten {
  import opened Wrappers
  import opened GStrings
  import GfxExt
  import SymbolName

  /** A guint. */
  newtype guint = x: int | 0 <= x < 0x1_0000_0000

  /** Unsigned decrement: 0 wraps around to the largest guint. */
  function Dec(i: guint): guint
  {
    if i == 0 then 0xFFFF_FFFF else i - 1
  }

  // ---------------------------------------------------------------------
  // The digit-stripping loop

  /** Its guard: `c >= '0' || c <= '9'`, which every character satisfies. */
  predicate StripGuard(c: char)
  {
    c >= '0' || c <= '9'
  }

  /** The guard holds for every character: no character stops the loop. */
  lemma GuardAlwaysHolds()
    ensures forall c: char :: StripGuard(c)
  {
  }

  /** Where the loop, started with `tmpsz = n`, stops inside the string;
      None when it gets to evaluate the guard at index `tmpsz - 1` with
      `tmpsz == 0`: in guint arithmetic that is index 4294967295, outside
      the string. */
  function StripStop(s: string, n: nat): Option<nat>
    requires n <= |s|
  {
    if n == 0 then None
    else if StripGuard(s[n - 1]) then StripStop(s, n - 1)
    else Some(n)
  }

  /** As written, the loop never stops on a letter: since the guard always
      holds, from any start it reaches `tmpsz == 0` and evaluates the guard
      at index 4294967295, outside the selector. */
  lemma {:induction false} StripRunsOff(s: string, n: nat)
    requires n <= |s|
    ensures StripStop(s, n) == None
    decreases n
  {
    if n > 0 {
      GuardAlwaysHolds();
      StripRunsOff(s, n - 1);
    }
  }

  /** On `iml64` the intended loop stops after the letters; the loop as
      written does not stop at all. */
  lemma StripCounterexample()
    ensures StripStop("iml64", 5) == None
    ensures GfxExt.DigitsStart("iml64") == 3
  {
  }

  // ---------------------------------------------------------------------
  // The palette-size loop

  /** Its guard `i >= tmpsz` on guints. */
  predicate PaletteGuard(i: guint, tmpsz: guint)
  {
    i >= tmpsz
  }

  /** The index the loop reads at its `k`-th pass, started at
      `tmpsz_wpal - 1`. */
  function PaletteIndex(wpal: guint, k: nat): guint
  {
    if k == 0 then Dec(wpal) else Dec(PaletteIndex(wpal, k - 1))
  }

  /** With a selector that is all digits, `tmpsz` is 0, the guard holds for
      every guint, and the pass after index 0 reads index 4294967295: for
      `64` that is the third pass. */
  lemma PaletteUnderflow()
    ensures forall i: guint :: PaletteGuard(i, 0)
    ensures PaletteIndex(2, 0) == 1 && PaletteIndex(2, 1) == 0
    ensures PaletteIndex(2, 2) == 0xFFFF_FFFF && PaletteIndex(2, 2) as int >= |"64"|
  {
  }

  // ---------------------------------------------------------------------
  // The no-extension guard of main

  /** Its guard: `tmpsz == 0`, after which piece 1 is read. */
  predicate NoExtensionGuard(v: seq<string>)
  {
    |v| == 0
  }

  /** For `data/hero` the kept text `hero` has no dot and splits into one
      piece: the guard lets it through and piece 1 does not exist. The
      corrected block gives exit status 3. */
  lemma NoExtensionCounterexample()
    ensures var v := GSplit2(SymbolName.AfterDataRoot("data/hero"), ".");
      !NoExtensionGuard(v) && |v| == 1
    ensures SymbolName.SymbolSpec("data/hero") == Err(SymbolName.NoExtension)
  {
  }

  // ---------------------------------------------------------------------
  // The last piece after `data/`

  /** The index `tmpsz - 1` of the last piece, in guint arithmetic. */
  function LastIndex(v: seq<string>): guint
    requires |v| < 0x1_0000_0000
  {
    ((|v| - 1) % 0x1_0000_0000) as guint
  }

  /** The empty argument splits into no pieces, so the read of the last
      piece is at index 4294967295; the corrected block keeps the empty
      text and gives exit status 3. */
  lemma EmptyArgumentCounterexample()
    ensures GSplit("", SymbolName.DataRoot) == []
    ensures LastIndex(GSplit("", SymbolName.DataRoot)) == 0xFFFF_FFFF
    ensures SymbolName.AfterDataRoot("") == ""
    ensures SymbolName.SymbolSpec("") == Err(SymbolName.NoExtension)
  {
  }
}
