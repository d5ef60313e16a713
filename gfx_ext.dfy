/** The filename-extension metadata parser of the converter (parse_ext in
    src/main.c). A name such as `hero.8t.iml64.png` carries the form field
    (`8t`: bit depth and layout) and the output selector (`iml64`: outputs,
    their compression and the palette size) in its two segments before the
    last one. The name is a `string` in which each `char` stands for one
    non-NUL byte of the C string, so a UTF-8 name is given byte by byte. */
module GfxExt {
  import opened Wrappers
  import opened GStrings

  /** Error domain of every extension-metadata error. */
  const ErrorDomain: nat := 6900

  /** Bits per pixel; declared in the order that makes BPP_1 = 0 .. BPP_8 = 3. */
  datatype Bpp = Bpp1 | Bpp2 | Bpp4 | Bpp8

  /** A guint8. */
  newtype uint8 = x: int | 0 <= x < 0x100

  /** A guint. */
  const GuintModulus: int := 0x1_0000_0000

  /** The `gfxprops` descriptor: one-bit emit and compression flags, tile
      reduction and tile layout, palette size and bit depth. */
  datatype GfxProps = GfxProps(
    img: bool, imgLz: bool,
    tilemap: bool, tilemapLz: bool,
    pal: bool, palLz: bool,
    reduce: bool, tile: bool,
    palsz: uint8, bpp: Bpp)

  /** The descriptor before parsing: every flag off, palette size 0, BPP_1. */
  const Blank := GfxProps(false, false, false, false, false, false, false, false, 0, Bpp1)

  /** The numbered errors of parse_ext. */
  datatype ParseError =
    | TooFewSegments
    | InvalidOutputSelector(ch: char)
    | InvalidFormField(field: string)
    | InvalidBpp(ch: char)
    | InvalidLayout(ch: char)
  {
    /** The GError domain every error is reported in. */
    function Domain(): nat
    {
      ErrorDomain
    }

    /** The code within ErrorDomain; bit depth and layout share code 4. */
    function Code(): nat
    {
      match this
      case TooFewSegments => 1
      case InvalidOutputSelector(_) => 2
      case InvalidFormField(_) => 3
      case InvalidBpp(_) => 4
      case InvalidLayout(_) => 4
    }
  }

  // ---------------------------------------------------------------------
  // Digits and the palette size

  predicate IsDigit(c: char) { '0' <= c <= '9' }

  function DigitValue(c: char): nat
    requires IsDigit(c)
  {
    c as int - '0' as int
  }

  predicate AllDigits(s: string)
  {
    forall i :: 0 <= i < |s| ==> IsDigit(s[i])
  }

  /** Where the run of decimal digits that ends `s` begins: everything from
      there on is a digit, and the character before it is not. */
  function DigitsStart(s: string): (k: nat)
    ensures k <= |s|
    ensures AllDigits(s[k..])
    ensures k == 0 || !IsDigit(s[k - 1])
  {
    if |s| > 0 && IsDigit(s[|s| - 1]) then
      var k := DigitsStart(s[..|s| - 1]);
      assert s[k..] == s[..|s| - 1][k..] + [s[|s| - 1]];
      k
    else |s|
  }

  /** A string of digits read as a decimal number, most significant first. */
  function DecimalValue(ds: string): nat
    requires AllDigits(ds)
  {
    if ds == [] then 0 else 10 * DecimalValue(ds[..|ds| - 1]) + DigitValue(ds[|ds| - 1])
  }

  function Pow10(n: nat): (p: nat)
    ensures p >= 1
  {
    if n == 0 then 1 else 10 * Pow10(n - 1)
  }

  /** The minimal-width decimal spelling of `n`. */
  function DecimalString(n: nat): (s: string)
    ensures |s| >= 1 && AllDigits(s)
  {
    var last := ['0' + (n % 10) as char];
    if n < 10 then last else DecimalString(n / 10) + last
  }

  /** The stored palette size: the decimal value truncated to a guint8, with
      0 (no digits, an explicit 0, or a multiple of 256) replaced by 255. */
  function PaletteSize(ds: string): uint8
    requires AllDigits(ds)
  {
    var v := DecimalValue(ds) % 0x100;
    if v == 0 then 255 else v as uint8
  }

  // ---------------------------------------------------------------------
  // The reference definition of parse_ext

  predicate IsSelector(c: char) { c == 'i' || c == 'm' || c == 'p' || c == 'l' }

  /** The first character of `s` that is not a selector letter. */
  function FirstInvalid(s: string): Option<char>
  {
    if s == [] then None
    else if !IsSelector(s[0]) then Some(s[0])
    else FirstInvalid(s[1..])
  }

  /** `c` occurs in `letters` at a position other than the last one. */
  predicate NotLast(letters: string, c: char)
  {
    exists j :: 0 <= j < |letters| - 1 && letters[j] == c
  }

  function BppOf(c: char): Option<Bpp>
  {
    if c == '1' then Some(Bpp1)
    else if c == '2' then Some(Bpp2)
    else if c == '4' then Some(Bpp4)
    else if c == '8' then Some(Bpp8)
    else None
  }

  /** The descriptor after the selector letters: each of `i`, `m`, `p` turns
      on its output, and its compression too where it is not the last
      letter. */
  function Selected(letters: string): GfxProps
  {
    Blank.(
      img := 'i' in letters, imgLz := NotLast(letters, 'i'),
      tilemap := 'm' in letters, tilemapLz := NotLast(letters, 'm'),
      pal := 'p' in letters, palLz := NotLast(letters, 'p'))
  }

  /** The form field applied to a descriptor: bit depth, layout and tile
      reduction, or the error for a malformed field. */
  function ApplyForm(form: string, g: GfxProps): Result<GfxProps, ParseError>
  {
    if |form| < 2 then Err(InvalidFormField(form))
    else if BppOf(form[0]).None? then Err(InvalidBpp(form[0]))
    else if form[1] != 'b' && form[1] != 't' then Err(InvalidLayout(form[1]))
    else
      var tile := form[1] == 't';
      Ok(g.(reduce := !(tile && |form| >= 3 && form[2] == 'n'),
            tile := tile,
            bpp := BppOf(form[0]).value))
  }

  /** The descriptor given by a form field and an output selector. */
  function ParseFields(form: string, sel: string): Result<GfxProps, ParseError>
  {
    var k := DigitsStart(sel);
    var letters := sel[..k];
    if FirstInvalid(letters).Some? then Err(InvalidOutputSelector(FirstInvalid(letters).value))
    else ApplyForm(form, Selected(letters).(palsz := PaletteSize(sel[k..])))
  }

  /** The reference definition: the form field is the third-to-last and the
      output selector the second-to-last `.`-separated segment. */
  function ParseExtSpec(fname: string): Result<GfxProps, ParseError>
  {
    var spl := GSplit(fname, ".");
    if |spl| < 3 then Err(TooFewSegments)
    else ParseFields(spl[|spl| - 3], spl[|spl| - 2])
  }

  // ---------------------------------------------------------------------
  // parse_ext

  /** parse_ext: fills the descriptor field by field, or stops at the first
      numbered error. */
  method ParseExt(fname: string) returns (r: Result<GfxProps, ParseError>)
    ensures r == ParseExtSpec(fname)
  {
    var spl := GSplit(fname, ".");
    var splSz := |spl|;
    if splSz < 3 {
      return Err(TooFewSegments);
    }
    var sel := spl[splSz - 2];
    var form := spl[splSz - 3];
    assert ParseExtSpec(fname) == ParseFields(form, sel);
    var tmpsz := StripDigits(sel);
    var selected := ScanSelector(sel, tmpsz);
    if selected.Err? {
      return Err(selected.error);
    }
    var out := selected.value;
    var palsz := ReadPaletteSize(sel, tmpsz);
    out := out.(palsz := palsz);
    assert ParseFields(form, sel) == ApplyForm(form, out);

    // the form field
    var formsz := |form|;
    if formsz < 2 {
      return Err(InvalidFormField(form));
    }
    var tmpch := form[0];
    var bpp := if tmpch == '1' then Bpp1
      else if tmpch == '2' then Bpp2
      else if tmpch == '4' then Bpp4
      else Bpp8;
    if bpp == Bpp8 && tmpch != '8' {
      return Err(InvalidBpp(tmpch));
    }
    out := out.(bpp := bpp);
    match form[1] {
      case 'b' => out := out.(tile := false);
      case 't' => out := out.(tile := true);
      case _ => return Err(InvalidLayout(form[1]));
    }
    out := out.(reduce := true);
    if out.tile && formsz >= 3 && form[2] == 'n' {
      out := out.(reduce := false);
    }
    return Ok(out);
  }

  /** The loop that walks back from the end of the selector over its
      trailing digits, never below index 0; returns the selector's length
      without them. */
  method StripDigits(sel: string) returns (tmpsz: nat)
    ensures tmpsz == DigitsStart(sel)
  {
    tmpsz := |sel|;
    assert sel[..tmpsz] == sel;
    while tmpsz > 0 && IsDigit(sel[tmpsz - 1])
      invariant tmpsz <= |sel|
      invariant DigitsStart(sel[..tmpsz]) == DigitsStart(sel)
    {
      assert sel[..tmpsz][..tmpsz - 1] == sel[..tmpsz - 1];
      tmpsz := tmpsz - 1;
    }
  }

  /** The loop over the selector letters `sel[..tmpsz]`: sets the emit and
      compression flags, or stops at the first character that is no
      selector letter. */
  method ScanSelector(sel: string, tmpsz: nat) returns (r: Result<GfxProps, ParseError>)
    requires tmpsz <= |sel|
    ensures FirstInvalid(sel[..tmpsz]).Some? ==>
      r == Err(InvalidOutputSelector(FirstInvalid(sel[..tmpsz]).value))
    ensures FirstInvalid(sel[..tmpsz]).None? ==> r == Ok(Selected(sel[..tmpsz]))
  {
    ghost var letters := sel[..tmpsz];
    var out := Blank;
    for i := 0 to tmpsz
      invariant forall j :: 0 <= j < i ==> IsSelector(sel[j])
      invariant out.img == ('i' in sel[..i])
      invariant out.tilemap == ('m' in sel[..i])
      invariant out.pal == ('p' in sel[..i])
      invariant out.imgLz == (exists j :: 0 <= j < i && j < tmpsz - 1 && sel[j] == 'i')
      invariant out.tilemapLz == (exists j :: 0 <= j < i && j < tmpsz - 1 && sel[j] == 'm')
      invariant out.palLz == (exists j :: 0 <= j < i && j < tmpsz - 1 && sel[j] == 'p')
      invariant out.(img := false, tilemap := false, pal := false,
                     imgLz := false, tilemapLz := false, palLz := false) == Blank
    {
      var c := sel[i];
      var doneletter := c;
      assert sel[..i + 1] == sel[..i] + [c];
      match c {
        case 'i' => out := out.(img := true);
        case 'm' => out := out.(tilemap := true);
        case 'p' => out := out.(pal := true);
        case 'l' => doneletter := '\0';
        case _ =>
          FirstInvalidAt(letters, i);
          return Err(InvalidOutputSelector(c));
      }
      if doneletter != '\0' && i < tmpsz - 1 {
        match doneletter {
          case 'i' => out := out.(imgLz := true);
          case 'm' => out := out.(tilemapLz := true);
          case 'p' => out := out.(palLz := true);
        }
      }
    }
    FirstInvalidNone(letters);
    assert sel[..tmpsz] == letters;
    assert out.imgLz == NotLast(letters, 'i');
    assert out.tilemapLz == NotLast(letters, 'm');
    assert out.palLz == NotLast(letters, 'p');
    return Ok(out);
  }

  /** The loop that reads the trailing digits `sel[tmpsz..]` from the last
      one backwards, with a guint multiplier and a guint8 accumulator, and
      the default applied when the sum is 0. */
  method ReadPaletteSize(sel: string, tmpsz: nat) returns (palsz: uint8)
    requires tmpsz <= |sel| && AllDigits(sel[tmpsz..])
    ensures palsz == PaletteSize(sel[tmpsz..])
  {
    var n := |sel|;
    var fac := 1;
    palsz := 0;
    var i := n - 1;
    while i >= tmpsz
      invariant tmpsz - 1 <= i < n
      invariant AllDigits(sel[i + 1..])
      invariant fac == Pow10(n - 1 - i) % GuintModulus
      invariant palsz as int == DecimalValue(sel[i + 1..]) % 0x100
    {
      assert sel[i..] == [sel[i]] + sel[i + 1..];
      var d := DigitValue(sel[i]);
      DecimalPrepend(sel[i], sel[i + 1..]);
      ghost var p := Pow10(n - 1 - i);
      TruncatedStep(palsz as int, DecimalValue(sel[i + 1..]), d, p);
      palsz := ((palsz as int + (d * fac) % GuintModulus) % 0x100) as uint8;
      FacStep(p);
      fac := (fac * 10) % GuintModulus;
      i := i - 1;
    }
    if palsz == 0 {
      palsz := 255;
    }
  }

  // ---------------------------------------------------------------------
  // Lemmas behind ParseExt

  /** The first invalid selector character is the one at the first position
      that holds no selector letter. */
  lemma {:induction false} FirstInvalidAt(s: string, i: nat)
    requires i < |s| && !IsSelector(s[i])
    requires forall j :: 0 <= j < i ==> IsSelector(s[j])
    ensures FirstInvalid(s) == Some(s[i])
    decreases i
  {
    if i > 0 {
      FirstInvalidAt(s[1..], i - 1);
    }
  }

  /** No invalid character is found exactly when every character is a
      selector letter. */
  lemma {:induction false} FirstInvalidNone(s: string)
    ensures FirstInvalid(s) == None <==> forall j :: 0 <= j < |s| ==> IsSelector(s[j])
    decreases |s|
  {
    if s != [] {
      FirstInvalidNone(s[1..]);
      assert forall j :: 1 <= j < |s| ==> s[j] == s[1..][j - 1];
    }
  }

  /** Reading a digit in front of a digit string adds its weighted value. */
  lemma {:induction false} DecimalPrepend(c: char, ds: string)
    requires IsDigit(c) && AllDigits(ds)
    ensures AllDigits([c] + ds)
    ensures DecimalValue([c] + ds) == DigitValue(c) * Pow10(|ds|) + DecimalValue(ds)
    decreases |ds|
  {
    var s := [c] + ds;
    if ds != [] {
      var init := ds[..|ds| - 1];
      assert s[..|s| - 1] == [c] + init;
      DecimalPrepend(c, init);
      calc {
        DecimalValue(s);
        10 * DecimalValue([c] + init) + DigitValue(ds[|ds| - 1]);
        10 * (DigitValue(c) * Pow10(|init|) + DecimalValue(init)) + DigitValue(ds[|ds| - 1]);
        { MulAssoc10(DigitValue(c), Pow10(|init|)); }
        DigitValue(c) * Pow10(|ds|) + DecimalValue(ds);
      }
    } else {
      assert s[..|s| - 1] == [];
    }
  }

  lemma MulAssoc10(a: int, b: int)
    ensures 10 * (a * b) == a * (10 * b)
  {
  }

  /** One step of the palette loop: adding the digit's weight computed in
      guint arithmetic and truncating to a guint8 agrees with the exact sum
      taken modulo 256 (2^32 is a multiple of 256). */
  lemma TruncatedStep(acc: int, v: int, d: nat, p: nat)
    requires 0 <= acc < 0x100 && acc == v % 0x100
    ensures (acc + (d * (p % GuintModulus)) % GuintModulus) % 0x100
         == (d * p + v) % 0x100
  {
    var m := GuintModulus;
    var q := p / m;
    assert p == q * m + p % m;
    var x := d * (p % m);
    assert d * p == d * (q * m) + x;
    assert d * (q * m) == (d * q * 0x100_0000) * 0x100;
    ModShift(d * p, x, d * q * 0x100_0000);
    var y := x % m;
    assert x == (x / m) * m + y;
    assert (x / m) * m == ((x / m) * 0x100_0000) * 0x100;
    ModShift(x, y, (x / m) * 0x100_0000);
    ModAdd(acc, v, y, d * p);
  }

  /** The guint multiplier follows the powers of ten modulo 2^32. */
  lemma FacStep(p: nat)
    ensures ((p % GuintModulus) * 10) % GuintModulus == (10 * p) % GuintModulus
  {
  }

  lemma ModShift(a: int, b: int, k: int)
    requires a == b + k * 0x100
    ensures a % 0x100 == b % 0x100
  {
  }

  lemma ModAdd(acc: int, v: int, y: int, z: int)
    requires acc == v % 0x100 && y % 0x100 == z % 0x100
    ensures (acc + y) % 0x100 == (z + v) % 0x100
  {
  }
}
