/** What parse_ext promises, proved about its reference definition. */
module GfxExtFacts {
  import opened Wrappers
  import opened GStrings
  import opened GfxExt

  // ---------------------------------------------------------------------
  // Segments

  /** A name with fewer than two dots, i.e. fewer than three segments, is
      refused with error 1, and only such a name gets error 1. */
  lemma TooFewSegmentsIff(fname: string)
    ensures ParseExtSpec(fname) == Err(TooFewSegments) <==> CountChar(fname, '.') < 2
    ensures ParseExtSpec(fname) == Err(TooFewSegments) ==> ParseExtSpec(fname).error.Code() == 1
  {
    if fname != "" {
      PiecesCount(fname, '.');
    }
  }

  /** With at least three segments, only the second- and third-to-last
      matter: `head.form.sel.ext` parses as the fields `form` and `sel`,
      whatever `head` holds. */
  lemma NamedFields(head: string, form: string, sel: string, ext: string)
    requires '.' !in form && '.' !in sel && '.' !in ext
    ensures ParseExtSpec(head + "." + form + "." + sel + "." + ext) == ParseFields(form, sel)
  {
    var front := head + "." + form;
    PiecesAtDot(head, form);
    PiecesAtDot(front, sel);
    PiecesAtDot(front + "." + sel, ext);
    PiecesOfFree(form, '.');
    PiecesOfFree(sel, '.');
    PiecesOfFree(ext, '.');
    var spl := GSplit(head + "." + form + "." + sel + "." + ext, ".");
    assert spl == Pieces(head, ".") + [form] + [sel] + [ext];
  }

  /** A name of exactly three segments `form.sel.ext`. */
  lemma ThreeFields(form: string, sel: string, ext: string)
    requires '.' !in form && '.' !in sel && '.' !in ext
    ensures Pieces(form + "." + sel + "." + ext, ".") == [form, sel, ext]
    ensures ParseExtSpec(form + "." + sel + "." + ext) == ParseFields(form, sel)
  {
    PiecesAtDot(form, sel);
    PiecesAtDot(form + "." + sel, ext);
    PiecesOfFree(form, '.');
    PiecesOfFree(sel, '.');
    PiecesOfFree(ext, '.');
    var spl := GSplit(form + "." + sel + "." + ext, ".");
    assert spl == [form] + [sel] + [ext];
  }

  // ---------------------------------------------------------------------
  // The output selector

  /** Error 2 comes exactly when some character before the trailing digits
      is not one of `i`, `m`, `p`, `l`, and it names the first such
      character. */
  lemma SelectorError(form: string, sel: string)
    ensures var k := DigitsStart(sel);
      (exists j :: 0 <= j < k && !IsSelector(sel[j]))
        <==> ParseFields(form, sel).Err? && ParseFields(form, sel).error.InvalidOutputSelector?
  {
    var k := DigitsStart(sel);
    var letters := sel[..k];
    FirstInvalidNone(letters);
    if FirstInvalid(letters).None? {
      var g := Selected(letters).(palsz := PaletteSize(sel[k..]));
      assert ParseFields(form, sel) == ApplyForm(form, g);
    }
  }

  /** The character error 2 names is the first illegal one. */
  lemma SelectorErrorNamesFirst(form: string, sel: string, j: nat)
    requires j < DigitsStart(sel) && !IsSelector(sel[j])
    requires forall i :: 0 <= i < j ==> IsSelector(sel[i])
    ensures ParseFields(form, sel) == Err(InvalidOutputSelector(sel[j]))
  {
    FirstInvalidAt(sel[..DigitsStart(sel)], j);
  }

  /** On success every selector letter is legal; `i`, `m`, `p` turn on
      exactly the outputs they name; a compression flag is set only for an
      output that is emitted, and only by a letter that is not the last of
      the selector. */
  lemma SelectorFlags(form: string, sel: string, g: GfxProps)
    requires ParseFields(form, sel) == Ok(g)
    ensures var letters := sel[..DigitsStart(sel)];
      && (forall j :: 0 <= j < |letters| ==> IsSelector(letters[j]))
      && (g.img <==> 'i' in letters)
      && (g.tilemap <==> 'm' in letters)
      && (g.pal <==> 'p' in letters)
      && (g.imgLz <==> exists j :: 0 <= j < |letters| - 1 && letters[j] == 'i')
      && (g.tilemapLz <==> exists j :: 0 <= j < |letters| - 1 && letters[j] == 'm')
      && (g.palLz <==> exists j :: 0 <= j < |letters| - 1 && letters[j] == 'p')
      && (g.imgLz ==> g.img) && (g.tilemapLz ==> g.tilemap) && (g.palLz ==> g.pal)
    ensures g.palsz == PaletteSize(sel[DigitsStart(sel)..])
  {
    FirstInvalidNone(sel[..DigitsStart(sel)]);
  }

  // ---------------------------------------------------------------------
  // The palette size

  /** The minimal decimal spelling reads back as the number. */
  lemma {:induction false} DecimalRoundTrip(n: nat)
    ensures DecimalValue(DecimalString(n)) == n
    decreases n
  {
    var last := ['0' + (n % 10) as char];
    if n < 10 {
      assert last[..0] == [];
    } else {
      var s := DecimalString(n / 10) + last;
      assert s[..|s| - 1] == DecimalString(n / 10);
      DecimalRoundTrip(n / 10);
    }
  }

  /** An explicit palette size from 1 to 255 is stored as given. */
  lemma PaletteRoundTrip(n: nat)
    requires 1 <= n < 0x100
    ensures PaletteSize(DecimalString(n)) as int == n
  {
    DecimalRoundTrip(n);
  }

  /** No digits and an explicit 0 both give the default 255. */
  lemma PaletteDefault()
    ensures PaletteSize("") == 255
    ensures PaletteSize("0") == 255
    ensures PaletteSize("000") == 255
  {
    assert "0"[..0] == "";
    assert "000"[..2] == "00" && "00"[..1] == "0";
  }

  /** The accumulator is a guint8: larger sizes wrap modulo 256, so 256 is
      stored like the default. */
  lemma PaletteTruncated()
    ensures PaletteSize("256") == 255
    ensures PaletteSize("300") == 44
  {
    assert "256"[..2] == "25" && "25"[..1] == "2" && "2"[..0] == "";
    assert "300"[..2] == "30" && "30"[..1] == "3" && "3"[..0] == "";
  }

  // ---------------------------------------------------------------------
  // The form field

  /** With a legal selector, the form field decides the outcome: error 3
      when it is shorter than two characters, error 4 for a bit depth other
      than 1, 2, 4, 8 or a layout other than `b`, `t`; otherwise the
      descriptor has that bit depth and layout. */
  lemma FormField(form: string, sel: string)
    requires FirstInvalid(sel[..DigitsStart(sel)]).None?
    ensures |form| < 2 <==> ParseFields(form, sel) == Err(InvalidFormField(form))
    ensures |form| >= 2 ==>
      (!(form[0] in "1248") <==> ParseFields(form, sel) == Err(InvalidBpp(form[0])))
    ensures |form| >= 2 ==>
      (form[0] in "1248" && !(form[1] in "bt") <==> ParseFields(form, sel) == Err(InvalidLayout(form[1])))
    ensures ParseFields(form, sel).Err? ==> ParseFields(form, sel).error.Code() in {3, 4}
    ensures ParseFields(form, sel).Ok? ==>
      var g := ParseFields(form, sel).value;
      && (g.bpp == Bpp1 <==> form[0] == '1') && (g.bpp == Bpp2 <==> form[0] == '2')
      && (g.bpp == Bpp4 <==> form[0] == '4') && (g.bpp == Bpp8 <==> form[0] == '8')
      && (g.tile <==> form[1] == 't') && (!g.tile <==> form[1] == 'b')
  {
  }

  /** The form `é` is the two bytes C3 A9 in UTF-8: given byte by byte it
      fails on the bit depth C3 (code 4), as `strlen` counts two bytes. */
  lemma Utf8FormByBytes()
    ensures ParseFields("\U{C3}\U{A9}", "i") == Err(InvalidBpp('\U{C3}'))
    ensures ParseFields("\U{C3}\U{A9}", "i").error.Code() == 4
  {
    SingleLetter('i');
  }

  /** Tile reduction is off exactly for a tile layout whose form has `n` in
      third place; a bitmap layout always keeps it on. */
  lemma ReduceIff(form: string, sel: string, g: GfxProps)
    requires ParseFields(form, sel) == Ok(g)
    ensures !g.reduce <==> g.tile && |form| >= 3 && form[2] == 'n'
    ensures !g.tile ==> g.reduce
  {
  }

  /** Appending `n` to a two-character form changes at most the reduction
      flag: it turns it off for a tile layout and does nothing else; every
      error stays the same. */
  lemma NOnlyChangesReduce(form: string, sel: string)
    requires |form| == 2
    ensures ParseFields(form + "n", sel) ==
      match ParseFields(form, sel)
      case Ok(g) => Ok(g.(reduce := !g.tile))
      case Err(e) => Err(e)
  {
    var f := form + "n";
    assert f[0] == form[0] && f[1] == form[1] && f[2] == 'n';
  }

  // ---------------------------------------------------------------------
  // Example names

  /** `foo.png` has only two segments. */
  lemma FooExample()
    ensures ParseExtSpec("foo.png") == Err(TooFewSegments)
  {
  }

  /** `9b.i.png`: 9 is no bit depth. */
  lemma BadBppExample()
    ensures ParseExtSpec("9b.i.png") == Err(InvalidBpp('9'))
  {
    assert "9b.i.png" == "9b" + "." + "i" + "." + "png";
    ThreeFields("9b", "i", "png");
    SingleLetter('i');
  }

  /** `8x.i.png`: x is no layout (code 4, as for the bit depth). */
  lemma BadLayoutExample()
    ensures ParseExtSpec("8x.i.png") == Err(InvalidLayout('x'))
  {
    assert "8x.i.png" == "8x" + "." + "i" + "." + "png";
    ThreeFields("8x", "i", "png");
    SingleLetter('i');
  }

  /** `8t.iz.png`: z is no selector letter. */
  lemma BadSelectorExample()
    ensures ParseExtSpec("8t.iz.png") == Err(InvalidOutputSelector('z'))
  {
    assert "8t.iz.png" == "8t" + "." + "iz" + "." + "png";
    ThreeFields("8t", "iz", "png");
    DigitsStartOf("iz", "");
    assert "iz" + "" == "iz" && "iz"[..2] == "iz";
    FirstInvalidAt("iz", 1);
  }

  lemma SingleLetter(c: char)
    requires IsSelector(c)
    ensures DigitsStart([c]) == 1 && FirstInvalid([c][..1]) == None
  {
  }

  /** `hero.8t.iml64.png`: 8 bpp tiles with reduction and palette size 64.
      The selector has no `p`, so no palette is emitted; the `i` and the `m`
      are both followed by another letter, so both image and map are
      compressed. */
  lemma HeroExample()
    ensures ParseExtSpec("data/sprites/hero.8t.iml64.png") == Ok(GfxProps(
      img := true, imgLz := true,
      tilemap := true, tilemapLz := true,
      pal := false, palLz := false,
      reduce := true, tile := true,
      palsz := 64, bpp := Bpp8))
  {
    assert "data/sprites/hero.8t.iml64.png" == "data/sprites/hero" + "." + "8t" + "." + "iml64" + "." + "png";
    NamedFields("data/sprites/hero", "8t", "iml64", "png");
    HeroFields();
  }

  lemma HeroFields()
    ensures ParseFields("8t", "iml64") == Ok(Blank.(
      img := true, imgLz := true, tilemap := true, tilemapLz := true,
      reduce := true, tile := true, palsz := 64, bpp := Bpp8))
  {
    assert "iml64" == "iml" + "64";
    DigitsStartOf("iml", "64");
    assert "iml64"[..3] == "iml" && "iml64"[3..] == "64";
    assert "64"[..1] == "6" && "6"[..0] == "";
    assert PaletteSize("64") == 64;
    FirstInvalidNone("iml");
    assert "iml"[0] == 'i' && "iml"[1] == 'm' && "iml"[2] == 'l';
    assert NotLast("iml", 'i') && NotLast("iml", 'm') && !NotLast("iml", 'p');
    var g := Selected("iml");
    assert g == Blank.(img := true, imgLz := true, tilemap := true, tilemapLz := true);
    assert ParseFields("8t", "iml64") == ApplyForm("8t", g.(palsz := 64));
  }

  /** The selector `imp` compresses image and map although it has no `l`. */
  lemma CompressionWithoutL()
    ensures ParseFields("8t", "imp") == Ok(Blank.(
      img := true, imgLz := true, tilemap := true, tilemapLz := true, pal := true,
      reduce := true, tile := true, palsz := 255, bpp := Bpp8))
  {
  }

  /** A digit string after a last letter that is no digit is exactly the
      trailing run. */
  lemma {:induction false} DigitsStartOf(a: string, b: string)
    requires AllDigits(b) && (a == [] || !IsDigit(a[|a| - 1]))
    ensures DigitsStart(a + b) == |a|
    decreases |b|
  {
    if b == [] {
      assert a + b == a;
    } else {
      var s := a + b;
      assert s[..|s| - 1] == a + b[..|b| - 1];
      DigitsStartOf(a, b[..|b| - 1]);
    }
  }
}
