# gfx2o extension-metadata parser and symbol naming, in Dafny

gfx2o converts a PNG asset to an object file and takes all its conversion
hints from the file name. This project models the two string-processing
routines of `src/main.c`:

- **`parse_ext`**: it splits the file name at every `.`. The
  second-to-last segment is the *output selector*. Its trailing decimal
  digits are the palette size. Its letters `i`, `m`, `p` select the image,
  tile map and palette outputs, and `l` is also legal. The third-to-last
  segment is the *form field*: a bit depth (`1`, `2`, `4`, `8`), a layout
  (`b` bitmap, `t` tile) and an optional `n` that turns tile reduction off.
  The result is a `gfxprops` descriptor or one of four numbered errors of
  domain 6900.
- **The symbol-name block of `main`**: it keeps the text after the last
  `data/`, takes what follows its first `.`, and turns every `/` of that
  into `_`. The model gives exit status 3 when the kept text has no dot.
  The code returns 3 only when the kept text is empty; a text with no dot
  goes on past that test (see "## Findings").

Modules:

- `Wrappers`: Option and Result.
- `GStrings`: GLib's `g_strsplit` as pure functions. It covers unbounded
  splitting and splitting into at most two pieces. Lemmas cover the round
  trip through joining, pieces free of the delimiter, the piece count, and
  splitting a concatenation.
- `GfxExt`: the descriptor, the error kinds and `parse_ext`. The method
  `ParseExt` fills the descriptor field by field. Its three loops are the
  methods `StripDigits`, `ScanSelector` and `ReadPaletteSize`. The method
  is proved equal to the reference function `ParseExtSpec`.
- `GfxExtFacts`: what `parse_ext` promises, proved about `ParseExtSpec`.
- `SymbolName`: the symbol-name block. `DeriveSymbol` uses the in-place
  loop `ReplaceSlashes` on a `char` array. It is proved equal to the
  reference function `SymbolSpec`.
- `AsWritten`: four places of the code as written (see Findings). For the
  palette-size loop it models only the guard and the indices read, not the
  accumulation of the digits.

Modelling choices:

- A name is a `string` in which each `char` stands for one non-NUL byte
  of the C string. A UTF-8 name is given byte by byte: the form `é` is the
  two characters U+00C3 U+00A9, as `strlen` and the indexing see it
  (`GfxExtFacts.Utf8FormByBytes`).
- The struct field `map` is called `tilemap`, because `map` is a Dafny
  keyword.
- `palsz` is a `guint8`. The model keeps the code's arithmetic: the
  multiplier is a `guint` taken modulo 2^32 and the sum is taken modulo
  256. No limit on the number of digits is required. `GfxExt.ReadPaletteSize`
  proves the result equals the decimal value modulo 256, with 0 replaced
  by the default 255.
- The descriptor starts with every flag false, palette size 0 and `BPP_1`.
  A successful parse returns it.

Where the code and its help text (src/main.c:12) disagree, or where the
code is easy to misread, the model follows the code:

- Bit depth `2` is accepted and maps to `BPP_2`, although the help text's
  pattern allows only `[148]`.
- A bad layout character gives error code 4, the same code as a bad bit
  depth.
- The help text names `l` as the compression suffix, but the test at line
  94 does not look for an `l`. Any `i`, `m` or `p` that is not the last
  selector letter turns on its compression flag. So `imp` compresses image
  and map (`GfxExtFacts.CompressionWithoutL`).
- In `hero.8t.iml64.png` the selector has no `p`, so no palette is
  emitted, and both image and map are compressed
  (`GfxExtFacts.HeroExample`).
- The stored default palette size is 255, not the maximum for the bit
  depth that the help text describes.
- The symbol is the part *after* the first dot, as the code takes piece 1
  of the split. The comment at line 210 does not say which piece is the
  name; that the slashes are then replaced suggests the part before the
  dot may have been meant, but the model follows the code.
  `data/sprites/hero.8t.iml64.png` gives `8t.iml64.png`
  (`SymbolName.HeroSymbol`).

## Model

| member | source | states |
|---|---|---|
| `GStrings.Pieces` | src/main.c:43-44 | splitting never yields zero pieces; the first piece is a prefix of the input; when there are several pieces, the delimiter follows the first one |
| `GStrings.GSplit` | src/main.c:43 | the empty string, and only it, splits into no pieces |
| `GStrings.GSplit2` | src/main.c:211-212 | splitting with a limit of two tokens yields at most two pieces, and none exactly for the empty string |
| `GStrings.JoinPieces` | src/main.c:43 | joining the pieces with the delimiter gives back the input |
| `GStrings.PiecesFree` | src/main.c:43 | no piece contains the delimiter |
| `GStrings.JoinLast` | src/main.c:204-207 | a joined list of two or more pieces ends with the delimiter followed by the last piece |
| `GStrings.PiecesCount` | src/main.c:43-46 | splitting on a character yields one more piece than that character occurs |
| `GStrings.PiecesConcat` | src/main.c:43 | splitting `a.b` on `.` gives the pieces of `a` followed by those of `b` |
| `GStrings.PiecesAtDot` | src/main.c:43 | splitting `a.b` at dots gives the pieces of `a` followed by those of `b` |
| `GStrings.PiecesOfFree` | src/main.c:43 | a string without the character is a single piece |
| `GStrings.PiecesOfFreeText` | src/main.c:204 | a string free of the delimiter is a single piece |
| `GStrings.FreeSingle` | src/main.c:211 | a one-character delimiter occurs exactly when the character is in the string |
| `GStrings.GSplit2Spec` | src/main.c:211-212 | a two-token split gives the whole string when the delimiter is absent, and otherwise the text before the first occurrence and the rest; two pieces exactly when the delimiter occurs |
| `GStrings.SplitAtFirstDot` | src/main.c:211 | when the head has no dot, `head.rest` splits into `head` and `rest` |
| `GfxExt.DigitsStart` | src/main.c:60-63 | the returned index starts the trailing digit run: everything from it on is a digit, and the character before it is not |
| `GfxExt.ParseExt` | src/main.c:36-180 | parse_ext returns exactly the reference descriptor or error `ParseExtSpec` of the name |
| `GfxExt.StripDigits` | src/main.c:56-63 | the backward walk returns the start of the trailing digit run, never going below index 0 |
| `GfxExt.ScanSelector` | src/main.c:65-111 | the selector loop stops with error 2 at the first non-selector letter; otherwise it yields the flags `Selected` gives for the letters |
| `GfxExt.ReadPaletteSize` | src/main.c:113-128 | the guint/guint8 loop over the trailing digits yields their decimal value modulo 256, and 255 when that is 0 |
| `GfxExt.FirstInvalidAt` | src/main.c:81-87 | the error names the character at the first position holding no selector letter |
| `GfxExt.FirstInvalidNone` | src/main.c:66-92 | no invalid character is reported exactly when every letter is `i`, `m`, `p` or `l` |
| `GfxExt.DecimalPrepend` | src/main.c:117-122 | a digit read in front of a digit string adds its value times the power of ten of the string's length |
| `GfxExt.TruncatedStep` | src/main.c:119 | adding the guint product and truncating to a guint8 equals the exact sum modulo 256 |
| `GfxExt.FacStep` | src/main.c:121 | the guint multiplier follows the powers of ten modulo 2^32 |
| `GfxExtFacts.TooFewSegmentsIff` | src/main.c:43-54 | error 1 comes exactly for names with fewer than two dots, i.e. fewer than three segments |
| `GfxExtFacts.NamedFields` | src/main.c:56-142 | in `head.form.sel.ext` only the form and selector segments decide the result, whatever the head holds |
| `GfxExtFacts.ThreeFields` | src/main.c:43-56 | `form.sel.ext` splits into those three segments and parses as that form and selector |
| `GfxExtFacts.SelectorError` | src/main.c:66-92 | error 2 happens exactly when a character before the trailing digits is not `i`, `m`, `p` or `l` |
| `GfxExtFacts.SelectorErrorNamesFirst` | src/main.c:81-87 | error 2 carries the first such character |
| `GfxExtFacts.SelectorFlags` | src/main.c:66-128 | on success all letters are legal; `i`/`m`/`p` set exactly their emit flags; a compression flag is set only for an emitted output and only by a letter that is not the last; the stored palette size is `PaletteSize` of the trailing digits |
| `GfxExtFacts.DecimalRoundTrip` | src/main.c:116-122 | the minimal decimal spelling of n reads back as n, most significant digit first |
| `GfxExtFacts.PaletteRoundTrip` | src/main.c:113-128 | an explicit palette size from 1 to 255 is stored unchanged |
| `GfxExtFacts.PaletteDefault` | src/main.c:124-128 | no digits, `0` and `000` all give the default 255 |
| `GfxExtFacts.PaletteTruncated` | src/main.c:32 | the guint8 wraps: `256` is stored as 255 like the default, and `300` as 44 |
| `GfxExtFacts.FormField` | src/main.c:130-172 | with a legal selector: error 3 exactly for a form shorter than 2; error 4 exactly for a bit depth other than 1/2/4/8 or a layout other than b/t; on success the bit depth and layout are those named |
| `GfxExtFacts.Utf8FormByBytes` | src/main.c:131-155 | the UTF-8 form `é`, given as its bytes C3 A9, has length 2 and fails with the bit-depth error 4 for byte C3 |
| `GfxExtFacts.ReduceIff` | src/main.c:174-179 | tile reduction is off exactly for a tile layout with `n` third; a bitmap layout always keeps it on |
| `GfxExtFacts.NOnlyChangesReduce` | src/main.c:174-179 | adding `n` to a two-character form changes only the reduction flag, and that only for a tile layout; errors stay the same |
| `GfxExtFacts.FooExample` | src/main.c:46-54 | `foo.png` gives error 1 |
| `GfxExtFacts.BadBppExample` | src/main.c:141-155 | `9b.i.png` gives the bit-depth error for `9` |
| `GfxExtFacts.BadLayoutExample` | src/main.c:157-172 | `8x.i.png` gives the layout error for `x` |
| `GfxExtFacts.BadSelectorExample` | src/main.c:81-87 | `8t.iz.png` gives error 2 for `z` |
| `GfxExtFacts.HeroExample` | src/main.c:36-180 | `data/sprites/hero.8t.iml64.png` gives 8 bpp, tile, reduction, image and map both compressed, no palette, palette size 64 |
| `GfxExtFacts.HeroFields` | src/main.c:56-179 | the form `8t` with the selector `iml64` gives that descriptor |
| `GfxExtFacts.CompressionWithoutL` | src/main.c:94-110 | the selector `imp` sets the image and map compression flags although it holds no `l` |
| `GfxExtFacts.DigitsStartOf` | src/main.c:60-63 | digits after a non-digit last letter are exactly the stripped run |
| `SymbolName.ReplaceSlashes` | src/main.c:227-234 | the array afterwards is its old contents with every `/` made `_` |
| `SymbolName.DeriveSymbol` | src/main.c:203-234 | the block yields exactly the reference result `SymbolSpec` of the argument |
| `SymbolName.UnderscoredAt` | src/main.c:227-234 | the replacement keeps the length, turns each `/` into `_`, leaves every other character unchanged and leaves no `/` |
| `SymbolName.UnderscoredNoSlash` | src/main.c:227-234 | a string without `/` is unchanged |
| `SymbolName.AfterDataRootSpec` | src/main.c:203-208 | the kept text is a suffix of the path without `data/`; it is the whole path when `data/` never occurs, and otherwise `data/` comes right before it |
| `SymbolName.SymbolSpecFacts` | src/main.c:210-234 | a name is derived exactly when the kept text has a dot, and otherwise exit status 3 results; the name has the length of the text after the first dot, matches it except `/` made `_`, and holds no `/` |
| `SymbolName.HeroSymbol` | src/main.c:203-234 | `data/sprites/hero.8t.iml64.png` keeps `sprites/hero.8t.iml64.png` and yields `8t.iml64.png` |
| `SymbolName.HeroExtension` | src/main.c:211-234 | `sprites/hero.8t.iml64.png` splits at its first dot, and `8t.iml64.png` has no slash to replace |
| `AsWritten.GuardAlwaysHolds` | src/main.c:62-63 | the guard `c >= '0' or c <= '9'` holds for every character |
| `AsWritten.StripRunsOff` | src/main.c:62-63 | with the guard as written, the digit loop never stops on a letter; it reaches `tmpsz == 0` and evaluates the guard at index `tmpsz - 1` = 4294967295, outside the string |
| `AsWritten.StripCounterexample` | src/main.c:62-63 | on `iml64` the intended loop stops at 3, while the loop as written does not stop |
| `AsWritten.PaletteUnderflow` | src/main.c:117 | with no selector letters, the unsigned guard always holds and the third pass over `64` reads index 4294967295 |
| `AsWritten.NoExtensionCounterexample` | src/main.c:215-223 | `data/hero` passes the guard with one piece, so piece 1 does not exist; the corrected block gives status 3 |
| `AsWritten.EmptyArgumentCounterexample` | src/main.c:204-207 | the empty argument has no pieces, so the last-piece read is at index 4294967295; the corrected block gives status 3 |

## Left out

- src/excall.c (`fork`/`execvp`): process spawning is OS plumbing.
- Argument dispatch and help printing (src/main.c:189-201): command-line I/O.
- The GError plumbing is not modelled: the descriptor and the numbered error are returned as a Result. As written, `parse_ext` assigns its error to the local `e` and never writes `*o`, so nothing reaches the caller. It also has no final return.
- The message texts of the errors. The domain 6900 is kept as
  `GfxExt.ErrorDomain`, returned by `ParseError.Domain`.
- Characters outside one byte: each `char` of a name stands for one byte;
  a name holding a character above U+00FF, or a NUL, has no C string it
  models.
- Allocation and freeing of the split vectors and copies (`g_strsplit`, `g_strdup`, `g_free`, `g_strfreev`).
- The test at line 94 that the next selector character is not the terminator: it always holds inside a C string.
- `main` discards the derived name and returns 0. The model returns the name.
- The converter flag table, the second-stage converter and the assembler run: none of them exists in `src/main.c`.

## Findings

| source | as written | input that shows it | evidently intended | confidence | as-written member | corrected member |
|---|---|---|---|---|---|---|
| src/main.c:62-63 | the guard `c >= '0' or c <= '9'` holds for every character, so the loop runs to `tmpsz == 0` and then evaluates the guard at index `tmpsz - 1` = 4294967295, outside the string | selector `iml64`, e.g. `a.8t.iml64.png` | stop at the first non-digit and never go below index 0 | not executed; high | `AsWritten.GuardAlwaysHolds`, `AsWritten.StripRunsOff` | `GfxExt.StripDigits` |
| src/main.c:117 | the unsigned index makes `i >= tmpsz` always true when `tmpsz` is 0, so `i` wraps to 4294967295 | all-digit selector, e.g. `a.8t.64.png` | stop after the first digit of the run | not executed; high | `AsWritten.PaletteUnderflow` | `GfxExt.ReadPaletteSize` |
| src/main.c:215-223 | the guard `tmpsz == 0` lets a one-piece split through; piece 1 is then the vector's NULL terminator, so `g_strdup` returns NULL and the `strlen` at line 225 is undefined | `data/hero` | exit with status 3 whenever there is no second piece | not executed; high | `AsWritten.NoExtensionCounterexample` | `SymbolName.DeriveSymbol` |
| src/main.c:204-207 | the empty argument splits into no pieces, and piece `tmpsz - 1` is read at index 4294967295 | empty argument | treat it as empty text, leading to status 3 | not executed; medium | `AsWritten.EmptyArgumentCounterexample` | `SymbolName.AfterDataRootSpec` |
