/** The colours of a bitmap: what a lookup finds, what a generated palette holds, and what the conversion leaves. */
module BitMapColors {
  import opened Types
  import opened BitMapCodec
  import opened BitMapImage

  // ----- Lookups -----

  /**
    A lookup in a 24-bit image answers the pixel's three bytes, in their order; one
    in an 8-bit image the palette entry that the pixel's byte names, channel by
    channel. Other depths are refused, and so are 8 bits without a palette.
   */
  lemma ColorAtIndex(b: BitMap, i: nat)
    requires LookupsInBounds(b) && (b.Depth() == 1 ==> i < |b.data|) && (b.Depth() == 3 ==> i + 2 < |b.data|)
    ensures b.Depth() == 3 ==> GetColorAt(b, i) == Value(Color(b.data[i], b.data[i + 1], b.data[i + 2]))
    ensures b.Depth() == 1 && b.colorTable.Some? ==>
      && b.data[i] as nat < |b.colorTable.value| && GetColorAt(b, i).Value?
      && var q, c := b.colorTable.value[b.data[i]], GetColorAt(b, i).value;
         c.r == q.red && c.g == q.green && c.b == q.blue
    ensures b.Depth() == 1 && b.colorTable == None ==> GetColorAt(b, i) == Failure(ColorTableRequired)
    ensures b.Depth() !in {1, 3} ==> GetColorAt(b, i) == Failure(NotImplemented)
  {
  }

  /** The pixel in column `x` of row `y` is pixel number `p`. */
  lemma ColorAtPoint(b: BitMap, x: nat, y: nat, p: nat)
    requires PointInImage(b, x, y) && p == x + y * b.info.width
    ensures b.Depth() == 3 ==>
      && 3 * p + 2 < |b.data|
      && GetColorAtPoint(b, x, y) == Value(Color(b.data[3 * p], b.data[3 * p + 1], b.data[3 * p + 2]))
    ensures b.Depth() == 1 && b.colorTable.Some? ==>
      && p < |b.data| && b.data[p] as nat < |b.colorTable.value|
      && var q := b.colorTable.value[b.data[p]];
         GetColorAtPoint(b, x, y) == Value(Color(q.red, q.green, q.blue))
    ensures b.Depth() == 1 && b.colorTable == None ==> GetColorAtPoint(b, x, y) == Failure(ColorTableRequired)
    ensures b.Depth() !in {1, 3} ==> GetColorAtPoint(b, x, y) == Failure(NotImplemented)
  {
    if b.Depth() > 0 { PointFits(b, x, y); }
  }

  // ----- Palettes -----

  /** Entry `k` of a grey palette with `n` entries is `k` steps above black, which is less than white. */
  lemma GreyStep(n: nat, k: nat, step: nat)
    requires k < n <= 256 && step == 256 / n
    ensures
      var q := Greys(n)[k];
      q.red == q.green == q.blue && q.reserved == 0 && q.red as nat == k * step
  {
    StepsFit(n, k, step);
  }

  lemma StepsFit(n: nat, k: nat, step: nat)
    requires k < n <= 256 && step == 256 / n
    ensures k * step < 256
  {
    assert (k + 1) * step <= n * step;
    assert n * step <= 256 && step > 0;
  }

  /** The sizes make room for the palette, and those of a palette that was there are given back. */
  ghost predicate MakesRoom(b: BitMap, b': BitMap) {
    var room := if b.colorTable.Some? then 0 else 4 * b.info.colorsUsed;
    && b' == b.(file := b'.file, colorTable := b'.colorTable)
    && b'.file == b.file.(fileSize := b'.file.fileSize, bitmapOffset := b'.file.bitmapOffset)
    && b'.file.fileSize == (b.file.fileSize + room) % 0x1_0000_0000
    && b'.file.bitmapOffset == (b.file.bitmapOffset + room) % 0x1_0000_0000
  }

  /** Taking out a size and putting it in again, in 32 bits. */
  lemma OutAndIn(v: nat, size: nat)
    ensures Wrapped(Wrapped(v - size) + size) == v % 0x1_0000_0000
  {
    var q := (v - size) / 0x1_0000_0000;
    assert Wrapped(v - size) + size == v - q * 0x1_0000_0000;
  }

  lemma ResizedMakesRoom(b: BitMap)
    ensures MakesRoom(b, Resized(b))
  {
    OutAndIn(b.file.fileSize, 4 * b.info.colorsUsed);
    OutAndIn(b.file.bitmapOffset, 4 * b.info.colorsUsed);
  }

  /** The palette that is made without a custom one: greys, or white and then black. */
  ghost predicate IsGenerated(table: Option<seq<RGBQuad>>, bits: nat, n: nat) {
    && table.Some? && |table.value| == n
    && (bits in {4, 8} ==> table.value == Greys(n))
    && (bits == 1 ==>
          forall k :: 0 <= k < n ==>
            table.value[k] == if k == 0 then RGBQuad(255, 255, 255, 0) else RGBQuad(0, 0, 0, 0))
  }

  /**
    `createColorTable` takes a table as it is. Otherwise it generates greys for 4
    and 8 bits, if grey is asked for, and white and black for 1 bit; anything else is
    refused, with the sizes already changed.
   */
  lemma ColorTableEffect(b: BitMap, custom: Option<seq<RGBQuad>>, isGreyscale: bool)
    requires custom == None && b.info.bitsPerPixel == 1 ==> b.info.colorsUsed >= 2
    ensures
      var (b', status) := ColorTableCreated(b, custom, isGreyscale);
      && MakesRoom(b, b')
      && (status == Success <==>
            custom.Some? || b.info.bitsPerPixel == 1 || (b.info.bitsPerPixel in {4, 8} && isGreyscale))
      && (status != Success ==> status == NotImplemented && b'.colorTable == b.colorTable)
      && (custom.Some? ==> b'.colorTable == custom)
      && (custom == None && status == Success ==> IsGenerated(b'.colorTable, b.info.bitsPerPixel, b.info.colorsUsed))
  {
    ResizedMakesRoom(b);
  }

  // ----- The conversion to 8 bits -----

  /** The floor of the average of three channels. */
  ghost predicate IsAverage(level: uint8, r: uint8, g: uint8, b: uint8) {
    3 * level as nat <= r as nat + g as nat + b as nat < 3 * level as nat + 3
  }

  /** Each pixel becomes one byte, the average of its three; the palette of 256 greys is new. */
  lemma TrueColorIsAveraged(b: BitMap, k: nat)
    requires LookupsInBounds(b) && b.Depth() == 3 && b.colorTable == None && 3 * k + 2 < |b.data|
    ensures
      var c := Converted(b);
      && c.info == b.info.(bitsPerPixel := 8, sizeOfBitmap := |b.data| / 3, colorsUsed := 256, colorImportant := 256)
      && c.colorTable == Some(Greys(256)) && c.v4 == b.v4 && c.v5 == b.v5
      && k < |c.data| == |b.data| / 3
      && IsAverage(c.data[k], b.data[3 * k], b.data[3 * k + 1], b.data[3 * k + 2])
  {
    assert Converted(b).data[k] == LevelAt(b, k);
  }

  /**
    In an 8-bit image each byte becomes the average of its palette entry. The
    palette stays, so that a converted byte names an entry of the old palette.
   */
  lemma PaletteImageIsAveraged(b: BitMap, k: nat)
    requires LookupsInBounds(b) && b.Depth() == 1 && b.colorTable.Some? && k < |b.data|
    ensures
      var c, q := Converted(b), b.colorTable.value[b.data[k]];
      && c.info == b.info.(bitsPerPixel := 8) && c.colorTable == b.colorTable && c.v4 == b.v4 && c.v5 == b.v5
      && c.file == b.file.(fileSize := b.file.fileSize % 0x1_0000_0000)
      && k < |c.data| == |b.data|
      && IsAverage(c.data[k], q.red, q.green, q.blue)
  {
    assert Converted(b).data[k] == LevelAt(b, k);
  }

  /** The floor of the average of an entry's channels. */
  function Average(q: RGBQuad): (level: uint8)
    ensures IsAverage(level, q.red, q.green, q.blue)
  {
    ((q.red as nat + q.green as nat + q.blue as nat) / 3) as uint8
  }

  ghost predicate IsGrey(q: RGBQuad, level: uint8) {
    q.red == q.green == q.blue == level
  }

  /**
    Lookups in a converted 8-bit image answer the grey of the old colour, for every
    pixel, if and only if the old palette has that grey where its level points to.
   */
  lemma ConvertedPaletteImageIsGreyIff(b: BitMap, t: seq<RGBQuad>)
    requires LookupsInBounds(b) && b.Depth() == 1 && b.colorTable == Some(t) && |t| == 256
    ensures LookupsInBounds(Converted(b)) && |Converted(b).data| == |b.data|
    ensures
      (forall k :: 0 <= k < |b.data| ==>
         var g := Average(t[b.data[k]]); GetColorAt(Converted(b), k) == Value(Color(g, g, g))) <==>
      (forall k :: 0 <= k < |b.data| ==> var g := Average(t[b.data[k]]); IsGrey(t[g], g))
  {
    forall k | 0 <= k < |b.data|
      ensures Converted(b).data[k] == Average(t[b.data[k]])
      ensures
        var g := Average(t[b.data[k]]);
        GetColorAt(Converted(b), k) == Value(Color(g, g, g)) <==> IsGrey(t[g], g)
    {
      PaletteImageIsAveraged(b, k);
    }
  }

  /** A red pixel under a palette that is red all over is still red after the conversion. */
  lemma ConvertedRedStaysRed()
    ensures
      var table := Some(seq(256, _ => RGBQuad(0, 0, 255, 0)));
      var b := BitMap(
        FileHeader(0, 1, 0, 0, 0), InfoHeader(40, 1, 1, 1, 8, 0, 1, 0, 0, 256, 256), [], [], table, [0]);
      && LookupsInBounds(b) && Convertible(b)
      && LookupsInBounds(Converted(b)) && GetColorAt(Converted(b), 0) == Value(Color(255, 0, 0))
  {
  }
}
