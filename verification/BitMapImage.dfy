/** Bitmaps in memory: palettes, the conversion to 8 bits, and the methods that write and read files. */
module BitMapImage {
  import opened Types
  import opened BitMapRows
  import opened BitMapCodec
  import opened Pixels

  /** What a 32-bit unsigned field stores. */
  function Wrapped(v: int): nat {
    v % 0x1_0000_0000
  }

  // ----- Palettes -----

  /** The grey palette with `n` entries. */
  function Greys(n: nat): (t: seq<RGBQuad>)
    ensures |t| == n
  {
    seq(n, i requires 0 <= i < n =>
      var c := ((i * (0x100 / n)) % 256) as uint8;
      RGBQuad(c, c, c, 0))
  }

  /** The palette of a two-colour image; further entries are zero. */
  function BlackAndWhite(n: nat): seq<RGBQuad>
    requires n >= 2
  {
    [RGBQuad(0xFF, 0xFF, 0xFF, 0), RGBQuad(0, 0, 0, 0)] + seq(n - 2, _ => RGBQuad(0, 0, 0, 0))
  }

  /** Sizes that make room for the announced palette, after taking out an old one. */
  function Resized(b: BitMap): BitMap {
    var size := 4 * b.info.colorsUsed;
    var f := if b.colorTable.Some?
      then b.file.(fileSize := Wrapped(b.file.fileSize - size), bitmapOffset := Wrapped(b.file.bitmapOffset - size))
      else b.file;
    b.(file := f.(fileSize := Wrapped(f.fileSize + size), bitmapOffset := Wrapped(f.bitmapOffset + size)))
  }

  /** `createColorTable`, with a custom table or generating one. A failure leaves the sizes changed. */
  function ColorTableCreated(b: BitMap, custom: Option<seq<RGBQuad>>, isGreyscale: bool): (BitMap, Status)
    requires custom == None && b.info.bitsPerPixel == 1 ==> b.info.colorsUsed >= 2
  {
    var r := Resized(b);
    if custom.Some? then (r.(colorTable := custom), Success)
    else if b.info.bitsPerPixel == 8 || b.info.bitsPerPixel == 4 then
      if isGreyscale then (r.(colorTable := Some(Greys(b.info.colorsUsed))), Success) else (r, NotImplemented)
    else if b.info.bitsPerPixel == 1 then (r.(colorTable := Some(BlackAndWhite(b.info.colorsUsed))), Success)
    else (r, NotImplemented)
  }

  // ----- Reading a colour -----

  /** The bytes and palette entries that colour lookups touch exist. */
  predicate LookupsInBounds(b: BitMap) {
    && |b.data| == b.info.sizeOfBitmap
    && (b.Depth() == 3 ==> b.info.sizeOfBitmap % 3 == 0)
    && (b.Depth() == 1 && b.colorTable.Some? ==>
          forall i :: 0 <= i < |b.data| ==> b.data[i] as nat < |b.colorTable.value|)
  }

  function GetColorAt(b: BitMap, index: nat): Maybe<Color>
    requires LookupsInBounds(b) && (b.Depth() == 1 ==> index < |b.data|) && (b.Depth() == 3 ==> index + 2 < |b.data|)
  {
    if b.Depth() == 3 then Value(Color(b.data[index], b.data[index + 1], b.data[index + 2]))
    else if b.Depth() == 1 then
      match b.colorTable
      case None => Failure(ColorTableRequired)
      case Some(t) =>
        var q := t[b.data[index]];
        Value(Color(q.red, q.green, q.blue))
    else Failure(NotImplemented)
  }

  predicate PointInImage(b: BitMap, x: nat, y: nat) {
    LookupsInBounds(b) && |b.data| == b.Room() <= 0x1_0000_0000 && x < b.info.width && y < b.info.height
  }

  lemma PointFits(b: BitMap, x: nat, y: nat)
    requires PointInImage(b, x, y) && b.Depth() > 0
    ensures XyToIndex(b.Pitch(), x * b.Depth(), y) == b.Depth() * (x + y * b.info.width)
    ensures b.Depth() * (x + y * b.info.width) + b.Depth() <= |b.data|
  {
    SameProduct(b.info.width, b.info.height, b.Depth());
    PixelOffset(b.info.width, b.info.height, b.Depth(), x, y);
  }

  /** The colour of the pixel in column `x` of row `y`. */
  function GetColorAtPoint(b: BitMap, x: nat, y: nat): Maybe<Color>
    requires PointInImage(b, x, y)
  {
    if b.Depth() == 0 then Failure(NotImplemented)
    else
      PointFits(b, x, y);
      GetColorAt(b, b.Depth() * (x + y * b.info.width))
  }

  /** The floor of the average of the channels. */
  function Level(c: Color): uint8 {
    ((c.r as nat + c.g as nat + c.b as nat) / 3) as uint8
  }

  // ----- The conversion to 8 bits -----

  predicate Convertible(b: BitMap) {
    b.Depth() == 3 || (b.Depth() == 1 && b.colorTable.Some?)
  }

  /** Why a colour cannot be looked up. */
  function LookupFailure(b: BitMap): Status {
    if b.Depth() == 1 then ColorTableRequired else NotImplemented
  }

  function LevelAt(b: BitMap, k: nat): uint8
    requires LookupsInBounds(b) && Convertible(b) && k < |b.data| / b.Depth()
  {
    Level(GetColorAt(b, k * b.Depth()).value)
  }

  function Levels(b: BitMap): (r: seq<uint8>)
    requires LookupsInBounds(b) && b.Depth() > 0 && (Convertible(b) || b.data == [])
    ensures |r| == b.info.sizeOfBitmap / b.Depth()
  {
    var size := b.info.sizeOfBitmap / b.Depth();
    seq(size, k requires 0 <= k < size => LevelAt(b, k))
  }

  /** The new header, and a grey palette if the image had none. */
  function Converted(b: BitMap): BitMap
    requires LookupsInBounds(b) && b.Depth() > 0 && (Convertible(b) || b.data == [])
  {
    var size := b.info.sizeOfBitmap / b.Depth();
    var b1 := b.(
      file := b.file.(fileSize := Wrapped(b.file.fileSize - b.info.sizeOfBitmap + size)),
      info := b.info.(sizeOfBitmap := size, bitsPerPixel := 8));
    var b2 :=
      if b.colorTable.Some? then b1
      else ColorTableCreated(b1.(info := b1.info.(colorsUsed := 256, colorImportant := 256)), None, true).0;
    b2.(data := Levels(b))
  }

  /**
    A 24-bit image without a palette keeps its file size consistent, and every
    pixel reads back as the grey of its old channels.
   */
  lemma ConversionKeepsSizesAndGreys(b: BitMap)
    requires LookupsInBounds(b) && b.Depth() == 3 && b.colorTable == None
    requires b.file.fileSize == b.file.bitmapOffset + b.info.sizeOfBitmap < 0x1_0000_0000 - 1024
    ensures
      var c := Converted(b);
      && c.file.fileSize == c.file.bitmapOffset + c.info.sizeOfBitmap
      && c.file.bitmapOffset == b.file.bitmapOffset + 1024
      && |c.data| == c.info.sizeOfBitmap == b.info.sizeOfBitmap / 3
      && c.TableFits() && LookupsInBounds(c) && c.Depth() == 1
      && forall k :: 0 <= k < |c.data| ==>
           var g := Level(Color(b.data[3 * k], b.data[3 * k + 1], b.data[3 * k + 2]));
           GetColorAt(c, k) == Value(Color(g, g, g))
  {
    ConversionKeepsSizes(b);
    forall k | 0 <= k < |Converted(b).data|
      ensures GetColorAt(Converted(b), k) ==
        Value(var g := Level(Color(b.data[3 * k], b.data[3 * k + 1], b.data[3 * k + 2])); Color(g, g, g))
    {
      assert Converted(b).data[k] == LevelAt(b, k);
      GreyEntry(Converted(b).data[k]);
    }
  }

  /** The conversion leaves every point with the grey of its colour. */
  lemma ConvertedPointIsGrey(b: BitMap, x: nat, y: nat)
    requires PointInImage(b, x, y) && b.Depth() == 3 && b.colorTable == None
    requires b.file.fileSize == b.file.bitmapOffset + b.info.sizeOfBitmap < 0x1_0000_0000 - 1024
    ensures PointInImage(Converted(b), x, y) && GetColorAtPoint(b, x, y).Value?
    ensures
      var g := Level(GetColorAtPoint(b, x, y).value);
      GetColorAtPoint(Converted(b), x, y) == Value(Color(g, g, g))
  {
    PointFits(b, x, y);
    SameProduct(b.info.width, b.info.height, 3);
    ConversionKeepsSizesAndGreys(b);
    var c, k := Converted(b), x + y * b.info.width;
    assert c.info.width == b.info.width && c.info.height == b.info.height;
    PointFits(c, x, y);
    assert GetColorAt(c, k).Value?;
  }

  lemma ConversionKeepsSizes(b: BitMap)
    requires LookupsInBounds(b) && b.Depth() == 3 && b.colorTable == None
    requires b.file.fileSize == b.file.bitmapOffset + b.info.sizeOfBitmap < 0x1_0000_0000 - 1024
    ensures
      var c := Converted(b);
      && c.file.fileSize == c.file.bitmapOffset + c.info.sizeOfBitmap
      && c.file.bitmapOffset == b.file.bitmapOffset + 1024
      && |c.data| == c.info.sizeOfBitmap == b.info.sizeOfBitmap / 3
      && c.colorTable == Some(Greys(256)) && c.info.colorsUsed == 256 && c.Depth() == 1
      && LookupsInBounds(c)
  {
  }

  /** Entry `i` of the full grey palette is the grey of level `i`. */
  lemma GreyEntry(i: uint8)
    ensures Greys(256)[i] == RGBQuad(i, i, i, 0)
  {
  }

  // ----- Bitmaps made from raw pixels -----

  datatype HeaderVersion = V1 | V4 | V5

  function HeaderSize(v: HeaderVersion): nat {
    match v
    case V1 => V1_INFO_HEADER_LENGTH
    case V4 => V4_INFO_HEADER_LENGTH
    case V5 => V5_INFO_HEADER_LENGTH
  }

  /** The masks of the channels, a calibrated colour space, and zero endpoints and gammas. */
  const V4_NUMBERS: seq<nat> :=
    [0x00FF_0000, 0x0000_FF00, 0x0000_00FF, 0xFF00_0000, 0, 0, 0, 0, 0, 0, 0, 0, 0, 0, 0, 0, 0]

  /** The bitmap that `writeBMP2` fills in before it looks at palettes. */
  function Raw(data: seq<uint8>, width: nat, height: nat, depth: nat, version: HeaderVersion): BitMap {
    var header, size := HeaderSize(version), width * height * depth;
    BitMap(
      FileHeader(BM_TYPE, FILE_HEADER_LENGTH + size + header, 0, 0, FILE_HEADER_LENGTH + header),
      InfoHeader(header, width, height, 1, depth * 8, 0, size, 0, 0, 0, 0),
      if version == V1 then [] else V4_NUMBERS,
      if version == V5 then [0, 0, 0] else [],
      None,
      data)
  }

  /** A table that a caller passes in. Its entries may be missing. */
  datatype ColorTable = ColorTable(numColors: nat, entries: Option<seq<RGBQuad>>)

  /**
    With the table that was passed in, or else with the generated palette that
    images of at most 8 bits get. What `createColorTable` makes of a table that was
    passed in is not looked at: if it fails, the bitmap goes on without a palette.
   */
  function WithPalette(b: BitMap, isGreyscale: bool, custom: Option<ColorTable>): Maybe<BitMap>
    requires custom.Some? ==> b.info.bitsPerPixel != 1
  {
    match custom
    case Some(table) =>
      Value(ColorTableCreated(b.(info := b.info.(colorsUsed := table.numColors)), table.entries, isGreyscale).0)
    case None =>
      if b.info.bitsPerPixel > 8 then Value(b)
      else if b.info.bitsPerPixel == 8 then
        var (c, status) :=
          ColorTableCreated(b.(info := b.info.(colorsUsed := 256, colorImportant := 256)), None, isGreyscale);
        if status == Success then Value(c) else Failure(status)
      else Failure(InvalidBitsPerPixel)
  }

  function Prepared(
    data: seq<uint8>, width: nat, height: nat, depth: nat, isGreyscale: bool, version: HeaderVersion,
    custom: Option<ColorTable>): Maybe<BitMap>
  {
    WithPalette(Raw(data, width, height, depth, version), isGreyscale, custom)
  }

  /** A table has as many entries as it says. */
  predicate TableIsWhole(custom: Option<ColorTable>) {
    custom.Some? && custom.value.entries.Some? ==> |custom.value.entries.value| == custom.value.numColors
  }

  /** The bytes that a palette may add. */
  function PaletteRoom(custom: Option<ColorTable>): nat {
    if custom.Some? then 4 * custom.value.numColors else 1024
  }

  /** The arguments fit the 32-bit fields of the headers. */
  predicate ArgumentsFit(data: seq<uint8>, width: nat, height: nat, depth: nat, custom: Option<ColorTable>) {
    && |data| == width * height * depth && depth < 8192
    && width < 0x8000_0000 && height < 0x8000_0000
    && |data| + PaletteRoom(custom) < 0x1_0000_0000 - 138
    && TableIsWhole(custom)
  }

  /** Writes a bitmap to which a palette is still to be added. */
  function WriteRaw(raw: BitMap, isGreyscale: bool, version: HeaderVersion, custom: Option<ColorTable>): Maybe<seq<uint8>>
    requires IsRaw(raw, version, custom) && (custom.Some? ==> raw.info.bitsPerPixel != 1)
  {
    match WithPalette(raw, isGreyscale, custom)
    case Failure(s) => Failure(s)
    case Value(b) =>
      PaletteIsAdded(raw, version, isGreyscale, custom);
      WriteBmp(b)
  }

  function WriteBmp2(
    data: seq<uint8>, width: nat, height: nat, depth: nat, isGreyscale: bool, version: HeaderVersion,
    custom: Option<ColorTable>): Maybe<seq<uint8>>
    requires ArgumentsFit(data, width, height, depth, custom)
  {
    RawIsRaw(data, width, height, depth, version, custom);
    WriteRaw(Raw(data, width, height, depth, version), isGreyscale, version, custom)
  }

  /** A bitmap without a palette, with room for one in its 32-bit fields. */
  predicate IsRaw(b: BitMap, version: HeaderVersion, custom: Option<ColorTable>) {
    && b.colorTable == None && b.info.colorsUsed == b.info.colorImportant == 0
    && b.info.headerSize == HeaderSize(version) && b.file.bitmapOffset == FILE_HEADER_LENGTH + HeaderSize(version)
    && b.PartsFit() && b.SizesAgree() && b.DimensionsFit() && TableIsWhole(custom)
    && Fits(FileNums(b.file, b.info)) && Fits(Words(b.v4)) && Fits(Words(b.v5))
    && b.file.fileSize + PaletteRoom(custom) < 0x1_0000_0000
    && b.file.bitmapOffset <= b.file.fileSize
  }

  lemma SameProduct(width: nat, height: nat, depth: nat)
    ensures width * height * depth == width * depth * height
  {
  }

  lemma RawIsRaw(
    data: seq<uint8>, width: nat, height: nat, depth: nat, version: HeaderVersion, custom: Option<ColorTable>)
    requires ArgumentsFit(data, width, height, depth, custom)
    ensures IsRaw(Raw(data, width, height, depth, version), version, custom)
  {
    SameProduct(width, height, depth);
    RawNumbersFit(data, width, height, depth, version, custom);
    V4NumbersFit();
  }

  lemma RawNumbersFit(
    data: seq<uint8>, width: nat, height: nat, depth: nat, version: HeaderVersion, custom: Option<ColorTable>)
    requires ArgumentsFit(data, width, height, depth, custom)
    ensures
      var b := Raw(data, width, height, depth, version);
      Fits(FileNums(b.file, b.info))
  {
    assert Power256(2) == 0x1_0000 && Power256(4) == 0x1_0000_0000;
  }

  lemma V4NumbersFit()
    ensures |V4_NUMBERS| == 17 && Fits(Words(V4_NUMBERS))
  {
    assert Power256(4) == 0x1_0000_0000;
    assert forall i :: 0 <= i < 17 ==> V4_NUMBERS[i] < 0x1_0000_0000;
  }

  /** `b` is `raw` with a palette, colour counts, and sizes that account for them. */
  ghost predicate Extends(b: BitMap, raw: BitMap, custom: Option<ColorTable>) {
    && b == raw.(
         file := raw.file.(fileSize := raw.file.fileSize + 4 * b.info.colorsUsed,
                           bitmapOffset := raw.file.bitmapOffset + 4 * b.info.colorsUsed),
         info := raw.info.(colorsUsed := b.info.colorsUsed, colorImportant := b.info.colorImportant),
         colorTable := b.colorTable)
    && b.TableFits() && b.PartsFit() && b.SizesAgree()
    && b.info.colorImportant <= b.info.colorsUsed && 4 * b.info.colorsUsed <= PaletteRoom(custom)
  }

  lemma PaletteIsAdded(raw: BitMap, version: HeaderVersion, isGreyscale: bool, custom: Option<ColorTable>)
    requires IsRaw(raw, version, custom) && (custom.Some? ==> raw.info.bitsPerPixel != 1)
    requires WithPalette(raw, isGreyscale, custom).Value?
    ensures Extends(WithPalette(raw, isGreyscale, custom).value, raw, custom)
  {
    match custom
    case Some(table) => ResizedFits(raw.(info := raw.info.(colorsUsed := table.numColors)));
    case None => ResizedFits(raw.(info := raw.info.(colorsUsed := 256, colorImportant := 256)));
  }

  lemma ResizedFits(b: BitMap)
    requires b.colorTable == None && b.file.bitmapOffset <= b.file.fileSize
    requires b.file.fileSize + 4 * b.info.colorsUsed < 0x1_0000_0000
    ensures Resized(b) ==
      b.(file := b.file.(fileSize := b.file.fileSize + 4 * b.info.colorsUsed,
                         bitmapOffset := b.file.bitmapOffset + 4 * b.info.colorsUsed))
  {
  }

  lemma ExtensionIsWritable(b: BitMap, raw: BitMap, version: HeaderVersion, custom: Option<ColorTable>)
    requires IsRaw(raw, version, custom) && Extends(b, raw, custom)
    ensures Writable(b)
  {
    var before, nums := FileNums(raw.file, raw.info), FileNums(b.file, b.info);
    assert Power256(4) == 0x1_0000_0000;
    forall i | 0 <= i < |nums| ensures nums[i].value < Power256(nums[i].width) {
      assert i !in {1, 4, 14, 15} ==> nums[i] == before[i];
    }
  }

  /** Writing an extended bitmap, and reading what was written. */
  lemma ExtensionOutcome(
    b: BitMap, raw: BitMap, version: HeaderVersion, custom: Option<ColorTable>, held: nat -> uint8)
    requires IsRaw(raw, version, custom) && Extends(b, raw, custom)
    ensures b.Pitch() > 0 || raw.data == []
    ensures
      var r := WriteBmp(b);
      && (r.Value? <==> (b.info.colorsUsed > 0 ==> b.colorTable.Some?) && version != V5)
      && (r.Failure? ==> r.status == BitmapOffsetValidationError)
      && (r.Value? ==> PixelsFit(r.value) && ReadBmp(r.value, held) == Value(AsRead(b)))
  {
    NoBytesWithoutPitch(b);
    WriteSucceedsIffOffsetCounts(b);
    if b.file.bitmapOffset == WrittenLength(b) {
      ExtensionIsWritable(b, raw, version, custom);
      WrittenReadsBack(b, held);
    }
  }

  lemma NoBytesWithoutPitch(b: BitMap)
    requires b.SizesAgree()
    ensures b.Pitch() > 0 || b.data == []
  {
  }

  /** The bitmap with the middle row black, and without a palette that has no entries. */
  function AsRead(b: BitMap): BitMap
    requires b.Pitch() > 0 || b.data == []
  {
    b.(colorTable := if b.info.colorsUsed == 0 then None else b.colorTable,
       data := Blackened(b.data, b.Pitch(), b.info.height))
  }

  /** Whether the palette that the sizes account for is really there. */
  predicate HasItsPalette(depth: nat, isGreyscale: bool, custom: Option<ColorTable>) {
    match custom
    case None => depth >= 1 && (depth == 1 ==> isGreyscale)
    case Some(table) => table.numColors == 0 || table.entries.Some? || (depth == 1 && isGreyscale)
  }

  lemma PaletteIsThereIffItShouldBe(
    raw: BitMap, depth: nat, version: HeaderVersion, isGreyscale: bool, custom: Option<ColorTable>)
    requires IsRaw(raw, version, custom) && raw.info.bitsPerPixel == depth * 8
    ensures
      var p := WithPalette(raw, isGreyscale, custom);
      && (p.Failure? ==> custom == None && !HasItsPalette(depth, isGreyscale, custom)
                         && p.status == if depth == 0 then InvalidBitsPerPixel else NotImplemented)
      && (p.Value? ==>
            (HasItsPalette(depth, isGreyscale, custom) <==> (p.value.info.colorsUsed > 0 ==> p.value.colorTable.Some?)))
  {
  }

  /**
    When writing succeeds: with the palette that the sizes account for, and not with
    a version 5 header, whose parts are four bytes short of its declared size. What
    is written reads back, with a black middle row if the height is odd, and with
    the palette unless that has no entries.
   */
  ghost predicate WritesAndReadsBack(
    r: Maybe<seq<uint8>>, prepared: Maybe<BitMap>, depth: nat, isGreyscale: bool, version: HeaderVersion,
    custom: Option<ColorTable>, held: nat -> uint8)
  {
    && (r.Value? <==> HasItsPalette(depth, isGreyscale, custom) && version != V5)
    && (r.Failure? ==>
          r.status == (if custom == None && depth == 0 then InvalidBitsPerPixel
                       else if custom == None && depth == 1 && !isGreyscale then NotImplemented
                       else BitmapOffsetValidationError))
    && (r.Value? ==>
          && prepared.Value? && (prepared.value.Pitch() > 0 || prepared.value.data == []) && PixelsFit(r.value)
          && ReadBmp(r.value, held) == Value(AsRead(prepared.value)))
  }

  lemma WriteBmp2Outcome(
    data: seq<uint8>, width: nat, height: nat, depth: nat, isGreyscale: bool, version: HeaderVersion,
    custom: Option<ColorTable>, held: nat -> uint8)
    requires ArgumentsFit(data, width, height, depth, custom)
    ensures
      var r, p := WriteBmp2(data, width, height, depth, isGreyscale, version, custom),
                  Prepared(data, width, height, depth, isGreyscale, version, custom);
      WritesAndReadsBack(r, p, depth, isGreyscale, version, custom, held)
  {
    RawIsRaw(data, width, height, depth, version, custom);
    WriteRawOutcome(Raw(data, width, height, depth, version), depth, version, isGreyscale, custom, held);
  }

  lemma WriteRawOutcome(
    raw: BitMap, depth: nat, version: HeaderVersion, isGreyscale: bool, custom: Option<ColorTable>, held: nat -> uint8)
    requires IsRaw(raw, version, custom) && raw.info.bitsPerPixel == depth * 8
    ensures
      var r, p := WriteRaw(raw, isGreyscale, version, custom), WithPalette(raw, isGreyscale, custom);
      WritesAndReadsBack(r, p, depth, isGreyscale, version, custom, held)
  {
    PaletteIsThereIffItShouldBe(raw, depth, version, isGreyscale, custom);
    var p := WithPalette(raw, isGreyscale, custom);
    if p.Value? {
      PaletteIsAdded(raw, version, isGreyscale, custom);
      ExtensionOutcome(p.value, raw, version, custom, held);
    }
  }

  /** The prepared bitmap holds the given pixels in the given dimensions. */
  lemma PreparedKeepsPixels(
    data: seq<uint8>, width: nat, height: nat, depth: nat, isGreyscale: bool, version: HeaderVersion,
    custom: Option<ColorTable>)
    requires ArgumentsFit(data, width, height, depth, custom)
    requires Prepared(data, width, height, depth, isGreyscale, version, custom).Value?
    ensures
      var b := Prepared(data, width, height, depth, isGreyscale, version, custom).value;
      b.data == data && b.info.width == width && b.info.height == height && b.Depth() == depth
  {
    RawIsRaw(data, width, height, depth, version, custom);
    PaletteIsAdded(Raw(data, width, height, depth, version), version, isGreyscale, custom);
  }

  /** Below version 5, with the announced palette, a written bitmap reads back but for its middle row. */
  lemma WrittenReadsBack(b: BitMap, held: nat -> uint8)
    requires Writable(b) && b.SizesAgree() && b.file.bitmapOffset == WrittenLength(b)
    requires b.info.headerSize < V5_INFO_HEADER_LENGTH && (b.info.colorsUsed > 0 ==> b.colorTable.Some?)
    ensures b.Pitch() > 0 || b.data == []
    ensures
      var file := HeaderBytes(b) + FilePixels(b);
      WriteBmp(b) == Value(file) && PixelsFit(file) && ReadBmp(file, held) == Value(AsRead(b))
  {
    FileRoundTrip(b, held);
    assert b.data[..b.Room()] == b.data && b.v5 == [];
    if b.info.colorsUsed > 0 {
      OlderPalettesSurvive(b);
      PaletteIsReadBackIffItSurvives(b, FilePixels(b));
    }
  }

  /**
    Where a table that was passed in has no entries, the failure of
    `createColorTable` goes unnoticed until the offset turns out wrong.
   */
  lemma MissingEntriesAreNoticedLate(
    data: seq<uint8>, width: nat, height: nat, version: HeaderVersion, numColors: nat)
    requires numColors > 0 && ArgumentsFit(data, width, height, 3, Some(ColorTable(numColors, None)))
    ensures
      var raw := Raw(data, width, height, 3, version);
      ColorTableCreated(raw.(info := raw.info.(colorsUsed := numColors)), None, false).1 == NotImplemented
    ensures WriteBmp2(data, width, height, 3, false, version, Some(ColorTable(numColors, None))) ==
      Failure(BitmapOffsetValidationError)
  {
    WriteBmp2Outcome(data, width, height, 3, false, version, Some(ColorTable(numColors, None)), _ => 0);
  }

  /** A byte of the middle row that is not zero is written, and read back as zero. */
  lemma MiddleRowIsLost(
    data: seq<uint8>, width: nat, height: nat, version: HeaderVersion, held: nat -> uint8, k: nat)
    requires ArgumentsFit(data, width, height, 3, None) && version != V5
    requires k < |data| && width > 0 && InMiddle(width * 3, height, k) && data[k] != 0
    ensures
      var r := WriteBmp2(data, width, height, 3, false, version, None);
      && r.Value? && PixelsFit(r.value) && ReadBmp(r.value, held).Value?
      && k < |ReadBmp(r.value, held).value.data| && ReadBmp(r.value, held).value.data[k] == 0
  {
    WriteBmp2Outcome(data, width, height, 3, false, version, None, held);
    PreparedKeepsPixels(data, width, height, 3, false, version, None);
  }

  // ----- The same, in place -----

  class Image {
    var file: FileHeader
    var info: InfoHeader
    var v4: seq<nat>
    var v5: seq<nat>
    var colorTable: Option<seq<RGBQuad>>
    var data: array<uint8>

    ghost function Contents(): BitMap
      reads this, data
    {
      BitMap(file, info, v4, v5, colorTable, data[..])
    }

    constructor (b: BitMap)
      ensures Contents() == b && fresh(data)
    {
      file, info, v4, v5, colorTable := b.file, b.info, b.v4, b.v5, b.colorTable;
      var bytes := b.data;
      data := new uint8[|bytes|](i requires 0 <= i < |bytes| => bytes[i]);
      new;
      assert data[..] == bytes;
    }

    method CreateColorTable(custom: Option<seq<RGBQuad>>, isGreyscale: bool) returns (status: Status)
      requires custom == None && info.bitsPerPixel == 1 ==> info.colorsUsed >= 2
      modifies this`file, this`colorTable
      ensures (Contents(), status) == ColorTableCreated(old(Contents()), custom, isGreyscale)
    {
      var n := info.colorsUsed;
      if colorTable.Some? {
        file := file.(fileSize := Wrapped(file.fileSize - 4 * n), bitmapOffset := Wrapped(file.bitmapOffset - 4 * n));
      }
      file := file.(fileSize := Wrapped(file.fileSize + 4 * n), bitmapOffset := Wrapped(file.bitmapOffset + 4 * n));
      if custom.Some? {
        colorTable := custom;
      } else if info.bitsPerPixel == 8 || info.bitsPerPixel == 4 {
        if !isGreyscale {
          return NotImplemented;
        }
        var table := GreyTable(n);
        colorTable := Some(table);
      } else if info.bitsPerPixel == 1 {
        colorTable := Some(BlackAndWhite(n));
      } else {
        return NotImplemented;
      }
      return Success;
    }

    static method GreyTable(n: nat) returns (table: seq<RGBQuad>)
      ensures table == Greys(n)
    {
      table := [];
      for i := 0 to n
        invariant table == Greys(n)[..i]
      {
        var c := ((i * (0x100 / n)) % 256) as uint8;
        table := table + [RGBQuad(c, c, c, 0)];
      }
    }

    /** Fails without a change where a colour cannot be looked up. */
    method ConvertTo8BppGreyscale() returns (status: Status)
      requires LookupsInBounds(Contents()) && Contents().Depth() > 0
      modifies this
      ensures
        if old(Convertible(Contents())) || old(data.Length) == 0
        then status == Success && Contents() == Converted(old(Contents()))
        else status == LookupFailure(old(Contents())) && Contents() == old(Contents())
    {
      ghost var b := Contents();
      var size := info.sizeOfBitmap / (info.bitsPerPixel / 8);
      var walked, newData := WalkColors(size);
      if walked != Success {
        return walked;
      }
      file := file.(fileSize := Wrapped(file.fileSize - info.sizeOfBitmap + size));
      info := info.(sizeOfBitmap := size, bitsPerPixel := 8);
      if colorTable == None {
        info := info.(colorsUsed := 256, colorImportant := 256);
        var created := CreateColorTable(None, true);
        if created != Success {
          return created;
        }
      }
      data := newData;
      return Success;
    }

    /** The level of each pixel, in a new buffer. */
    method WalkColors(size: nat) returns (status: Status, levels: array<uint8>)
      requires LookupsInBounds(Contents()) && Contents().Depth() > 0
      requires size == info.sizeOfBitmap / Contents().Depth()
      ensures fresh(levels)
      ensures
        if Convertible(Contents()) || Contents().data == []
        then status == Success && levels[..] == Levels(Contents())
        else status == LookupFailure(Contents())
    {
      ghost var b := Contents();
      var depth := info.bitsPerPixel / 8;
      levels := new uint8[size];
      var k := 0;
      while k * depth < info.sizeOfBitmap
        invariant Contents() == b
        invariant k > 0 ==> Convertible(b)
        invariant Convertible(b) ==> k <= size
        invariant forall j :: 0 <= j < k && j < size ==> Convertible(b) && levels[j] == LevelAt(b, j)
        decreases info.sizeOfBitmap - k * depth
      {
        var color := ColorAt(k * depth);
        if color.Failure? {
          return color.status, levels;
        }
        levels[k] := Level(color.value);
        k := k + 1;
      }
      assert levels[..] == Levels(b);
      return Success, levels;
    }

    method ColorAt(index: nat) returns (r: Maybe<Color>)
      requires LookupsInBounds(Contents()) && (Contents().Depth() == 1 ==> index < data.Length)
      requires Contents().Depth() == 3 ==> index + 2 < data.Length
      ensures r == GetColorAt(Contents(), index)
    {
      var depth := info.bitsPerPixel / 8;
      if depth == 3 {
        return Value(Color(data[index], data[index + 1], data[index + 2]));
      }
      if depth == 1 {
        if colorTable == None {
          return Failure(ColorTableRequired);
        }
        assert data[index] == Contents().data[index];
        var q := colorTable.value[data[index]];
        return Value(Color(q.red, q.green, q.blue));
      }
      return Failure(NotImplemented);
    }

    /** The 32-bit index that is computed for a point is that of the pixel's first byte. */
    method ColorAtPoint(x: nat, y: nat) returns (r: Maybe<Color>)
      requires PointInImage(Contents(), x, y)
      ensures r == GetColorAtPoint(Contents(), x, y)
    {
      var depth := info.bitsPerPixel / 8;
      if depth > 0 {
        PointFits(Contents(), x, y);
      }
      var index := XyToIndex(info.width * depth, x * depth, y);
      r := ColorAt(index);
    }

    method Write() returns (r: Maybe<seq<uint8>>)
      requires Contents().BuffersSuffice() && Contents().TableFits()
      ensures r == WriteBmp(Contents())
    {
      var header := HeaderForFile();
      if |header| != file.bitmapOffset {
        return Failure(BitmapOffsetValidationError);
      }
      var pixels := PixelsForFile();
      return Value(header + pixels);
    }

    method HeaderForFile() returns (header: seq<uint8>)
      ensures header == HeaderBytes(Contents())
    {
      header := Encoded(FileNums(file, info));
      if info.headerSize >= V4_INFO_HEADER_LENGTH {
        header := header + Encoded(Words(v4));
      }
      if info.headerSize >= V5_INFO_HEADER_LENGTH {
        header := header + Encoded(Words(v5));
      }
      if colorTable.Some? {
        header := header + TableBytes(colorTable.value);
      }
    }

    method PixelsForFile() returns (pixels: seq<uint8>)
      requires Contents().BuffersSuffice()
      ensures pixels == FilePixels(Contents())
    {
      var output := FlippedForFile(Contents().Room());
      var depth := info.bitsPerPixel / 8;
      if depth == 3 {
        SwapChannels(output, info.sizeOfBitmap);
        assert output[..] == output[..info.sizeOfBitmap];
      }
      return output[..];
    }

    method FlippedForFile(ghost n: nat) returns (output: array<uint8>)
      requires Contents().BuffersSuffice() && n == Contents().Room()
      ensures fresh(output) && output.Length == info.sizeOfBitmap
      ensures output[..] ==
        Flipped(Contents().data[..n], Zeroes(n), Contents().Pitch(), info.height) + Zeroes(info.sizeOfBitmap - n)
    {
      output := new uint8[info.sizeOfBitmap](_ => 0);
      assert output[..n] == Zeroes(n) && output[n..] == Zeroes(info.sizeOfBitmap - n);
      assert data[..n] == data[..][..n];
      FlipImage(output, data, info.width * (info.bitsPerPixel / 8), info.height);
    }

    /** Reads headers and palette, then the pixels from the declared offset, into a buffer that holds `held`. */
    method Read(bytes: seq<uint8>, held: nat -> uint8) returns (status: Status)
      requires PixelsFit(bytes)
      modifies this
      ensures
        match ReadBmp(bytes, held)
        case Value(b) => status == Success && Contents() == b
        case Failure(s) => status == s
    {
      var header := ReadHeader(bytes);
      if header.Failure? {
        return header.status;
      }
      var b := header.value;
      TakeHeader(b);
      var stored := StoredBytes(bytes, b.file.bitmapOffset, b.info.sizeOfBitmap);
      if stored.None? {
        return ReadTooFewBytes;
      }
      var pixels := PixelsFromFile(b, stored.value, held);
      TakePixels(b, pixels);
      return Success;
    }

    /** Seeks to the offset and reads that many bytes. */
    static method StoredBytes(bytes: seq<uint8>, start: nat, n: nat) returns (r: Option<seq<uint8>>)
      ensures r == ReadFrom(bytes, start, n)
    {
      if n == 0 {
        return Some([]);
      }
      if start + n > |bytes| {
        return None;
      }
      return Some(bytes[start..start + n]);
    }

    /** Everything but the pixels. */
    method TakeHeader(b: BitMap)
      modifies this`file, this`info, this`v4, this`v5, this`colorTable
      ensures Contents() == b.(data := data[..])
    {
      file, info, v4, v5, colorTable := b.file, b.info, b.v4, b.v5, b.colorTable;
    }

    method TakePixels(b: BitMap, pixels: array<uint8>)
      requires Contents() == b.(data := data[..])
      modifies this`data
      ensures Contents() == b.(data := pixels[..])
    {
      data := pixels;
    }

    static method PixelsFromFile(b: BitMap, stored: seq<uint8>, held: nat -> uint8) returns (pixels: array<uint8>)
      requires |stored| == b.info.sizeOfBitmap <= b.Room()
      ensures fresh(pixels) && pixels[..] == MemoryPixels(b, stored, held)
    {
      pixels := NewBuffer(stored, b.Room(), held);
      ghost var rest := Held(held, |stored|, b.Room());
      if b.Depth() == 3 {
        SwapChannels(pixels, |stored|);
        assert pixels[..] == Swapped(stored) + rest;
      }
      assert pixels[..b.Room()] == pixels[..];
      FlipImage(pixels, pixels, b.info.width * b.Depth(), b.info.height);
    }

    /** A buffer that starts with the stored bytes. */
    static method NewBuffer(stored: seq<uint8>, room: nat, held: nat -> uint8) returns (pixels: array<uint8>)
      requires |stored| <= room
      ensures fresh(pixels) && pixels.Length == room
      ensures pixels[..] == stored + Held(held, |stored|, room)
      ensures pixels[..|stored|] == stored && pixels[|stored|..] == Held(held, |stored|, room)
    {
      pixels := new uint8[room](i requires 0 <= i < room => if i < |stored| then stored[i] else held(i));
    }
  }
}
