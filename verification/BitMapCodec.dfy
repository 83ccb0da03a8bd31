/** The bytes of a bitmap file: headers, colour table and pixels, written and read back. */
module BitMapCodec {
  import opened Types
  import opened BitMapRows

  const FILE_HEADER_LENGTH: nat := 14
  const V1_INFO_HEADER_LENGTH: nat := 40
  const V4_INFO_HEADER_LENGTH: nat := V1_INFO_HEADER_LENGTH + 68
  const V5_INFO_HEADER_LENGTH: nat := V4_INFO_HEADER_LENGTH + 16
  const BM_TYPE: nat := 19778

  datatype FileHeader = FileHeader(
    filetype: nat, fileSize: nat, reserved1: nat, reserved2: nat, bitmapOffset: nat)

  /** The V1 part of the information header. Width and height are 32-bit patterns, signed in the file format. */
  datatype InfoHeader = InfoHeader(
    headerSize: nat, width: nat, height: nat, bitPlanes: nat, bitsPerPixel: nat, compression: nat,
    sizeOfBitmap: nat, horzResolution: nat, vertResolution: nat, colorsUsed: nat, colorImportant: nat)

  datatype RGBQuad = RGBQuad(blue: uint8, green: uint8, red: uint8, reserved: uint8)

  /** `v4` holds the 17 numbers that the V4 header adds, and `v5` the 3 that V5 adds; both are empty where unused. */
  datatype BitMap = BitMap(
    file: FileHeader, info: InfoHeader, v4: seq<nat>, v5: seq<nat>, colorTable: Option<seq<RGBQuad>>, data: seq<uint8>)
  {
    function Depth(): nat { info.bitsPerPixel / 8 }

    function Pitch(): nat { info.width * Depth() }

    /** The bytes that the dimensions need. */
    function Room(): nat { Pitch() * info.height }

    /** Width and height are not negative as signed 32-bit numbers. */
    predicate DimensionsFit() {
      info.width < 0x8000_0000 && info.height < 0x8000_0000
    }

    /** Writing reads no more than the data holds, and fills no more than the announced size. */
    predicate BuffersSuffice() {
      DimensionsFit() && Room() <= info.sizeOfBitmap && Room() <= |data|
    }

    predicate SizesAgree() {
      |data| == info.sizeOfBitmap == Room()
    }

    predicate TableFits() {
      colorTable.Some? ==> |colorTable.value| == info.colorsUsed
    }

    /** The additional numbers of versions 4 and 5 are there where the header size asks for them. */
    predicate PartsFit() {
      && |v4| == (if info.headerSize >= V4_INFO_HEADER_LENGTH then 17 else 0)
      && |v5| == (if info.headerSize >= V5_INFO_HEADER_LENGTH then 3 else 0)
    }
  }

  // ----- Numbers as bytes -----

  /** A number and the bytes it takes. */
  datatype Num = Num(width: nat, value: nat)

  function Power256(n: nat): nat {
    if n == 0 then 1 else 256 * Power256(n - 1)
  }

  predicate Fits(nums: seq<Num>) {
    forall i :: 0 <= i < |nums| ==> nums[i].value < Power256(nums[i].width)
  }

  function LittleEndian(n: nat, v: nat): (b: seq<uint8>)
    ensures |b| == n
  {
    if n == 0 then [] else [(v % 256) as uint8] + LittleEndian(n - 1, v / 256)
  }

  function FromLittleEndian(b: seq<uint8>): nat {
    if b == [] then 0 else b[0] as nat + 256 * FromLittleEndian(b[1..])
  }

  lemma {:induction false} LittleEndianRoundTrip(n: nat, v: nat)
    requires v < Power256(n)
    ensures FromLittleEndian(LittleEndian(n, v)) == v
  {
    if n > 0 {
      LittleEndianRoundTrip(n - 1, v / 256);
      assert LittleEndian(n, v)[1..] == LittleEndian(n - 1, v / 256);
    }
  }

  function FlatMap(nums: seq<Num>, bytes: Num -> seq<uint8>): seq<uint8> {
    if nums == [] then [] else bytes(nums[0]) + FlatMap(nums[1..], bytes)
  }

  function NumBytes(): Num -> seq<uint8> {
    (n: Num) => LittleEndian(n.width, n.value)
  }

  function Encoded(nums: seq<Num>): seq<uint8> {
    FlatMap(nums, NumBytes())
  }

  function Widths(nums: seq<Num>): seq<nat> {
    seq(|nums|, i requires 0 <= i < |nums| => nums[i].width)
  }

  function Values(nums: seq<Num>): seq<nat> {
    seq(|nums|, i requires 0 <= i < |nums| => nums[i].value)
  }

  function Total(widths: seq<nat>): nat {
    if widths == [] then 0 else widths[0] + Total(widths[1..])
  }

  /** Reads one number after the other; none if the stream ends first. */
  function ReadNums(bytes: seq<uint8>, widths: seq<nat>): (r: Option<seq<nat>>)
    ensures r.Some? ==> |r.value| == |widths| && Total(widths) <= |bytes|
  {
    if widths == [] then Some([])
    else if |bytes| < widths[0] then None
    else
      match ReadNums(bytes[widths[0]..], widths[1..])
      case None => None
      case Some(rest) => Some([FromLittleEndian(bytes[..widths[0]])] + rest)
  }

  lemma EncodedLength(nums: seq<Num>)
    ensures |Encoded(nums)| == Total(Widths(nums))
  {
    FlatMapLength(nums, NumBytes());
  }

  lemma {:induction false} FlatMapLength(nums: seq<Num>, bytes: Num -> seq<uint8>)
    requires forall n :: |bytes(n)| == n.width
    ensures |FlatMap(nums, bytes)| == Total(Widths(nums))
  {
    if nums != [] {
      FlatMapLength(nums[1..], bytes);
      assert Widths(nums)[1..] == Widths(nums[1..]);
    }
  }

  lemma ReadStep(head: seq<uint8>, tail: seq<uint8>, widths: seq<nat>)
    requires widths != [] && |head| == widths[0]
    ensures ReadNums(head + tail, widths) ==
      match ReadNums(tail, widths[1..]) case None => None case Some(rest) => Some([FromLittleEndian(head)] + rest)
  {
    assert (head + tail)[..|head|] == head && (head + tail)[|head|..] == tail;
  }

  lemma ReadEncoded(nums: seq<Num>, tail: seq<uint8>)
    requires Fits(nums)
    ensures ReadNums(Encoded(nums) + tail, Widths(nums)) == Some(Values(nums))
  {
    forall n | n in nums ensures FromLittleEndian(NumBytes()(n)) == n.value {
      LittleEndianRoundTrip(n.width, n.value);
    }
    ReadFlatMap(nums, NumBytes(), tail);
  }

  lemma {:induction false} ReadFlatMap(nums: seq<Num>, bytes: Num -> seq<uint8>, tail: seq<uint8>)
    requires forall n :: n in nums ==> |bytes(n)| == n.width && FromLittleEndian(bytes(n)) == n.value
    ensures ReadNums(FlatMap(nums, bytes) + tail, Widths(nums)) == Some(Values(nums))
  {
    if nums != [] {
      var head, rest := bytes(nums[0]), FlatMap(nums[1..], bytes) + tail;
      ReadFlatMap(nums[1..], bytes, tail);
      HeadAndTail(nums);
      assert FromLittleEndian(head) == nums[0].value;
      assert FlatMap(nums, bytes) + tail == head + rest;
      ReadStep(head, rest, Widths(nums));
    } else {
      assert Values(nums) == [] && Widths(nums) == [];
    }
  }

  lemma HeadAndTail(nums: seq<Num>)
    requires nums != []
    ensures Widths(nums)[0] == nums[0].width && Widths(nums)[1..] == Widths(nums[1..])
    ensures Values(nums) == [nums[0].value] + Values(nums[1..])
  {
  }

  // ----- Headers -----

  function FileNums(f: FileHeader, h: InfoHeader): seq<Num> {
    [ Num(2, f.filetype), Num(4, f.fileSize), Num(2, f.reserved1), Num(2, f.reserved2), Num(4, f.bitmapOffset),
      Num(4, h.headerSize), Num(4, h.width), Num(4, h.height), Num(2, h.bitPlanes), Num(2, h.bitsPerPixel),
      Num(4, h.compression), Num(4, h.sizeOfBitmap), Num(4, h.horzResolution), Num(4, h.vertResolution),
      Num(4, h.colorsUsed), Num(4, h.colorImportant) ]
  }

  const FILE_WIDTHS: seq<nat> := [2, 4, 2, 2] + [4, 4, 4, 4] + [2, 2, 4, 4] + [4, 4, 4, 4]

  /** Numbers of 32 bits. */
  function Words(v: seq<nat>): seq<Num> {
    seq(|v|, i requires 0 <= i < |v| => Num(4, v[i]))
  }

  /** The bytes of a palette, entry by entry. */
  function TableBytes(t: seq<RGBQuad>): (r: seq<uint8>)
    ensures |r| == 4 * |t|
  {
    if t == [] then [] else [t[0].blue, t[0].green, t[0].red, t[0].reserved] + TableBytes(t[1..])
  }

  /** The first `n` entries that bytes spell. */
  function QuadsIn(bytes: seq<uint8>, n: nat): (r: seq<RGBQuad>)
    requires 4 * n <= |bytes|
    ensures |r| == n
  {
    seq(n, i requires 0 <= i < n => RGBQuad(bytes[4 * i], bytes[4 * i + 1], bytes[4 * i + 2], bytes[4 * i + 3]))
  }

  /** Bytes spell a palette exactly when they begin with its bytes. */
  lemma {:induction false} QuadsInIffPrefix(bytes: seq<uint8>, t: seq<RGBQuad>)
    requires 4 * |t| <= |bytes|
    ensures QuadsIn(bytes, |t|) == t <==> TableBytes(t) <= bytes
    decreases t
  {
    if t != [] {
      var q := RGBQuad(bytes[0], bytes[1], bytes[2], bytes[3]);
      QuadsInIffPrefix(bytes[4..], t[1..]);
      assert QuadsIn(bytes, |t|) == [q] + QuadsIn(bytes[4..], |t| - 1);
      assert bytes == bytes[..4] + bytes[4..];
      assert TableBytes(t) == TableBytes([t[0]]) + TableBytes(t[1..]);
      FirstEntry(q, t[0], TableBytes(t[1..]), bytes[4..]);
      assert bytes[..4] == TableBytes([q]);
    }
  }

  lemma FirstEntry(q: RGBQuad, p: RGBQuad, rest: seq<uint8>, tail: seq<uint8>)
    ensures TableBytes([p]) + rest <= TableBytes([q]) + tail <==> p == q && rest <= tail
  {
    var s, u := TableBytes([p]) + rest, TableBytes([q]) + tail;
    assert s[4..] == rest && u[4..] == tail;
    if s <= u {
      assert s[0] == u[0] && s[1] == u[1] && s[2] == u[2] && s[3] == u[3];
      assert s == u[..|s|];
      assert rest == tail[..|rest|];
    }
  }

  function V4Bytes(b: BitMap): seq<uint8> {
    if b.info.headerSize >= V4_INFO_HEADER_LENGTH then Encoded(Words(b.v4)) else []
  }

  function V5Bytes(b: BitMap): seq<uint8> {
    if b.info.headerSize >= V5_INFO_HEADER_LENGTH then Encoded(Words(b.v5)) else []
  }

  function PaletteBytes(b: BitMap): seq<uint8> {
    match b.colorTable case None => [] case Some(t) => TableBytes(t)
  }

  /** Everything that is written before the pixels. */
  function HeaderBytes(b: BitMap): seq<uint8> {
    Encoded(FileNums(b.file, b.info)) + V4Bytes(b) + V5Bytes(b) + PaletteBytes(b)
  }

  /** The length of the parts that are written before the pixels. */
  function WrittenLength(b: BitMap): nat {
    54
    + (if b.info.headerSize >= V4_INFO_HEADER_LENGTH then 68 else 0)
    + (if b.info.headerSize >= V5_INFO_HEADER_LENGTH then 12 else 0)
    + (if b.colorTable.Some? then 4 * b.info.colorsUsed else 0)
  }

  lemma HeaderLength(b: BitMap)
    requires b.TableFits() && b.PartsFit()
    ensures |HeaderBytes(b)| == WrittenLength(b)
  {
    FileNumsLength(b.file, b.info);
    WordsLength(b.v4);
    WordsLength(b.v5);
  }

  lemma FileNumsLength(f: FileHeader, h: InfoHeader)
    ensures |Encoded(FileNums(f, h))| == 54 && Widths(FileNums(f, h)) == FILE_WIDTHS
  {
    EncodedLength(FileNums(f, h));
    assert Widths(FileNums(f, h)) == FILE_WIDTHS;
    TotalOfFileWidths();
  }

  lemma TotalOfFileWidths()
    ensures Total(FILE_WIDTHS) == 54
  {
    TotalConcat([2, 4, 2, 2], [4, 4, 4, 4]);
    TotalConcat([2, 4, 2, 2] + [4, 4, 4, 4], [2, 2, 4, 4]);
    TotalConcat([2, 4, 2, 2] + [4, 4, 4, 4] + [2, 2, 4, 4], [4, 4, 4, 4]);
    assert Total([2, 4, 2, 2]) == 10 && Total([4, 4, 4, 4]) == 16 && Total([2, 2, 4, 4]) == 12;
  }

  lemma {:induction false} TotalConcat(a: seq<nat>, b: seq<nat>)
    ensures Total(a + b) == Total(a) + Total(b)
  {
    if a == [] {
      assert a + b == b;
    } else {
      TotalConcat(a[1..], b);
      assert (a + b)[1..] == a[1..] + b;
    }
  }

  lemma {:induction false} WordsLength(v: seq<nat>)
    ensures |Encoded(Words(v))| == 4 * |v|
  {
    if v != [] {
      WordsLength(v[1..]);
      assert Words(v)[1..] == Words(v[1..]);
    }
  }

  // ----- Writing and reading a whole file -----

  function Zeroes(n: nat): seq<uint8> {
    seq(n, _ => 0)
  }

  /**
    The pixels as they stand in a file: rows upside down, channels in the order
    blue, green, red, and zeroes up to the announced size.
   */
  function FilePixels(b: BitMap): (r: seq<uint8>)
    requires b.BuffersSuffice()
    ensures |r| == b.info.sizeOfBitmap
  {
    var n := b.Room();
    var f := Flipped(b.data[..n], Zeroes(n), b.Pitch(), b.info.height) + Zeroes(b.info.sizeOfBitmap - n);
    if b.Depth() == 3 then Swapped(f) else f
  }

  function WriteBmp(b: BitMap): Maybe<seq<uint8>>
    requires b.BuffersSuffice() && b.TableFits()
  {
    if |HeaderBytes(b)| != b.file.bitmapOffset then Failure(BitmapOffsetValidationError)
    else Value(HeaderBytes(b) + FilePixels(b))
  }

  /**
    Writing succeeds exactly when the declared offset is the length of the parts
    that are written. A version 5 header is no obstacle, but of the 16 bytes that
    it announces 12 are written.
   */
  lemma WriteSucceedsIffOffsetCounts(b: BitMap)
    requires b.BuffersSuffice() && b.TableFits() && b.PartsFit()
    ensures WriteBmp(b).Value? <==> b.file.bitmapOffset == WrittenLength(b)
    ensures WriteBmp(b).Failure? ==> WriteBmp(b).status == BitmapOffsetValidationError
  {
    HeaderLength(b);
  }

  function HeadersOf(v: seq<nat>): (FileHeader, InfoHeader)
    requires |v| == 16
  {
    (FileHeader(v[0], v[1], v[2], v[3], v[4]),
     InfoHeader(v[5], v[6], v[7], v[8], v[9], v[10], v[11], v[12], v[13], v[14], v[15]))
  }

  function Repeat(n: nat, w: nat): seq<nat> {
    seq(n, _ => w)
  }

  /** Headers and colour table. The three numbers that V5 adds are not read. */
  function ReadHeader(bytes: seq<uint8>): Maybe<BitMap> {
    match ReadNums(bytes, FILE_WIDTHS)
    case None => Failure(ReadTooFewBytes)
    case Some(v) =>
      TotalOfFileWidths();
      ReadRest(HeadersOf(v).0, HeadersOf(v).1, bytes[54..])
  }

  /** What follows the part that all versions share. */
  function ReadRest(file: FileHeader, info: InfoHeader, bytes: seq<uint8>): Maybe<BitMap> {
    if info.headerSize < V4_INFO_HEADER_LENGTH then ReadTable(bytes, BitMap(file, info, [], [], None, []))
    else
      match ReadNums(bytes, Repeat(17, 4))
      case None => Failure(ReadTooFewBytes)
      case Some(v4) =>
        TotalOfRepeat(17, 4);
        ReadTable(bytes[68..], BitMap(file, info, v4, [], None, []))
  }

  function ReadTable(bytes: seq<uint8>, b: BitMap): Maybe<BitMap> {
    if b.info.colorsUsed == 0 then Value(b)
    else if |bytes| < 4 * b.info.colorsUsed then Failure(ReadTooFewBytes)
    else Value(b.(colorTable := Some(QuadsIn(bytes, b.info.colorsUsed))))
  }

  lemma {:induction false} TotalOfRepeat(n: nat, w: nat)
    ensures Total(Repeat(n, w)) == n * w
  {
    if n > 0 {
      TotalOfRepeat(n - 1, w);
      assert Repeat(n, w)[1..] == Repeat(n - 1, w);
    }
  }

  /** What a new buffer of `n` bytes happens to hold from index `from` on. */
  function Held(held: nat -> uint8, from: nat, n: nat): (r: seq<uint8>)
    requires from <= n
    ensures |r| == n - from
  {
    seq(n - from, i requires 0 <= i => held(from + i))
  }

  /**
    The image in memory that stored pixels become. Where fewer are stored than
    the dimensions need, the rest is what the new buffer happened to hold.
   */
  function MemoryPixels(b: BitMap, stored: seq<uint8>, held: nat -> uint8): seq<uint8>
    requires |stored| <= b.Room()
  {
    var p := (if b.Depth() == 3 then Swapped(stored) else stored) + Held(held, |stored|, b.Room());
    Flipped(p, p, b.Pitch(), b.info.height)
  }

  /** The file announces no negative dimensions, and no more bytes than the buffer that its dimensions get can take. */
  predicate PixelsFit(bytes: seq<uint8>) {
    ReadHeader(bytes).Value? ==>
      var b := ReadHeader(bytes).value;
      b.DimensionsFit() && b.info.sizeOfBitmap <= b.Room()
  }

  /** The bytes from `start` on, if there are that many. Reading none succeeds wherever the offset is. */
  function ReadFrom(bytes: seq<uint8>, start: nat, n: nat): (r: Option<seq<uint8>>)
    ensures r.Some? ==> |r.value| == n
  {
    if n == 0 then Some([]) else if start + n > |bytes| then None else Some(bytes[start..start + n])
  }

  function ReadBmp(bytes: seq<uint8>, held: nat -> uint8): Maybe<BitMap>
    requires PixelsFit(bytes)
  {
    match ReadHeader(bytes)
    case Failure(s) => Failure(s)
    case Value(b) =>
      match ReadFrom(bytes, b.file.bitmapOffset, b.info.sizeOfBitmap)
      case None => Failure(ReadTooFewBytes)
      case Some(stored) => Value(b.(data := MemoryPixels(b, stored, held)))
  }

  // ----- Round trip -----

  /** A bitmap that fits its fields and buffers. */
  ghost predicate Writable(b: BitMap) {
    && Fits(FileNums(b.file, b.info)) && Fits(Words(b.v4)) && Fits(Words(b.v5))
    && b.PartsFit() && b.TableFits() && b.BuffersSuffice()
  }

  lemma FileHeaderIsRead(f: FileHeader, h: InfoHeader, tail: seq<uint8>)
    requires Fits(FileNums(f, h))
    ensures ReadNums(Encoded(FileNums(f, h)) + tail, FILE_WIDTHS) == Some(Values(FileNums(f, h)))
    ensures HeadersOf(Values(FileNums(f, h))) == (f, h)
  {
    FileNumsLength(f, h);
    ReadEncoded(FileNums(f, h), tail);
  }

  lemma WordsAreRead(v: seq<nat>, tail: seq<uint8>)
    requires Fits(Words(v))
    ensures ReadNums(Encoded(Words(v)) + tail, Repeat(|v|, 4)) == Some(v)
  {
    ReadEncoded(Words(v), tail);
    assert Widths(Words(v)) == Repeat(|v|, 4);
    assert Values(Words(v)) == v;
  }

  /** What follows the parts of the header that are read. */
  function Unread(b: BitMap, pixels: seq<uint8>): seq<uint8> {
    V5Bytes(b) + PaletteBytes(b) + pixels
  }

  /** The palette that reading finds: the announced number of entries, from whatever follows. */
  function PaletteReadBack(b: BitMap, pixels: seq<uint8>): Maybe<Option<seq<RGBQuad>>> {
    if b.info.colorsUsed == 0 then Value(None)
    else if |Unread(b, pixels)| < 4 * b.info.colorsUsed then Failure(ReadTooFewBytes)
    else Value(Some(QuadsIn(Unread(b, pixels), b.info.colorsUsed)))
  }

  /**
    Headers are read back as they were written, except for the numbers of version
    5, with the palette that reading finds.
   */
  lemma HeaderRoundTrip(b: BitMap, pixels: seq<uint8>)
    requires Writable(b)
    ensures ReadHeader(HeaderBytes(b) + pixels) ==
      match PaletteReadBack(b, pixels)
      case Failure(s) => Failure(s)
      case Value(palette) => Value(b.(v5 := [], data := [], colorTable := palette))
  {
    var first, unread := Encoded(FileNums(b.file, b.info)), Unread(b, pixels);
    Regrouped(first, V4Bytes(b), V5Bytes(b), PaletteBytes(b), pixels);
    FirstPartIsRead(b.file, b.info, V4Bytes(b) + unread);
    RestIsRead(b, unread);
  }

  lemma Regrouped(a: seq<uint8>, b: seq<uint8>, c: seq<uint8>, d: seq<uint8>, e: seq<uint8>)
    ensures a + b + c + d + e == a + (b + (c + d + e))
  {
  }

  lemma FirstPartIsRead(f: FileHeader, h: InfoHeader, rest: seq<uint8>)
    requires Fits(FileNums(f, h))
    ensures ReadHeader(Encoded(FileNums(f, h)) + rest) == ReadRest(f, h, rest)
  {
    FileHeaderIsRead(f, h, rest);
    FileNumsLength(f, h);
    assert (Encoded(FileNums(f, h)) + rest)[54..] == rest;
  }

  lemma RestIsRead(b: BitMap, unread: seq<uint8>)
    requires b.PartsFit() && Fits(Words(b.v4))
    ensures ReadRest(b.file, b.info, V4Bytes(b) + unread) == ReadTable(unread, BitMap(b.file, b.info, b.v4, [], None, []))
  {
    if b.info.headerSize >= V4_INFO_HEADER_LENGTH {
      WordsAreRead(b.v4, unread);
      WordsLength(b.v4);
      assert (V4Bytes(b) + unread)[68..] == unread;
    } else {
      assert V4Bytes(b) + unread == unread;
    }
  }

  /**
    A palette is there where one is announced, and the bytes of version 5, which
    are not read, do not shift it into another one.
   */
  predicate PaletteSurvives(b: BitMap) {
    && (b.colorTable.Some? <==> b.info.colorsUsed > 0)
    && PaletteBytes(b) <= V5Bytes(b) + PaletteBytes(b)
  }

  lemma PaletteIsReadBackIffItSurvives(b: BitMap, pixels: seq<uint8>)
    requires b.TableFits()
    ensures PaletteReadBack(b, pixels) == Value(b.colorTable) <==> PaletteSurvives(b)
  {
    match b.colorTable
    case None =>
    case Some(t) =>
      var written := V5Bytes(b) + PaletteBytes(b);
      if b.info.colorsUsed > 0 {
        QuadsInIffPrefix(Unread(b, pixels), t);
        assert Unread(b, pixels)[..|TableBytes(t)|] == written[..|TableBytes(t)|];
        assert TableBytes(t) <= Unread(b, pixels) <==> TableBytes(t) <= written;
      }
  }

  /** Without a version 5 header nothing shifts the palette. */
  lemma OlderPalettesSurvive(b: BitMap)
    requires b.info.headerSize < V5_INFO_HEADER_LENGTH && (b.colorTable.Some? <==> b.info.colorsUsed > 0)
    ensures PaletteSurvives(b)
  {
    assert V5Bytes(b) + PaletteBytes(b) == PaletteBytes(b);
  }

  lemma PixelsRoundTrip(b: BitMap, held: nat -> uint8)
    requires b.BuffersSuffice() && b.info.sizeOfBitmap == b.Room()
    ensures b.Pitch() > 0 || b.data[..b.Room()] == []
    ensures MemoryPixels(b, FilePixels(b), held) == Blackened(b.data[..b.Room()], b.Pitch(), b.info.height)
  {
    var d, zeroes := b.data[..b.Room()], Zeroes(b.Room());
    var f := Flipped(d, zeroes, b.Pitch(), b.info.height);
    FlipThroughZeroes(d, zeroes, b.Pitch(), b.info.height);
    SwapIsInvolution(f);
    assert f + Zeroes(0) == f;
    assert f + Held(held, b.Room(), b.Room()) == f;
  }

  /** Reading a file that consists of a header and as many bytes as it announces. */
  lemma ReadAfterHeader(b: BitMap, header: seq<uint8>, stored: seq<uint8>, held: nat -> uint8)
    requires b.DimensionsFit() && b.info.sizeOfBitmap == |stored| <= b.Room() && |header| == b.file.bitmapOffset
    requires ReadHeader(header + stored) == Value(b.(data := []))
    ensures PixelsFit(header + stored)
    ensures ReadBmp(header + stored, held) == Value(b.(data := MemoryPixels(b, stored, held)))
  {
    assert (header + stored)[|header|..|header| + |stored|] == stored;
  }

  /** What reading gives for a written file: this palette, no numbers of version 5, and a black middle row. */
  function ReadBack(b: BitMap, palette: Option<seq<RGBQuad>>): BitMap
    requires b.BuffersSuffice() && (b.Pitch() > 0 || b.data[..b.Room()] == [])
  {
    b.(v5 := [], colorTable := palette, data := Blackened(b.data[..b.Room()], b.Pitch(), b.info.height))
  }

  /**
    Every file that is written, for any header version and any palette, reads
    back as `ReadBack` says or is too short for the palette that it announces.
    It gives back the bitmap, apart from the numbers of version 5, exactly when the
    palette survives and the height is even or the middle row zero.
   */
  lemma FileRoundTrip(b: BitMap, held: nat -> uint8)
    requires Writable(b) && b.info.sizeOfBitmap == b.Room() && b.file.bitmapOffset == WrittenLength(b)
    ensures b.Pitch() > 0 || b.data[..b.Room()] == []
    ensures WriteBmp(b) == Value(HeaderBytes(b) + FilePixels(b))
    ensures PixelsFit(HeaderBytes(b) + FilePixels(b))
    ensures
      var back := ReadBmp(HeaderBytes(b) + FilePixels(b), held);
      && back == (match PaletteReadBack(b, FilePixels(b))
                  case Failure(s) => Failure(s)
                  case Value(palette) => Value(ReadBack(b, palette)))
      && (back == Value(b.(v5 := [], data := b.data[..b.Room()])) <==>
            PaletteSurvives(b) && MiddleIsZero(b.data[..b.Room()], b.Pitch(), b.info.height))
      && (b.info.height % 2 == 0 ==> MiddleIsZero(b.data[..b.Room()], b.Pitch(), b.info.height))
  {
    var pixels := FilePixels(b);
    HeaderLength(b);
    HeaderRoundTrip(b, pixels);
    PixelsRoundTrip(b, held);
    PaletteIsReadBackIffItSurvives(b, pixels);
    BlackenedIffMiddleIsZero(b.data[..b.Room()], b.Pitch(), b.info.height);
    if b.info.height % 2 == 0 { EvenHeightHasNoMiddle(b.data[..b.Room()], b.Pitch(), b.info.height); }
    if PaletteReadBack(b, pixels).Value? {
      var palette := PaletteReadBack(b, pixels).value;
      ReadAfterHeader(b.(v5 := [], colorTable := palette), HeaderBytes(b), pixels, held);
    }
  }

  /** A palette under a version 5 header is read three entries late. */
  lemma Version5ShiftsThePalette(b: BitMap, pixels: seq<uint8>)
    requires Writable(b) && b.info.headerSize >= V5_INFO_HEADER_LENGTH && b.v5 == [0, 0, 0]
    requires b.colorTable.Some? && b.info.colorsUsed > 0 && b.colorTable.value[0].blue != 0
    ensures
      var back := ReadHeader(HeaderBytes(b) + pixels);
      && back.Value? && back.value.colorTable.Some?
      && back.value.colorTable.value != b.colorTable.value
      && back.value.colorTable.value[0].blue == 0
  {
    HeaderRoundTrip(b, pixels);
    ZeroesComeFirst(b.v5);
    var unread := Unread(b, pixels);
    assert unread[0] == V5Bytes(b)[0] == 0;
    assert |unread| >= 4 * b.info.colorsUsed;
  }

  lemma ZeroesComeFirst(v: seq<nat>)
    requires v != [] && v[0] == 0
    ensures Encoded(Words(v)) != [] && Encoded(Words(v))[0] == 0
  {
    assert Words(v)[0] == Num(4, 0);
    assert LittleEndian(4, 0)[0] == 0;
  }
}
