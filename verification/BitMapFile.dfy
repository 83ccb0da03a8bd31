/** A written bitmap file, byte by byte: where each number, palette entry and pixel stands. */
module BitMapFile {
  import opened Types
  import opened Pixels
  import opened BitMapRows
  import opened BitMapCodec
  import opened BitMapImage

  // ----- Numbers -----

  /** A 16-bit number stands at `at`, its lowest byte first. */
  ghost predicate ShortAt(bytes: seq<uint8>, at: nat, v: nat) {
    && at + 2 <= |bytes|
    && bytes[at] as nat == v % 0x100 && bytes[at + 1] as nat == v / 0x100 % 0x100
  }

  /** A 32-bit number stands at `at`, its lowest byte first. */
  ghost predicate WordAt(bytes: seq<uint8>, at: nat, v: nat) {
    && at + 4 <= |bytes|
    && bytes[at] as nat == v % 0x100 && bytes[at + 1] as nat == v / 0x100 % 0x100
    && bytes[at + 2] as nat == v / 0x1_0000 % 0x100 && bytes[at + 3] as nat == v / 0x100_0000 % 0x100
  }

  lemma ShortBytes(v: nat)
    ensures ShortAt(LittleEndian(2, v), 0, v)
  {
    assert LittleEndian(1, v / 256) == [(v / 256 % 256) as uint8] + LittleEndian(0, v / 256 / 256);
  }

  lemma WordBytes(v: nat)
    ensures WordAt(LittleEndian(4, v), 0, v)
  {
    assert v / 256 / 256 == v / 0x1_0000 && v / 0x1_0000 / 256 == v / 0x100_0000;
    assert LittleEndian(4, v) == [(v % 256) as uint8] + LittleEndian(3, v / 256);
    assert LittleEndian(3, v / 256) == [(v / 256 % 256) as uint8] + LittleEndian(2, v / 0x1_0000);
    assert LittleEndian(2, v / 0x1_0000) == [(v / 0x1_0000 % 256) as uint8] + LittleEndian(1, v / 0x100_0000);
    assert LittleEndian(1, v / 0x100_0000) == [(v / 0x100_0000 % 256) as uint8] + LittleEndian(0, v / 0x100_0000 / 256);
  }

  /** `part` stands in the bytes at `at`. */
  ghost predicate StandsAt(bytes: seq<uint8>, at: nat, part: seq<uint8>) {
    at + |part| <= |bytes| && bytes[at..at + |part|] == part
  }

  /** Number `i` stands after those before it. */
  lemma {:induction false} NumberStands(nums: seq<Num>, i: nat)
    requires i < |nums|
    ensures StandsAt(Encoded(nums), Total(Widths(nums[..i])), LittleEndian(nums[i].width, nums[i].value))
    decreases i
  {
    var first, part := LittleEndian(nums[0].width, nums[0].value), LittleEndian(nums[i].width, nums[i].value);
    assert Encoded(nums) == first + Encoded(nums[1..]);
    if i == 0 {
      assert nums[..0] == [] && Widths([]) == [];
    } else {
      NumberStands(nums[1..], i - 1);
      assert nums[..i] == [nums[0]] + nums[1..][..i - 1];
      assert Widths(nums[..i])[1..] == Widths(nums[1..][..i - 1]);
      StandsBehind(first, Encoded(nums[1..]), Total(Widths(nums[1..][..i - 1])), part);
    }
  }

  lemma StandsBehind(first: seq<uint8>, rest: seq<uint8>, at: nat, part: seq<uint8>)
    requires StandsAt(rest, at, part)
    ensures StandsAt(first + rest, |first| + at, part)
  {
    assert (first + rest)[|first| + at..|first| + at + |part|] == rest[at..at + |part|];
  }

  lemma StandsBefore(first: seq<uint8>, rest: seq<uint8>, at: nat, part: seq<uint8>)
    requires StandsAt(first, at, part)
    ensures StandsAt(first + rest, at, part)
  {
    assert (first + rest)[at..at + |part|] == first[at..at + |part|];
  }

  lemma WordStands(bytes: seq<uint8>, at: nat, v: nat)
    requires StandsAt(bytes, at, LittleEndian(4, v))
    ensures WordAt(bytes, at, v)
  {
    WordBytes(v);
    var part := LittleEndian(4, v);
    assert forall k :: 0 <= k < 4 ==> bytes[at + k] == bytes[at..at + 4][k] == part[k];
  }

  lemma ShortStands(bytes: seq<uint8>, at: nat, v: nat)
    requires StandsAt(bytes, at, LittleEndian(2, v))
    ensures ShortAt(bytes, at, v)
  {
    ShortBytes(v);
    var part := LittleEndian(2, v);
    assert forall k :: 0 <= k < 2 ==> bytes[at + k] == bytes[at..at + 2][k] == part[k];
  }

  lemma OffsetStep(widths: seq<nat>, i: nat)
    requires i < |widths|
    ensures Total(widths[..i + 1]) == Total(widths[..i]) + widths[i]
  {
    assert widths[..i + 1] == widths[..i] + [widths[i]];
    TotalConcat(widths[..i], [widths[i]]);
    assert Total([widths[i]]) == widths[i];
  }

  /** Where the numbers of the file header and of the first information header start. */
  const OFFSETS: seq<nat> := [0, 2, 6, 8, 10, 14, 18, 22, 26, 28, 30, 34, 38, 42, 46, 50]

  lemma {:induction false} OffsetIs(widths: seq<nat>, i: nat)
    requires i < 16 <= |widths| && forall k :: 0 <= k < 15 ==> OFFSETS[k + 1] == OFFSETS[k] + widths[k]
    ensures Total(widths[..i]) == OFFSETS[i]
  {
    if i == 0 {
      assert widths[..0] == [];
    } else {
      OffsetIs(widths, i - 1);
      OffsetStep(widths, i - 1);
      assert OFFSETS[i - 1 + 1] == OFFSETS[i - 1] + widths[i - 1];
    }
  }

  lemma FileOffsetIs(f: FileHeader, h: InfoHeader, i: nat)
    requires i < 16
    ensures Total(Widths(FileNums(f, h)[..i])) == OFFSETS[i]
  {
    var widths := Widths(FileNums(f, h));
    assert Widths(FileNums(f, h)[..i]) == widths[..i];
    assert forall k :: 0 <= k < 15 ==> OFFSETS[k + 1] == OFFSETS[k] + widths[k];
    OffsetIs(widths, i);
  }

  /** Number `i` of the first two headers stands where it should, whatever follows. */
  lemma HeaderNumberStands(f: FileHeader, h: InfoHeader, rest: seq<uint8>, i: nat)
    requires i < 16
    ensures
      var n := FileNums(f, h)[i];
      StandsAt(Encoded(FileNums(f, h)) + rest, OFFSETS[i], LittleEndian(n.width, n.value))
  {
    var nums := FileNums(f, h);
    NumberStands(nums, i);
    FileOffsetIs(f, h, i);
    StandsBefore(Encoded(nums), rest, OFFSETS[i], LittleEndian(nums[i].width, nums[i].value));
  }

  /** The file header and the version 1 header, field by field. */
  ghost predicate ShowsHeaders(bytes: seq<uint8>, f: FileHeader, h: InfoHeader) {
    && ShortAt(bytes, 0, f.filetype) && WordAt(bytes, 2, f.fileSize)
    && ShortAt(bytes, 6, f.reserved1) && ShortAt(bytes, 8, f.reserved2) && WordAt(bytes, 10, f.bitmapOffset)
    && WordAt(bytes, 14, h.headerSize) && WordAt(bytes, 18, h.width) && WordAt(bytes, 22, h.height)
    && ShortAt(bytes, 26, h.bitPlanes) && ShortAt(bytes, 28, h.bitsPerPixel)
    && WordAt(bytes, 30, h.compression) && WordAt(bytes, 34, h.sizeOfBitmap)
    && WordAt(bytes, 38, h.horzResolution) && WordAt(bytes, 42, h.vertResolution)
    && WordAt(bytes, 46, h.colorsUsed) && WordAt(bytes, 50, h.colorImportant)
  }

  lemma HeadersStand(f: FileHeader, h: InfoHeader, rest: seq<uint8>)
    ensures ShowsHeaders(Encoded(FileNums(f, h)) + rest, f, h)
  {
    var bytes, nums := Encoded(FileNums(f, h)) + rest, FileNums(f, h);
    forall i | 0 <= i < 16
      ensures nums[i].width == 4 ==> WordAt(bytes, OFFSETS[i], nums[i].value)
      ensures nums[i].width == 2 ==> ShortAt(bytes, OFFSETS[i], nums[i].value)
    {
      HeaderNumberStands(f, h, rest, i);
      if nums[i].width == 4 { WordStands(bytes, OFFSETS[i], nums[i].value); }
      if nums[i].width == 2 { ShortStands(bytes, OFFSETS[i], nums[i].value); }
    }
    assert nums[0] == Num(2, f.filetype) && nums[1] == Num(4, f.fileSize);
    assert nums[2] == Num(2, f.reserved1) && nums[3] == Num(2, f.reserved2);
    assert nums[4] == Num(4, f.bitmapOffset) && nums[5] == Num(4, h.headerSize);
    assert nums[6] == Num(4, h.width) && nums[7] == Num(4, h.height);
    assert nums[8] == Num(2, h.bitPlanes) && nums[9] == Num(2, h.bitsPerPixel);
    assert nums[10] == Num(4, h.compression) && nums[11] == Num(4, h.sizeOfBitmap);
    assert nums[12] == Num(4, h.horzResolution) && nums[13] == Num(4, h.vertResolution);
    assert nums[14] == Num(4, h.colorsUsed) && nums[15] == Num(4, h.colorImportant);
  }

  /** The numbers of version 4 follow, one word after the other. */
  lemma Version4Stands(b: BitMap, k: nat)
    requires b.PartsFit() && b.info.headerSize >= V4_INFO_HEADER_LENGTH && k < 17
    ensures WordAt(HeaderBytes(b), 54 + 4 * k, b.v4[k])
  {
    var first, words := Encoded(FileNums(b.file, b.info)), Encoded(Words(b.v4));
    var part := LittleEndian(4, b.v4[k]);
    NumberStands(Words(b.v4), k);
    assert Widths(Words(b.v4)[..k]) == Repeat(k, 4);
    TotalOfRepeat(k, 4);
    FileNumsLength(b.file, b.info);
    StandsBehind(first, words, 4 * k, part);
    StandsBefore(first + words, V5Bytes(b), 54 + 4 * k, part);
    StandsBefore(first + words + V5Bytes(b), PaletteBytes(b), 54 + 4 * k, part);
    WordStands(HeaderBytes(b), 54 + 4 * k, b.v4[k]);
  }

  // ----- Palette -----

  /** A palette entry stands at `at`: blue, green, red and a reserved byte. */
  ghost predicate QuadAt(bytes: seq<uint8>, at: nat, q: RGBQuad) {
    StandsAt(bytes, at, [q.blue, q.green, q.red, q.reserved])
  }

  lemma {:induction false} EntryStands(t: seq<RGBQuad>, k: nat)
    requires k < |t|
    ensures QuadAt(TableBytes(t), 4 * k, t[k])
    decreases k
  {
    var first := [t[0].blue, t[0].green, t[0].red, t[0].reserved];
    assert TableBytes(t) == first + TableBytes(t[1..]);
    if k > 0 {
      EntryStands(t[1..], k - 1);
      StandsBehind(first, TableBytes(t[1..]), 4 * (k - 1), [t[k].blue, t[k].green, t[k].red, t[k].reserved]);
    }
  }

  /** The palette ends the header. */
  lemma PaletteStands(b: BitMap, k: nat)
    requires b.colorTable.Some? && k < |b.colorTable.value|
    ensures
      var n := |b.colorTable.value|;
      && 4 * n <= |HeaderBytes(b)|
      && QuadAt(HeaderBytes(b), |HeaderBytes(b)| - 4 * n + 4 * k, b.colorTable.value[k])
  {
    var q := b.colorTable.value[k];
    EntryStands(b.colorTable.value, k);
    StandsBehind(
      Encoded(FileNums(b.file, b.info)) + V4Bytes(b) + V5Bytes(b), TableBytes(b.colorTable.value), 4 * k,
      [q.blue, q.green, q.red, q.reserved]);
  }

  // ----- Pixels -----

  /** Byte `c` of the pixel in column `x` of row `y` before channels are exchanged. */
  lemma FlippedPixel(b: BitMap, x: nat, y: nat, c: nat, i: nat, j: nat)
    requires b.BuffersSuffice() && x < b.info.width && y < b.info.height && c < b.Depth()
    requires i == b.Depth() * (x + y * b.info.width) + c
    requires j == b.Depth() * (x + (b.info.height - 1 - y) * b.info.width) + c
    ensures i < b.Room() && j < b.Room()
    ensures Flipped(b.data[..b.Room()], Zeroes(b.Room()), b.Pitch(), b.info.height)[i] ==
      if 2 * y + 1 == b.info.height then 0 else b.data[j]
  {
    var w, h, d, n := b.info.width, b.info.height, b.Depth(), b.Room();
    ByteInRow(w, d, x, y, c);
    ByteInRow(w, d, x, h - 1 - y, c);
    FlippedByte(b.data[..n], Zeroes(n), b.Pitch(), h, d * x + c, y, i, j);
  }

  lemma ByteInRow(w: nat, d: nat, x: nat, y: nat, c: nat)
    requires x < w && c < d
    ensures d * x + c < w * d && d * (x + y * w) + c == d * x + c + y * (w * d)
  {
    assert d * (x + 1) <= d * w;
    Scaled(w, d, x, y);
  }

  /** Pixel `q` of the data is stored as pixel `p` from `at` on: blue, green and red, or zeroes. */
  ghost predicate StoresPixel(stored: seq<uint8>, at: nat, data: seq<uint8>, p: nat, q: nat, zeroed: bool) {
    var i, j := at + 3 * p, 3 * q;
    && i + 2 < |stored| && j + 2 < |data|
    && if zeroed then stored[i] == stored[i + 1] == stored[i + 2] == 0
       else stored[i] == data[j + 2] && stored[i + 1] == data[j + 1] && stored[i + 2] == data[j]
  }

  /** The bytes that `FilePixels` stores, before channels are exchanged. */
  function Unswapped(b: BitMap): (r: seq<uint8>)
    requires b.BuffersSuffice()
    ensures |r| == b.info.sizeOfBitmap
  {
    Flipped(b.data[..b.Room()], Zeroes(b.Room()), b.Pitch(), b.info.height) + Zeroes(b.info.sizeOfBitmap - b.Room())
  }

  /** Rows are stored from below. A middle row is stored as zeroes. */
  lemma PixelIsStored(b: BitMap, x: nat, y: nat, p: nat, q: nat)
    requires b.BuffersSuffice() && b.Depth() == 3 && x < b.info.width && y < b.info.height
    requires p == x + (b.info.height - 1 - y) * b.info.width && q == x + y * b.info.width
    ensures StoresPixel(FilePixels(b), 0, b.data, p, q, 2 * y + 1 == b.info.height)
  {
    UnswappedByte(b, x, y, 0, p, q);
    UnswappedByte(b, x, y, 1, p, q);
    UnswappedByte(b, x, y, 2, p, q);
    ExchangedPixel(Unswapped(b), b.data, p, q, 2 * y + 1 == b.info.height);
  }

  lemma UnswappedByte(b: BitMap, x: nat, y: nat, c: nat, p: nat, q: nat)
    requires b.BuffersSuffice() && b.Depth() == 3 && x < b.info.width && y < b.info.height && c < 3
    requires p == x + (b.info.height - 1 - y) * b.info.width && q == x + y * b.info.width
    ensures 3 * p + c < |Unswapped(b)| && 3 * q + c < |b.data|
    ensures Unswapped(b)[3 * p + c] == if 2 * y + 1 == b.info.height then 0 else b.data[3 * q + c]
  {
    FlippedPixel(b, x, b.info.height - 1 - y, c, 3 * p + c, 3 * q + c);
  }

  lemma ExchangedPixel(f: seq<uint8>, data: seq<uint8>, p: nat, q: nat, zeroed: bool)
    requires 3 * p + 2 < |f| && 3 * q + 2 < |data|
    requires f[3 * p] == if zeroed then 0 else data[3 * q]
    requires f[3 * p + 1] == if zeroed then 0 else data[3 * q + 1]
    requires f[3 * p + 2] == if zeroed then 0 else data[3 * q + 2]
    ensures StoresPixel(Swapped(f), 0, data, p, q, zeroed)
  {
    SwappedPixel(f, p);
  }

  // ----- Whole files -----

  /** The number of palette entries that a file announces, and how many of them it calls important. */
  function Announced(depth: nat, custom: Option<ColorTable>): (nat, nat) {
    match custom
    case Some(table) => (table.numColors, 0)
    case None => if depth == 1 then (256, 256) else (0, 0)
  }

  /** Entry `k` of `n`: one that was passed in, or a grey. */
  function EntryIn(custom: Option<ColorTable>, n: nat, k: nat): RGBQuad
    requires k < n && TableIsWhole(custom) && (custom.Some? ==> custom.value.numColors == n)
  {
    if custom.Some? && custom.value.entries.Some? then custom.value.entries.value[k]
    else
      var level := ((k * (256 / n)) % 256) as uint8;
      RGBQuad(level, level, level, 0)
  }

  /** The masks of red, green, blue and alpha, and zeroes. */
  function V4Number(k: nat): nat {
    if k == 0 then 0x00FF_0000 else if k == 1 then 0x0000_FF00 else if k == 2 then 0x0000_00FF
    else if k == 3 then 0xFF00_0000 else 0
  }

  ghost predicate ShowsVersion4(file: seq<uint8>) {
    forall k :: 0 <= k < 17 ==> WordAt(file, 54 + 4 * k, V4Number(k))
  }

  ghost predicate ShowsPalette(file: seq<uint8>, at: nat, n: nat, custom: Option<ColorTable>)
    requires TableIsWhole(custom) && (custom.Some? ==> custom.value.numColors == n)
  {
    forall k {:trigger EntryIn(custom, n, k)} :: 0 <= k < n ==> QuadAt(file, at + 4 * k, EntryIn(custom, n, k))
  }

  /** Where the palette of a file starts, or its pixels if it has none. */
  function PaletteStart(version: HeaderVersion): nat {
    if version == V1 then 54 else 122
  }

  /** Headers, palette and size of a file as the format wants them, for versions 1 and 4. */
  ghost predicate IsLaidOut(
    file: seq<uint8>, size: nat, width: nat, height: nat, depth: nat, version: HeaderVersion,
    custom: Option<ColorTable>)
    requires TableIsWhole(custom)
  {
    var (n, important) := Announced(depth, custom);
    var palette := PaletteStart(version);
    && |file| == palette + 4 * n + size
    && ShowsHeaders(
         file, FileHeader(0x4D42, |file|, 0, 0, palette + 4 * n),
         InfoHeader(palette - 14, width, height, 1, 8 * depth, 0, size, 0, 0, n, important))
    && (version == V4 ==> ShowsVersion4(file))
    && ShowsPalette(file, palette, n, custom)
  }

  /** The bitmap that is about to be written, field by field. */
  ghost predicate IsPrepared(
    b: BitMap, data: seq<uint8>, width: nat, height: nat, depth: nat, version: HeaderVersion,
    custom: Option<ColorTable>)
    requires TableIsWhole(custom)
  {
    var (n, important) := Announced(depth, custom);
    && b.info == InfoHeader(HeaderSize(version), width, height, 1, depth * 8, 0, |data|, 0, 0, n, important)
    && b.file ==
       FileHeader(0x4D42, 14 + |data| + HeaderSize(version) + 4 * n, 0, 0, 14 + HeaderSize(version) + 4 * n)
    && b.v4 == (if version == V1 then [] else V4_NUMBERS) && b.data == data
    && b.PartsFit() && b.TableFits()
    && (n > 0 ==> b.colorTable.Some?) && (b.colorTable.Some? ==> |b.colorTable.value| == n)
    && forall k {:trigger EntryIn(custom, n, k)} :: 0 <= k < n ==> b.colorTable.value[k] == EntryIn(custom, n, k)
  }

  /** Where a palette is there if it is announced, that is what `writeBMP2` prepares. */
  lemma PreparedIsPrepared(
    data: seq<uint8>, width: nat, height: nat, depth: nat, isGreyscale: bool, version: HeaderVersion,
    custom: Option<ColorTable>)
    requires ArgumentsFit(data, width, height, depth, custom) && HasItsPalette(depth, isGreyscale, custom)
    ensures
      var p := Prepared(data, width, height, depth, isGreyscale, version, custom);
      p.Value? && IsPrepared(p.value, data, width, height, depth, version, custom) && p.value.BuffersSuffice()
  {
    RawIsRaw(data, width, height, depth, version, custom);
    PaletteIsThereIffItShouldBe(Raw(data, width, height, depth, version), depth, version, isGreyscale, custom);
    PaletteIsAdded(Raw(data, width, height, depth, version), version, isGreyscale, custom);
    var n := Announced(depth, custom).0;
    if custom == None || custom.value.entries == None {
      forall k | 0 <= k < n ensures Greys(n)[k] == EntryIn(custom, n, k) {}
    }
  }

  /** What is written are its headers and its pixels, and exactly if the palette is there and the version not 5. */
  lemma WritesPrepared(
    data: seq<uint8>, width: nat, height: nat, depth: nat, isGreyscale: bool, version: HeaderVersion,
    custom: Option<ColorTable>)
    requires ArgumentsFit(data, width, height, depth, custom)
    ensures
      var r := WriteBmp2(data, width, height, depth, isGreyscale, version, custom);
      && (r.Value? <==> HasItsPalette(depth, isGreyscale, custom) && version != V5)
      && (r.Value? ==>
            var p := Prepared(data, width, height, depth, isGreyscale, version, custom);
            && p.Value? && IsPrepared(p.value, data, width, height, depth, version, custom) && p.value.BuffersSuffice()
            && r.value == HeaderBytes(p.value) + FilePixels(p.value))
  {
    WriteBmp2Outcome(data, width, height, depth, isGreyscale, version, custom, _ => 0);
    if HasItsPalette(depth, isGreyscale, custom) {
      PreparedIsPrepared(data, width, height, depth, isGreyscale, version, custom);
    }
  }

  lemma FirstHeadersStand(b: BitMap, pixels: seq<uint8>)
    ensures ShowsHeaders(HeaderBytes(b) + pixels, b.file, b.info)
  {
    var first, rest := Encoded(FileNums(b.file, b.info)), V4Bytes(b) + (V5Bytes(b) + PaletteBytes(b) + pixels);
    HeadersStand(b.file, b.info, rest);
    Regrouped(first, V4Bytes(b), V5Bytes(b), PaletteBytes(b), pixels);
  }

  lemma Version4IsShown(b: BitMap, pixels: seq<uint8>)
    requires b.PartsFit() && b.info.headerSize >= V4_INFO_HEADER_LENGTH && b.v4 == V4_NUMBERS
    ensures ShowsVersion4(HeaderBytes(b) + pixels)
  {
    forall k | 0 <= k < 17 ensures WordAt(HeaderBytes(b) + pixels, 54 + 4 * k, V4Number(k)) {
      Version4Stands(b, k);
      StandsInWhole(HeaderBytes(b), pixels, 54 + 4 * k, b.v4[k]);
      NumberOfVersion4(k);
    }
  }

  lemma NumberOfVersion4(k: nat)
    requires k < 17
    ensures |V4_NUMBERS| == 17 && V4_NUMBERS[k] == V4Number(k)
  {
  }

  lemma StandsInWhole(first: seq<uint8>, rest: seq<uint8>, at: nat, v: nat)
    requires WordAt(first, at, v)
    ensures WordAt(first + rest, at, v)
  {
  }

  lemma PaletteIsShown(b: BitMap, pixels: seq<uint8>, at: nat, n: nat, custom: Option<ColorTable>)
    requires TableIsWhole(custom) && (custom.Some? ==> custom.value.numColors == n)
    requires |HeaderBytes(b)| == at + 4 * n
    requires n > 0 ==> b.colorTable.Some? && |b.colorTable.value| == n
    requires forall k {:trigger EntryIn(custom, n, k)} :: 0 <= k < n ==> b.colorTable.value[k] == EntryIn(custom, n, k)
    ensures ShowsPalette(HeaderBytes(b) + pixels, at, n, custom)
  {
    forall k | 0 <= k < n ensures QuadAt(HeaderBytes(b) + pixels, at + 4 * k, EntryIn(custom, n, k)) {
      PaletteStands(b, k);
      var q := b.colorTable.value[k];
      StandsBefore(HeaderBytes(b), pixels, at + 4 * k, [q.blue, q.green, q.red, q.reserved]);
    }
  }

  /**
    Every file that `writeBMP2` writes, byte for byte up to the pixels: the
    announced sizes and offset are those of the file, and numbers, masks and palette
    stand where the format has them.
   */
  lemma WrittenFileIsLaidOut(
    data: seq<uint8>, width: nat, height: nat, depth: nat, isGreyscale: bool, version: HeaderVersion,
    custom: Option<ColorTable>)
    requires ArgumentsFit(data, width, height, depth, custom)
    ensures
      var r := WriteBmp2(data, width, height, depth, isGreyscale, version, custom);
      && (r.Value? <==> HasItsPalette(depth, isGreyscale, custom) && version != V5)
      && (r.Value? ==> IsLaidOut(r.value, |data|, width, height, depth, version, custom))
  {
    WritesPrepared(data, width, height, depth, isGreyscale, version, custom);
    if HasItsPalette(depth, isGreyscale, custom) && version != V5 {
      var b := Prepared(data, width, height, depth, isGreyscale, version, custom).value;
      PreparedIsLaidOut(b, FilePixels(b), data, width, height, depth, version, custom);
    }
  }

  lemma PreparedIsLaidOut(
    b: BitMap, pixels: seq<uint8>, data: seq<uint8>, width: nat, height: nat, depth: nat, version: HeaderVersion,
    custom: Option<ColorTable>)
    requires TableIsWhole(custom) && IsPrepared(b, data, width, height, depth, version, custom) && version != V5
    requires |pixels| == |data|
    ensures IsLaidOut(HeaderBytes(b) + pixels, |data|, width, height, depth, version, custom)
  {
    PreparedLength(b, data, width, height, depth, version, custom);
    FirstHeadersStand(b, pixels);
    if version == V4 { Version4IsShown(b, pixels); }
    PaletteIsShown(b, pixels, PaletteStart(version), Announced(depth, custom).0, custom);
    PartsAreLaidOut(HeaderBytes(b) + pixels, b, |data|, width, height, depth, version, custom);
  }

  lemma PartsAreLaidOut(
    file: seq<uint8>, b: BitMap, size: nat, width: nat, height: nat, depth: nat, version: HeaderVersion,
    custom: Option<ColorTable>)
    requires TableIsWhole(custom) && ShowsHeaders(file, b.file, b.info)
    requires
      var (n, important) := Announced(depth, custom);
      && |file| == PaletteStart(version) + 4 * n + size
      && b.file == FileHeader(0x4D42, |file|, 0, 0, PaletteStart(version) + 4 * n)
      && b.info ==
         InfoHeader(PaletteStart(version) - 14, width, height, 1, 8 * depth, 0, size, 0, 0, n, important)
      && (version == V4 ==> ShowsVersion4(file)) && ShowsPalette(file, PaletteStart(version), n, custom)
    ensures IsLaidOut(file, size, width, height, depth, version, custom)
  {
  }

  lemma PreparedLength(
    b: BitMap, data: seq<uint8>, width: nat, height: nat, depth: nat, version: HeaderVersion,
    custom: Option<ColorTable>)
    requires TableIsWhole(custom) && IsPrepared(b, data, width, height, depth, version, custom) && version != V5
    ensures |HeaderBytes(b)| == PaletteStart(version) + 4 * Announced(depth, custom).0 == b.file.bitmapOffset
    ensures b.file.fileSize == |HeaderBytes(b)| + |data| && b.info.sizeOfBitmap == |data|
    ensures b.info.headerSize == PaletteStart(version) - 14
  {
    HeaderLength(b);
  }

  lemma StoredBehind(header: seq<uint8>, stored: seq<uint8>, data: seq<uint8>, p: nat, q: nat, zeroed: bool)
    requires StoresPixel(stored, 0, data, p, q, zeroed)
    ensures StoresPixel(header + stored, |header|, data, p, q, zeroed)
  {
  }

  /**
    Every pixel of a 24-bit file: rows from below, then blue, green and red, with
    zeroes for a middle row. `p` and `q` are the pixel's places in file and data.
   */
  lemma WrittenFileStoresPixel(
    data: seq<uint8>, width: nat, height: nat, isGreyscale: bool, version: HeaderVersion,
    custom: Option<ColorTable>, x: nat, y: nat, p: nat, q: nat)
    requires ArgumentsFit(data, width, height, 3, custom) && x < width && y < height
    requires p == x + (height - 1 - y) * width && q == x + y * width
    ensures
      var r := WriteBmp2(data, width, height, 3, isGreyscale, version, custom);
      var start := PaletteStart(version) + 4 * Announced(3, custom).0;
      r.Value? ==> StoresPixel(r.value, start, data, p, q, 2 * y + 1 == height)
  {
    WritesPrepared(data, width, height, 3, isGreyscale, version, custom);
    if HasItsPalette(3, isGreyscale, custom) && version != V5 {
      var b := Prepared(data, width, height, 3, isGreyscale, version, custom).value;
      PreparedFileStoresPixel(HeaderBytes(b) + FilePixels(b), b, data, width, height, version, custom, x, y, p, q);
    }
  }

  lemma PreparedFileStoresPixel(
    file: seq<uint8>, b: BitMap, data: seq<uint8>, width: nat, height: nat, version: HeaderVersion,
    custom: Option<ColorTable>, x: nat, y: nat, p: nat, q: nat)
    requires TableIsWhole(custom) && IsPrepared(b, data, width, height, 3, version, custom) && version != V5
    requires b.BuffersSuffice() && file == HeaderBytes(b) + FilePixels(b) && x < width && y < height
    requires p == x + (height - 1 - y) * width && q == x + y * width
    ensures StoresPixel(file, PaletteStart(version) + 4 * Announced(3, custom).0, data, p, q, 2 * y + 1 == height)
  {
    PreparedLength(b, data, width, height, 3, version, custom);
    PreparedStoresPixel(b, x, y, p, q);
  }

  lemma PreparedStoresPixel(b: BitMap, x: nat, y: nat, p: nat, q: nat)
    requires b.BuffersSuffice() && b.Depth() == 3 && x < b.info.width && y < b.info.height
    requires p == x + (b.info.height - 1 - y) * b.info.width && q == x + y * b.info.width
    ensures StoresPixel(HeaderBytes(b) + FilePixels(b), |HeaderBytes(b)|, b.data, p, q, 2 * y + 1 == b.info.height)
  {
    PixelIsStored(b, x, y, p, q);
    StoredBehind(HeaderBytes(b), FilePixels(b), b.data, p, q, 2 * y + 1 == b.info.height);
  }

  // ----- Reading any file -----

  lemma {:induction false} LittleEndianOfValue(b: seq<uint8>)
    ensures LittleEndian(|b|, FromLittleEndian(b)) == b
  {
    if b != [] {
      LittleEndianOfValue(b[1..]);
      var v := FromLittleEndian(b[1..]);
      assert (b[0] as nat + 256 * v) % 256 == b[0] as nat && (b[0] as nat + 256 * v) / 256 == v;
      assert b == [b[0]] + b[1..];
    }
  }

  function Nums(widths: seq<nat>, values: seq<nat>): seq<Num>
    requires |widths| == |values|
  {
    seq(|widths|, i requires 0 <= i < |widths| => Num(widths[i], values[i]))
  }

  /** What is read as numbers are these numbers' bytes. */
  lemma {:induction false} EncodedOfRead(bytes: seq<uint8>, widths: seq<nat>, values: seq<nat>)
    requires ReadNums(bytes, widths) == Some(values)
    ensures |values| == |widths| && Total(widths) <= |bytes| && Encoded(Nums(widths, values)) == bytes[..Total(widths)]
    decreases widths
  {
    if widths != [] {
      var w := widths[0];
      var first, rest := bytes[..w], bytes[w..];
      EncodedOfRead(rest, widths[1..], values[1..]);
      LittleEndianOfValue(first);
      var nums := Nums(widths, values);
      assert nums[0] == Num(w, values[0]) && nums[1..] == Nums(widths[1..], values[1..]);
      assert bytes[..Total(widths)] == first + rest[..Total(widths[1..])];
    } else {
      assert bytes[..0] == [];
    }
  }

  lemma NumsAreFileNums(v: seq<nat>)
    requires |v| == 16
    ensures |FILE_WIDTHS| == 16 && Nums(FILE_WIDTHS, v) == FileNums(HeadersOf(v).0, HeadersOf(v).1)
  {
    var (f, h) := HeadersOf(v);
    FileNumsLength(f, h);
    forall i | 0 <= i < 16 ensures Nums(FILE_WIDTHS, v)[i] == FileNums(f, h)[i] {
      assert Widths(FileNums(f, h))[i] == FileNums(f, h)[i].width == FILE_WIDTHS[i];
    }
  }

  lemma FirstHeadersAreRead(bytes: seq<uint8>, v: seq<nat>)
    requires ReadNums(bytes, FILE_WIDTHS) == Some(v)
    ensures |v| == 16 && |bytes| >= 54 && ShowsHeaders(bytes, HeadersOf(v).0, HeadersOf(v).1)
  {
    EncodedOfRead(bytes, FILE_WIDTHS, v);
    TotalOfFileWidths();
    NumsAreFileNums(v);
    HeadersStandFirst(bytes, HeadersOf(v).0, HeadersOf(v).1);
  }

  lemma HeadersStandFirst(bytes: seq<uint8>, f: FileHeader, h: InfoHeader)
    requires |bytes| >= 54 && bytes[..54] == Encoded(FileNums(f, h))
    ensures ShowsHeaders(bytes, f, h)
  {
    ShowsInWhole(bytes[..54], bytes[54..], f, h);
    assert bytes == bytes[..54] + bytes[54..];
  }

  lemma ShowsInWhole(first: seq<uint8>, rest: seq<uint8>, f: FileHeader, h: InfoHeader)
    requires first == Encoded(FileNums(f, h))
    ensures ShowsHeaders(first + rest, f, h)
  {
    HeadersStand(f, h, rest);
  }

  /** Where the palette of a file with this header starts. */
  function TableStart(headerSize: nat): nat {
    if headerSize >= 108 then 122 else 54
  }

  lemma {:induction false} FlatWords(v: seq<nat>, k: nat)
    requires k < |v|
    ensures StandsAt(Encoded(Words(v)), 4 * k, LittleEndian(4, v[k]))
  {
    NumberStands(Words(v), k);
    assert Widths(Words(v)[..k]) == Repeat(k, 4);
    TotalOfRepeat(k, 4);
  }

  lemma WordsAreTaken(bytes: seq<uint8>, v: seq<nat>, k: nat)
    requires ReadNums(bytes, Repeat(17, 4)) == Some(v) && k < 17
    ensures |v| == 17 && WordAt(bytes, 4 * k, v[k])
  {
    EncodedOfRead(bytes, Repeat(17, 4), v);
    TotalOfRepeat(17, 4);
    assert Nums(Repeat(17, 4), v) == Words(v);
    FlatWords(v, k);
    var first := bytes[..68];
    assert bytes == first + bytes[68..];
    StandsBefore(first, bytes[68..], 4 * k, LittleEndian(4, v[k]));
    WordStands(bytes, 4 * k, v[k]);
  }

  lemma QuadIsTaken(bytes: seq<uint8>, n: nat, k: nat)
    requires 4 * n <= |bytes| && k < n
    ensures QuadAt(bytes, 4 * k, QuadsIn(bytes, n)[k])
  {
  }

  lemma ShiftedWord(bytes: seq<uint8>, from: nat, at: nat, v: nat)
    requires from <= |bytes| && WordAt(bytes[from..], at, v)
    ensures WordAt(bytes, from + at, v)
  {
    assert bytes[from..][at] == bytes[from + at] && bytes[from..][at + 1] == bytes[from + at + 1];
    assert bytes[from..][at + 2] == bytes[from + at + 2] && bytes[from..][at + 3] == bytes[from + at + 3];
  }

  lemma ShiftedQuad(bytes: seq<uint8>, from: nat, at: nat, q: RGBQuad)
    requires from <= |bytes| && QuadAt(bytes[from..], at, q)
    ensures QuadAt(bytes, from + at, q)
  {
    assert bytes[from..][at..at + 4] == bytes[from + at..from + at + 4];
  }

  /** The palette and the numbers of version 4 that a file holds. */
  ghost predicate TellsRest(bytes: seq<uint8>, b: BitMap) {
    && |b.v4| == (if b.info.headerSize >= 108 then 17 else 0) && b.v5 == []
    && (forall k :: 0 <= k < |b.v4| ==> WordAt(bytes, 54 + 4 * k, b.v4[k]))
    && match b.colorTable
       case None => b.info.colorsUsed == 0
       case Some(t) =>
         && |t| == b.info.colorsUsed > 0
         && forall k :: 0 <= k < |t| ==> QuadAt(bytes, TableStart(b.info.headerSize) + 4 * k, t[k])
  }

  lemma TableIsTaken(bytes: seq<uint8>, from: nat, b0: BitMap, b: BitMap)
    requires from <= |bytes| && b0.colorTable == None && ReadTable(bytes[from..], b0) == Value(b)
    ensures b == b0.(colorTable := b.colorTable)
    ensures b.info.colorsUsed == 0 <==> b.colorTable == None
    ensures b.colorTable.Some? ==>
      && |b.colorTable.value| == b.info.colorsUsed
      && forall k :: 0 <= k < b.info.colorsUsed ==> QuadAt(bytes, from + 4 * k, b.colorTable.value[k])
  {
    forall k | 0 <= k < b.info.colorsUsed ensures QuadAt(bytes, from + 4 * k, b.colorTable.value[k]) {
      QuadIsTaken(bytes[from..], b.info.colorsUsed, k);
      ShiftedQuad(bytes, from, 4 * k, b.colorTable.value[k]);
    }
  }

  /** The headers that are read from any file are what its bytes say. */
  lemma HeaderIsTaken(bytes: seq<uint8>)
    requires ReadHeader(bytes).Value?
    ensures
      var b := ReadHeader(bytes).value;
      ShowsHeaders(bytes, b.file, b.info) && TellsRest(bytes, b) && b.data == []
  {
    TotalOfFileWidths();
    var v := ReadNums(bytes, FILE_WIDTHS).value;
    FirstHeadersAreRead(bytes, v);
    RestIsTaken(bytes, HeadersOf(v).0, HeadersOf(v).1);
  }

  lemma RestIsTaken(bytes: seq<uint8>, f: FileHeader, h: InfoHeader)
    requires |bytes| >= 54 && ReadRest(f, h, bytes[54..]).Value?
    ensures
      var b := ReadRest(f, h, bytes[54..]).value;
      b.file == f && b.info == h && TellsRest(bytes, b) && b.data == []
  {
    var rest, b := bytes[54..], ReadRest(f, h, bytes[54..]).value;
    if h.headerSize < 108 {
      TableIsTaken(bytes, 54, BitMap(f, h, [], [], None, []), b);
    } else {
      var v4 := ReadNums(rest, Repeat(17, 4)).value;
      TotalOfRepeat(17, 4);
      assert rest[68..] == bytes[122..];
      TableIsTaken(bytes, 122, BitMap(f, h, v4, [], None, []), b);
      forall k | 0 <= k < 17 ensures WordAt(bytes, 54 + 4 * k, v4[k]) {
        WordsAreTaken(rest, v4, k);
        ShiftedWord(bytes, 54, 4 * k, v4[k]);
      }
    }
  }

  /** A pixel that is read: row `y` from below, with channels exchanged. A middle row stays in its place. */
  lemma PixelIsTaken(b: BitMap, stored: seq<uint8>, held: nat -> uint8, x: nat, y: nat, p: nat, q: nat)
    requires |stored| == b.Room() && b.Depth() == 3 && x < b.info.width && y < b.info.height
    requires p == x + (b.info.height - 1 - y) * b.info.width && q == x + y * b.info.width
    ensures StoresPixel(stored, 0, MemoryPixels(b, stored, held), p, q, false)
  {
    var s := Swapped(stored);
    assert s + Held(held, |stored|, b.Room()) == s;
    MirroredByte(b, s, x, y, 0, 3 * q, 3 * p);
    MirroredByte(b, s, x, y, 1, 3 * q + 1, 3 * p + 1);
    MirroredByte(b, s, x, y, 2, 3 * q + 2, 3 * p + 2);
    TakenPixel(stored, MemoryPixels(b, stored, held), p, q);
  }

  lemma TakenPixel(stored: seq<uint8>, data: seq<uint8>, p: nat, q: nat)
    requires 3 * p + 2 < |stored| && 3 * q + 2 < |data|
    requires data[3 * q] == Swapped(stored)[3 * p] && data[3 * q + 1] == Swapped(stored)[3 * p + 1]
    requires data[3 * q + 2] == Swapped(stored)[3 * p + 2]
    ensures StoresPixel(stored, 0, data, p, q, false)
  {
    SwappedPixel(stored, p);
  }

  /**
    Whatever wrote the file: the bitmap that is read has the numbers and the palette
    that stand in it, and the announced bytes are taken from the announced offset.
   */
  lemma AnyFileIsRead(bytes: seq<uint8>, held: nat -> uint8)
    requires PixelsFit(bytes)
    ensures ReadBmp(bytes, held).Failure? ==> ReadBmp(bytes, held).status == ReadTooFewBytes
    ensures ReadBmp(bytes, held).Value? ==>
      var b := ReadBmp(bytes, held).value;
      && ShowsHeaders(bytes, b.file, b.info) && TellsRest(bytes, b) && |b.data| == b.Room()
      && (b.info.sizeOfBitmap > 0 ==> b.file.bitmapOffset + b.info.sizeOfBitmap <= |bytes|)
  {
    if ReadBmp(bytes, held).Value? { HeaderIsTaken(bytes); }
  }

  /** In a 24-bit file with bytes for all pixels, each pixel is found where the format has it. */
  lemma AnyPixelIsRead(bytes: seq<uint8>, held: nat -> uint8, b: BitMap, x: nat, y: nat, p: nat, q: nat)
    requires PixelsFit(bytes) && ReadBmp(bytes, held) == Value(b)
    requires b.Depth() == 3 && b.info.sizeOfBitmap == b.Room() && x < b.info.width && y < b.info.height
    requires p == x + (b.info.height - 1 - y) * b.info.width && q == x + y * b.info.width
    ensures StoresPixel(bytes, b.file.bitmapOffset, b.data, p, q, false)
  {
    var stored := ReadIsOfStored(bytes, held, b);
    StoredPixelIsRead(bytes, b, b.file.bitmapOffset, stored, held, b.data, x, y, p, q);
  }

  lemma ReadIsOfStored(bytes: seq<uint8>, held: nat -> uint8, b: BitMap) returns (stored: seq<uint8>)
    requires PixelsFit(bytes) && ReadBmp(bytes, held) == Value(b) && b.info.sizeOfBitmap == b.Room()
    ensures |stored| == b.Room() && b.data == MemoryPixels(b, stored, held)
    ensures var start := b.file.bitmapOffset;
      stored == [] || (start + |stored| <= |bytes| && stored == bytes[start..start + |stored|])
  {
    stored := ReadFrom(bytes, b.file.bitmapOffset, b.info.sizeOfBitmap).value;
    OnlyInfoCounts(ReadHeader(bytes).value, b, stored, held);
  }

  lemma OnlyInfoCounts(b: BitMap, b': BitMap, stored: seq<uint8>, held: nat -> uint8)
    requires b.info == b'.info && |stored| <= b.Room()
    ensures b.Room() == b'.Room() && MemoryPixels(b, stored, held) == MemoryPixels(b', stored, held)
  {
  }

  lemma StoredPixelIsRead(
    bytes: seq<uint8>, b: BitMap, start: nat, stored: seq<uint8>, held: nat -> uint8, data: seq<uint8>,
    x: nat, y: nat, p: nat, q: nat)
    requires |stored| == b.Room() && data == MemoryPixels(b, stored, held)
    requires b.Depth() == 3 && x < b.info.width && y < b.info.height
    requires p == x + (b.info.height - 1 - y) * b.info.width && q == x + y * b.info.width
    requires stored == [] || (start + |stored| <= |bytes| && stored == bytes[start..start + |stored|])
    ensures StoresPixel(bytes, start, data, p, q, false)
  {
    PixelIsTaken(b, stored, held, x, y, p, q);
    StoredFrom(bytes, start, stored, data, p, q);
  }

  lemma StoredFrom(bytes: seq<uint8>, start: nat, stored: seq<uint8>, data: seq<uint8>, p: nat, q: nat)
    requires StoresPixel(stored, 0, data, p, q, false)
    requires start + |stored| <= |bytes| && stored == bytes[start..start + |stored|]
    ensures StoresPixel(bytes, start, data, p, q, false)
  {
  }

  /** A file is read if and only if its headers, its palette and the announced pixels are all there. */
  lemma MissingBytesRefuse(f: FileHeader, h: InfoHeader, rest: seq<uint8>, held: nat -> uint8)
    requires Fits(FileNums(f, h)) && PixelsFit(Encoded(FileNums(f, h)) + rest)
    ensures
      var bytes := Encoded(FileNums(f, h)) + rest;
      ReadBmp(bytes, held).Value? <==>
        && TableStart(h.headerSize) + 4 * h.colorsUsed <= |bytes|
        && (h.sizeOfBitmap == 0 || f.bitmapOffset + h.sizeOfBitmap <= |bytes|)
  {
    FirstPartIsRead(f, h, rest);
    FileNumsLength(f, h);
    RestIsReadIff(f, h, rest);
  }

  lemma RestIsReadIff(f: FileHeader, h: InfoHeader, rest: seq<uint8>)
    ensures ReadRest(f, h, rest).Value? <==> TableStart(h.headerSize) - 54 + 4 * h.colorsUsed <= |rest|
    ensures ReadRest(f, h, rest).Value? ==> ReadRest(f, h, rest).value.file == f && ReadRest(f, h, rest).value.info == h
  {
    TotalOfRepeat(17, 4);
    EnoughAreRead(rest, Repeat(17, 4));
  }

  lemma {:induction false} EnoughAreRead(bytes: seq<uint8>, widths: seq<nat>)
    ensures ReadNums(bytes, widths).Some? <==> Total(widths) <= |bytes|
    decreases widths
  {
    if widths != [] && widths[0] <= |bytes| { EnoughAreRead(bytes[widths[0]..], widths[1..]); }
  }

  lemma ShortFilesAreRefused(bytes: seq<uint8>, held: nat -> uint8)
    ensures PixelsFit(bytes) && |bytes| < 54 ==> ReadBmp(bytes, held) == Failure(ReadTooFewBytes)
  {
    TotalOfFileWidths();
    EnoughAreRead(bytes, FILE_WIDTHS);
  }

  // ----- Bytes beyond the pixels -----

  /** What a bitmap announces beyond its pixels is written as zeroes. */
  lemma PaddingIsZero(b: BitMap, i: nat)
    requires b.BuffersSuffice() && b.Room() <= i < b.info.sizeOfBitmap
    ensures FilePixels(b)[i] == 0
  {
    SameProduct(b.info.width, b.info.height, b.Depth());
    ZeroAfter(Unswapped(b), b.info.width * b.info.height, b.Room(), b.Depth(), i);
  }

  lemma ZeroAfter(f: seq<uint8>, pixels: nat, room: nat, depth: nat, i: nat)
    requires room <= i < |f| && room == pixels * depth && forall k :: room <= k < |f| ==> f[k] == 0
    ensures f[i] == 0 && (depth == 3 ==> Swapped(f)[i] == 0)
  {
    if depth == 3 {
      assert room % 3 == 0 && i / 3 * 3 >= room;
    }
  }

  /** A byte for which the file stores nothing is what the buffer happened to hold in the mirrored row. */
  lemma UnfilledByteIsHeld(b: BitMap, stored: seq<uint8>, held: nat -> uint8, x: nat, y: nat, c: nat, i: nat, j: nat)
    requires |stored| <= b.Room() && x < b.info.width && y < b.info.height && c < b.Depth()
    requires i == b.Depth() * (x + y * b.info.width) + c
    requires j == b.Depth() * (x + (b.info.height - 1 - y) * b.info.width) + c && |stored| <= j
    ensures i < b.Room() && j < b.Room() && MemoryPixels(b, stored, held)[i] == held(j)
  {
    var s := if b.Depth() == 3 then Swapped(stored) else stored;
    var all := s + Held(held, |stored|, b.Room());
    MirroredByte(b, all, x, y, c, i, j);
    HeldByte(s, held, b.Room(), j);
  }

  /** Flipped in place, a byte comes from the mirrored row, in the middle row too. */
  lemma MirroredByte(b: BitMap, all: seq<uint8>, x: nat, y: nat, c: nat, i: nat, j: nat)
    requires |all| == b.Room() && x < b.info.width && y < b.info.height && c < b.Depth()
    requires i == b.Depth() * (x + y * b.info.width) + c
    requires j == b.Depth() * (x + (b.info.height - 1 - y) * b.info.width) + c
    ensures i < |all| && j < |all| && Flipped(all, all, b.Pitch(), b.info.height)[i] == all[j]
  {
    var w, h, d := b.info.width, b.info.height, b.Depth();
    ByteInRow(w, d, x, y, c);
    ByteInRow(w, d, x, h - 1 - y, c);
    FlippedInPlace(all, b.Pitch(), h, d * x + c, y, h - 1 - y, i, j);
  }

  lemma HeldByte(s: seq<uint8>, held: nat -> uint8, room: nat, j: nat)
    requires |s| <= j < room
    ensures (s + Held(held, |s|, room))[j] == held(j)
  {
  }
}
