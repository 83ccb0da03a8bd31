/** The cache of province previews: a FIFO map used as a least-recently-used cache. */
module PreviewCache {
  import opened Types
  import opened Collections
  import opened Pixels

  /** The largest number of previews that stay cached between calls. */
  const MAX_CACHED_PROVINCE_PREVIEWS: nat := 100

  type Preview = seq<uint8>

  // ----- Previews -----

  function Distance(a: uint32, b: uint32): nat {
    if a < b then (b - a) as nat else (a - b) as nat
  }

  function BoxWidth(bb: BoundingBox): nat {
    Distance(bb.topRight.x, bb.bottomLeft.x)
  }

  function BoxHeight(bb: BoundingBox): nat {
    Distance(bb.topRight.y, bb.bottomLeft.y)
  }

  /** The part of the box that is read lies in the map, and no index computation wraps. */
  ghost predicate BoxInMap(bb: BoundingBox, width: nat, height: nat) {
    && bb.topRight.x as nat <= width && bb.bottomLeft.y as nat <= height
    && width * height <= 0x1_0000_0000
    && BoxWidth(bb) * BoxHeight(bb) * 4 <= 0x1_0000_0000
  }

  /** Whether the pixel at column `rx` and row `ry` of the province's box belongs to the province. */
  ghost predicate Shown(p: Province, labels: seq<ProvinceID>, width: nat, rx: nat, ry: nat) {
    var x, y := p.boundingBox.bottomLeft.x as nat + rx, p.boundingBox.topRight.y as nat + ry;
    && x < p.boundingBox.topRight.x as nat && y < p.boundingBox.bottomLeft.y as nat
    && x + y * width < |labels| && labels[x + y * width] == p.id
  }

  /** Four bytes per pixel of the box, highlighted where the province is and zero elsewhere. */
  ghost predicate IsPreview(data: seq<uint8>, p: Province, labels: seq<ProvinceID>, width: nat) {
    var w, h := BoxWidth(p.boundingBox), BoxHeight(p.boundingBox);
    && |data| == w * h * 4
    && (w > 0 ==> forall b :: 0 <= b < |data| ==>
          data[b] == if Shown(p, labels, width, Column(w, b / 4), Row(w, b / 4)) then 0xFF else 0)
  }

  lemma PreviewIsUnique(a: seq<uint8>, b: seq<uint8>, p: Province, labels: seq<ProvinceID>, width: nat)
    requires IsPreview(a, p, labels, width) && IsPreview(b, p, labels, width)
    ensures a == b
  {
    var w, h := BoxWidth(p.boundingBox), BoxHeight(p.boundingBox);
    if w == 0 {
      assert |a| == |b| == 0;
    } else {
      forall i | 0 <= i < |a| ensures a[i] == b[i] {}
    }
  }

  /**
    Each of the four bytes of the pixel in column `x` and row `y` of the map is 0xFF
    in the preview where the province is, and 0 elsewhere in its box. `i` is the
    pixel's place in the map, and `b` that of the byte, counted from the box's corner.
   */
  lemma PreviewByte(
    data: seq<uint8>, p: Province, labels: seq<ProvinceID>, width: nat, x: nat, y: nat, c: nat, i: nat, b: nat)
    requires IsPreview(data, p, labels, width) && c < 4 && i == x + y * width < |labels|
    requires p.boundingBox.bottomLeft.x as nat <= x < p.boundingBox.topRight.x as nat <= width
    requires p.boundingBox.topRight.y as nat <= y < p.boundingBox.bottomLeft.y as nat
    requires
      var bb := p.boundingBox;
      var boxWidth := bb.topRight.x as nat - bb.bottomLeft.x as nat;
      b == 4 * ((x - bb.bottomLeft.x as nat) + (y - bb.topRight.y as nat) * boxWidth) + c
    ensures b < |data| && data[b] == if labels[i] == p.id then 255 else 0
  {
    var bb := p.boundingBox;
    var w, h, rx, ry := BoxWidth(bb), BoxHeight(bb), x - bb.bottomLeft.x as nat, y - bb.topRight.y as nat;
    RowsFit(w, h, rx, ry);
    IndexIsUnique(w, rx, ry);
    assert b / 4 == rx + ry * w;
  }

  lemma PreviewIsTheOnlyOne(a: seq<uint8>, p: Province, labels: seq<ProvinceID>, width: nat)
    requires IsPreview(a, p, labels, width)
    ensures forall anew :: IsPreview(anew, p, labels, width) ==> a == anew
  {
    forall anew | IsPreview(anew, p, labels, width) ensures a == anew { PreviewIsUnique(a, anew, p, labels, width); }
  }

  /** Byte `b` of the preview once the columns before `rx` and the rows before `ry` of column `rx` are done. */
  ghost function ByteAfter(p: Province, labels: seq<ProvinceID>, width: nat, rx: nat, ry: nat, b: nat): uint8
    requires BoxWidth(p.boundingBox) > 0
  {
    var w := BoxWidth(p.boundingBox);
    if Visited(w, rx, ry, b / 4) && Shown(p, labels, width, Column(w, b / 4), Row(w, b / 4)) then 0xFF else 0
  }

  lemma NextByte(p: Province, labels: seq<ProvinceID>, width: nat, rx: nat, ry: nat, b: nat)
    requires rx < BoxWidth(p.boundingBox)
    ensures ByteAfter(p, labels, width, rx, ry + 1, b) ==
      if b / 4 != rx + ry * BoxWidth(p.boundingBox) then ByteAfter(p, labels, width, rx, ry, b)
      else if Shown(p, labels, width, rx, ry) then 0xFF else 0
    ensures b / 4 == rx + ry * BoxWidth(p.boundingBox) ==> ByteAfter(p, labels, width, rx, ry, b) == 0
  {
    VisitedNext(BoxWidth(p.boundingBox), rx, ry, b / 4);
    IndexIsUnique(BoxWidth(p.boundingBox), rx, ry);
  }

  method BuildPreview(p: Province, labels: seq<ProvinceID>, width: nat, height: nat) returns (data: seq<uint8>)
    requires |labels| == width * height && BoxInMap(p.boundingBox, width, height)
    ensures IsPreview(data, p, labels, width)
  {
    var buffer := NewBuffer(BoxWidth(p.boundingBox), BoxHeight(p.boundingBox));
    var rx := 0;
    while p.boundingBox.bottomLeft.x as nat + rx < p.boundingBox.topRight.x as nat
      invariant forall b :: 0 <= b < buffer.Length ==> buffer[b] == ByteAfter(p, labels, width, rx, 0, b)
      decreases p.boundingBox.topRight.x as nat - rx
    {
      PaintColumn(p, labels, width, height, rx, buffer);
      rx := rx + 1;
    }
    return buffer[..];
  }

  /** A zeroed buffer for four bytes per pixel. */
  method NewBuffer(w: nat, h: nat) returns (buffer: array<uint8>)
    ensures fresh(buffer) && buffer.Length == w * h * 4 && (buffer.Length > 0 ==> w > 0)
    ensures forall b :: 0 <= b < buffer.Length ==> buffer[b] == 0
  {
    buffer := new uint8[w * h * 4](_ => 0);
  }

  method PaintColumn(p: Province, labels: seq<ProvinceID>, width: nat, height: nat, rx: nat, buffer: array<uint8>)
    requires |labels| == width * height && BoxInMap(p.boundingBox, width, height)
    requires buffer.Length == BoxWidth(p.boundingBox) * BoxHeight(p.boundingBox) * 4
    requires p.boundingBox.bottomLeft.x as nat + rx < p.boundingBox.topRight.x as nat
    requires forall b :: 0 <= b < buffer.Length ==> buffer[b] == ByteAfter(p, labels, width, rx, 0, b)
    modifies buffer
    ensures forall b :: 0 <= b < buffer.Length ==> buffer[b] == ByteAfter(p, labels, width, rx + 1, 0, b)
  {
    var bb := p.boundingBox;
    var ry := 0;
    while bb.topRight.y as nat + ry < bb.bottomLeft.y as nat
      invariant forall b :: 0 <= b < buffer.Length ==> buffer[b] == ByteAfter(p, labels, width, rx, ry, b)
      decreases bb.bottomLeft.y as nat - ry
    {
      PaintPixel(p, labels, width, height, rx, ry, buffer);
      ry := ry + 1;
    }
    forall b | 0 <= b < buffer.Length
      ensures ByteAfter(p, labels, width, rx + 1, 0, b) == ByteAfter(p, labels, width, rx, ry, b)
    {
      ColumnIsDone(p, labels, width, rx, ry, b);
    }
  }

  method PaintPixel(
    p: Province, labels: seq<ProvinceID>, width: nat, height: nat, rx: nat, ry: nat, buffer: array<uint8>)
    requires |labels| == width * height && BoxInMap(p.boundingBox, width, height)
    requires buffer.Length == BoxWidth(p.boundingBox) * BoxHeight(p.boundingBox) * 4
    requires p.boundingBox.bottomLeft.x as nat + rx < p.boundingBox.topRight.x as nat
    requires p.boundingBox.topRight.y as nat + ry < p.boundingBox.bottomLeft.y as nat
    requires forall b :: 0 <= b < buffer.Length ==> buffer[b] == ByteAfter(p, labels, width, rx, ry, b)
    modifies buffer
    ensures forall b :: 0 <= b < buffer.Length ==> buffer[b] == ByteAfter(p, labels, width, rx, ry + 1, b)
  {
    var bb, w := p.boundingBox, BoxWidth(p.boundingBox);
    PixelPosition(p, labels, width, height, rx, ry);
    var lindex := XyToIndex(width, bb.bottomLeft.x as nat + rx, bb.topRight.y as nat + ry);
    ghost var before := buffer[..];
    if labels[lindex] == p.id {
      Highlight(buffer, XyToIndex(w * 4, rx * 4, ry));
    }
    NextBytes(p, labels, width, rx, ry, rx + ry * w, before, buffer[..]);
  }

  /** Below the box nothing is shown, so a finished column is as good as the start of the next one. */
  lemma ColumnIsDone(p: Province, labels: seq<ProvinceID>, width: nat, rx: nat, ry: nat, b: nat)
    requires rx < BoxWidth(p.boundingBox) && p.boundingBox.topRight.y as nat + ry >= p.boundingBox.bottomLeft.y as nat
    ensures ByteAfter(p, labels, width, rx + 1, 0, b) == ByteAfter(p, labels, width, rx, ry, b)
  {
  }

  /** Stores the four bytes of the highlight colour 0xFFFFFFFF. */
  method Highlight(buffer: array<uint8>, i: nat)
    requires i + 4 <= buffer.Length
    modifies buffer
    ensures buffer[..] == old(buffer[..i]) + [0xFF, 0xFF, 0xFF, 0xFF] + old(buffer[i + 4..])
  {
    buffer[i], buffer[i + 1], buffer[i + 2], buffer[i + 3] := 0xFF, 0xFF, 0xFF, 0xFF;
  }

  /** If `after` overwrites the four bytes of pixel `q`, it turns contents `f` into contents `g`. */
  lemma SplicedBytes(before: seq<uint8>, after: seq<uint8>, f: nat -> uint8, g: nat -> uint8, q: nat, shown: bool)
    requires 4 * q + 4 <= |before|
    requires after == if shown then before[..4 * q] + [0xFF, 0xFF, 0xFF, 0xFF] + before[4 * q + 4..] else before
    requires forall b :: 0 <= b < |before| ==> before[b] == f(b)
    requires forall b: nat :: g(b) == if b / 4 != q then f(b) else if shown then 0xFF else 0
    requires forall b: nat :: b / 4 == q ==> f(b) == 0
    ensures |after| == |before| && forall b :: 0 <= b < |after| ==> after[b] == g(b)
  {
  }

  lemma NextBytes(
    p: Province, labels: seq<ProvinceID>, width: nat, rx: nat, ry: nat, q: nat, before: seq<uint8>, after: seq<uint8>)
    requires rx < BoxWidth(p.boundingBox) && q == rx + ry * BoxWidth(p.boundingBox) && 4 * q + 4 <= |before|
    requires forall b :: 0 <= b < |before| ==> before[b] == ByteAfter(p, labels, width, rx, ry, b)
    requires after ==
      if Shown(p, labels, width, rx, ry) then before[..4 * q] + [0xFF, 0xFF, 0xFF, 0xFF] + before[4 * q + 4..] else before
    ensures |after| == |before|
    ensures forall b :: 0 <= b < |after| ==> after[b] == ByteAfter(p, labels, width, rx, ry + 1, b)
  {
    var f := (b: nat) => ByteAfter(p, labels, width, rx, ry, b);
    var g := (b: nat) => ByteAfter(p, labels, width, rx, ry + 1, b);
    forall b: nat
      ensures g(b) == if b / 4 != q then f(b) else if Shown(p, labels, width, rx, ry) then 0xFF else 0
      ensures b / 4 == q ==> f(b) == 0
    {
      NextByte(p, labels, width, rx, ry, b);
    }
    SplicedBytes(before, after, f, g, q, Shown(p, labels, width, rx, ry));
    forall b | 0 <= b < |after| ensures after[b] == ByteAfter(p, labels, width, rx, ry + 1, b) {
      assert after[b] == g(b);
    }
  }

  /** Where the pixel stands in the map and in the preview. */
  lemma PixelPosition(p: Province, labels: seq<ProvinceID>, width: nat, height: nat, rx: nat, ry: nat)
    requires |labels| == width * height && BoxInMap(p.boundingBox, width, height)
    requires p.boundingBox.bottomLeft.x as nat + rx < p.boundingBox.topRight.x as nat
    requires p.boundingBox.topRight.y as nat + ry < p.boundingBox.bottomLeft.y as nat
    ensures
      var w, h := BoxWidth(p.boundingBox), BoxHeight(p.boundingBox);
      var lindex := XyToIndex(width, p.boundingBox.bottomLeft.x as nat + rx, p.boundingBox.topRight.y as nat + ry);
      && XyToIndex(w * 4, rx * 4, ry) == 4 * (rx + ry * w)
      && 4 * (rx + ry * w) + 4 <= w * h * 4
      && lindex < |labels|
      && (labels[lindex] == p.id <==> Shown(p, labels, width, rx, ry))
  {
    XyToIndexIsExact(width, height, p.boundingBox.bottomLeft.x as nat + rx, p.boundingBox.topRight.y as nat + ry);
    PixelOffset(BoxWidth(p.boundingBox), BoxHeight(p.boundingBox), 4, rx, ry);
  }

  // ----- A map that remembers the order of insertion -----

  /** An entry whose preview is `None` is null. */
  datatype Entry = Entry(key: ProvinceID, preview: Option<Preview>)

  type FifoMap = seq<Entry>

  /** The position of a key; the size of the map if the key is missing. */
  function Find(c: FifoMap, k: ProvinceID): (i: nat)
    ensures i <= |c|
    ensures i < |c| ==> c[i].key == k
    ensures forall j :: 0 <= j < i ==> c[j].key != k
  {
    if c == [] then 0 else if c[0].key == k then 0 else 1 + Find(c[1..], k)
  }

  /** `operator[]` inserts a missing key at the end, with a null preview. */
  function Touched(c: FifoMap, k: ProvinceID): FifoMap {
    if Find(c, k) < |c| then c else c + [Entry(k, None)]
  }

  function Get(c: FifoMap, k: ProvinceID): Option<Preview> {
    if Find(c, k) < |c| then c[Find(c, k)].preview else None
  }

  function Stored(c: FifoMap, k: ProvinceID, v: Option<Preview>): FifoMap {
    if Find(c, k) < |c| then c[Find(c, k) := Entry(k, v)] else c + [Entry(k, v)]
  }

  function Erased(c: FifoMap, k: ProvinceID): FifoMap {
    var i := Find(c, k);
    if i < |c| then c[..i] + c[i + 1..] else c
  }

  // ----- What has been asked for most recently -----

  function Removed(s: seq<ProvinceID>, x: ProvinceID): seq<ProvinceID> {
    if s == [] then [] else if s[0] == x then Removed(s[1..], x) else [s[0]] + Removed(s[1..], x)
  }

  /** The distinct ids of a request history, in the order of their last requests. */
  ghost function Recent(requests: seq<ProvinceID>): seq<ProvinceID>
    decreases requests
  {
    if requests == [] then []
    else
      var last := requests[|requests| - 1];
      Removed(Recent(requests[..|requests| - 1]), last) + [last]
  }

  /** The last ids of a sequence, as many as stay cached. */
  ghost function MostRecent(s: seq<ProvinceID>): seq<ProvinceID> {
    if |s| <= MAX_CACHED_PROVINCE_PREVIEWS then s else s[|s| - MAX_CACHED_PROVINCE_PREVIEWS..]
  }

  lemma {:induction false} RemovedMembers(s: seq<ProvinceID>, x: ProvinceID)
    ensures forall y :: y in Removed(s, x) <==> y in s && y != x
    ensures Distinct(s) ==> Distinct(Removed(s, x))
    ensures x !in s ==> Removed(s, x) == s
  {
    if s != [] {
      RemovedMembers(s[1..], x);
      assert s == [s[0]] + s[1..];
      if Distinct(s) {
        assert Distinct(s[1..]) && s[0] !in s[1..];
      }
    }
  }

  lemma {:induction false} RemovedIsCut(s: seq<ProvinceID>, x: ProvinceID, i: nat)
    requires Distinct(s) && i < |s| && s[i] == x
    ensures Removed(s, x) == s[..i] + s[i + 1..]
  {
    if i == 0 {
      RemovedMembers(s[1..], x);
    } else {
      RemovedIsCut(s[1..], x, i - 1);
      assert s[..i] == [s[0]] + s[1..][..i - 1];
      assert s[1..][i..] == s[i + 1..];
    }
  }

  lemma {:induction false} RemovedConcat(s: seq<ProvinceID>, t: seq<ProvinceID>, x: ProvinceID)
    ensures Removed(s + t, x) == Removed(s, x) + Removed(t, x)
  {
    if s == [] {
      assert s + t == t;
    } else {
      RemovedConcat(s[1..], t, x);
      assert (s + t)[0] == s[0] && (s + t)[1..] == s[1..] + t;
      assert Removed(s + t, x) == (if s[0] == x then [] else [s[0]]) + (Removed(s[1..], x) + Removed(t, x));
    }
  }

  lemma {:induction false} RecentIsDistinct(requests: seq<ProvinceID>)
    ensures Distinct(Recent(requests))
    ensures forall x :: x in Recent(requests) <==> x in requests
    decreases requests
  {
    if requests != [] {
      var prior, last := requests[..|requests| - 1], requests[|requests| - 1];
      RecentIsDistinct(prior);
      RemovedMembers(Recent(prior), last);
      assert requests == prior + [last];
    }
  }

  // ----- One request -----

  /** The cached keys after a request for `x`, if `keys` were cached before. */
  ghost function KeysAfter(keys: seq<ProvinceID>, x: ProvinceID): seq<ProvinceID> {
    if x in keys then Removed(keys, x) + [x]
    else if |keys| < MAX_CACHED_PROVINCE_PREVIEWS then keys + [x]
    else keys[1..] + [x]
  }

  /** `keys` are the last of `older + keys`, as many as stay cached. */
  ghost predicate IsRecentPart(older: seq<ProvinceID>, keys: seq<ProvinceID>) {
    |keys| <= MAX_CACHED_PROVINCE_PREVIEWS && (older != [] ==> |keys| == MAX_CACHED_PROVINCE_PREVIEWS)
  }

  lemma HitKeepsMostRecent(older: seq<ProvinceID>, keys: seq<ProvinceID>, x: ProvinceID, i: nat)
    requires Distinct(keys) && i < |keys| && keys[i] == x && x !in older
    requires IsRecentPart(older, keys)
    ensures MostRecent(Removed(older + keys, x) + [x]) == Removed(keys, x) + [x]
  {
    RemovedIsCut(keys, x, i);
    RemovedMembers(older, x);
    RemovedConcat(older, keys, x);
    var kept := Removed(keys, x) + [x];
    assert older + Removed(keys, x) + [x] == older + kept;
    MostRecentOfConcat(older, kept);
  }

  lemma MissKeepsMostRecent(older: seq<ProvinceID>, keys: seq<ProvinceID>, x: ProvinceID)
    requires x !in keys && IsRecentPart(older, keys)
    ensures MostRecent(Removed(older + keys, x) + [x]) ==
      if |keys| < MAX_CACHED_PROVINCE_PREVIEWS then keys + [x] else keys[1..] + [x]
  {
    RemovedMembers(keys, x);
    RemovedConcat(older, keys, x);
    var o := Removed(older, x);
    if |keys| < MAX_CACHED_PROVINCE_PREVIEWS {
      assert o + keys + [x] == keys + [x];
    } else {
      assert o + keys + [x] == (o + [keys[0]]) + (keys[1..] + [x]);
      MostRecentOfConcat(o + [keys[0]], keys[1..] + [x]);
    }
  }

  /** Keeping the last hundred of a history, request by request, keeps the last hundred of the whole history. */
  lemma KeysAfterIsMostRecent(recent: seq<ProvinceID>, x: ProvinceID)
    requires Distinct(recent)
    ensures KeysAfter(MostRecent(recent), x) == MostRecent(Removed(recent, x) + [x])
  {
    var keys := MostRecent(recent);
    var older := recent[..|recent| - |keys|];
    assert recent == older + keys;
    if x in keys {
      var i :| 0 <= i < |keys| && keys[i] == x;
      DistinctHalves(older, keys, i);
      HitKeepsMostRecent(older, keys, x, i);
    } else {
      MissKeepsMostRecent(older, keys, x);
    }
  }

  lemma DistinctHalves(s: seq<ProvinceID>, t: seq<ProvinceID>, i: nat)
    requires Distinct(s + t) && i < |t|
    ensures Distinct(t) && t[i] !in s
  {
    forall k, l | 0 <= k < l < |t| ensures t[k] != t[l] {
      assert (s + t)[|s| + k] == t[k] && (s + t)[|s| + l] == t[l];
    }
    forall k | 0 <= k < |s| ensures s[k] != t[i] {
      assert (s + t)[k] == s[k] && (s + t)[|s| + i] == t[i];
    }
  }

  lemma MostRecentOfConcat(s: seq<ProvinceID>, t: seq<ProvinceID>)
    requires IsRecentPart(s, t)
    ensures MostRecent(s + t) == t
  {
  }

  // ----- The cache contents -----

  /** The entries hold `keys` in order, and none of them is null. */
  ghost predicate Holds(c: FifoMap, keys: seq<ProvinceID>) {
    && |c| == |keys|
    && forall i :: 0 <= i < |c| ==> c[i].key == keys[i] && c[i].preview.Some?
  }

  lemma FindInHeld(c: FifoMap, keys: seq<ProvinceID>, x: ProvinceID)
    requires Holds(c, keys) && Distinct(keys)
    ensures Find(c, x) < |c| <==> x in keys
    ensures x in keys ==> keys[Find(c, x)] == x
  {
    if x in keys {
      var i :| 0 <= i < |keys| && keys[i] == x;
      assert c[i].key == x;
    }
  }

  /** Looking a preview up, and building it if it is null. */
  function Fetched(c: FifoMap, x: ProvinceID, built: Preview): FifoMap {
    var c1 := Touched(c, x);
    if Get(c1, x) == None then Built(c1, x, built) else c1
  }

  /** One request: fetch, then erase and insert again at the end. */
  function Requested(c: FifoMap, x: ProvinceID, built: Preview): FifoMap {
    var c2 := Fetched(c, x, built);
    Stored(Erased(c2, x), x, Get(c2, x))
  }

  /** Makes room if there are too many entries, sparing the entry under construction, and stores the preview. */
  function Built(c: FifoMap, x: ProvinceID, built: Preview): FifoMap {
    var c1 :=
      if |c| <= MAX_CACHED_PROVINCE_PREVIEWS then c
      else if c[0].key == x then [c[0]] + c[2..]
      else c[1..];
    Stored(c1, x, Some(built))
  }

  ghost predicate OldBeforeLast(c: FifoMap, c': FifoMap) {
    |c'| > 0 && forall i :: 0 <= i < |c'| - 1 ==> c'[i] in c
  }

  lemma RequestedHitShape(c: FifoMap, keys: seq<ProvinceID>, x: ProvinceID, built: Preview)
    requires Holds(c, keys) && Distinct(keys) && x in keys
    ensures Find(c, x) < |c| && c[Find(c, x)].preview.Some?
    ensures Fetched(c, x, built) == c
    ensures Requested(c, x, built) == Erased(c, x) + [c[Find(c, x)]]
  {
    FindInHeld(c, keys, x);
    var i := Find(c, x);
    var cut, cutKeys := Erased(c, x), keys[..i] + keys[i + 1..];
    assert Holds(cut, cutKeys);
    assert x !in cutKeys && Distinct(cutKeys) by {
      RemovedIsCut(keys, x, i);
      RemovedMembers(keys, x);
    }
    FindInHeld(cut, cutKeys, x);
  }

  lemma CutAndAppended(c: FifoMap, keys: seq<ProvinceID>, x: ProvinceID, i: nat)
    requires Holds(c, keys) && Distinct(keys) && i < |c| && keys[i] == x
    ensures
      var c' := c[..i] + c[i + 1..] + [c[i]];
      Holds(c', Removed(keys, x) + [x]) && OldBeforeLast(c, c') && c'[|c'| - 1] == c[i] && c[i] in c
  {
    RemovedIsCut(keys, x, i);
  }

  lemma RequestedHit(c: FifoMap, keys: seq<ProvinceID>, x: ProvinceID, built: Preview)
    requires Holds(c, keys) && Distinct(keys) && x in keys
    ensures
      var c' := Requested(c, x, built);
      && Holds(c', KeysAfter(keys, x)) && OldBeforeLast(c, c')
      && c'[|c'| - 1] in c && c'[|c'| - 1] == Entry(x, Get(Fetched(c, x, built), x))
  {
    RequestedHitShape(c, keys, x, built);
    FindInHeld(c, keys, x);
    CutAndAppended(c, keys, x, Find(c, x));
  }

  lemma AppendedIsFound(c: FifoMap, x: ProvinceID, e: Entry)
    requires Find(c, x) == |c| && e.key == x
    ensures Find(c + [e], x) == |c|
  {
    assert (c + [e])[|c|].key == x;
  }

  /** A request for a missing province, when it has been given room. */
  lemma StoredLast(kept: FifoMap, x: ProvinceID, built: Preview)
    requires Find(kept, x) == |kept|
    ensures Stored(kept + [Entry(x, None)], x, Some(built)) == kept + [Entry(x, Some(built))]
    ensures Erased(kept + [Entry(x, Some(built))], x) == kept
    ensures Get(kept + [Entry(x, Some(built))], x) == Some(built)
  {
    AppendedIsFound(kept, x, Entry(x, None));
    AppendedIsFound(kept, x, Entry(x, Some(built)));
  }

  lemma RequestedMissShape(c: FifoMap, kept: FifoMap, x: ProvinceID, built: Preview)
    requires Find(c, x) == |c| && Find(kept, x) == |kept|
    requires |c| <= MAX_CACHED_PROVINCE_PREVIEWS && kept == if |c| < MAX_CACHED_PROVINCE_PREVIEWS then c else c[1..]
    ensures Get(Touched(c, x), x) == None
    ensures Fetched(c, x, built) == Requested(c, x, built) == kept + [Entry(x, Some(built))]
    ensures Get(Fetched(c, x, built), x) == Some(built)
  {
    var c1 := c + [Entry(x, None)];
    AppendedIsFound(c, x, Entry(x, None));
    StoredLast(kept, x, built);
    if |c| == MAX_CACHED_PROVINCE_PREVIEWS {
      assert c1[0] == c[0] && c[0].key != x;
      assert c1[1..] == kept + [Entry(x, None)];
    }
  }

  lemma RequestedMiss(c: FifoMap, keys: seq<ProvinceID>, x: ProvinceID, built: Preview)
    requires Holds(c, keys) && Distinct(keys) && x !in keys && |keys| <= MAX_CACHED_PROVINCE_PREVIEWS
    ensures
      var c' := Requested(c, x, built);
      && Holds(c', KeysAfter(keys, x)) && OldBeforeLast(c, c')
      && c'[|c'| - 1] == Entry(x, Some(built)) == Entry(x, Get(Fetched(c, x, built), x))
    ensures Get(Touched(c, x), x) == None
  {
    var (kept, keptKeys) := Room(c, keys);
    RoomIsHeld(c, keys, x);
    RequestedMissShape(c, kept, x, built);
    AppendedHolds(kept, keptKeys, Entry(x, Some(built)));
  }

  /** Hit or miss: the keys follow the requests, and the requested entry comes last. */
  lemma RequestedKeepsOrder(c: FifoMap, keys: seq<ProvinceID>, x: ProvinceID, built: Preview)
    requires Holds(c, keys) && Distinct(keys) && |keys| <= MAX_CACHED_PROVINCE_PREVIEWS
    ensures
      var c' := Requested(c, x, built);
      && Holds(c', KeysAfter(keys, x)) && OldBeforeLast(c, c')
      && c'[|c'| - 1] == Entry(x, Get(Fetched(c, x, built), x))
      && (c'[|c'| - 1] in c || (c'[|c'| - 1] == Entry(x, Some(built)) && Get(Touched(c, x), x) == None))
  {
    if x in keys { RequestedHit(c, keys, x, built); } else { RequestedMiss(c, keys, x, built); }
  }

  /** What stays in the cache, entries and keys, when a new entry comes. */
  ghost function Room(c: FifoMap, keys: seq<ProvinceID>): (FifoMap, seq<ProvinceID>)
    requires |c| == |keys|
  {
    if |keys| < MAX_CACHED_PROVINCE_PREVIEWS then (c, keys) else (c[1..], keys[1..])
  }

  lemma RoomIsHeld(c: FifoMap, keys: seq<ProvinceID>, x: ProvinceID)
    requires Holds(c, keys) && Distinct(keys) && x !in keys
    ensures
      var (kept, keptKeys) := Room(c, keys);
      && Holds(kept, keptKeys) && Find(c, x) == |c| && Find(kept, x) == |kept|
      && forall e :: e in kept ==> e in c
  {
    var (kept, keptKeys) := Room(c, keys);
    FindInHeld(c, keys, x);
    FindInHeld(kept, keptKeys, x);
  }

  lemma AppendedHolds(kept: FifoMap, keys: seq<ProvinceID>, e: Entry)
    requires Holds(kept, keys) && e.preview.Some?
    ensures Holds(kept + [e], keys + [e.key]) && OldBeforeLast(kept, kept + [e]) && (kept + [e])[|kept|] == e
  {
  }

  // ----- What "most recent" means -----

  ghost function LastRequest(requests: seq<ProvinceID>, x: ProvinceID): (i: nat)
    requires x in requests
    ensures i < |requests| && requests[i] == x && forall j :: i < j < |requests| ==> requests[j] != x
    decreases requests
  {
    var n := |requests| - 1;
    if requests[n] == x then n
    else
      assert requests == requests[..n] + [requests[n]];
      LastRequest(requests[..n], x)
  }

  ghost predicate Later(requests: seq<ProvinceID>, x: ProvinceID, y: ProvinceID) {
    x in requests && y in requests && LastRequest(requests, x) < LastRequest(requests, y)
  }

  /** The provinces requested since the last request for `x`. */
  ghost function Newer(requests: seq<ProvinceID>, x: ProvinceID): set<ProvinceID> {
    set y | y in requests && Later(requests, x, y)
  }

  /** `Recent` is in the order of last requests. */
  lemma {:induction false} RecentIsOrdered(requests: seq<ProvinceID>)
    ensures forall i, j :: 0 <= i < j < |Recent(requests)| ==> Later(requests, Recent(requests)[i], Recent(requests)[j])
    decreases requests
  {
    if requests != [] {
      var prior, last := requests[..|requests| - 1], requests[|requests| - 1];
      RecentIsOrdered(prior);
      RecentIsDistinct(prior);
      RecentIsDistinct(requests);
      RemovedMembers(Recent(prior), last);
      var kept := Removed(Recent(prior), last);
      forall i, j | 0 <= i < j < |kept| + 1
        ensures Later(requests, (kept + [last])[i], (kept + [last])[j])
      {
        var x := kept[i];
        assert x in kept;
        if j < |kept| {
          assert kept[j] in kept;
          RemovedKeepsOrder(Recent(prior), last, i, j);
          var k, l :| 0 <= k < l < |Recent(prior)| && Recent(prior)[k] == x && Recent(prior)[l] == kept[j];
          assert Later(prior, x, kept[j]);
        }
      }
    }
  }

  lemma {:induction false} RemovedKeepsOrder(s: seq<ProvinceID>, x: ProvinceID, i: nat, j: nat)
    requires i < j < |Removed(s, x)|
    ensures exists k, l :: 0 <= k < l < |s| && s[k] == Removed(s, x)[i] && s[l] == Removed(s, x)[j]
  {
    var w := Removed(s, x);
    if s[0] == x {
      RemovedKeepsOrder(s[1..], x, i, j);
      var k, l :| 0 <= k < l < |s[1..]| && s[1..][k] == w[i] && s[1..][l] == w[j];
      assert s[k + 1] == w[i] && s[l + 1] == w[j];
    } else if i == 0 {
      RemovedMembers(s[1..], x);
      assert w[j] == Removed(s[1..], x)[j - 1];
      assert w[j] in Removed(s[1..], x);
      var l :| 0 <= l < |s[1..]| && s[1..][l] == w[j];
      assert s[0] == w[0] && s[l + 1] == w[j];
    } else {
      RemovedKeepsOrder(s[1..], x, i - 1, j - 1);
      var k, l :| 0 <= k < l < |s[1..]| && s[1..][k] == w[i] && s[1..][l] == w[j];
      assert s[k + 1] == w[i] && s[l + 1] == w[j];
    }
  }

  /** What stands behind `x` in `Recent` are the provinces requested since. */
  lemma NewerStandBehind(requests: seq<ProvinceID>, x: ProvinceID, i: nat)
    requires i < |Recent(requests)| && Recent(requests)[i] == x
    ensures Newer(requests, x) == Members(Recent(requests)[i + 1..])
  {
    var recent := Recent(requests);
    RecentIsDistinct(requests);
    RecentIsOrdered(requests);
    forall y | y in Newer(requests, x) ensures y in Members(recent[i + 1..]) {
      var j :| 0 <= j < |recent| && recent[j] == y;
      assert j > i;
      assert recent[i + 1..][j - i - 1] == y;
    }
    forall y | y in Members(recent[i + 1..]) ensures y in Newer(requests, x) {
      var j :| 0 <= j < |recent[i + 1..]| && recent[i + 1..][j] == y;
      assert recent[i + 1 + j] == y;
    }
  }

  /** The last `n` elements are those with fewer than `n` elements behind them. */
  lemma InTailIff<T>(s: seq<T>, start: nat, i: nat)
    requires Distinct(s) && start <= |s| && i < |s|
    ensures s[i] in s[start..] <==> start <= i
  {
    if start <= i {
      assert s[start..][i - start] == s[i];
    }
  }

  /** A province is among the last hundred exactly when fewer than a hundred others have been requested since. */
  lemma CachedIffFewNewer(requests: seq<ProvinceID>, x: ProvinceID)
    ensures x in MostRecent(Recent(requests)) <==> x in requests && |Newer(requests, x)| < 100
  {
    var recent := Recent(requests);
    RecentIsDistinct(requests);
    if x in recent {
      var i :| 0 <= i < |recent| && recent[i] == x;
      NewerStandBehind(requests, x, i);
      MembersSize(recent[i + 1..]);
      InTailIff(recent, |recent| - |MostRecent(recent)|, i);
    }
  }

  // ----- The cache itself -----

  class PreviewCache {
    const provinces: ProvinceMap
    const labels: seq<ProvinceID>
    const width: nat
    const height: nat
    var dataCache: FifoMap
    /** The requests for existing provinces so far. */
    ghost var requests: seq<ProvinceID>

    /** The map over which previews are built. */
    ghost predicate MapFits() {
      && |labels| == width * height
      && forall p :: p in provinces ==> provinces[p].id == p && BoxInMap(provinces[p].boundingBox, width, height)
    }

    ghost predicate Valid()
      reads this
    {
      && MapFits()
      && Holds(dataCache, MostRecent(Recent(requests)))
      && forall i :: 0 <= i < |dataCache| ==> IsCurrent(dataCache[i])
    }

    /** The entry's preview is what building it now would give. */
    ghost predicate IsCurrent(e: Entry) {
      e.key in provinces && e.preview.Some? && IsPreview(e.preview.value, provinces[e.key], labels, width)
    }

    constructor (provinces: ProvinceMap, labels: seq<ProvinceID>, width: nat, height: nat)
      requires |labels| == width * height
      requires forall p :: p in provinces ==> provinces[p].id == p && BoxInMap(provinces[p].boundingBox, width, height)
      ensures Valid() && requests == []
      ensures this.provinces == provinces && this.labels == labels && this.width == width && this.height == height
    {
      this.provinces, this.labels, this.width, this.height := provinces, labels, width, height;
      this.dataCache := [];
      this.requests := [];
    }

    method BuildProvinceCache(id: ProvinceID) returns (ghost built: Preview)
      requires MapFits() && id in provinces
      modifies this`dataCache
      ensures IsPreview(built, provinces[id], labels, width)
      ensures dataCache == Built(old(dataCache), id, built)
    {
      if |dataCache| > MAX_CACHED_PROVINCE_PREVIEWS {
        if dataCache[0].key == id {
          dataCache := [dataCache[0]] + dataCache[2..];
        } else {
          dataCache := dataCache[1..];
        }
      }
      var data := BuildPreview(provinces[id], labels, width, height);
      dataCache := Stored(dataCache, id, Some(data));
      built := data;
    }

    /** Looks the preview up, builds it if it is null, and moves it to the end of the map. */
    method Serve(id: ProvinceID) returns (data: Option<Preview>, ghost built: Preview)
      requires MapFits() && id in provinces
      modifies this`dataCache
      ensures Get(Touched(old(dataCache), id), id) == None ==> IsPreview(built, provinces[id], labels, width)
      ensures data == Get(Fetched(old(dataCache), id, built), id)
      ensures dataCache == Requested(old(dataCache), id, built)
    {
      built := [];
      dataCache := Touched(dataCache, id);
      data := Get(dataCache, id);
      if data == None {
        built := BuildProvinceCache(id);
      }
      data := Get(dataCache, id);
      dataCache := Erased(dataCache, id);
      dataCache := Stored(dataCache, id, data);
    }

    /**
      The preview of a province, as a fresh build would give it. Afterwards the
      hundred most recently requested provinces are cached, and no null entry is.
     */
    method GetPreviewData(id: ProvinceID) returns (r: Option<Preview>)
      requires Valid()
      modifies this
      ensures Valid()
      ensures id !in provinces ==> r == None && dataCache == old(dataCache) && requests == old(requests)
      ensures id in provinces ==>
        && r.Some? && IsPreview(r.value, provinces[id], labels, width)
        && (forall anew :: IsPreview(anew, provinces[id], labels, width) ==> r.value == anew)
        && requests == old(requests) + [id]
    {
      if id !in provinces {
        return None;
      }
      ghost var before, keys := dataCache, MostRecent(Recent(requests));
      RecentIsDistinct(requests);
      ghost var built;
      r, built := Serve(id);
      RequestedKeepsOrder(before, keys, id, built);
      KeysAfterIsMostRecent(Recent(requests), id);
      assert (requests + [id])[..|requests|] == requests;
      requests := requests + [id];
      StaysCurrent(before, dataCache);
      PreviewIsTheOnlyOne(r.value, provinces[id], labels, width);
    }

    lemma StaysCurrent(before: FifoMap, after: FifoMap)
      requires forall i :: 0 <= i < |before| ==> IsCurrent(before[i])
      requires OldBeforeLast(before, after) && IsCurrent(after[|after| - 1])
      ensures forall i :: 0 <= i < |after| ==> IsCurrent(after[i])
    {
      forall i | 0 <= i < |after| - 1 ensures IsCurrent(after[i]) {
        assert after[i] in before;
      }
    }
  }
}
