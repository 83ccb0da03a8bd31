/** Flat indices into row-major images. */
module Pixels {

  /** The code's index computation, in 32-bit arithmetic. */
  function XyToIndex(w: nat, x: nat, y: nat): nat {
    (x + y * w) % 0x1_0000_0000
  }

  /** In any image: what the 32-bit computation gives differs from the index by a multiple of 2^32. */
  lemma XyToIndexWraps(w: nat, x: nat, y: nat)
    ensures 0 <= XyToIndex(w, x, y) < 0x1_0000_0000
    ensures (x + y * w - XyToIndex(w, x, y)) % 0x1_0000_0000 == 0
  {
    var i := x + y * w;
    assert i - XyToIndex(w, x, y) == i / 0x1_0000_0000 * 0x1_0000_0000;
  }

  function Column(w: nat, i: nat): nat
    requires w > 0
  {
    i % w
  }

  function Row(w: nat, i: nat): nat
    requires w > 0
  {
    i / w
  }

  lemma RowsFit(w: nat, h: nat, x: nat, y: nat)
    requires x < w && y < h
    ensures x + y * w < w * h
  {
    assert (y + 1) * w <= h * w;
  }

  lemma IndexIsUnique(w: nat, x: nat, y: nat)
    requires x < w
    ensures Column(w, x + y * w) == x && Row(w, x + y * w) == y
  {
    var i := x + y * w;
    Euclid(w, i / w, i % w, y, x);
  }

  /** Quotient and remainder are unique. */
  lemma Euclid(w: nat, q: nat, r: nat, q': nat, r': nat)
    requires r < w && r' < w && q * w + r == q' * w + r'
    ensures q == q' && r == r'
  {
    assert q < q' ==> (q + 1) * w <= q' * w;
    assert q' < q ==> (q' + 1) * w <= q * w;
  }

  /** Within an image of at most 2^32 cells the computation does not wrap, and its cells are distinct. */
  lemma XyToIndexIsExact(w: nat, h: nat, x: nat, y: nat)
    requires x < w && y < h && w * h <= 0x1_0000_0000
    ensures XyToIndex(w, x, y) == x + y * w < w * h
    ensures Column(w, XyToIndex(w, x, y)) == x && Row(w, XyToIndex(w, x, y)) == y
  {
    RowsFit(w, h, x, y);
    IndexIsUnique(w, x, y);
  }

  /** The index of the first of `depth` bytes of a pixel. */
  lemma PixelOffset(w: nat, h: nat, depth: nat, x: nat, y: nat)
    requires x < w && y < h && depth > 0 && w * h * depth <= 0x1_0000_0000
    ensures XyToIndex(w * depth, x * depth, y) == depth * (x + y * w)
    ensures depth * (x + y * w) + depth <= w * h * depth
  {
    RowsFit(w, h, x, y);
    Scaled(w, depth, x, y);
    ScaledFits(x + y * w, w * h, depth);
  }

  lemma Scaled(w: nat, depth: nat, x: nat, y: nat)
    ensures x * depth + y * (w * depth) == depth * (x + y * w)
  {
    assert y * (w * depth) == (y * w) * depth;
  }

  lemma ScaledFits(p: nat, n: nat, depth: nat)
    requires p < n
    ensures depth * p + depth <= n * depth
  {
    assert depth * (p + 1) <= depth * n;
  }

  /** Column and row give back the index. */
  lemma ColumnAndRowDetermine(w: nat, i: nat)
    requires w > 0
    ensures i == Column(w, i) + Row(w, i) * w && Column(w, i) < w
  {
  }

  lemma RowInImage(w: nat, h: nat, i: nat)
    requires w > 0 && i < w * h
    ensures Row(w, i) < h
  {
    ColumnAndRowDetermine(w, i);
    var r := Row(w, i);
    assert r >= h ==> r * w >= h * w;
  }

  /** Columns left of `x` are done, and column `x` down to row `y`. */
  ghost predicate Visited(w: nat, x: nat, y: nat, i: nat)
    requires w > 0
  {
    Column(w, i) < x || (Column(w, i) == x && Row(w, i) < y)
  }

  lemma VisitedNext(w: nat, x: nat, y: nat, i: nat)
    requires x < w
    ensures Visited(w, x, y + 1, i) <==> Visited(w, x, y, i) || i == x + y * w
  {
    IndexIsUnique(w, x, y);
    ColumnAndRowDetermine(w, i);
  }
}
