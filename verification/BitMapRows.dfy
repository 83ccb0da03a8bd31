/** Rows and channels of an image buffer: the row flip and the swap of blue and red. */
module BitMapRows {
  import opened Types
  import opened Pixels

  /** The index at the same column of the mirrored row. */
  function Mirror(pitch: nat, height: nat, i: nat): nat
    requires pitch > 0 && Row(pitch, i) < height
  {
    Column(pitch, i) + (height - 1 - Row(pitch, i)) * pitch
  }

  predicate InMiddle(pitch: nat, height: nat, i: nat)
    requires pitch > 0
  {
    2 * Row(pitch, i) + 1 == height
  }

  /** The rows of `input` in reverse order; a middle row comes from `middle` instead. */
  function Flipped(input: seq<uint8>, middle: seq<uint8>, pitch: nat, height: nat): (r: seq<uint8>)
    requires |input| == |middle| == pitch * height
    ensures |r| == |input|
  {
    seq(|input|, i requires 0 <= i < |input| =>
      MirrorIsInImage(pitch, height, i);
      if InMiddle(pitch, height, i) then middle[i] else input[Mirror(pitch, height, i)])
  }

  lemma MirrorIsInImage(pitch: nat, height: nat, i: nat)
    requires i < pitch * height
    ensures pitch > 0 && Row(pitch, i) < height
    ensures Mirror(pitch, height, i) < pitch * height
    ensures Row(pitch, Mirror(pitch, height, i)) == height - 1 - Row(pitch, i)
    ensures Mirror(pitch, height, Mirror(pitch, height, i)) == i
    ensures InMiddle(pitch, height, i) ==> Mirror(pitch, height, i) == i
  {
    assert pitch > 0;
    RowInImage(pitch, height, i);
    ColumnAndRowDetermine(pitch, i);
    var x, y := Column(pitch, i), height - 1 - Row(pitch, i);
    RowsFit(pitch, height, x, y);
    IndexIsUnique(pitch, x, y);
  }

  /** Byte `x` of row `y` is byte `x` of row `height - 1 - y` of the input, or of the row in the middle. */
  lemma FlippedByte(
    input: seq<uint8>, middle: seq<uint8>, pitch: nat, height: nat, x: nat, y: nat, i: nat, j: nat)
    requires |input| == |middle| == pitch * height && x < pitch && y < height
    requires i == x + y * pitch && j == x + (height - 1 - y) * pitch
    ensures i < |input| && j < |input|
    ensures Flipped(input, middle, pitch, height)[i] == if 2 * y + 1 == height then middle[i] else input[j]
  {
    RowsFit(pitch, height, x, y);
    RowsFit(pitch, height, x, height - 1 - y);
    IndexIsUnique(pitch, x, y);
  }

  /** In place, each byte comes from the mirrored row, which is its own one in the middle. */
  lemma FlippedInPlace(d: seq<uint8>, pitch: nat, height: nat, x: nat, y: nat, y': nat, i: nat, j: nat)
    requires |d| == pitch * height && x < pitch && y < height && y' == height - 1 - y
    requires i == x + y * pitch && j == x + y' * pitch
    ensures i < |d| && j < |d| && Flipped(d, d, pitch, height)[i] == d[j]
  {
    FlippedByte(d, d, pitch, height, x, y, i, j);
    if 2 * y + 1 == height { assert y == y'; }
  }

  /** Byte `x` of row `y` is zero in a middle row, and as before in any other. */
  lemma BlackenedByte(d: seq<uint8>, pitch: nat, height: nat, x: nat, y: nat, i: nat)
    requires |d| == pitch * height && x < pitch && y < height && i == x + y * pitch
    ensures i < |d| && Blackened(d, pitch, height)[i] == if 2 * y + 1 == height then 0 else d[i]
  {
    RowsFit(pitch, height, x, y);
    IndexIsUnique(pitch, x, y);
  }

  /** With the rows themselves as middle, flipping is its own inverse. */
  lemma FlipIsInvolution(d: seq<uint8>, pitch: nat, height: nat)
    requires |d| == pitch * height
    ensures var f := Flipped(d, d, pitch, height); Flipped(f, f, pitch, height) == d
  {
    var f := Flipped(d, d, pitch, height);
    forall i | 0 <= i < |d| ensures Flipped(f, f, pitch, height)[i] == d[i] {
      MirrorIsInImage(pitch, height, i);
      MirrorIsInImage(pitch, height, Mirror(pitch, height, i));
    }
  }

  /** Where a middle row exists, it is all zero. */
  predicate MiddleIsZero(d: seq<uint8>, pitch: nat, height: nat)
    requires pitch > 0 || d == []
  {
    forall i :: 0 <= i < |d| && InMiddle(pitch, height, i) ==> d[i] == 0
  }

  /** The image with its middle row, if there is one, set to zero. */
  function Blackened(d: seq<uint8>, pitch: nat, height: nat): (r: seq<uint8>)
    requires pitch > 0 || d == []
    ensures |r| == |d|
  {
    seq(|d|, i requires 0 <= i < |d| => if InMiddle(pitch, height, i) then 0 else d[i])
  }

  /** Flipping into a zeroed buffer and flipping that in place loses the middle row, and nothing else. */
  lemma FlipThroughZeroes(d: seq<uint8>, zeroes: seq<uint8>, pitch: nat, height: nat)
    requires |d| == |zeroes| == pitch * height && forall i :: 0 <= i < |zeroes| ==> zeroes[i] == 0
    ensures pitch > 0 || d == []
    ensures
      var f := Flipped(d, zeroes, pitch, height);
      Flipped(f, f, pitch, height) == Blackened(d, pitch, height)
  {
    var f := Flipped(d, zeroes, pitch, height);
    forall i | 0 <= i < |d|
      ensures pitch > 0
      ensures Flipped(f, f, pitch, height)[i] == if InMiddle(pitch, height, i) then 0 else d[i]
    {
      MirrorIsInImage(pitch, height, i);
      MirrorIsInImage(pitch, height, Mirror(pitch, height, i));
    }
  }

  lemma BlackenedIffMiddleIsZero(d: seq<uint8>, pitch: nat, height: nat)
    requires pitch > 0 || d == []
    ensures Blackened(d, pitch, height) == d <==> MiddleIsZero(d, pitch, height)
  {
    if MiddleIsZero(d, pitch, height) {
      forall i | 0 <= i < |d| ensures Blackened(d, pitch, height)[i] == d[i] {}
    } else {
      var i :| 0 <= i < |d| && InMiddle(pitch, height, i) && d[i] != 0;
      assert Blackened(d, pitch, height)[i] != d[i];
    }
  }

  /** An even height has no middle row. */
  lemma EvenHeightHasNoMiddle(d: seq<uint8>, pitch: nat, height: nat)
    requires height % 2 == 0 && (pitch > 0 || d == [])
    ensures MiddleIsZero(d, pitch, height)
  {
  }

  // ----- Channels -----

  /** In each complete group of three bytes, the first and the last change places. */
  function Swapped(d: seq<uint8>): (r: seq<uint8>)
    ensures |r| == |d|
  {
    seq(|d|, i requires 0 <= i < |d| =>
      if i / 3 * 3 + 2 >= |d| || i % 3 == 1 then d[i] else if i % 3 == 0 then d[i + 2] else d[i - 2])
  }

  /** The first and the third byte of pixel `p` change places; what does not make up a pixel stays. */
  lemma SwappedPixel(d: seq<uint8>, p: nat)
    ensures 3 * p + 2 < |d| ==>
      Swapped(d)[3 * p] == d[3 * p + 2] && Swapped(d)[3 * p + 1] == d[3 * p + 1] && Swapped(d)[3 * p + 2] == d[3 * p]
    ensures forall i :: |d| - |d| % 3 <= i < |d| ==> Swapped(d)[i] == d[i]
  {
    forall i | |d| - |d| % 3 <= i < |d| ensures Swapped(d)[i] == d[i] {
      assert i / 3 == |d| / 3;
    }
  }

  lemma SwapIsInvolution(d: seq<uint8>)
    ensures Swapped(Swapped(d)) == d
  {
    forall i | 0 <= i < |d| ensures Swapped(Swapped(d))[i] == d[i] {
      assert (i + 2) / 3 == i / 3 || i % 3 != 0;
      assert i % 3 == 2 ==> (i - 2) / 3 == i / 3;
    }
  }

  /** The groups that end before index `i` have been swapped. */
  ghost function PartlySwapped(d: seq<uint8>, i: nat): (r: seq<uint8>)
    ensures |r| == |d|
  {
    seq(|d|, k requires 0 <= k < |d| => if k / 3 * 3 + 2 < i then Swapped(d)[k] else d[k])
  }

  lemma SwapContinues(d: seq<uint8>, before: seq<uint8>, i: nat)
    requires before == PartlySwapped(d, i) && i % 3 == 2 && i < |d|
    ensures before[i - 2 := before[i]][i := before[i - 2]] == PartlySwapped(d, i + 3)
  {
    var after := before[i - 2 := before[i]][i := before[i - 2]];
    forall k | 0 <= k < |d| ensures after[k] == PartlySwapped(d, i + 3)[k] {
      assert k / 3 * 3 + 2 == i <==> i - 2 <= k <= i;
    }
  }

  /** The loop of the code, which starts at the third byte. Bytes from `size` on stay as they are. */
  method SwapChannels(data: array<uint8>, size: nat)
    requires size <= data.Length
    modifies data
    ensures data[..] == Swapped(old(data[..size])) + old(data[size..])
  {
    ghost var d, rest := data[..size], data[size..];
    var i := 2;
    while i < size
      invariant i % 3 == 2
      invariant data[..size] == PartlySwapped(d, i) && data[size..] == rest
      decreases size - i
    {
      SwapContinues(d, data[..size], i);
      ExchangeAt(data, size, i);
      i := i + 3;
    }
    AllSwapped(d, i);
    assert data[..] == data[..size] + data[size..];
  }

  method ExchangeAt(data: array<uint8>, ghost size: nat, i: nat)
    requires 2 <= i < size <= data.Length
    modifies data
    ensures data[..size] == old(data[..size])[i - 2 := old(data[i])][i := old(data[i - 2])]
    ensures data[size..] == old(data[size..])
  {
    data[i], data[i - 2] := data[i - 2], data[i];
  }

  lemma AllSwapped(d: seq<uint8>, i: nat)
    requires |d| <= i
    ensures PartlySwapped(d, i) == Swapped(d)
  {
  }

  // ----- flipImage -----

  /** `memcpy` of `n` bytes that do not overlap. */
  method Copy(dst: array<uint8>, di: nat, bytes: seq<uint8>)
    requires di + |bytes| <= dst.Length
    modifies dst
    ensures forall k :: 0 <= k < dst.Length ==>
      dst[k] == if di <= k < di + |bytes| then bytes[k - di] else old(dst[k])
  {
    for j := 0 to |bytes|
      invariant forall k :: 0 <= k < dst.Length ==>
        dst[k] == if di <= k < di + j then bytes[k - di] else old(dst[k])
    {
      dst[di + j] := bytes[j];
    }
  }

  /** The first `y` rows and the last `y` rows have been exchanged. */
  ghost function PartlyFlipped(input: seq<uint8>, output: seq<uint8>, pitch: nat, height: nat, y: nat): (r: seq<uint8>)
    requires |input| == |output| == pitch * height
    ensures |r| == |input|
  {
    seq(|input|, i requires 0 <= i < |input| =>
      MirrorIsInImage(pitch, height, i);
      if Row(pitch, i) < y || Row(pitch, i) >= height - y then input[Mirror(pitch, height, i)] else output[i])
  }

  lemma RowRange(pitch: nat, i: nat, y: nat)
    requires pitch > 0
    ensures y * pitch <= i < y * pitch + pitch <==> Row(pitch, i) == y
    ensures Row(pitch, i) == y ==> i - y * pitch == Column(pitch, i)
  {
    ColumnAndRowDetermine(pitch, i);
    if y * pitch <= i < y * pitch + pitch {
      IndexIsUnique(pitch, i - y * pitch, y);
    }
  }

  lemma RowBounds(pitch: nat, height: nat, y: nat)
    requires y < height
    ensures y * pitch + pitch <= pitch * height
  {
    assert (y + 1) * pitch <= height * pitch;
  }

  /** Exchanging row `y`, at `s`, with its mirror row, at `t`, continues the flip. */
  lemma FlipContinues(
    input: seq<uint8>, output: seq<uint8>, pitch: nat, height: nat, y: nat, s: nat, t: nat,
    before: seq<uint8>, after: seq<uint8>)
    requires |input| == |output| == pitch * height && y < height / 2
    requires s == y * pitch && t == (height - 1 - y) * pitch && s + pitch <= |input| && t + pitch <= |input|
    requires before == PartlyFlipped(input, output, pitch, height, y) && |after| == |before|
    requires forall k :: 0 <= k < |after| ==>
      after[k] ==
        if t <= k < t + pitch then input[k - t + s] else if s <= k < s + pitch then input[k - s + t] else before[k]
    ensures after == PartlyFlipped(input, output, pitch, height, y + 1)
  {
    forall k | 0 <= k < |after| ensures after[k] == PartlyFlipped(input, output, pitch, height, y + 1)[k] {
      MirrorIsInImage(pitch, height, k);
      RowRange(pitch, k, y);
      RowRange(pitch, k, height - 1 - y);
    }
  }

  /**
    Reverses the rows of `input` into `output`, which may be the same buffer.
    The middle row of an odd height is never copied, and neither is anything
    after the last row.
   */
  method FlipImage(output: array<uint8>, input: array<uint8>, pitch: nat, height: nat)
    requires pitch * height <= output.Length && pitch * height <= input.Length
    modifies output
    ensures output[..] ==
      Flipped(old(input[..pitch * height]), old(output[..pitch * height]), pitch, height) + old(output[pitch * height..])
  {
    ghost var n := pitch * height;
    ghost var in0, out0, rest := input[..n], output[..n], output[n..];
    NothingFlipped(in0, out0, pitch, height);
    for y := 0 to height / 2
      invariant output[..n] == PartlyFlipped(in0, out0, pitch, height, y) && output[n..] == rest
      invariant input != output ==> input[..n] == in0
    {
      ExchangeRows(output, input, pitch, height, y, n, in0, out0);
    }
    HalfFlipped(in0, out0, pitch, height);
    assert output[..] == output[..n] + output[n..];
  }

  lemma NothingFlipped(input: seq<uint8>, output: seq<uint8>, pitch: nat, height: nat)
    requires |input| == |output| == pitch * height
    ensures PartlyFlipped(input, output, pitch, height, 0) == output
  {
    forall i | 0 <= i < |output| ensures PartlyFlipped(input, output, pitch, height, 0)[i] == output[i] {
      MirrorIsInImage(pitch, height, i);
    }
  }

  lemma HalfFlipped(input: seq<uint8>, output: seq<uint8>, pitch: nat, height: nat)
    requires |input| == |output| == pitch * height
    ensures PartlyFlipped(input, output, pitch, height, height / 2) == Flipped(input, output, pitch, height)
  {
    forall i | 0 <= i < |input|
      ensures PartlyFlipped(input, output, pitch, height, height / 2)[i] == Flipped(input, output, pitch, height)[i]
    {
      MirrorIsInImage(pitch, height, i);
    }
  }

  method ExchangeRows(
    output: array<uint8>, input: array<uint8>, pitch: nat, height: nat, y: nat,
    ghost n: nat, ghost in0: seq<uint8>, ghost out0: seq<uint8>)
    requires n == pitch * height == |in0| == |out0| && n <= output.Length && n <= input.Length && y < height / 2
    requires output[..n] == PartlyFlipped(in0, out0, pitch, height, y)
    requires if input == output then in0 == out0 else input[..n] == in0
    modifies output
    ensures output[..n] == PartlyFlipped(in0, out0, pitch, height, y + 1) && output[n..] == old(output[n..])
    ensures input != output ==> input[..n] == in0
  {
    RowBounds(pitch, height, y);
    RowBounds(pitch, height, height - 1 - y);
    ghost var before := output[..n];
    var s, t := y * pitch, (height - 1 - y) * pitch;
    UntouchedRow(in0, out0, pitch, height, y, input[..n], y, s);
    UntouchedRow(in0, out0, pitch, height, y, input[..n], height - 1 - y, t);
    CopyRows(output, input, pitch, s, t, n, in0);
    FlipContinues(in0, out0, pitch, height, y, s, t, before, output[..n]);
  }

  /** Row `s` of the input goes to row `t` of the output, and the other way round. */
  method CopyRows(
    output: array<uint8>, input: array<uint8>, pitch: nat, s: nat, t: nat, ghost n: nat, ghost in0: seq<uint8>)
    requires |in0| == n <= output.Length && n <= input.Length && s + pitch <= n && t + pitch <= n
    requires input[..n][s..s + pitch] == in0[s..s + pitch] && input[..n][t..t + pitch] == in0[t..t + pitch]
    modifies output
    ensures forall k :: 0 <= k < n ==>
      output[..n][k] ==
        if t <= k < t + pitch then in0[k - t + s] else if s <= k < s + pitch then in0[k - s + t] else old(output[..n])[k]
    ensures output[n..] == old(output[n..])
    ensures input != output ==> input[..] == old(input[..])
  {
    var rowS, rowT := input[s..s + pitch], input[t..t + pitch];
    assert rowS == input[..n][s..s + pitch] == in0[s..s + pitch];
    assert rowT == input[..n][t..t + pitch] == in0[t..t + pitch];
    ExchangeBytes(output, s, t, rowS, rowT);
  }

  method ExchangeBytes(output: array<uint8>, s: nat, t: nat, rowS: seq<uint8>, rowT: seq<uint8>)
    requires |rowS| == |rowT| && s + |rowS| <= output.Length && t + |rowT| <= output.Length
    modifies output
    ensures forall k :: 0 <= k < output.Length ==>
      output[k] ==
        if t <= k < t + |rowS| then rowS[k - t] else if s <= k < s + |rowT| then rowT[k - s] else old(output[k])
  {
    Copy(output, s, rowT);
    Copy(output, t, rowS);
  }

  /** A row about to be exchanged still holds the input. */
  lemma UntouchedRow(
    in0: seq<uint8>, out0: seq<uint8>, pitch: nat, height: nat, y: nat, input: seq<uint8>, r: nat, at: nat)
    requires |in0| == |out0| == |input| == pitch * height && y < height / 2 && (r == y || r == height - 1 - y)
    requires input == in0 || (in0 == out0 && input == PartlyFlipped(in0, out0, pitch, height, y))
    requires at == r * pitch && at + pitch <= |in0|
    ensures input[at..at + pitch] == in0[at..at + pitch]
  {
    forall k | at <= k < at + pitch ensures input[k] == in0[k] {
      MirrorIsInImage(pitch, height, k);
      RowRange(pitch, k, r);
    }
  }
}
