/** The exported image as a file: what somebody who reads it back can tell about the merged provinces. */
module ExportedFile {
  import opened Types
  import opened Pixels
  import opened Collections
  import opened ProvinceForest
  import opened ForestEffects
  import opened ProvinceProject
  import opened ProvinceExport
  import opened BitMapRows
  import opened BitMapCodec
  import opened BitMapImage
  import opened BitMapColors

  const NO_COLOR := Color(0, 0, 0)

  /** The file of an exported colour image: three channels under a version 4 header. */
  function ImageFile(colors: seq<uint8>, width: nat, height: nat): Maybe<seq<uint8>>
    requires ArgumentsFit(colors, width, height, 3, None)
  {
    WriteBmp2(colors, width, height, 3, false, V4, None)
  }

  /** A 24-bit image of these dimensions, with as many bytes as it announces. */
  ghost predicate IsTrueColor(b: BitMap, width: nat, height: nat) {
    && b.info.width == width && b.info.height == height && b.Depth() == 3
    && |b.data| == b.info.sizeOfBitmap == b.Room()
  }

  /** The file is always written, and reads back as the image with a black middle row, if there is one. */
  lemma ImageFileRoundTrip(colors: seq<uint8>, width: nat, height: nat, held: nat -> uint8)
    requires ArgumentsFit(colors, width, height, 3, None)
    ensures width * 3 > 0 || colors == []
    ensures
      var file := ImageFile(colors, width, height);
      && file.Value? && PixelsFit(file.value)
      && ReadBmp(file.value, held).Value?
      && IsTrueColor(ReadBmp(file.value, held).value, width, height)
      && ReadBmp(file.value, held).value.data == Blackened(colors, width * 3, height)
      && (ReadBmp(file.value, held).value.data == colors <==> MiddleIsZero(colors, width * 3, height))
  {
    WriteBmp2Outcome(colors, width, height, 3, false, V4, None, held);
    PreparedKeepsPixels(colors, width, height, 3, false, V4, None);
    BlackenedIffMiddleIsZero(colors, width * 3, height);
  }

  /** The pixel stands in the middle row of an odd height. */
  predicate InMiddleRow(width: nat, height: nat, i: nat)
    requires width > 0
  {
    2 * Row(width, i) + 1 == height
  }

  /** The bytes of a pixel stand in the row of the pixel. */
  lemma BytesOfPixel(width: nat, i: nat, c: nat)
    requires width > 0 && c < 3
    ensures Row(width * 3, 3 * i + c) == Row(width, i)
  {
    ColumnAndRowDetermine(width, i);
    IndexIsUnique(width * 3, 3 * Column(width, i) + c, Row(width, i));
    Scaled(width, 3, Column(width, i), Row(width, i));
  }

  /** A pixel of the middle row comes out black; any other one keeps its colour. */
  lemma BlackenedPixel(colors: seq<uint8>, width: nat, height: nat, i: nat)
    requires width > 0 && 3 * i + 3 <= |colors|
    ensures PixelColor(Blackened(colors, width * 3, height), i) ==
      if InMiddleRow(width, height, i) then NO_COLOR else PixelColor(colors, i)
  {
    BytesOfPixel(width, i, 0);
    BytesOfPixel(width, i, 1);
    BytesOfPixel(width, i, 2);
  }

  /** A known pixel, whose colour is that of its root. */
  ghost predicate Shown(m: ProvinceMap, labels: seq<ProvinceID>, colors: seq<uint8>, i: nat) {
    i < |labels| && labels[i] in m && Terminates(m, labels[i]) && RootColored(m, colors, labels, i)
  }

  /** The pixel is black in the file: it is in the middle row, or the colour of its root is black. */
  ghost predicate BlackInFile(colors: seq<uint8>, width: nat, height: nat, i: nat)
    requires width > 0 && 3 * i + 3 <= |colors|
  {
    InMiddleRow(width, height, i) || PixelColor(colors, i) == NO_COLOR
  }

  /**
    Two pixels have the same colour in the file exactly when both are black there,
    or neither is and their provinces are merged.
   */
  lemma SameColorInFile(
    m: ProvinceMap, labels: seq<ProvinceID>, colors: seq<uint8>, width: nat, height: nat, i: nat, j: nat)
    requires Forest(m) && DistinctColors(m) && |colors| == 3 * |labels| && width > 0
    requires Shown(m, labels, colors, i) && Shown(m, labels, colors, j)
    ensures
      var data := Blackened(colors, width * 3, height);
      PixelColor(data, i) == PixelColor(data, j) <==>
      if BlackInFile(colors, width, height, i) || BlackInFile(colors, width, height, j)
      then BlackInFile(colors, width, height, i) && BlackInFile(colors, width, height, j)
      else Group(m, labels[i]) == Group(m, labels[j])
  {
    BlackenedPixel(colors, width, height, i);
    BlackenedPixel(colors, width, height, j);
    SameColorIffMerged(m, labels, colors, i, j);
  }

  /** The colours of the file tell two pixels apart exactly when their provinces are not merged. */
  ghost predicate TellsApart(
    m: ProvinceMap, labels: seq<ProvinceID>, colors: seq<uint8>, data: seq<uint8>, i: nat, j: nat)
    requires Acyclic(m) && |data| == 3 * |labels| && Shown(m, labels, colors, i) && Shown(m, labels, colors, j)
  {
    PixelColor(data, i) == PixelColor(data, j) <==> Group(m, labels[i]) == Group(m, labels[j])
  }

  /** The known pixels that the file shows black are all the known pixels of one group. */
  ghost predicate BlackIsOneGroup(
    m: ProvinceMap, labels: seq<ProvinceID>, colors: seq<uint8>, width: nat, height: nat)
    requires Acyclic(m) && |colors| == 3 * |labels| && width > 0
  {
    forall i: nat, j: nat {:trigger Shown(m, labels, colors, i), Shown(m, labels, colors, j)} ::
      Shown(m, labels, colors, i) && Shown(m, labels, colors, j) && BlackInFile(colors, width, height, i) ==>
      (BlackInFile(colors, width, height, j) <==> Group(m, labels[i]) == Group(m, labels[j]))
  }

  /**
    An exported file, of even or odd height, shows by its colours which provinces
    are merged exactly when what it shows black is one group.
   */
  lemma FileShowsGroupsIff(
    m: ProvinceMap, labels: seq<ProvinceID>, colors: seq<uint8>, width: nat, height: nat, held: nat -> uint8)
    requires Forest(m) && DistinctColors(m) && |colors| == 3 * |labels| && width > 0
    requires ArgumentsFit(colors, width, height, 3, None)
    ensures
      var file := ImageFile(colors, width, height);
      && file.Value? && PixelsFit(file.value)
      && ReadBmp(file.value, held).Value? && |ReadBmp(file.value, held).value.data| == 3 * |labels|
      && (BlackIsOneGroup(m, labels, colors, width, height) <==>
            forall i: nat, j: nat {:trigger Shown(m, labels, colors, i), Shown(m, labels, colors, j)} ::
              Shown(m, labels, colors, i) && Shown(m, labels, colors, j) ==>
              TellsApart(m, labels, colors, ReadBmp(file.value, held).value.data, i, j))
  {
    ImageFileRoundTrip(colors, width, height, held);
    var data := Blackened(colors, width * 3, height);
    forall i: nat, j: nat | Shown(m, labels, colors, i) && Shown(m, labels, colors, j)
      ensures TellsApart(m, labels, colors, data, i, j) <==>
        if BlackInFile(colors, width, height, i) || BlackInFile(colors, width, height, j)
        then (BlackInFile(colors, width, height, i) && BlackInFile(colors, width, height, j)) ==
             (Group(m, labels[i]) == Group(m, labels[j]))
        else true
    {
      SameColorInFile(m, labels, colors, width, height, i, j);
    }
  }

  /** In an image of even height the black pixels are at most one group, so that its file shows the groups. */
  lemma EvenHeightShowsGroups(m: ProvinceMap, labels: seq<ProvinceID>, colors: seq<uint8>, width: nat, height: nat)
    requires Forest(m) && DistinctColors(m) && |colors| == 3 * |labels| && width > 0 && height % 2 == 0
    ensures BlackIsOneGroup(m, labels, colors, width, height)
  {
    forall i: nat, j: nat
      | Shown(m, labels, colors, i) && Shown(m, labels, colors, j) && BlackInFile(colors, width, height, i)
      ensures BlackInFile(colors, width, height, j) <==> Group(m, labels[i]) == Group(m, labels[j])
    {
      SameColorIffMerged(m, labels, colors, i, j);
    }
  }

  // ----- The whole export -----

  /** The image is not empty in width, and fits the 32-bit fields of its header. */
  ghost predicate MapFits(width: nat, height: nat) {
    width * height * 3 + 1024 < 0x1_0000_0000 - 138 && 0 < width < 0x8000_0000 && height < 0x8000_0000
  }

  /** What somebody can tell who reads the exported files. */
  ghost predicate FilesTell(
    m: ProvinceMap, labels: seq<ProvinceID>, width: nat, height: nat, colors: seq<uint8>, file: seq<uint8>,
    rows: seq<Definition>, order: seq<ProvinceID>, continents: seq<string>, held: nat -> uint8)
    requires Acyclic(m) && width > 0
  {
    && |colors| == 3 * |labels|
    && (forall i: nat :: Known(m, labels, i) ==> Shown(m, labels, colors, i))
    && PixelsFit(file) && ReadBmp(file, held).Value? && |ReadBmp(file, held).value.data| == 3 * |labels|
    && |rows| == |Roots(m)|
    && var data := ReadBmp(file, held).value.data;
    && (forall i: nat :: Known(m, labels, i) ==> RowTells(rows, colors, data, width, height, i))
    && (forall i: nat :: Known(m, labels, i) ==> LookupTells(m, labels, ReadBmp(file, held).value, width, height, i))
    && (forall i: nat, k: nat ::
          Known(m, labels, i) && k < |rows| && !InMiddleRow(width, height, i) && rows[k].color == PixelColor(data, i) ==>
          TellsRoot(m, order, continents, rows[k], labels[i]))
    && (BlackIsOneGroup(m, labels, colors, width, height) <==>
          forall i: nat, j: nat :: Known(m, labels, i) && Known(m, labels, j) ==>
            (PixelColor(data, i) == PixelColor(data, j) <==> Group(m, labels[i]) == Group(m, labels[j])))
    && (height % 2 == 0 ==> BlackIsOneGroup(m, labels, colors, width, height))
  }

  /** The pixel's colour in the file is in exactly one row of the table, unless the pixel has come out black. */
  ghost predicate RowTells(
    rows: seq<Definition>, colors: seq<uint8>, data: seq<uint8>, width: nat, height: nat, i: nat)
    requires width > 0 && |data| == |colors| && 3 * i + 3 <= |colors|
  {
    if InMiddleRow(width, height, i) then PixelColor(data, i) == NO_COLOR else InOneRow(rows, PixelColor(data, i))
  }

  /** A lookup in the image that is read back answers the colour of the pixel's root, or black in a middle row. */
  ghost predicate LookupTells(m: ProvinceMap, labels: seq<ProvinceID>, b: BitMap, width: nat, height: nat, i: nat)
    requires Acyclic(m) && Known(m, labels, i) && width > 0
  {
    && PointInImage(b, Column(width, i), Row(width, i)) && Root(m, labels[i]) in m
    && GetColorAtPoint(b, Column(width, i), Row(width, i)) ==
       Value(if InMiddleRow(width, height, i) then NO_COLOR else m[Root(m, labels[i])].uniqueColor)
  }

  /** A pixel of the map is one of the image. */
  lemma PixelIsPoint(b: BitMap, width: nat, height: nat, i: nat)
    requires IsTrueColor(b, width, height) && |b.data| <= 0x1_0000_0000 && |b.data| % 3 == 0
    requires width > 0 && i < width * height
    ensures PointInImage(b, Column(width, i), Row(width, i)) && i == Column(width, i) + Row(width, i) * width
  {
    RowInImage(width, height, i);
    ColumnAndRowDetermine(width, i);
  }

  lemma LookupsTell(
    m: ProvinceMap, labels: seq<ProvinceID>, colors: seq<uint8>, b: BitMap, width: nat, height: nat, i: nat)
    requires Acyclic(m) && Known(m, labels, i) && Shown(m, labels, colors, i) && width > 0
    requires |labels| == width * height && |colors| == 3 * |labels| <= 0x1_0000_0000
    requires IsTrueColor(b, width, height) && b.data == Blackened(colors, width * 3, height)
    ensures LookupTells(m, labels, b, width, height, i)
  {
    PixelIsPoint(b, width, height, i);
    RootResultIsRoot(m, labels[i]);
    BlackenedPixel(colors, width, height, i);
    LookupIsPixelColor(b, width, height, i);
  }

  lemma LookupIsPixelColor(b: BitMap, width: nat, height: nat, i: nat)
    requires IsTrueColor(b, width, height) && width > 0 && PointInImage(b, Column(width, i), Row(width, i))
    requires i == Column(width, i) + Row(width, i) * width
    ensures 3 * i + 3 <= |b.data|
    ensures GetColorAtPoint(b, Column(width, i), Row(width, i)) == Value(PixelColor(b.data, i))
  {
    ColorAtPoint(b, Column(width, i), Row(width, i), i);
  }

  /** What holds of image and table after a successful export. */
  ghost predicate Exported(
    m: ProvinceMap, labels: seq<ProvinceID>, colors: seq<uint8>, rows: seq<Definition>, order: seq<ProvinceID>,
    continents: seq<string>)
    requires Acyclic(m)
  {
    && |colors| == 3 * |labels| && |rows| == |Roots(m)|
    && (forall i: nat, k: nat ::
          Known(m, labels, i) && k < |rows| && rows[k].color == PixelColor(colors, i) ==>
          TellsRoot(m, order, continents, rows[k], labels[i]))
    && (forall i: nat :: Known(m, labels, i) ==> Shown(m, labels, colors, i))
    && forall i: nat :: Known(m, labels, i) ==> InOneRow(rows, PixelColor(colors, i))
  }

  lemma RowsTell(
    m: ProvinceMap, labels: seq<ProvinceID>, width: nat, height: nat, colors: seq<uint8>, rows: seq<Definition>,
    order: seq<ProvinceID>, continents: seq<string>, i: nat)
    requires Acyclic(m) && Exported(m, labels, colors, rows, order, continents) && width > 0 && Known(m, labels, i)
    ensures RowTells(rows, colors, Blackened(colors, width * 3, height), width, height, i)
  {
    BlackenedPixel(colors, width, height, i);
  }

  lemma FilesTellAll(
    m: ProvinceMap, labels: seq<ProvinceID>, width: nat, height: nat, colors: seq<uint8>, rows: seq<Definition>,
    order: seq<ProvinceID>, continents: seq<string>, held: nat -> uint8)
    requires Forest(m) && DistinctColors(m) && Exported(m, labels, colors, rows, order, continents)
    requires |labels| == width * height && MapFits(width, height)
    ensures ArgumentsFit(colors, width, height, 3, None) && ImageFile(colors, width, height).Value?
    ensures FilesTell(
      m, labels, width, height, colors, ImageFile(colors, width, height).value, rows, order, continents, held)
  {
    ImageFileRoundTrip(colors, width, height, held);
    FileShowsGroupsIff(m, labels, colors, width, height, held);
    var data := Blackened(colors, width * 3, height);
    forall i: nat | Known(m, labels, i) ensures RowTells(rows, colors, data, width, height, i) {
      RowsTell(m, labels, width, height, colors, rows, order, continents, i);
    }
    forall i: nat | Known(m, labels, i)
      ensures LookupTells(m, labels, ReadBmp(ImageFile(colors, width, height).value, held).value, width, height, i)
    {
      LookupsTell(m, labels, colors, ReadBmp(ImageFile(colors, width, height).value, held).value, width, height, i);
    }
    RowsDescribe(m, labels, width, height, colors, rows, order, continents);
    KnownIsShown(m, labels, colors, data, rows, order, continents);
    if height % 2 == 0 { EvenHeightShowsGroups(m, labels, colors, width, height); }
  }

  lemma RowsDescribe(
    m: ProvinceMap, labels: seq<ProvinceID>, width: nat, height: nat, colors: seq<uint8>, rows: seq<Definition>,
    order: seq<ProvinceID>, continents: seq<string>)
    requires Acyclic(m) && Exported(m, labels, colors, rows, order, continents) && width > 0
    ensures
      var data := Blackened(colors, width * 3, height);
      forall i: nat, k: nat ::
        Known(m, labels, i) && k < |rows| && !InMiddleRow(width, height, i) && rows[k].color == PixelColor(data, i) ==>
        TellsRoot(m, order, continents, rows[k], labels[i])
  {
    forall i: nat | Known(m, labels, i) && !InMiddleRow(width, height, i)
      ensures PixelColor(Blackened(colors, width * 3, height), i) == PixelColor(colors, i)
    {
      BlackenedPixel(colors, width, height, i);
    }
  }

  /** The known pixels are those that are shown. */
  lemma KnownIsShown(
    m: ProvinceMap, labels: seq<ProvinceID>, colors: seq<uint8>, data: seq<uint8>, rows: seq<Definition>,
    order: seq<ProvinceID>, continents: seq<string>)
    requires Acyclic(m) && Exported(m, labels, colors, rows, order, continents) && |data| == |colors|
    ensures
      (forall i: nat, j: nat {:trigger Shown(m, labels, colors, i), Shown(m, labels, colors, j)} ::
         Shown(m, labels, colors, i) && Shown(m, labels, colors, j) ==> TellsApart(m, labels, colors, data, i, j)) <==>
      (forall i: nat, j: nat :: Known(m, labels, i) && Known(m, labels, j) ==>
         (PixelColor(data, i) == PixelColor(data, j) <==> Group(m, labels[i]) == Group(m, labels[j])))
  {
    assert forall i: nat :: Shown(m, labels, colors, i) ==> Known(m, labels, i);
  }

  /**
    Image file and table of an export. It fails exactly where a continent is
    unknown and the user does not go on. Otherwise the table's row and, if black
    is one group, the group of every known pixel can be told from its colour in the
    file.
   */
  method ExportFiles(
    project: ProvinceProject, labels: seq<ProvinceID>, width: nat, height: nat,
    order: seq<ProvinceID>, continents: seq<string>, goOn: bool, ghost held: nat -> uint8)
    returns (r: Maybe<(seq<uint8>, seq<Definition>)>, ghost colors: seq<uint8>)
    requires |labels| == width * height && MapFits(width, height)
    requires Forest(project.provinces) && DistinctColors(project.provinces) && Enumerates(order, project.provinces)
    ensures r.Failure? <==>
      exists p :: p in project.provinces && project.provinces[p].parent == INVALID_PROVINCE &&
                  project.provinces[p].continent !in continents && !goOn
    ensures r.Value? ==>
      FilesTell(project.provinces, labels, width, height, colors, r.value.0, r.value.1, order, continents, held)
  {
    var exported := Export(project, labels, width, height, order, continents, goOn);
    if exported.Failure? {
      return Failure(exported.status), [];
    }
    var (image, rows) := exported.value;
    FilesTellAll(project.provinces, labels, width, height, image, rows, order, continents, held);
    var file := ImageFile(image, width, height);
    return Value((file.value, rows)), image;
  }
}
