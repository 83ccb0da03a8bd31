/** Finding the shapes of a province image: two passes of labelling, and merging the border pixels into the shapes. */
module ShapeFinder {
  import opened Types
  import opened Collections
  import opened Pixels
  import opened ShapeLabels
  import opened ShapeStarts

  datatype Shape = Shape(id: ProvinceID, color: Color, pixels: seq<nat>)

  // ----- Grouping pixels by label -----

  /** The shape holds exactly those pixels of the set that have its label, once each. */
  ghost predicate HoldsItsPixels(s: Shape, labels: seq<ProvinceID>, pixels: set<nat>) {
    Distinct(s.pixels) && forall p: nat :: p in s.pixels <==> p in pixels && p < |labels| && labels[p] == s.id
  }

  /** Each pixel of the set is in the shape of its label, once, and `index` finds the shapes. */
  ghost predicate Grouped(
    labels: seq<ProvinceID>, shapes: seq<Shape>, index: map<ProvinceID, nat>, pixels: set<nat>)
  {
    && (forall l :: l in index ==> index[l] < |shapes| && shapes[index[l]].id == l)
    && (forall k: nat :: k < |shapes| ==> shapes[k].id in index && index[shapes[k].id] == k)
    && (forall p :: p in pixels ==> p < |labels| && labels[p] in index)
    && forall k: nat :: k < |shapes| ==> HoldsItsPixels(shapes[k], labels, pixels)
  }

  /** A shape for the label, if there is none yet. */
  function Opened(shapes: seq<Shape>, index: map<ProvinceID, nat>, l: ProvinceID, c: Color)
    : (seq<Shape>, map<ProvinceID, nat>)
  {
    if l in index then (shapes, index) else (shapes + [Shape(l, c, [])], index[l := |shapes|])
  }

  function WithPixel(shapes: seq<Shape>, k: nat, p: nat): seq<Shape>
    requires k < |shapes|
  {
    shapes[k := shapes[k].(pixels := shapes[k].pixels + [p])]
  }

  lemma OpenedIsGrouped(
    labels: seq<ProvinceID>, shapes: seq<Shape>, index: map<ProvinceID, nat>, pixels: set<nat>, l: ProvinceID, c: Color)
    requires Grouped(labels, shapes, index, pixels)
    ensures
      var (shapes', index') := Opened(shapes, index, l, c);
      Grouped(labels, shapes', index', pixels) && l in index'
  {
    if l !in index { OneMoreIsGrouped(labels, shapes, index, pixels, Shape(l, c, [])); }
  }

  lemma OneMoreIsGrouped(
    labels: seq<ProvinceID>, shapes: seq<Shape>, index: map<ProvinceID, nat>, pixels: set<nat>, s: Shape)
    requires Grouped(labels, shapes, index, pixels) && s.id !in index && s.pixels == []
    ensures Grouped(labels, shapes + [s], index[s.id := |shapes|], pixels)
  {
    var shapes' := shapes + [s];
    forall k: nat | k < |shapes'| ensures HoldsItsPixels(shapes'[k], labels, pixels) {
      if k < |shapes| { assert shapes'[k] == shapes[k]; }
    }
  }

  lemma WithPixelIsGrouped(
    labels: seq<ProvinceID>, shapes: seq<Shape>, index: map<ProvinceID, nat>, pixels: set<nat>, p: nat)
    requires Grouped(labels, shapes, index, pixels) && p < |labels| && p !in pixels && labels[p] in index
    ensures Grouped(labels, WithPixel(shapes, index[labels[p]], p), index, pixels + {p})
  {
    var j := index[labels[p]];
    var shapes' := WithPixel(shapes, j, p);
    forall k: nat | k < |shapes'| ensures HoldsItsPixels(shapes'[k], labels, pixels + {p}) {
      assert HoldsItsPixels(shapes[k], labels, pixels);
      if k == j { PixelIsHeld(shapes[j], labels, pixels, p); }
    }
  }

  lemma PixelIsHeld(s: Shape, labels: seq<ProvinceID>, pixels: set<nat>, p: nat)
    requires HoldsItsPixels(s, labels, pixels) && p !in pixels && p < |labels| && labels[p] == s.id
    ensures HoldsItsPixels(s.(pixels := s.pixels + [p]), labels, pixels + {p})
  {
    assert p !in s.pixels;
  }

  /** Relabelling a pixel that is not grouped yet changes nothing for the others. */
  lemma RelabelledIsGrouped(
    labels: seq<ProvinceID>, labels': seq<ProvinceID>, shapes: seq<Shape>, index: map<ProvinceID, nat>, pixels: set<nat>)
    requires Grouped(labels, shapes, index, pixels) && |labels'| == |labels|
    requires forall p :: p in pixels && p < |labels| ==> labels'[p] == labels[p]
    ensures Grouped(labels', shapes, index, pixels)
  {
    forall k: nat | k < |shapes| ensures HoldsItsPixels(shapes[k], labels', pixels) {
      assert HoldsItsPixels(shapes[k], labels, pixels);
    }
  }

  /** The shape starts with a coloured pixel and has its colour. */
  ghost predicate HasItsColor(img: Image, s: Shape) {
    && s.pixels != [] && s.pixels[0] < |img.colors|
    && !IsBorder(img, s.pixels[0]) && s.color == img.colors[s.pixels[0]]
  }

  /** So do all shapes. */
  ghost predicate Tinted(img: Image, shapes: seq<Shape>)
    decreases shapes
  {
    shapes == [] || (HasItsColor(img, shapes[|shapes| - 1]) && Tinted(img, shapes[..|shapes| - 1]))
  }

  lemma {:induction false} TintedIff(img: Image, shapes: seq<Shape>)
    ensures Tinted(img, shapes) <==> forall k: nat :: k < |shapes| ==> HasItsColor(img, shapes[k])
    decreases shapes
  {
    if shapes != [] {
      var prior := shapes[..|shapes| - 1];
      TintedIff(img, prior);
      assert forall k: nat :: k < |prior| ==> prior[k] == shapes[k];
    }
  }

  /** One more pixel leaves a shape its colour. */
  lemma WithPixelIsTinted(img: Image, shapes: seq<Shape>, k: nat, p: nat)
    requires k < |shapes| && Tinted(img, shapes)
    ensures Tinted(img, WithPixel(shapes, k, p))
  {
    TintedIff(img, shapes);
    TintedIff(img, WithPixel(shapes, k, p));
  }

  /** A shape that is opened for a coloured pixel has the pixel's colour. */
  lemma BuiltIsTinted(img: Image, shapes: seq<Shape>, index: map<ProvinceID, nat>, l: ProvinceID, p: nat)
    requires Tinted(img, shapes) && p < |img.colors| && !IsBorder(img, p)
    requires l in index ==> index[l] < |shapes|
    ensures
      var (shapes', index') := Opened(shapes, index, l, img.colors[p]);
      index'[l] < |shapes'| && Tinted(img, WithPixel(shapes', index'[l], p))
  {
    var (shapes', index') := Opened(shapes, index, l, img.colors[p]);
    if l in index {
      WithPixelIsTinted(img, shapes, index[l], p);
    } else {
      FirstPixel(shapes, Shape(l, img.colors[p], []), p);
      OneMoreIsTinted(img, shapes, Shape(l, img.colors[p], [p]));
    }
  }

  lemma FirstPixel(shapes: seq<Shape>, s: Shape, p: nat)
    requires s.pixels == []
    ensures WithPixel(shapes + [s], |shapes|, p) == shapes + [s.(pixels := [p])]
  {
    assert (shapes + [s])[|shapes|] == s && [] + [p] == [p];
  }

  lemma OneMoreIsTinted(img: Image, shapes: seq<Shape>, s: Shape)
    requires Tinted(img, shapes) && HasItsColor(img, s)
    ensures Tinted(img, shapes + [s])
  {
    assert (shapes + [s])[..|shapes|] == shapes;
  }

  ghost function ColoredBelow(img: Image, n: nat): (s: set<nat>)
    requires n <= |img.colors|
    ensures forall p: nat :: p in s <==> p < n && !IsBorder(img, p)
  {
    set p: nat | p < n && !IsBorder(img, p)
  }

  lemma ColoredNext(img: Image, n: nat)
    requires n < |img.colors|
    ensures ColoredBelow(img, n + 1) == ColoredBelow(img, n) + if IsBorder(img, n) then {} else {n}
  {
  }

  /** The coloured pixels among the first `n` have the roots of their labels. */
  ghost function Resolved(img: Image, parents: Parents, labels: seq<ProvinceID>, n: nat): (r: seq<ProvinceID>)
    requires |labels| == |img.colors| && Descending(parents)
    ensures |r| == |labels|
  {
    seq(|labels|, k requires 0 <= k < |labels| =>
      if k < n && !IsBorder(img, k) then RootOf(parents, labels[k]) else labels[k])
  }

  lemma ResolvedNext(img: Image, parents: Parents, labels: seq<ProvinceID>, n: nat)
    requires |labels| == |img.colors| && Descending(parents) && n < |labels| && !IsBorder(img, n)
    ensures Resolved(img, parents, labels, n + 1) == Resolved(img, parents, labels, n)[n := RootOf(parents, labels[n])]
    ensures Resolved(img, parents, labels, n)[n] == labels[n]
  {
  }

  /** The list holds the border pixels among the first `n`, once each. */
  ghost predicate ListsBorders(img: Image, borders: seq<nat>, n: nat)
    requires n <= |img.colors|
  {
    Distinct(borders) && forall p: nat :: p in borders <==> p < n && IsBorder(img, p)
  }

  /** Every pixel is coloured or listed. */
  lemma BordersAreTheRest(img: Image, borders: seq<nat>)
    requires ListsBorders(img, borders, |img.colors|)
    ensures ColoredBelow(img, |img.colors|) + Members(borders) == Below(|img.colors|)
    ensures Members(borders) == Below(|img.colors|) - ColoredBelow(img, |img.colors|)
  {
    var all, colored := Below(|img.colors|), ColoredBelow(img, |img.colors|);
    forall p: nat ensures p in Members(borders) <==> p in all && p !in colored {}
    forall p: nat ensures p in colored ==> p in all {}
  }

  /** The fields that the second pass works on. */
  datatype Progress = Progress(
    labels: seq<ProvinceID>, parents: Parents, shapes: seq<Shape>, index: map<ProvinceID, nat>, borders: seq<nat>)

  /** The first `n` pixels have been resolved, and are grouped or listed. */
  ghost predicate Resolving(img: Image, before: seq<ProvinceID>, p: Progress, n: nat) {
    && |before| == |img.colors| && n <= |img.colors| && Descending(p.parents)
    && p.labels == Resolved(img, p.parents, before, n)
    && Grouped(p.labels, p.shapes, p.index, ColoredBelow(img, n))
    && ListsBorders(img, p.borders, n)
    && Tinted(img, p.shapes)
  }

  lemma NothingResolved(img: Image, p: Progress)
    requires |p.labels| == |img.colors| && Descending(p.parents) && p.shapes == [] && p.index == map[] && p.borders == []
    ensures Resolving(img, p.labels, p, 0)
  {
    assert Resolved(img, p.parents, p.labels, 0) == p.labels;
    assert ColoredBelow(img, 0) == {};
  }

  // ----- Where a border pixel goes -----

  /** The pixel is not above or to the left of the other one. */
  ghost predicate InQuadrant(img: Image, i: nat, q: nat)
    requires img.width > 0
  {
    q < |img.colors| && Row(img.width, i) <= Row(img.width, q) && Column(img.width, i) <= Column(img.width, q)
  }

  predicate ColoredLeft(img: Image, i: nat)
    requires i < |img.colors|
  {
    img.width > 0 && Column(img.width, i) > 0 && i > 0 && !IsBorder(img, i - 1)
  }

  predicate ColoredUp(img: Image, i: nat)
    requires i < |img.colors|
  {
    0 < img.width <= i && !IsBorder(img, i - img.width)
  }

  predicate ColoredDown(img: Image, i: nat)
    requires i < |img.colors|
  {
    i + img.width < |img.colors| && !IsBorder(img, i + img.width)
  }

  /**
    The pixel takes its label from `t`: its left, upper or lower neighbour, or the
    first coloured pixel that is not above it and not to its left.
   */
  ghost predicate MergesWith(img: Image, i: nat, t: nat)
    requires i < |img.colors| && img.width > 0
  {
    && Colored(img, t)
    && if ColoredLeft(img, i) then t == i - 1
       else if ColoredUp(img, i) then t == i - img.width
       else if ColoredDown(img, i) then t == i + img.width
       else InQuadrant(img, i, t) && forall q: nat :: InQuadrant(img, i, q) && Colored(img, q) ==> t <= q
  }

  /** There is nothing to take a label from. */
  ghost predicate Stranded(img: Image, i: nat)
    requires i < |img.colors| && img.width > 0
  {
    && !ColoredLeft(img, i) && !ColoredUp(img, i) && !ColoredDown(img, i)
    && forall q: nat :: InQuadrant(img, i, q) ==> !Colored(img, q)
  }

  ghost predicate SomeStranded(img: Image) {
    exists i: nat :: i < |img.colors| && img.width > 0 && IsBorder(img, i) && Stranded(img, i)
  }

  /** One black corner that touches nothing is enough to find no shapes, however many colours there are elsewhere. */
  lemma BlackCornerIsStranded(img: Image)
    requires img.Valid() && img.width > 1 && img.height > 0
    requires IsBorder(img, |img.colors| - 1) && !ColoredLeft(img, |img.colors| - 1) && !ColoredUp(img, |img.colors| - 1)
    ensures SomeStranded(img)
  {
    var last, w := |img.colors| - 1, img.width;
    IndexIsUnique(w, w - 1, img.height - 1);
    assert last == w - 1 + (img.height - 1) * w;
    forall q: nat | InQuadrant(img, last, q) ensures !Colored(img, q) {
      ColumnAndRowDetermine(w, q);
      RowInImage(w, img.height, q);
      assert Column(w, q) == w - 1 && Row(w, q) == img.height - 1;
    }
    assert Stranded(img, last);
  }

  /** Indices follow rows, and columns within a row. */
  lemma IndexOrder(w: nat, i: nat, j: nat)
    requires w > 0 && (Row(w, i) < Row(w, j) || (Row(w, i) == Row(w, j) && Column(w, i) <= Column(w, j)))
    ensures i <= j
  {
    ColumnAndRowDetermine(w, i);
    ColumnAndRowDetermine(w, j);
    if Row(w, i) < Row(w, j) {
      assert (Row(w, i) + 1) * w <= Row(w, j) * w;
    }
  }

  /** Border pixels have the label of the pixel they merge with, and coloured ones are as they were. */
  ghost predicate BordersMerged(img: Image, before: seq<ProvinceID>, after: seq<ProvinceID>, merged: set<nat>)
    requires |before| == |after| == |img.colors|
  {
    && (forall p: nat :: p < |img.colors| && !IsBorder(img, p) ==> after[p] == before[p])
    && forall p: nat :: p in merged && p < |img.colors| ==> HasTarget(img, after, p)
  }

  ghost predicate HasTarget(img: Image, labels: seq<ProvinceID>, p: nat)
    requires p < |img.colors| == |labels|
  {
    img.width > 0 && exists t: nat :: MergesWith(img, p, t) && labels[p] == labels[t]
  }

  /** A border pixel that has found its target was not stranded. */
  lemma NoneIsStranded(img: Image, before: seq<ProvinceID>, after: seq<ProvinceID>, borders: seq<nat>)
    requires |before| == |after| == |img.colors| && ListsBorders(img, borders, |img.colors|)
    requires BordersMerged(img, before, after, Members(borders))
    ensures !SomeStranded(img)
  {
    forall p: nat | p < |img.colors| && img.width > 0 && IsBorder(img, p) ensures !Stranded(img, p) {
      assert p in Members(borders);
      assert HasTarget(img, after, p);
    }
  }

  lemma ListedPixelIsBorder(img: Image, borders: seq<nat>, j: nat)
    requires ListsBorders(img, borders, |img.colors|) && j < |borders|
    ensures borders[j] < |img.colors| && IsBorder(img, borders[j])
    ensures forall q :: q in Members(borders[..j]) ==> q < |img.colors| && IsBorder(img, q)
  {
    assert borders[j] in borders;
    assert forall q :: q in borders[..j] ==> q in borders;
  }

  /** Coloured pixels have the labels of the second pass, and border pixels those of the pixels they merge with. */
  ghost predicate LabelsFound(img: Image, supply: nat -> ProvinceID, labels: seq<ProvinceID>) {
    && |labels| == |img.colors|
    && (forall p: nat :: p < |img.colors| && !IsBorder(img, p) ==>
          labels[p] == FinalLabel(Scanned(img, supply, |img.colors|), p))
    && forall p: nat :: p < |img.colors| && IsBorder(img, p) ==> HasTarget(img, labels, p)
  }

  /** Relabelling one more border pixel after its target disturbs no other. */
  lemma TargetsStay(
    img: Image, before: seq<ProvinceID>, labels: seq<ProvinceID>, labels': seq<ProvinceID>, merged: set<nat>,
    p: nat, t: nat)
    requires |before| == |labels| == |img.colors| && p < |img.colors| && img.width > 0
    requires BordersMerged(img, before, labels, merged) && IsBorder(img, p) && MergesWith(img, p, t)
    requires p !in merged && labels' == labels[p := labels[t]]
    ensures BordersMerged(img, before, labels', merged + {p})
  {
    forall q: nat | q in merged + {p} && q < |img.colors| ensures HasTarget(img, labels', q) {
      if q == p {
        assert MergesWith(img, p, t) && labels'[p] == labels'[t];
      } else {
        assert HasTarget(img, labels, q);
        var u: nat :| MergesWith(img, q, u) && labels[q] == labels[u];
        assert labels'[q] == labels'[u];
      }
    }
  }

  // ----- The shapes -----

  /** Some shape holds both pixels. */
  ghost predicate InOneShape(shapes: seq<Shape>, p: nat, q: nat) {
    exists k: nat :: k < |shapes| && p in shapes[k].pixels && q in shapes[k].pixels
  }

  lemma OneShapeIffOneLabel(
    labels: seq<ProvinceID>, shapes: seq<Shape>, index: map<ProvinceID, nat>, pixels: set<nat>, p: nat, q: nat)
    requires Grouped(labels, shapes, index, pixels) && p in pixels && q in pixels
    ensures p < |labels| && q < |labels| && (InOneShape(shapes, p, q) <==> labels[p] == labels[q])
  {
    if labels[p] == labels[q] {
      var k := index[labels[p]];
      assert HoldsItsPixels(shapes[k], labels, pixels);
      assert p in shapes[k].pixels && q in shapes[k].pixels;
    }
    if InOneShape(shapes, p, q) {
      var k: nat :| k < |shapes| && p in shapes[k].pixels && q in shapes[k].pixels;
      assert HoldsItsPixels(shapes[k], labels, pixels);
    }
  }

  /** Two coloured pixels are in one shape exactly when they lie in one area. */
  ghost predicate ShapesAreAreas(img: Image, shapes: seq<Shape>) {
    forall p: nat, q: nat {:trigger Connected(img, p, q)} :: Colored(img, p) && Colored(img, q) ==>
      (InOneShape(shapes, p, q) <==> Connected(img, p, q))
  }

  /** Once shapes are found, they are as right as the labels. */
  lemma ShapesAreAreasIffLabelsAre(
    img: Image, supply: nat -> ProvinceID, labels: seq<ProvinceID>, shapes: seq<Shape>, index: map<ProvinceID, nat>)
    requires AllDistinct(supply) && LabelsFound(img, supply, labels)
    requires Grouped(labels, shapes, index, Below(|img.colors|))
    ensures ShapesAreAreas(img, shapes) <==> LabelsAreAreas(img, supply)
  {
    var st := Scanned(img, supply, |img.colors|);
    forall p: nat, q: nat | Colored(img, p) && Colored(img, q)
      ensures InOneShape(shapes, p, q) <==> FinalLabel(st, p) == FinalLabel(st, q)
    {
      OneShapeIffOneLabel(labels, shapes, index, Below(|img.colors|), p, q);
    }
  }

  /**
    Found shapes are areas if no set of starts cuts an area; and where no area has
    more than three starts, exactly if none with the largest label of its area does.
   */
  lemma ShapesAreAreasIfUncut(
    img: Image, supply: nat -> ProvinceID, labels: seq<ProvinceID>, shapes: seq<Shape>, index: map<ProvinceID, nat>)
    requires AllDistinct(supply) && LabelsFound(img, supply, labels)
    requires Grouped(labels, shapes, index, Below(|img.colors|))
    ensures NoSetOfStartsCuts(img) ==> ShapesAreAreas(img, shapes)
    ensures AtMostThreeStarts(img) ==>
      (ShapesAreAreas(img, shapes) <==> forall k: nat :: IsLargest(img, supply, k) ==> !Cuts(img, {k}))
  {
    ShapesAreAreasIffLabelsAre(img, supply, labels, shapes, index);
    if NoSetOfStartsCuts(img) { UncutImagesAreLabelledRightly(img, supply); }
    if AtMostThreeStarts(img) { ThreeStartsRightIffUncut(img, supply); }
  }

  /** The same for all images, in terms of the parents that the first pass leaves. */
  lemma ShapesAreAreasIffHealed(
    img: Image, supply: nat -> ProvinceID, labels: seq<ProvinceID>, shapes: seq<Shape>, index: map<ProvinceID, nat>)
    requires AllDistinct(supply) && LabelsFound(img, supply, labels)
    requires Grouped(labels, shapes, index, Below(|img.colors|))
    ensures
      var st := Scanned(img, supply, |img.colors|);
      ShapesAreAreas(img, shapes) <==> forall e :: e in Overwritten(st) ==> Healed(st, e)
  {
    ShapesAreAreasIffLabelsAre(img, supply, labels, shapes, index);
    LabelsAreAreasIffHealed(img, supply);
  }

  /** The shape has the colour of each of its coloured pixels, and has one. */
  ghost predicate ShowsItsColor(img: Image, s: Shape) {
    && (exists p :: p in s.pixels && Colored(img, p))
    && forall p :: p in s.pixels && Colored(img, p) ==> img.colors[p] == s.color
  }

  ghost predicate ShapesShowColors(img: Image, shapes: seq<Shape>) {
    forall k: nat :: k < |shapes| ==> ShowsItsColor(img, shapes[k])
  }

  /** Pixels of one area have one colour. */
  lemma ConnectedShareColor(img: Image, i: nat, j: nat)
    requires Connected(img, i, j) && Colored(img, i) && Colored(img, j)
    ensures img.colors[i] == img.colors[j]
  {
    var s := set k: nat | k < |img.colors| && img.colors[k] == img.colors[i];
    assert ClosedUnderNeighbours(img, s);
  }

  lemma TintedShowColors(
    img: Image, supply: nat -> ProvinceID, labels: seq<ProvinceID>, shapes: seq<Shape>, index: map<ProvinceID, nat>)
    requires AllDistinct(supply) && LabelsFound(img, supply, labels)
    requires Grouped(labels, shapes, index, Below(|img.colors|)) && Tinted(img, shapes)
    ensures ShapesShowColors(img, shapes)
  {
    TintedIff(img, shapes);
    forall k: nat | k < |shapes| ensures ShowsItsColor(img, shapes[k]) {
      assert HasItsColor(img, shapes[k]) && HoldsItsPixels(shapes[k], labels, Below(|img.colors|));
      HeldShowsItsColor(img, supply, labels, shapes[k]);
    }
  }

  lemma HeldShowsItsColor(img: Image, supply: nat -> ProvinceID, labels: seq<ProvinceID>, s: Shape)
    requires AllDistinct(supply) && LabelsFound(img, supply, labels)
    requires HoldsItsPixels(s, labels, Below(|img.colors|)) && HasItsColor(img, s)
    ensures ShowsItsColor(img, s)
  {
    var first := s.pixels[0];
    assert first in s.pixels && Colored(img, first);
    forall p | p in s.pixels && Colored(img, p) ensures img.colors[p] == s.color {
      SameLabelIsConnected(img, supply, first, p);
      ConnectedShareColor(img, first, p);
    }
  }

  /** A pixel with a colour, told without names. */
  ghost predicate HasColor(img: Image, q: nat) {
    q < |img.colors| && img.colors[q] != Color(0, 0, 0)
  }

  /** Neither above the pixel nor to its left. */
  ghost predicate LowerRight(w: nat, i: nat, q: nat)
    requires w > 0
  {
    q / w >= i / w && q % w >= i % w
  }

  /**
    The left neighbour if that has a colour; else the upper one, else the lower one;
    and else the first pixel with a colour that is neither above nor to the left.
   */
  ghost predicate IsTargetOf(img: Image, i: nat, t: nat, w: nat)
    requires w > 0
  {
    && HasColor(img, t)
    && if i % w > 0 && i > 0 && HasColor(img, i - 1) then t == i - 1
       else if i >= w && HasColor(img, i - w) then t == i - w
       else if HasColor(img, i + w) then t == i + w
       else LowerRight(w, i, t) && forall q: nat :: HasColor(img, q) && LowerRight(w, i, q) ==> t <= q
  }

  lemma TargetIs(img: Image, i: nat, t: nat, w: nat)
    requires i < |img.colors| && img.colors[i] == Color(0, 0, 0) && w == img.width > 0 && MergesWith(img, i, t)
    ensures IsTargetOf(img, i, t, w)
  {
    if !ColoredLeft(img, i) && !ColoredUp(img, i) && !ColoredDown(img, i) {
      forall q: nat | HasColor(img, q) && LowerRight(w, i, q) ensures t <= q {
        assert InQuadrant(img, i, q) && Colored(img, q);
      }
    }
  }

  /** Every black pixel is in the shape of its target. */
  lemma BorderPixelJoins(
    img: Image, supply: nat -> ProvinceID, labels: seq<ProvinceID>, shapes: seq<Shape>, index: map<ProvinceID, nat>,
    i: nat, w: nat)
    requires LabelsFound(img, supply, labels) && Grouped(labels, shapes, index, Below(|img.colors|))
    requires i < |img.colors| && img.colors[i] == Color(0, 0, 0) && w == img.width > 0
    ensures exists t: nat :: IsTargetOf(img, i, t, w) && InOneShape(shapes, i, t)
  {
    assert HasTarget(img, labels, i);
    var t: nat :| MergesWith(img, i, t) && labels[i] == labels[t];
    OneShapeIffOneLabel(labels, shapes, index, Below(|img.colors|), i, t);
    TargetIs(img, i, t, w);
  }

  // ----- The finder -----

  class ShapeFinder {
    const img: Image
    /** The label of each pixel. */
    const provinces: array<ProvinceID>
    var labelParents: Parents
    var borderPixels: seq<nat>
    var shapes: seq<Shape>
    var shapeIndex: map<ProvinceID, nat>

    ghost predicate Valid()
    {
      provinces.Length == |img.colors| == RowStart(img.width, img.height) <= 0x1_0000_0000
    }

    constructor (img: Image)
      requires img.Valid()
      ensures Valid() && fresh(provinces) && this.img == img
      ensures labelParents == map[] && borderPixels == [] && shapes == [] && shapeIndex == map[]
    {
      this.img, this.labelParents, this.borderPixels, this.shapes, this.shapeIndex := img, map[], [], [], map[];
      this.provinces := new ProvinceID[|img.colors|](_ => 0);
      RowStartIs(img.width, img.height);
    }

    method GetRootLabel(l: ProvinceID) returns (root: ProvinceID)
      requires Descending(labelParents)
      ensures root == RootOf(labelParents, l)
    {
      root := l;
      while root in labelParents
        invariant RootOf(labelParents, root) == RootOf(labelParents, l)
        decreases root
      {
        root := labelParents[root];
      }
    }

    /** The fields are those of the scan. */
    ghost predicate Shows(st: Scan, used: nat)
      reads this, provinces
    {
      && Valid() && |st.labels| <= |img.colors|
      && provinces[..|st.labels|] == st.labels && labelParents == st.parents && used == st.used
    }

    /** A name for the scans that need not be looked into. */
    ghost predicate IsScan(supply: nat -> ProvinceID, scan: nat -> Scan) {
      forall i: nat {:trigger Scanned(img, supply, i)} :: i <= |img.colors| ==> scan(i) == Scanned(img, supply, i)
    }

    ghost function Scans(supply: nat -> ProvinceID): (scan: nat -> Scan)
      ensures IsScan(supply, scan)
    {
      (i: nat) => if i <= |img.colors| then Scanned(img, supply, i) else NOTHING
    }

    method Pass1(supply: nat -> ProvinceID)
      requires Valid() && AllDistinct(supply) && labelParents == map[]
      modifies this`labelParents, provinces
      ensures provinces[..] == Scanned(img, supply, |img.colors|).labels
      ensures labelParents == Scanned(img, supply, |img.colors|).parents
    {
      ghost var scan := Scans(supply);
      assert scan(0) == Scanned(img, supply, 0);
      var used := LabelRows(supply, scan);
      assert scan(|img.colors|) == Scanned(img, supply, |img.colors|);
      assert provinces[..|img.colors|] == provinces[..];
    }

    method LabelRows(supply: nat -> ProvinceID, ghost scan: nat -> Scan) returns (used: nat)
      requires AllDistinct(supply) && IsScan(supply, scan) && Shows(scan(0), 0)
      modifies this`labelParents, provinces
      ensures Shows(scan(|img.colors|), used)
    {
      used := 0;
      ghost var start := 0;
      for y := 0 to img.height
        invariant start == RowStart(img.width, y) <= |img.colors| && Shows(scan(start), used)
      {
        RowFits(img.width, img.height, y);
        used := LabelRow(supply, scan, y, start, used);
        start := start + img.width;
      }
    }

    method LabelRow(supply: nat -> ProvinceID, ghost scan: nat -> Scan, y: nat, ghost start: nat, used: nat)
      returns (used': nat)
      requires y < img.height && start == RowStart(img.width, y) && start + img.width <= |img.colors|
      requires AllDistinct(supply) && IsScan(supply, scan) && Shows(scan(start), used)
      modifies this`labelParents, provinces
      ensures Shows(scan(start + img.width), used')
    {
      used' := used;
      ghost var at := start;
      for x := 0 to img.width
        invariant at == start + x && Shows(scan(at), used')
      {
        used' := LabelNext(supply, scan, x, y, at, used');
        at := at + 1;
      }
    }

    method LabelNext(supply: nat -> ProvinceID, ghost scan: nat -> Scan, x: nat, y: nat, ghost at: nat, used: nat)
      returns (used': nat)
      requires x < img.width && y < img.height && at == RowStart(img.width, y) + x < |img.colors|
      requires AllDistinct(supply) && IsScan(supply, scan) && Shows(scan(at), used)
      modifies this`labelParents, provinces
      ensures Shows(scan(at + 1), used')
    {
      RowStartIs(img.width, y);
      RowStartIs(img.width, img.height);
      var i := XyToIndex(img.width, x, y);
      XyToIndexIsExact(img.width, img.height, x, y);
      NeighbourIndices(img.width, x, y);
      ScanKeepsInv(img, supply, i);
      used' := LabelPixel(supply, i, x > 0, y > 0, Scanned(img, supply, i), used);
      assert Scanned(img, supply, i + 1) == scan(at + 1);
    }

    method LabelPixel(
      supply: nat -> ProvinceID, i: nat, hasLeft: bool, hasUp: bool, ghost st: Scan, used: nat) returns (used': nat)
      requires |st.labels| == i < |img.colors| && img.width > 0
      requires (hasLeft <==> Column(img.width, i) > 0) && (hasLeft ==> i > 0) && (hasUp <==> i >= img.width)
      requires Inv(img, supply, st) && Shows(st, used)
      modifies this`labelParents, provinces
      ensures Shows(Step(img, supply, st), used')
    {
      var next := supply(used);
      provinces[i] := next;
      if img.colors[i] == BORDER_COLOR {
        assert provinces[..i + 1] == st.labels + [next];
        return used;
      }
      assert provinces[..i] == st.labels;
      var id := ChooseLabel(supply, i, hasLeft, hasUp, st, next);
      provinces[i] := id;
      assert provinces[..i + 1] == st.labels + [id];
      return if id == next then used + 1 else used;
    }

    /** The label of a coloured pixel, given its neighbours. */
    method ChooseLabel(supply: nat -> ProvinceID, i: nat, hasLeft: bool, hasUp: bool, ghost st: Scan, next: ProvinceID)
      returns (id: ProvinceID)
      requires Valid() && |st.labels| == i < |img.colors| && img.width > 0 && !IsBorder(img, i)
      requires (hasLeft <==> Column(img.width, i) > 0) && (hasLeft ==> i > 0) && (hasUp <==> i >= img.width)
      requires Inv(img, supply, st) && provinces[..i] == st.labels && labelParents == st.parents
      requires next == supply(st.used)
      modifies this`labelParents
      ensures Step(img, supply, st).labels == st.labels + [id] && Step(img, supply, st).parents == labelParents
      ensures Step(img, supply, st).used == if id == next then st.used + 1 else st.used
    {
      id := next;
      if hasLeft && img.colors[i - 1] == img.colors[i] {
        LabelIsUsed(supply, st, i - 1);
        id := provinces[..i][i - 1];
      }
      if hasUp && img.colors[i - img.width] == img.colors[i] {
        LabelIsUsed(supply, st, i - img.width);
        var up := provinces[..i][i - img.width];
        id := Meet(supply, st, next, id, up);
      }
    }

    /** The label of a pixel whose upper neighbour has its colour, if `id` is its label so far. */
    method Meet(supply: nat -> ProvinceID, ghost st: Scan, next: ProvinceID, id: ProvinceID, up: ProvinceID)
      returns (r: ProvinceID)
      requires Inv(img, supply, st) && labelParents == st.parents && next == supply(st.used)
      requires up in st.origin && (id == next || id in st.origin)
      modifies this`labelParents
      ensures r != next
      ensures
        if id == next || id == up then r == up && labelParents == st.parents
        else r == RootOf(st.parents, Sorted(id, up).0) && labelParents == st.parents[Sorted(id, up).1 := Sorted(id, up).0]
    {
      if id == next {
        return up;
      }
      if id == up {
        return id;
      }
      var (smaller, larger) := Sorted(id, up);
      RootIsReached(img, supply, st, smaller);
      r := GetRootLabel(smaller);
      labelParents := labelParents[larger := smaller];
    }

    // ----- The second pass -----

    /** What the second pass changes, as a value. */
    ghost function Contents(): Progress
      reads this, provinces
    {
      Progress(provinces[..], labelParents, shapes, shapeIndex, borderPixels)
    }

    /** A name for `Resolving` that need not be looked into. */
    ghost predicate IsResolving(before: seq<ProvinceID>, at: (Progress, nat) -> bool) {
      forall p, n: nat {:trigger Resolving(img, before, p, n)} :: at(p, n) <==> Resolving(img, before, p, n)
    }

    method Pass2()
      requires Valid() && Descending(labelParents) && borderPixels == [] && shapes == [] && shapeIndex == map[]
      modifies this`borderPixels, this`shapes, this`shapeIndex, provinces
      ensures Resolving(img, old(provinces[..]), Contents(), |img.colors|)
    {
      ghost var before := provinces[..];
      ghost var at := (p: Progress, n: nat) => Resolving(img, before, p, n);
      NothingResolved(img, Contents());
      assert at(Contents(), 0);
      ResolveRows(before, at);
    }

    method ResolveRows(ghost before: seq<ProvinceID>, ghost at: (Progress, nat) -> bool)
      requires Valid() && IsResolving(before, at) && at(Contents(), 0)
      modifies this`borderPixels, this`shapes, this`shapeIndex, provinces
      ensures at(Contents(), |img.colors|)
    {
      ghost var start := 0;
      for y := 0 to img.height
        invariant start == RowStart(img.width, y) <= |img.colors| && at(Contents(), start)
      {
        RowFits(img.width, img.height, y);
        ResolveRow(before, at, y, start);
        start := start + img.width;
      }
    }

    method ResolveRow(ghost before: seq<ProvinceID>, ghost at: (Progress, nat) -> bool, y: nat, ghost start: nat)
      requires y < img.height && start == RowStart(img.width, y) && start + img.width <= |img.colors|
      requires Valid() && IsResolving(before, at) && at(Contents(), start)
      modifies this`borderPixels, this`shapes, this`shapeIndex, provinces
      ensures at(Contents(), start + img.width)
    {
      for x := 0 to img.width
        invariant at(Contents(), start + x)
      {
        var i := IndexOf(x, y, start);
        ResolveAt(before, at, i);
      }
    }

    method ResolveAt(ghost before: seq<ProvinceID>, ghost at: (Progress, nat) -> bool, i: nat)
      requires Valid() && i < |img.colors| && IsResolving(before, at) && at(Contents(), i)
      modifies this`borderPixels, this`shapes, this`shapeIndex, provinces
      ensures at(Contents(), i + 1)
    {
      assert Resolving(img, before, Contents(), i);
      ResolveNext(before, i);
    }

    method ResolveNext(ghost before: seq<ProvinceID>, i: nat)
      requires Valid() && i < |img.colors| && Resolving(img, before, Contents(), i)
      modifies this`borderPixels, this`shapes, this`shapeIndex, provinces
      ensures Resolving(img, before, Contents(), i + 1)
    {
      if img.colors[i] == BORDER_COLOR {
        ListBorder(before, i);
      } else {
        ResolvePixel(before, i);
      }
    }

    /** The index of a pixel in a row that starts at `start`. */
    method IndexOf(x: nat, y: nat, ghost start: nat) returns (i: nat)
      requires Valid() && x < img.width && y < img.height && start == RowStart(img.width, y)
      ensures i == start + x
    {
      RowStartIs(img.width, y);
      RowStartIs(img.width, img.height);
      i := XyToIndex(img.width, x, y);
      XyToIndexIsExact(img.width, img.height, x, y);
    }

    method ListBorder(ghost before: seq<ProvinceID>, i: nat)
      requires Valid() && i < |img.colors| && Resolving(img, before, Contents(), i) && IsBorder(img, i)
      modifies this`borderPixels
      ensures Resolving(img, before, Contents(), i + 1)
    {
      assert i !in borderPixels;
      borderPixels := borderPixels + [i];
      ColoredNext(img, i);
      assert Resolved(img, labelParents, before, i + 1) == provinces[..];
    }

    method ResolvePixel(ghost before: seq<ProvinceID>, i: nat)
      requires Valid() && i < |img.colors| && Resolving(img, before, Contents(), i) && !IsBorder(img, i)
      modifies this`shapes, this`shapeIndex, provinces
      ensures Resolving(img, before, Contents(), i + 1)
    {
      ghost var pixels, labels := ColoredBelow(img, i), provinces[..];
      ColoredNext(img, i);
      var root := GetRootLabel(provinces[i]);
      provinces[i] := root;
      assert provinces[..] == labels[i := root];
      ResolvedNext(img, labelParents, before, i);
      RelabelledIsGrouped(labels, provinces[..], shapes, shapeIndex, pixels);
      BuildShape(root, i, pixels);
    }

    /** Adds a pixel to the shape of its label, which is new if the label is. */
    method BuildShape(id: ProvinceID, i: nat, ghost pixels: set<nat>)
      requires i < |img.colors| == provinces.Length && provinces[i] == id && i !in pixels
      requires Grouped(provinces[..], shapes, shapeIndex, pixels) && Tinted(img, shapes) && !IsBorder(img, i)
      modifies this`shapes, this`shapeIndex
      ensures Grouped(provinces[..], shapes, shapeIndex, pixels + {i}) && Tinted(img, shapes)
    {
      ghost var labels := provinces[..];
      OpenedIsGrouped(labels, shapes, shapeIndex, pixels, id, img.colors[i]);
      BuiltIsTinted(img, shapes, shapeIndex, id, i);
      if id !in shapeIndex {
        shapeIndex := shapeIndex[id := |shapes|];
        shapes := shapes + [Shape(id, img.colors[i], [])];
      }
      WithPixelIsGrouped(labels, shapes, shapeIndex, pixels, i);
      shapes := WithPixel(shapes, shapeIndex[id], i);
    }

    // ----- Merging the borders -----

    method FindMergeTarget(i: nat) returns (t: Option<nat>)
      requires Valid() && i < |img.colors| && img.width > 0
      ensures t.None? <==> Stranded(img, i)
      ensures t.Some? ==> MergesWith(img, i, t.value)
    {
      var w := img.width;
      if ColoredLeft(img, i) {
        return Some(i - 1);
      }
      if ColoredUp(img, i) {
        return Some(i - w);
      }
      if ColoredDown(img, i) {
        return Some(i + w);
      }
      t := FirstInQuadrant(i);
    }

    method FirstInQuadrant(i: nat) returns (t: Option<nat>)
      requires Valid() && i < |img.colors| && img.width > 0
      ensures t.None? ==> forall q: nat :: InQuadrant(img, i, q) ==> !Colored(img, q)
      ensures t.Some? ==>
        && InQuadrant(img, i, t.value) && Colored(img, t.value)
        && forall q: nat :: InQuadrant(img, i, q) && Colored(img, q) ==> t.value <= q
    {
      var w := img.width;
      var y := Row(w, i);
      RowIsInImage(i);
      while y < img.height
        invariant Row(w, i) <= y <= img.height
        invariant forall q: nat :: InQuadrant(img, i, q) && Row(w, q) < y ==> !Colored(img, q)
        decreases img.height - y
      {
        t := FirstInRow(i, y);
        if t.Some? {
          forall q: nat | InQuadrant(img, i, q) && Colored(img, q) ensures t.value <= q {
            IndexOrder(w, t.value, q);
          }
          return t;
        }
        y := y + 1;
      }
      forall q: nat | InQuadrant(img, i, q) ensures !Colored(img, q) {
        RowIsInImage(q);
      }
      return None;
    }

    lemma RowIsInImage(q: nat)
      requires Valid() && q < |img.colors| && img.width > 0
      ensures Row(img.width, q) < img.height
    {
      RowStartIs(img.width, img.height);
      RowInImage(img.width, img.height, q);
    }

    /** The first coloured pixel of a row, from the column of `i` on. */
    method FirstInRow(i: nat, y: nat) returns (t: Option<nat>)
      requires Valid() && i < |img.colors| && img.width > 0 && Row(img.width, i) <= y < img.height
      ensures t.None? ==> forall q: nat :: InQuadrant(img, i, q) && Row(img.width, q) == y ==> !Colored(img, q)
      ensures t.Some? ==>
        && InQuadrant(img, i, t.value) && Colored(img, t.value) && Row(img.width, t.value) == y
        && forall q: nat :: InQuadrant(img, i, q) && Row(img.width, q) == y && Colored(img, q) ==>
             Column(img.width, t.value) <= Column(img.width, q)
    {
      var w := img.width;
      var x := Column(w, i);
      ColumnAndRowDetermine(w, i);
      while x < w
        invariant Column(w, i) <= x <= w
        invariant forall q: nat ::
          InQuadrant(img, i, q) && Row(w, q) == y && Column(w, q) < x ==> !Colored(img, q)
        decreases w - x
      {
        var at := PixelAt(x, y);
        if img.colors[at] != BORDER_COLOR {
          return Some(at);
        }
        forall q: nat | InQuadrant(img, i, q) && Row(w, q) == y && Column(w, q) == x ensures q == at {
          ColumnAndRowDetermine(w, q);
          ColumnAndRowDetermine(w, at);
        }
        x := x + 1;
      }
      forall q: nat | InQuadrant(img, i, q) && Row(w, q) == y ensures Column(w, q) < w { ColumnAndRowDetermine(w, q); }
      return None;
    }

    method PixelAt(x: nat, y: nat) returns (i: nat)
      requires Valid() && x < img.width && y < img.height
      ensures i < |img.colors| && Column(img.width, i) == x && Row(img.width, i) == y
    {
      RowStartIs(img.width, img.height);
      XyToIndexIsExact(img.width, img.height, x, y);
      i := XyToIndex(img.width, x, y);
    }

    /** The first `j` border pixels have been merged. */
    ghost predicate MergedUpTo(before: seq<ProvinceID>, j: nat)
      reads this, provinces
    {
      && Valid() && |before| == |img.colors| && j <= |borderPixels| && ListsBorders(img, borderPixels, |img.colors|)
      && var merged := Members(borderPixels[..j]);
      && Grouped(provinces[..], shapes, shapeIndex, ColoredBelow(img, |img.colors|) + merged)
      && BordersMerged(img, before, provinces[..], merged)
      && Tinted(img, shapes)
    }

    /** Fails if some border pixel is stranded. */
    method MergeBorders() returns (ok: bool)
      requires Valid() && ListsBorders(img, borderPixels, |img.colors|)
      requires Grouped(provinces[..], shapes, shapeIndex, ColoredBelow(img, |img.colors|)) && Tinted(img, shapes)
      modifies this`shapes, provinces
      ensures ok <==> !SomeStranded(img)
      ensures ok ==>
        && Grouped(provinces[..], shapes, shapeIndex, Below(|img.colors|)) && Tinted(img, shapes)
        && BordersMerged(img, old(provinces[..]), provinces[..], Below(|img.colors|) - ColoredBelow(img, |img.colors|))
    {
      ghost var before := provinces[..];
      NothingIsMerged();
      ok := MergeAll(before);
      if ok {
        AllIsMerged(before);
      }
    }

    method MergeAll(ghost before: seq<ProvinceID>) returns (ok: bool)
      requires MergedUpTo(before, 0)
      modifies this`shapes, provinces
      ensures if ok then MergedUpTo(before, |borderPixels|) else SomeStranded(img)
    {
      for j := 0 to |borderPixels|
        invariant MergedUpTo(before, j)
      {
        ok := MergeNext(before, j);
        if !ok {
          return false;
        }
      }
      return true;
    }

    lemma NothingIsMerged()
      requires Valid() && ListsBorders(img, borderPixels, |img.colors|)
      requires Grouped(provinces[..], shapes, shapeIndex, ColoredBelow(img, |img.colors|)) && Tinted(img, shapes)
      ensures MergedUpTo(provinces[..], 0)
    {
      var colored := ColoredBelow(img, |img.colors|);
      assert colored + Members(borderPixels[..0]) == colored;
    }

    lemma AllIsMerged(before: seq<ProvinceID>)
      requires MergedUpTo(before, |borderPixels|)
      ensures !SomeStranded(img) && Grouped(provinces[..], shapes, shapeIndex, Below(|img.colors|))
      ensures BordersMerged(img, before, provinces[..], Below(|img.colors|) - ColoredBelow(img, |img.colors|))
    {
      assert borderPixels[..|borderPixels|] == borderPixels;
      BordersAreTheRest(img, borderPixels);
      NoneIsStranded(img, before, provinces[..], borderPixels);
    }

    method MergeNext(ghost before: seq<ProvinceID>, j: nat) returns (ok: bool)
      requires j < |borderPixels| && MergedUpTo(before, j)
      modifies this`shapes, provinces
      ensures if ok then MergedUpTo(before, j + 1) else SomeStranded(img)
    {
      var p := borderPixels[j];
      ListedPixelIsBorder(img, borderPixels, j);
      PixelHasWidth(p);
      var t := FindMergeTarget(p);
      if t == None {
        return false;
      }
      NextMember(borderPixels, j);
      MergePixel(before, ColoredBelow(img, |img.colors|), Members(borderPixels[..j]), p, t.value);
      return true;
    }

    lemma PixelHasWidth(p: nat)
      requires Valid() && p < |img.colors|
      ensures img.width > 0
    {
      RowStartIs(img.width, img.height);
    }

    method MergePixel(ghost before: seq<ProvinceID>, ghost colored: set<nat>, ghost merged: set<nat>, p: nat, t: nat)
      requires Valid() && p < |img.colors| == |before| && img.width > 0 && IsBorder(img, p) && MergesWith(img, p, t)
      requires colored == ColoredBelow(img, |img.colors|) && p !in merged
      requires forall q :: q in merged ==> q < |img.colors| && IsBorder(img, q)
      requires Grouped(provinces[..], shapes, shapeIndex, colored + merged)
      requires BordersMerged(img, before, provinces[..], merged) && Tinted(img, shapes)
      modifies this`shapes, provinces
      ensures Grouped(provinces[..], shapes, shapeIndex, colored + (merged + {p})) && Tinted(img, shapes)
      ensures BordersMerged(img, before, provinces[..], merged + {p})
    {
      ghost var labels := provinces[..];
      var id := provinces[t];
      assert t in colored + merged && labels[t] in shapeIndex;
      provinces[p] := id;
      assert provinces[..] == labels[p := id];
      RelabelledIsGrouped(labels, provinces[..], shapes, shapeIndex, colored + merged);
      WithPixelIsGrouped(provinces[..], shapes, shapeIndex, colored + merged, p);
      WithPixelIsTinted(img, shapes, shapeIndex[id], p);
      shapes := WithPixel(shapes, shapeIndex[id], p);
      assert colored + merged + {p} == colored + (merged + {p});
      TargetsStay(img, before, labels, provinces[..], merged, p, t);
    }

    // ----- All passes -----

    /** Finds no shapes if some border pixel is stranded, and otherwise groups all pixels. */
    method FindAllShapes(supply: nat -> ProvinceID)
      requires Valid() && AllDistinct(supply)
      requires labelParents == map[] && borderPixels == [] && shapes == [] && shapeIndex == map[]
      modifies this, provinces
      ensures SomeStranded(img) ==> shapes == []
      ensures !SomeStranded(img) ==>
        Grouped(provinces[..], shapes, shapeIndex, Below(|img.colors|)) && LabelsFound(img, supply, provinces[..])
      ensures !SomeStranded(img) ==> ShapesShowColors(img, shapes)
      ensures !SomeStranded(img) && NoSetOfStartsCuts(img) ==> ShapesAreAreas(img, shapes)
      ensures !SomeStranded(img) && AtMostThreeStarts(img) ==>
        (ShapesAreAreas(img, shapes) <==> forall k: nat :: IsLargest(img, supply, k) ==> !Cuts(img, {k}))
    {
      Pass1(supply);
      ghost var st := Scanned(img, supply, |img.colors|);
      Pass2();
      ghost var resolved := provinces[..];
      var ok := MergeBorders();
      if !ok {
        shapes := [];
      } else {
        assert LabelsFound(img, supply, provinces[..]);
        ShapesAreAreasIfUncut(img, supply, provinces[..], shapes, shapeIndex);
        TintedShowColors(img, supply, provinces[..], shapes, shapeIndex);
      }
    }

    /** A coloured pixel's label is not the next one. */
    lemma LabelIsUsed(supply: nat -> ProvinceID, st: Scan, k: nat)
      requires Inv(img, supply, st) && k < |st.labels| && Colored(img, k)
      ensures st.labels[k] in st.origin && st.labels[k] != supply(st.used)
    {
      assert Traced(img, st, k);
    }
  }

  /** The index of the first pixel of a row. */
  ghost function RowStart(w: nat, y: nat): nat {
    if y == 0 then 0 else RowStart(w, y - 1) + w
  }

  lemma {:induction false} RowStartIs(w: nat, y: nat)
    ensures RowStart(w, y) == y * w
  {
    if y > 0 {
      RowStartIs(w, y - 1);
      assert y * w == (y - 1) * w + w;
    }
  }

  lemma {:induction false} RowFits(w: nat, h: nat, y: nat)
    requires y < h
    ensures RowStart(w, y) + w <= RowStart(w, h)
  {
    if y < h - 1 { RowFits(w, h - 1, y); }
  }

  lemma NeighbourIndices(w: nat, x: nat, y: nat)
    requires x < w
    ensures Column(w, x + y * w) == x && (x > 0 ==> x + y * w > 0)
    ensures y > 0 <==> x + y * w >= w
  {
    IndexIsUnique(w, x, y);
    assert y > 0 ==> y * w >= w;
  }
}
