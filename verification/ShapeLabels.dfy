/**
  Labelling the one-coloured areas of an image: the first pass gives each pixel a
  label and records which labels belong together; a label then stands for its root.
 */
module ShapeLabels {
  import opened Types
  import opened Pixels

  const BORDER_COLOR := Color(0, 0, 0)

  datatype Image = Image(colors: seq<Color>, width: nat, height: nat) {
    ghost predicate Valid() {
      |colors| == width * height <= 0x1_0000_0000
    }
  }

  // ----- Areas -----

  predicate IsBorder(img: Image, i: nat)
    requires i < |img.colors|
  {
    img.colors[i] == BORDER_COLOR
  }

  predicate SameAsLeft(img: Image, i: nat)
    requires i < |img.colors|
  {
    img.width > 0 && Column(img.width, i) > 0 && i > 0 && !IsBorder(img, i) && img.colors[i - 1] == img.colors[i]
  }

  predicate SameAsUp(img: Image, i: nat)
    requires i < |img.colors|
  {
    0 < img.width <= i && !IsBorder(img, i) && img.colors[i - img.width] == img.colors[i]
  }

  /** With a pixel, the set holds its neighbours of the same colour. */
  ghost predicate ClosedUnderNeighbours(img: Image, s: set<nat>) {
    forall i: nat :: i < |img.colors| ==>
      && (SameAsLeft(img, i) ==> (i in s <==> i - 1 in s))
      && (SameAsUp(img, i) ==> (i in s <==> i - img.width in s))
  }

  /** The pixels lie in one area: no set that is closed under neighbours of the same colour separates them. */
  ghost predicate Connected(img: Image, i: nat, j: nat) {
    forall s {:trigger ClosedUnderNeighbours(img, s)} :: ClosedUnderNeighbours(img, s) ==> (i in s <==> j in s)
  }

  // ----- Roots of labels -----

  type Parents = map<ProvinceID, ProvinceID>

  /** Every parent is smaller than its child. */
  predicate Descending(parents: Parents) {
    forall l :: l in parents ==> parents[l] < l
  }

  function RootOf(parents: Parents, l: ProvinceID): ProvinceID
    requires Descending(parents)
    decreases l
  {
    if l in parents then RootOf(parents, parents[l]) else l
  }

  // ----- The first pass -----

  /** A pair of labels that were found next to each other, the larger one first. */
  type Link = (ProvinceID, ProvinceID)

  /**
    The labels of the pixels so far, and how many new ones were used. `links` and
    `origin` record which labels were linked, and which pixel got a label first.
   */
  datatype Scan = Scan(
    labels: seq<ProvinceID>, parents: Parents, used: nat, links: set<Link>, origin: map<ProvinceID, nat>)

  ghost const NOTHING := Scan([], map[], 0, {}, map[])

  /** One more pixel; `supply` generates labels. A border pixel keeps the label that the next new pixel will get. */
  ghost function Step(img: Image, supply: nat -> ProvinceID, st: Scan): Scan
    requires |st.labels| < |img.colors| && Descending(st.parents)
  {
    var i := |st.labels|;
    if IsBorder(img, i) then st.(labels := st.labels + [supply(st.used)])
    else if SameAsLeft(img, i) && SameAsUp(img, i) && st.labels[i - 1] != st.labels[i - img.width] then
      var (smaller, larger) := Sorted(st.labels[i - 1], st.labels[i - img.width]);
      st.(labels := st.labels + [RootOf(st.parents, smaller)],
          parents := st.parents[larger := smaller],
          links := st.links + {(larger, smaller)})
    else if SameAsUp(img, i) then st.(labels := st.labels + [st.labels[i - img.width]])
    else if SameAsLeft(img, i) then st.(labels := st.labels + [st.labels[i - 1]])
    else
      st.(labels := st.labels + [supply(st.used)], used := st.used + 1, origin := st.origin[supply(st.used) := i])
  }

  function Sorted(a: ProvinceID, b: ProvinceID): (ProvinceID, ProvinceID) {
    if a < b then (a, b) else (b, a)
  }

  ghost function Scanned(img: Image, supply: nat -> ProvinceID, i: nat): (st: Scan)
    requires i <= |img.colors|
    ensures |st.labels| == i && Descending(st.parents)
  {
    if i == 0 then NOTHING else Step(img, supply, Scanned(img, supply, i - 1))
  }

  /** A neighbour to the left, or above, that has the same colour, told without names. */
  ghost predicate LikeLeft(img: Image, i: nat) {
    0 < i < |img.colors| && img.width > 0 && i % img.width != 0 && img.colors[i - 1] == img.colors[i]
  }

  ghost predicate LikeUp(img: Image, i: nat) {
    i < |img.colors| && 0 < img.width <= i && img.colors[i - img.width] == img.colors[i]
  }

  /** One more label; parents and count of used labels are these. */
  ghost predicate Labels(st: Scan, st': Scan, l: ProvinceID, parents: Parents, used: nat) {
    st'.labels == st.labels + [l] && st'.parents == parents && st'.used == used
  }

  /**
    What the first pass does at a pixel. A black one is given the next new label
    without using it up; one that is like neither neighbour uses up a new label;
    one that is like one of them, or like both with one label, takes that label. Where
    two labels meet, the smaller becomes the parent of the larger, whatever that had
    before, and the pixel gets the root of the smaller.
   */
  lemma StepEffect(img: Image, supply: nat -> ProvinceID, st: Scan, i: nat)
    requires i == |st.labels| < |img.colors| && Descending(st.parents)
    ensures
      var st', used := Step(img, supply, st), st.used;
      && (img.colors[i] == Color(0, 0, 0) ==> Labels(st, st', supply(used), st.parents, used))
      && (img.colors[i] != Color(0, 0, 0) ==>
            && (!LikeLeft(img, i) && !LikeUp(img, i) ==> Labels(st, st', supply(used), st.parents, used + 1))
            && (LikeLeft(img, i) && !LikeUp(img, i) ==> Labels(st, st', st.labels[i - 1], st.parents, used))
            && (!LikeLeft(img, i) && LikeUp(img, i) ==> Labels(st, st', st.labels[i - img.width], st.parents, used))
            && (LikeLeft(img, i) && LikeUp(img, i) ==>
                  var a, b := st.labels[i - 1], st.labels[i - img.width];
                  && (a == b ==> Labels(st, st', a, st.parents, used))
                  && (a < b ==> Labels(st, st', RootOf(st.parents, a), st.parents[b := a], used))
                  && (b < a ==> Labels(st, st', RootOf(st.parents, b), st.parents[a := b], used))))
  {
    assert LikeLeft(img, i) && img.colors[i] != Color(0, 0, 0) <==> SameAsLeft(img, i);
    assert LikeUp(img, i) && img.colors[i] != Color(0, 0, 0) <==> SameAsUp(img, i);
  }

  // ----- What a scan knows -----

  ghost predicate AllDistinct(supply: nat -> ProvinceID) {
    forall c, d :: supply(c) == supply(d) ==> c == d
  }

  /** No set of labels that is closed under the links separates the two. */
  ghost predicate LinkClosed(links: set<Link>, t: set<ProvinceID>) {
    forall e :: e in links ==> (e.0 in t <==> e.1 in t)
  }

  ghost predicate Linked(links: set<Link>, a: ProvinceID, b: ProvinceID) {
    forall t {:trigger LinkClosed(links, t)} :: LinkClosed(links, t) ==> (a in t <==> b in t)
  }

  /** The label has been used, and was first given to a pixel that still has it. */
  ghost predicate Used(img: Image, st: Scan, l: ProvinceID) {
    && l in st.origin && st.origin[l] < |st.labels| <= |img.colors|
    && !IsBorder(img, st.origin[l]) && st.labels[st.origin[l]] == l
  }

  /** Both labels are used, in one area. */
  ghost predicate SameArea(img: Image, st: Scan, a: ProvinceID, b: ProvinceID) {
    Used(img, st, a) && Used(img, st, b) && Connected(img, st.origin[a], st.origin[b])
  }

  /** The pixel's label was first used in the pixel's area. */
  ghost predicate Traced(img: Image, st: Scan, k: nat)
    requires k < |st.labels|
  {
    Used(img, st, st.labels[k]) && Connected(img, k, st.origin[st.labels[k]])
  }

  /** The pixel's label is linked to those of its neighbours of the same colour. */
  ghost predicate Recorded(img: Image, st: Scan, k: nat)
    requires k < |st.labels| <= |img.colors|
  {
    && (SameAsLeft(img, k) ==> Linked(st.links, st.labels[k], st.labels[k - 1]))
    && (SameAsUp(img, k) ==> Linked(st.links, st.labels[k], st.labels[k - img.width]))
  }

  ghost predicate Inv(img: Image, supply: nat -> ProvinceID, st: Scan) {
    && |st.labels| <= |img.colors| && Descending(st.parents)
    && (forall l :: l in st.origin ==> Used(img, st, l))
    && (forall c: nat :: c >= st.used ==> supply(c) !in st.origin)
    && (forall e :: e in st.links ==> SameArea(img, st, e.0, e.1))
    && (forall l :: l in st.parents ==> (l, st.parents[l]) in st.links)
    && forall k: nat :: k < |st.labels| ==> Recorded(img, st, k) && (!IsBorder(img, k) ==> Traced(img, st, k))
  }

  lemma {:induction false} RootIsReached(img: Image, supply: nat -> ProvinceID, st: Scan, l: ProvinceID)
    requires Inv(img, supply, st) && l in st.origin
    ensures SameArea(img, st, l, RootOf(st.parents, l))
    ensures Linked(st.links, l, RootOf(st.parents, l))
    ensures RootOf(st.parents, l) !in st.parents && RootOf(st.parents, l) <= l
    decreases l
  {
    if l in st.parents {
      var e := (l, st.parents[l]);
      assert e in st.links && SameArea(img, st, e.0, e.1);
      RootIsReached(img, supply, st, st.parents[l]);
    } else {
      assert Used(img, st, l);
    }
  }

  // ----- Steps keep the invariant -----

  /** A longer scan: earlier pixels keep their labels, and origins and links only grow. */
  ghost predicate Grows(st: Scan, st': Scan) {
    && |st'.labels| == |st.labels| + 1 && st'.labels[..|st.labels|] == st.labels
    && st.links <= st'.links
    && forall l :: l in st.origin ==> l in st'.origin && st'.origin[l] == st.origin[l]
  }

  lemma UsedStays(img: Image, st: Scan, st': Scan, l: ProvinceID)
    requires Grows(st, st') && Used(img, st, l) && |st'.labels| <= |img.colors|
    ensures Used(img, st', l)
  {
    assert st'.labels[..|st.labels|][st.origin[l]] == st'.labels[st.origin[l]];
  }

  lemma LinkedStays(st: Scan, st': Scan, a: ProvinceID, b: ProvinceID)
    requires Grows(st, st') && Linked(st.links, a, b)
    ensures Linked(st'.links, a, b)
  {
    forall t | LinkClosed(st'.links, t) ensures a in t <==> b in t {
      assert LinkClosed(st.links, t);
    }
  }

  lemma PixelStays(img: Image, st: Scan, st': Scan, k: nat)
    requires Grows(st, st') && k < |st.labels| && |st'.labels| <= |img.colors| && Recorded(img, st, k)
    ensures Recorded(img, st', k)
    ensures Traced(img, st, k) ==> Traced(img, st', k)
  {
    assert st'.labels[k] == st'.labels[..|st.labels|][k] == st.labels[k];
    if SameAsLeft(img, k) {
      assert st'.labels[k - 1] == st'.labels[..|st.labels|][k - 1] == st.labels[k - 1];
      LinkedStays(st, st', st.labels[k], st.labels[k - 1]);
    }
    if SameAsUp(img, k) {
      assert st'.labels[k - img.width] == st'.labels[..|st.labels|][k - img.width] == st.labels[k - img.width];
      LinkedStays(st, st', st.labels[k], st.labels[k - img.width]);
    }
    if Traced(img, st, k) { UsedStays(img, st, st', st.labels[k]); }
  }

  lemma NeighboursAreConnected(img: Image, i: nat)
    requires i < |img.colors|
    ensures SameAsLeft(img, i) ==> Connected(img, i, i - 1)
    ensures SameAsUp(img, i) ==> Connected(img, i, i - img.width)
  {
  }

  lemma NeighboursAreColored(img: Image, i: nat)
    requires i < |img.colors|
    ensures SameAsLeft(img, i) ==> !IsBorder(img, i - 1)
    ensures SameAsUp(img, i) ==> !IsBorder(img, i - img.width)
  {
  }

  /** The invariant passes to a longer scan if it holds of what is new. */
  lemma GrowthKeepsInv(img: Image, supply: nat -> ProvinceID, st: Scan, st': Scan)
    requires Inv(img, supply, st) && Grows(st, st') && |st'.labels| <= |img.colors| && Descending(st'.parents)
    requires forall l :: l in st'.origin && l !in st.origin ==> Used(img, st', l)
    requires forall c: nat :: c >= st'.used ==> supply(c) !in st'.origin
    requires forall e :: e in st'.links && e !in st.links ==> SameArea(img, st', e.0, e.1)
    requires forall l :: l in st'.parents ==> (l, st'.parents[l]) in st'.links
    requires Recorded(img, st', |st.labels|) && (!IsBorder(img, |st.labels|) ==> Traced(img, st', |st.labels|))
    ensures Inv(img, supply, st')
  {
    forall l | l in st.origin ensures Used(img, st', l) { UsedStays(img, st, st', l); }
    forall e | e in st.links ensures SameArea(img, st', e.0, e.1) {
      assert SameArea(img, st, e.0, e.1);
      SameAreaStays(img, st, st', e.0, e.1);
    }
    forall k: nat | k < |st.labels| ensures Recorded(img, st', k) && (!IsBorder(img, k) ==> Traced(img, st', k)) {
      PixelStays(img, st, st', k);
    }
  }

  lemma SameAreaStays(img: Image, st: Scan, st': Scan, a: ProvinceID, b: ProvinceID)
    requires Grows(st, st') && SameArea(img, st, a, b) && |st'.labels| <= |img.colors|
    ensures SameArea(img, st', a, b)
  {
    UsedStays(img, st, st', a);
    UsedStays(img, st, st', b);
  }

  /** The two labels that a pixel meets stand for one area: its own. */
  lemma MetLabelsShareArea(img: Image, supply: nat -> ProvinceID, st: Scan, a: ProvinceID, b: ProvinceID)
    requires Inv(img, supply, st) && |st.labels| < |img.colors|
    requires SameAsLeft(img, |st.labels|) && SameAsUp(img, |st.labels|)
    requires (a, b) == Sorted(st.labels[|st.labels| - 1], st.labels[|st.labels| - img.width])
    ensures SameArea(img, st, a, b) && Connected(img, |st.labels|, st.origin[a])
  {
    NeighboursAreConnected(img, |st.labels|);
    NeighboursAreColored(img, |st.labels|);
    assert Traced(img, st, |st.labels| - 1) && Traced(img, st, |st.labels| - img.width);
  }

  /** A pixel between two labels: they are linked, and the pixel gets the root of the smaller one. */
  lemma MeetingKeepsInv(img: Image, supply: nat -> ProvinceID, st: Scan)
    requires Inv(img, supply, st) && |st.labels| < |img.colors|
    requires SameAsLeft(img, |st.labels|) && SameAsUp(img, |st.labels|)
    requires st.labels[|st.labels| - 1] != st.labels[|st.labels| - img.width]
    ensures Inv(img, supply, Step(img, supply, st))
  {
    var i, st' := |st.labels|, Step(img, supply, st);
    var (smaller, larger) := Sorted(st.labels[i - 1], st.labels[i - img.width]);
    MetLabelsShareArea(img, supply, st, smaller, larger);
    RootIsReached(img, supply, st, smaller);
    SameAreaStays(img, st, st', smaller, larger);
    SameAreaStays(img, st, st', smaller, RootOf(st.parents, smaller));
    LinkedStays(st, st', smaller, RootOf(st.parents, smaller));
    MeetingIsRecorded(img, st, st', smaller, larger, RootOf(st.parents, smaller));
    GrowthKeepsInv(img, supply, st, st');
  }

  lemma MeetingIsRecorded(
    img: Image, st: Scan, st': Scan, smaller: ProvinceID, larger: ProvinceID, root: ProvinceID)
    requires |st.labels| < |img.colors| && SameAsLeft(img, |st.labels|) && SameAsUp(img, |st.labels|)
    requires (smaller, larger) == Sorted(st.labels[|st.labels| - 1], st.labels[|st.labels| - img.width])
    requires st'.labels == st.labels + [root] && (larger, smaller) in st'.links && Linked(st'.links, smaller, root)
    requires Used(img, st', root) && Connected(img, |st.labels|, st'.origin[root])
    ensures Recorded(img, st', |st.labels|) && Traced(img, st', |st.labels|)
  {
    var e := (larger, smaller);
    assert e in st'.links;
    assert Linked(st'.links, larger, smaller);
  }

  /** A pixel that takes a neighbour's label. */
  lemma CopyKeepsInv(img: Image, supply: nat -> ProvinceID, st: Scan, j: nat)
    requires Inv(img, supply, st) && |st.labels| < |img.colors|
    requires (SameAsLeft(img, |st.labels|) && j == |st.labels| - 1)
          || (SameAsUp(img, |st.labels|) && j == |st.labels| - img.width)
    requires SameAsLeft(img, |st.labels|) ==> st.labels[|st.labels| - 1] == st.labels[j]
    requires SameAsUp(img, |st.labels|) ==> st.labels[|st.labels| - img.width] == st.labels[j]
    ensures Inv(img, supply, st.(labels := st.labels + [st.labels[j]]))
  {
    var i, st' := |st.labels|, st.(labels := st.labels + [st.labels[j]]);
    NeighboursAreConnected(img, i);
    NeighboursAreColored(img, i);
    assert Traced(img, st, j);
    assert Grows(st, st');
    UsedStays(img, st, st', st.labels[j]);
    assert Recorded(img, st', i) && Traced(img, st', i);
    GrowthKeepsInv(img, supply, st, st');
  }

  /** A pixel without neighbours of its colour before it gets a new label. */
  lemma NewLabelKeepsInv(img: Image, supply: nat -> ProvinceID, st: Scan)
    requires AllDistinct(supply) && Inv(img, supply, st) && |st.labels| < |img.colors| && !IsBorder(img, |st.labels|)
    requires !SameAsLeft(img, |st.labels|) && !SameAsUp(img, |st.labels|)
    ensures Inv(img, supply, Step(img, supply, st))
  {
    var i, st' := |st.labels|, Step(img, supply, st);
    assert supply(st.used) !in st.origin;
    assert Used(img, st', supply(st.used));
    assert Recorded(img, st', i) && Traced(img, st', i);
    GrowthKeepsInv(img, supply, st, st');
  }

  lemma BorderKeepsInv(img: Image, supply: nat -> ProvinceID, st: Scan)
    requires Inv(img, supply, st) && |st.labels| < |img.colors| && IsBorder(img, |st.labels|)
    ensures Inv(img, supply, Step(img, supply, st))
  {
    var i, st' := |st.labels|, Step(img, supply, st);
    assert Recorded(img, st', i);
    GrowthKeepsInv(img, supply, st, st');
  }

  lemma StepKeepsInv(img: Image, supply: nat -> ProvinceID, st: Scan)
    requires AllDistinct(supply) && Inv(img, supply, st) && |st.labels| < |img.colors|
    ensures Inv(img, supply, Step(img, supply, st))
  {
    var i := |st.labels|;
    if IsBorder(img, i) {
      BorderKeepsInv(img, supply, st);
    } else if SameAsLeft(img, i) && SameAsUp(img, i) && st.labels[i - 1] != st.labels[i - img.width] {
      MeetingKeepsInv(img, supply, st);
    } else if SameAsUp(img, i) {
      CopyKeepsInv(img, supply, st, i - img.width);
    } else if SameAsLeft(img, i) {
      CopyKeepsInv(img, supply, st, i - 1);
    } else {
      NewLabelKeepsInv(img, supply, st);
    }
  }

  lemma {:induction false} ScanKeepsInv(img: Image, supply: nat -> ProvinceID, i: nat)
    requires AllDistinct(supply) && i <= |img.colors|
    ensures Inv(img, supply, Scanned(img, supply, i))
  {
    if i > 0 {
      ScanKeepsInv(img, supply, i - 1);
      StepKeepsInv(img, supply, Scanned(img, supply, i - 1));
    }
  }

  // ----- Labels and areas -----

  /** The label of a coloured pixel after the second pass. */
  ghost function FinalLabel(st: Scan, k: nat): ProvinceID
    requires k < |st.labels| && Descending(st.parents)
  {
    RootOf(st.parents, st.labels[k])
  }

  /** The links that a later one with the same larger label replaced. */
  ghost function Overwritten(st: Scan): set<Link> {
    set e | e in st.links && !(e.0 in st.parents && st.parents[e.0] == e.1)
  }

  /** Both ends of the link still have one root. */
  ghost predicate Healed(st: Scan, e: Link)
    requires Descending(st.parents)
  {
    RootOf(st.parents, e.0) == RootOf(st.parents, e.1)
  }

  ghost predicate Colored(img: Image, k: int) {
    0 <= k < |img.colors| && !IsBorder(img, k)
  }

  /** Pixels with one label always lie in one area. */
  lemma SameLabelIsConnected(img: Image, supply: nat -> ProvinceID, i: nat, j: nat)
    requires AllDistinct(supply) && Colored(img, i) && Colored(img, j)
    ensures
      var st := Scanned(img, supply, |img.colors|);
      FinalLabel(st, i) == FinalLabel(st, j) ==> Connected(img, i, j)
  {
    var st := Scanned(img, supply, |img.colors|);
    ScanKeepsInv(img, supply, |img.colors|);
    assert Traced(img, st, i) && Traced(img, st, j);
    RootIsReached(img, supply, st, st.labels[i]);
    RootIsReached(img, supply, st, st.labels[j]);
  }

  /** Where all links are healed, linked labels have one root. */
  lemma LinkedLabelsHaveOneRoot(img: Image, supply: nat -> ProvinceID, st: Scan, a: ProvinceID, b: ProvinceID)
    requires Inv(img, supply, st) && a in st.origin && b in st.origin && Linked(st.links, a, b)
    requires forall e :: e in st.links ==> Healed(st, e)
    ensures RootOf(st.parents, a) == RootOf(st.parents, b)
  {
    var t := set l | l in st.origin && RootOf(st.parents, l) == RootOf(st.parents, a);
    forall e | e in st.links ensures e.0 in t <==> e.1 in t {
      assert SameArea(img, st, e.0, e.1) && Healed(st, e);
    }
    assert LinkClosed(st.links, t);
  }

  lemma ConnectedHaveOneLabel(img: Image, supply: nat -> ProvinceID, st: Scan, i: nat, j: nat)
    requires Inv(img, supply, st) && |st.labels| == |img.colors| && Colored(img, i) && Colored(img, j)
    requires Connected(img, i, j) && forall e :: e in st.links ==> Healed(st, e)
    ensures FinalLabel(st, i) == FinalLabel(st, j)
  {
    var s := set k: nat | k < |img.colors| && !IsBorder(img, k) && FinalLabel(st, k) == FinalLabel(st, i);
    forall k: nat | k < |img.colors|
      ensures SameAsLeft(img, k) ==> (k in s <==> k - 1 in s)
      ensures SameAsUp(img, k) ==> (k in s <==> k - img.width in s)
    {
      NeighboursAreColored(img, k);
      assert Recorded(img, st, k);
      if SameAsLeft(img, k) {
        assert Traced(img, st, k) && Traced(img, st, k - 1);
        LinkedLabelsHaveOneRoot(img, supply, st, st.labels[k], st.labels[k - 1]);
      }
      if SameAsUp(img, k) {
        assert Traced(img, st, k) && Traced(img, st, k - img.width);
        LinkedLabelsHaveOneRoot(img, supply, st, st.labels[k], st.labels[k - img.width]);
      }
    }
    assert ClosedUnderNeighbours(img, s);
  }

  /**
    The labels of the second pass are exactly the areas of the image if and only
    if each parent that was overwritten still has one root with its child.
   */
  lemma LabelsAreAreasIffHealed(img: Image, supply: nat -> ProvinceID)
    requires AllDistinct(supply)
    ensures
      var st := Scanned(img, supply, |img.colors|);
      (forall e :: e in Overwritten(st) ==> Healed(st, e)) <==>
      (forall i: nat, j: nat {:trigger Connected(img, i, j)} :: Colored(img, i) && Colored(img, j) ==>
         (FinalLabel(st, i) == FinalLabel(st, j) <==> Connected(img, i, j)))
  {
    var st := Scanned(img, supply, |img.colors|);
    ScanKeepsInv(img, supply, |img.colors|);
    if forall e :: e in Overwritten(st) ==> Healed(st, e) {
      forall e | e in st.links ensures Healed(st, e) {
        if e !in Overwritten(st) { assert RootOf(st.parents, e.0) == RootOf(st.parents, e.1); }
      }
      forall i: nat, j: nat | Colored(img, i) && Colored(img, j)
        ensures FinalLabel(st, i) == FinalLabel(st, j) <==> Connected(img, i, j)
      {
        SameLabelIsConnected(img, supply, i, j);
        if Connected(img, i, j) { ConnectedHaveOneLabel(img, supply, st, i, j); }
      }
    } else {
      var e :| e in Overwritten(st) && !Healed(st, e);
      assert SameArea(img, st, e.0, e.1);
      var i, j := st.origin[e.0], st.origin[e.1];
      assert Used(img, st, e.0) && Used(img, st, e.1);
      assert Connected(img, i, j) && Colored(img, i) && Colored(img, j);
      assert FinalLabel(st, i) != FinalLabel(st, j);
    }
  }

  // ----- An area with two labels -----

  /** Labels in the order 1, 3, 2, 4, 5, ... */
  function SwappedSupply(c: nat): ProvinceID {
    if c == 1 then 3 else if c == 2 then 2 else c + 1
  }

  const RED := Color(255, 0, 0)

  /** A staircase of five pixels that share sides. */
  const STAIRCASE := Image([BORDER_COLOR, BORDER_COLOR, RED] + [BORDER_COLOR, RED, RED] + [RED, RED, BORDER_COLOR], 3, 3)

  /** What the scan of the staircase has found, apart from links and origins. */
  ghost predicate Found(i: nat, labels: seq<ProvinceID>, parents: Parents, used: nat)
    requires i <= |STAIRCASE.colors|
  {
    var st := Scanned(STAIRCASE, SwappedSupply, i);
    st.labels == labels && st.parents == parents && st.used == used
  }

  lemma StaircaseColors()
    ensures |STAIRCASE.colors| == 9
    ensures forall i :: 0 <= i < 9 ==> STAIRCASE.colors[i] == if i in {0, 1, 3, 8} then BORDER_COLOR else RED
  {
  }

  lemma FirstRows()
    ensures Found(6, [1, 1, 1, 3, 3, 1], map[3 := 1], 2)
  {
    StaircaseColors();
    assert Found(0, [], map[], 0);
    assert Found(1, [1], map[], 0);
    assert Found(2, [1, 1], map[], 0);
    assert Found(3, [1, 1, 1], map[], 1);
    assert Found(4, [1, 1, 1, 3], map[], 1);
    assert Found(5, [1, 1, 1, 3, 3], map[], 2);
    var st := Scanned(STAIRCASE, SwappedSupply, 5);
    assert RootOf(st.parents, 1) == 1;
  }

  lemma LastRow()
    ensures Found(9, [1, 1, 1, 3, 3, 1, 2, 2, 4], map[3 := 2], 3)
  {
    StaircaseColors();
    FirstRows();
    assert Found(7, [1, 1, 1, 3, 3, 1, 2], map[3 := 1], 3);
    assert RootOf(Scanned(STAIRCASE, SwappedSupply, 7).parents, 2) == 2;
    assert Found(8, [1, 1, 1, 3, 3, 1, 2, 2], map[3 := 2], 3);
  }

  /**
    The upper and the lower end of the staircase lie in one area and get different
    labels: the second parent of label 3 has replaced the first.
   */
  lemma StaircaseGetsTwoLabels()
    ensures AllDistinct(SwappedSupply) && Colored(STAIRCASE, 2) && Colored(STAIRCASE, 6)
    ensures Connected(STAIRCASE, 2, 6)
    ensures
      var st := Scanned(STAIRCASE, SwappedSupply, 9);
      FinalLabel(st, 2) == 1 && FinalLabel(st, 6) == 2
  {
    StaircaseColors();
    LastRow();
    NeighboursAreConnected(STAIRCASE, 5);
    NeighboursAreConnected(STAIRCASE, 7);
    assert SameAsUp(STAIRCASE, 5) && SameAsLeft(STAIRCASE, 5) && SameAsUp(STAIRCASE, 7) && SameAsLeft(STAIRCASE, 7);
    assert Connected(STAIRCASE, 2, 5) && Connected(STAIRCASE, 5, 4) && Connected(STAIRCASE, 4, 7);
    assert Connected(STAIRCASE, 7, 6);
  }
}
