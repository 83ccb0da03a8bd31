/**
  When the labels of an image are its areas, told from the image: by the pixels at
  which labels start, and by whether such pixels can cut their area.
 */
module ShapeStarts {
  import opened Types
  import opened ShapeLabels

  // ----- Starts -----

  /** A coloured pixel without a left or upper neighbour of its colour. It gets a new label. */
  predicate IsStart(img: Image, k: nat)
    requires k < |img.colors|
  {
    !IsBorder(img, k) && !SameAsLeft(img, k) && !SameAsUp(img, k)
  }

  /** The number of starts before a pixel. */
  function Rank(img: Image, k: nat): (r: nat)
    requires k <= |img.colors|
    ensures r <= k
  {
    if k == 0 then 0 else Rank(img, k - 1) + if IsStart(img, k - 1) then 1 else 0
  }

  lemma {:induction false} RankGrows(img: Image, k: nat, l: nat)
    requires k < l <= |img.colors| && IsStart(img, k)
    ensures Rank(img, k) < Rank(img, l)
    decreases l
  {
    if k < l - 1 { RankGrows(img, k, l - 1); }
  }

  /** The label that a start gets. */
  function StartLabel(img: Image, supply: nat -> ProvinceID, k: nat): ProvinceID
    requires k < |img.colors|
  {
    supply(Rank(img, k))
  }

  lemma StartLabelsDiffer(img: Image, supply: nat -> ProvinceID, k: nat, l: nat)
    requires AllDistinct(supply) && k < |img.colors| && l < |img.colors| && IsStart(img, k) && IsStart(img, l)
    ensures StartLabel(img, supply, k) == StartLabel(img, supply, l) ==> k == l
  {
    if k < l { RankGrows(img, k, l); }
    if l < k { RankGrows(img, l, k); }
  }

  // ----- What a scan does to labels -----

  /** The label is at most the neighbour's, which has a parent if the label is less. */
  ghost predicate NotAbove(st: Scan, k: nat, n: nat)
    requires k < |st.labels| && n < |st.labels|
  {
    st.labels[k] <= st.labels[n] && (st.labels[k] < st.labels[n] ==> st.labels[n] in st.parents)
  }

  /** Labels do not rise from one neighbour to the next, and are copied where neighbours agree. */
  ghost predicate Lowered(img: Image, st: Scan, k: nat)
    requires k < |st.labels| <= |img.colors|
  {
    && (SameAsLeft(img, k) ==> NotAbove(st, k, k - 1))
    && (SameAsUp(img, k) ==> NotAbove(st, k, k - img.width))
    && (SameAsLeft(img, k) && (SameAsUp(img, k) ==> st.labels[k - img.width] == st.labels[k - 1]) ==>
          st.labels[k] == st.labels[k - 1])
    && (SameAsUp(img, k) && !SameAsLeft(img, k) ==> st.labels[k] == st.labels[k - img.width])
  }

  /** The start has its own label, which was first used there. */
  ghost predicate StartsRightly(img: Image, supply: nat -> ProvinceID, st: Scan, k: nat)
    requires k < |st.labels| <= |img.colors|
  {
    var l := StartLabel(img, supply, k);
    IsStart(img, k) ==> st.labels[k] == l && l in st.origin && st.origin[l] == k
  }

  ghost predicate StartInv(img: Image, supply: nat -> ProvinceID, st: Scan) {
    && |st.labels| <= |img.colors| && st.used == Rank(img, |st.labels|)
    && (forall l :: l in st.origin ==>
          st.origin[l] < |img.colors| && IsStart(img, st.origin[l]) && StartLabel(img, supply, st.origin[l]) == l)
    && forall k: nat :: k < |st.labels| ==> Lowered(img, st, k) && StartsRightly(img, supply, st, k)
  }

  lemma PixelStaysLowered(img: Image, supply: nat -> ProvinceID, st: Scan, st': Scan, k: nat)
    requires Grows(st, st') && st.parents.Keys <= st'.parents.Keys && |st'.labels| <= |img.colors|
    requires k < |st.labels| && Lowered(img, st, k) && StartsRightly(img, supply, st, k)
    ensures Lowered(img, st', k) && StartsRightly(img, supply, st', k)
  {
    assert forall n :: 0 <= n < |st.labels| ==> st'.labels[n] == st'.labels[..|st.labels|][n] == st.labels[n];
  }

  lemma StepGrows(img: Image, supply: nat -> ProvinceID, st: Scan)
    requires Inv(img, supply, st) && |st.labels| < |img.colors|
    ensures
      var st' := Step(img, supply, st);
      Grows(st, st') && st.parents.Keys <= st'.parents.Keys
  {
    assert supply(st.used) !in st.origin;
  }

  /** Where two labels meet, the pixel gets one that is no larger than either, and whatever is larger has a parent. */
  lemma MeetingLowers(img: Image, supply: nat -> ProvinceID, st: Scan)
    requires Inv(img, supply, st) && |st.labels| < |img.colors|
    requires SameAsLeft(img, |st.labels|) && SameAsUp(img, |st.labels|)
    requires st.labels[|st.labels| - 1] != st.labels[|st.labels| - img.width]
    ensures Lowered(img, Step(img, supply, st), |st.labels|)
  {
    var i, st' := |st.labels|, Step(img, supply, st);
    var (smaller, larger) := Sorted(st.labels[i - 1], st.labels[i - img.width]);
    NeighboursAreColored(img, i);
    assert Traced(img, st, i - 1) && Traced(img, st, i - img.width);
    RootIsReached(img, supply, st, smaller);
    assert st'.labels[i] == RootOf(st.parents, smaller) && st'.parents == st.parents[larger := smaller];
    assert st'.labels[i - 1] == st.labels[i - 1] && st'.labels[i - img.width] == st.labels[i - img.width];
  }

  lemma StepLowers(img: Image, supply: nat -> ProvinceID, st: Scan)
    requires Inv(img, supply, st) && |st.labels| < |img.colors|
    ensures Lowered(img, Step(img, supply, st), |st.labels|)
  {
    var i := |st.labels|;
    if SameAsLeft(img, i) && SameAsUp(img, i) && st.labels[i - 1] != st.labels[i - img.width] {
      MeetingLowers(img, supply, st);
    }
  }

  /** Labels start at starts, each with its own one. */
  lemma StepStartsRightly(img: Image, supply: nat -> ProvinceID, st: Scan)
    requires StartInv(img, supply, st) && Descending(st.parents) && |st.labels| < |img.colors|
    ensures
      var st' := Step(img, supply, st);
      && st'.used == Rank(img, |st'.labels|) && StartsRightly(img, supply, st', |st.labels|)
      && forall l :: l in st'.origin ==>
           st'.origin[l] < |img.colors| && IsStart(img, st'.origin[l]) && StartLabel(img, supply, st'.origin[l]) == l
  {
  }

  lemma StepKeepsStartInv(img: Image, supply: nat -> ProvinceID, st: Scan)
    requires Inv(img, supply, st) && StartInv(img, supply, st) && |st.labels| < |img.colors|
    ensures StartInv(img, supply, Step(img, supply, st))
  {
    var st' := Step(img, supply, st);
    StepGrows(img, supply, st);
    StepLowers(img, supply, st);
    StepStartsRightly(img, supply, st);
    OldPixelsStay(img, supply, st, st');
  }

  lemma OldPixelsStay(img: Image, supply: nat -> ProvinceID, st: Scan, st': Scan)
    requires StartInv(img, supply, st) && Grows(st, st') && st.parents.Keys <= st'.parents.Keys
    requires |st'.labels| <= |img.colors|
    ensures forall k: nat :: k < |st.labels| ==> Lowered(img, st', k) && StartsRightly(img, supply, st', k)
  {
    forall k: nat | k < |st.labels| ensures Lowered(img, st', k) && StartsRightly(img, supply, st', k) {
      PixelStaysLowered(img, supply, st, st', k);
    }
  }

  lemma {:induction false} ScanKeepsStartInv(img: Image, supply: nat -> ProvinceID, i: nat)
    requires AllDistinct(supply) && i <= |img.colors|
    ensures Inv(img, supply, Scanned(img, supply, i)) && StartInv(img, supply, Scanned(img, supply, i))
  {
    ScanKeepsInv(img, supply, i);
    if i > 0 {
      ScanKeepsStartInv(img, supply, i - 1);
      StepKeepsStartInv(img, supply, Scanned(img, supply, i - 1));
    }
  }

  // ----- Cutting an area -----

  /** All ways to the pixel, from the left and from above, come from starts in `g`. */
  predicate Fed(img: Image, g: set<nat>, k: nat)
    requires k < |img.colors|
  {
    if IsBorder(img, k) then false
    else if IsStart(img, k) then k in g
    else (SameAsLeft(img, k) ==> Fed(img, g, k - 1)) && (SameAsUp(img, k) ==> Fed(img, g, k - img.width))
  }

  /** A coloured pixel that other starts feed, too. */
  ghost predicate Rest(img: Image, g: set<nat>, k: nat) {
    k < |img.colors| && !IsBorder(img, k) && !Fed(img, g, k)
  }

  ghost predicate ClosedOutside(img: Image, g: set<nat>, s: set<nat>) {
    forall i: nat {:trigger Rest(img, g, i)} :: Rest(img, g, i) ==>
      && (SameAsLeft(img, i) && Rest(img, g, i - 1) ==> (i in s <==> i - 1 in s))
      && (SameAsUp(img, i) && Rest(img, g, i - img.width) ==> (i in s <==> i - img.width in s))
  }

  /** The pixels lie in one area even without the pixels that `g` alone feeds. */
  ghost predicate ConnectedOutside(img: Image, g: set<nat>, i: nat, j: nat) {
    forall s {:trigger ClosedOutside(img, g, s)} :: ClosedOutside(img, g, s) ==> (i in s <==> j in s)
  }

  ghost predicate Separates(img: Image, g: set<nat>, i: nat, j: nat) {
    Rest(img, g, i) && Rest(img, g, j) && Connected(img, i, j) && !ConnectedOutside(img, g, i, j)
  }

  /** Without the pixels that `g` alone feeds, some area falls apart. */
  ghost predicate Cuts(img: Image, g: set<nat>) {
    exists i: nat, j: nat :: Separates(img, g, i, j)
  }

  ghost predicate AllStarts(img: Image, g: set<nat>) {
    forall q :: q in g ==> q < |img.colors| && IsStart(img, q)
  }

  // ----- Enough for right labels -----

  /** Final labels are exactly the areas. */
  ghost predicate LabelsAreAreas(img: Image, supply: nat -> ProvinceID) {
    forall i: nat, j: nat {:trigger Connected(img, i, j)} :: Colored(img, i) && Colored(img, j) ==>
      (FinalLabel(Scanned(img, supply, |img.colors|), i) == FinalLabel(Scanned(img, supply, |img.colors|), j) <==>
       Connected(img, i, j))
  }

  /** Two starts of one area. */
  ghost predicate Companions(img: Image, k: nat, q: nat) {
    k < |img.colors| && q < |img.colors| && IsStart(img, k) && IsStart(img, q) && Connected(img, k, q)
  }

  /** The starts in the area of `k` that have larger labels. */
  ghost function Larger(img: Image, supply: nat -> ProvinceID, k: nat): (g: set<nat>)
    requires k < |img.colors|
    ensures AllStarts(img, g)
  {
    set q: nat | q < |img.colors| && Companions(img, k, q) && StartLabel(img, supply, k) < StartLabel(img, supply, q)
  }

  /** What larger labels do not reach alone has a label of at most that of `k`. */
  lemma {:induction false} UnfedLabels(img: Image, supply: nat -> ProvinceID, st: Scan, k: nat, p: nat)
    requires StartInv(img, supply, st) && |st.labels| == |img.colors|
    requires k < |img.colors| && IsStart(img, k) && Connected(img, k, p)
    requires Rest(img, Larger(img, supply, k), p)
    ensures st.labels[p] <= StartLabel(img, supply, k)
    decreases p
  {
    NeighboursAreConnected(img, p);
    NeighboursAreColored(img, p);
    assert Lowered(img, st, p) && StartsRightly(img, supply, st, p);
    if IsStart(img, p) {
      assert Companions(img, k, p);
    } else if SameAsLeft(img, p) && !Fed(img, Larger(img, supply, k), p - 1) {
      UnfedLabels(img, supply, st, k, p - 1);
    } else {
      UnfedLabels(img, supply, st, k, p - img.width);
    }
  }

  /** The pixels that larger labels do not reach alone and that have the label of `k`. */
  ghost function Sharing(img: Image, supply: nat -> ProvinceID, st: Scan, k: nat): set<nat>
    requires |st.labels| == |img.colors| && k < |img.colors|
  {
    set p: nat | p < |img.colors| && Rest(img, Larger(img, supply, k), p) && Connected(img, k, p)
                 && st.labels[p] == StartLabel(img, supply, k)
  }

  lemma SharingIsClosed(img: Image, supply: nat -> ProvinceID, st: Scan, k: nat)
    requires StartInv(img, supply, st) && |st.labels| == |img.colors| && k < |img.colors| && IsStart(img, k)
    requires StartLabel(img, supply, k) !in st.parents
    ensures ClosedOutside(img, Larger(img, supply, k), Sharing(img, supply, st, k))
  {
    var g, s := Larger(img, supply, k), Sharing(img, supply, st, k);
    forall i: nat | Rest(img, g, i)
      ensures SameAsLeft(img, i) && Rest(img, g, i - 1) ==> (i in s <==> i - 1 in s)
      ensures SameAsUp(img, i) && Rest(img, g, i - img.width) ==> (i in s <==> i - img.width in s)
    {
      if SameAsLeft(img, i) && Rest(img, g, i - 1) { NeighbourSharesLabel(img, supply, st, k, i, i - 1); }
      if SameAsUp(img, i) && Rest(img, g, i - img.width) { NeighbourSharesLabel(img, supply, st, k, i, i - img.width); }
    }
  }

  /** A start that reaches a smaller one outside the larger ones gets a parent. */
  lemma ReachingStartGetsParent(img: Image, supply: nat -> ProvinceID, st: Scan, k: nat, q: nat)
    requires StartInv(img, supply, st) && |st.labels| == |img.colors| && Companions(img, k, q)
    requires StartLabel(img, supply, q) < StartLabel(img, supply, k)
    requires ConnectedOutside(img, Larger(img, supply, k), k, q)
    ensures StartLabel(img, supply, k) in st.parents
  {
    assert StartsRightly(img, supply, st, k) && StartsRightly(img, supply, st, q);
    if StartLabel(img, supply, k) !in st.parents {
      var s := Sharing(img, supply, st, k);
      assert k in s && q !in s;
      SharingIsClosed(img, supply, st, k);
    }
  }

  /** Where the label of `k` has no parent, neighbours that larger labels do not reach alone both have it or both not. */
  lemma NeighbourSharesLabel(img: Image, supply: nat -> ProvinceID, st: Scan, k: nat, i: nat, n: nat)
    requires StartInv(img, supply, st) && |st.labels| == |img.colors| && k < |img.colors| && IsStart(img, k)
    requires StartLabel(img, supply, k) !in st.parents
    requires Rest(img, Larger(img, supply, k), i) && Rest(img, Larger(img, supply, k), n)
    requires (SameAsLeft(img, i) && n == i - 1) || (SameAsUp(img, i) && n == i - img.width)
    ensures Connected(img, k, i) <==> Connected(img, k, n)
    ensures Connected(img, k, i) ==>
      (st.labels[i] == StartLabel(img, supply, k) <==> st.labels[n] == StartLabel(img, supply, k))
  {
    NeighboursAreConnected(img, i);
    assert Connected(img, i, n);
    assert Lowered(img, st, i);
    if Connected(img, k, i) {
      UnfedLabels(img, supply, st, k, i);
      UnfedLabels(img, supply, st, k, n);
    }
  }

  /** Every start with a smaller companion reaches one outside its larger companions. */
  ghost predicate ReachesSmaller(img: Image, supply: nat -> ProvinceID, k: nat, q: nat)
    requires k < |img.colors|
  {
    ConnectedOutside(img, Larger(img, supply, k), k, q)
  }

  ghost predicate StartsReach(img: Image, supply: nat -> ProvinceID) {
    forall k: nat, q: nat {:trigger Companions(img, k, q)} ::
      Companions(img, k, q) && StartLabel(img, supply, q) < StartLabel(img, supply, k) ==>
      ReachesSmaller(img, supply, k, q)
  }

  lemma ReachingStartsGiveAreas(img: Image, supply: nat -> ProvinceID)
    requires AllDistinct(supply) && StartsReach(img, supply)
    ensures LabelsAreAreas(img, supply)
  {
    var st := Scanned(img, supply, |img.colors|);
    ScanKeepsStartInv(img, supply, |img.colors|);
    forall i: nat, j: nat | Colored(img, i) && Colored(img, j)
      ensures FinalLabel(st, i) == FinalLabel(st, j) <==> Connected(img, i, j)
    {
      SameLabelIsConnected(img, supply, i, j);
      if Connected(img, i, j) {
        RootIsAStart(img, supply, st, i);
        RootIsAStart(img, supply, st, j);
        if FinalLabel(st, i) < FinalLabel(st, j) {
          SmallerRootExcludes(img, supply, st, FinalLabel(st, j), FinalLabel(st, i));
        }
        if FinalLabel(st, j) < FinalLabel(st, i) {
          SmallerRootExcludes(img, supply, st, FinalLabel(st, i), FinalLabel(st, j));
        }
      }
    }
  }

  /** The final label of a pixel belongs to a start of its area and has no parent. */
  lemma RootIsAStart(img: Image, supply: nat -> ProvinceID, st: Scan, i: nat)
    requires Inv(img, supply, st) && StartInv(img, supply, st) && |st.labels| == |img.colors| && Colored(img, i)
    ensures
      var r := FinalLabel(st, i);
      && r !in st.parents && r in st.origin && st.origin[r] < |img.colors|
      && IsStart(img, st.origin[r]) && StartLabel(img, supply, st.origin[r]) == r && Connected(img, i, st.origin[r])
  {
    assert Traced(img, st, i);
    RootIsReached(img, supply, st, st.labels[i]);
  }

  lemma SmallerRootExcludes(img: Image, supply: nat -> ProvinceID, st: Scan, r: ProvinceID, smaller: ProvinceID)
    requires StartInv(img, supply, st) && |st.labels| == |img.colors| && StartsReach(img, supply)
    requires r in st.origin && smaller in st.origin && smaller < r
    requires Connected(img, st.origin[r], st.origin[smaller])
    ensures r in st.parents
  {
    var k, q := st.origin[r], st.origin[smaller];
    assert Companions(img, k, q);
    assert ReachesSmaller(img, supply, k, q);
    ReachingStartGetsParent(img, supply, st, k, q);
  }

  /**
    An image in which no set of starts cuts an area is labelled rightly, whatever
    the order of the new labels.
   */
  lemma UncutImagesAreLabelledRightly(img: Image, supply: nat -> ProvinceID)
    requires NoSetOfStartsCuts(img) && AllDistinct(supply)
    ensures LabelsAreAreas(img, supply)
  {
    forall k: nat, q: nat
      | Companions(img, k, q) && StartLabel(img, supply, q) < StartLabel(img, supply, k)
      ensures ReachesSmaller(img, supply, k, q)
    {
      var g := Larger(img, supply, k);
      assert Rest(img, g, k) && Rest(img, g, q);
      assert !Cuts(img, g);
      assert !Separates(img, g, k, q);
    }
    ReachingStartsGiveAreas(img, supply);
  }

  // ----- A start that cuts its area -----

  /** No other start of the area has a larger label. */
  ghost predicate IsLargest(img: Image, supply: nat -> ProvinceID, k: nat) {
    && k < |img.colors| && IsStart(img, k)
    && forall q: nat :: Companions(img, k, q) ==> StartLabel(img, supply, q) <= StartLabel(img, supply, k)
  }

  /** A scan, and a start whose label is the largest of its area. */
  ghost predicate Setting(img: Image, supply: nat -> ProvinceID, st: Scan, k: nat) {
    && AllDistinct(supply) && Inv(img, supply, st) && StartInv(img, supply, st) && IsLargest(img, supply, k)
  }

  /** Only the area of the start has its label, and no larger one. */
  lemma LargestLabelBounds(img: Image, supply: nat -> ProvinceID, st: Scan, k: nat, p: nat)
    requires Setting(img, supply, st, k) && p < |st.labels| && !IsBorder(img, p)
    ensures Connected(img, k, p) ==> st.labels[p] <= StartLabel(img, supply, k)
    ensures !Connected(img, k, p) ==> st.labels[p] != StartLabel(img, supply, k)
  {
    assert Traced(img, st, p);
    var o := st.origin[st.labels[p]];
    assert Connected(img, k, p) ==> Companions(img, k, o);
    if st.labels[p] == StartLabel(img, supply, k) { StartLabelsDiffer(img, supply, k, o); }
  }

  /** What the largest label `g` means at a coloured pixel. */
  ghost predicate TopAt(img: Image, st: Scan, k: nat, g: ProvinceID, p: nat)
    requires p < |st.labels| <= |img.colors|
  {
    !IsBorder(img, p) ==>
      && Lowered(img, st, p)
      && (IsStart(img, p) ==> (st.labels[p] == g <==> p == k))
      && (Connected(img, k, p) ==> st.labels[p] <= g)
      && (!Connected(img, k, p) ==> st.labels[p] != g)
  }

  ghost predicate Tops(img: Image, st: Scan, k: nat, g: ProvinceID) {
    |st.labels| <= |img.colors| && forall p: nat :: p < |st.labels| ==> TopAt(img, st, k, g, p)
  }

  lemma LargestTops(img: Image, supply: nat -> ProvinceID, st: Scan, k: nat)
    requires Setting(img, supply, st, k)
    ensures Tops(img, st, k, StartLabel(img, supply, k))
  {
    forall p: nat | p < |st.labels| ensures TopAt(img, st, k, StartLabel(img, supply, k), p) {
      assert Lowered(img, st, p) && StartsRightly(img, supply, st, p);
      if !IsBorder(img, p) {
        LargestLabelBounds(img, supply, st, k, p);
        if IsStart(img, p) { StartLabelsDiffer(img, supply, k, p); }
      }
    }
  }

  /** The neighbours of a pixel of its colour share its area; with its label `g`, they have it, too. */
  lemma NeighbourOfTop(img: Image, st: Scan, k: nat, g: ProvinceID, p: nat, n: nat)
    requires p < |st.labels| <= |img.colors| && !IsBorder(img, p)
    requires (SameAsLeft(img, p) && n == p - 1) || (SameAsUp(img, p) && n == p - img.width)
    requires TopAt(img, st, k, g, p) && TopAt(img, st, k, g, n)
    ensures !IsBorder(img, n) && (st.labels[p] == g ==> st.labels[n] == g)
  {
    NeighboursAreColored(img, p);
    NeighboursAreConnected(img, p);
    assert Connected(img, p, n);
    assert Connected(img, k, p) ==> Connected(img, k, n);
  }

  /** The pixels with the largest label are those that its start feeds alone. */
  lemma {:induction false} FedIffLargest(img: Image, st: Scan, k: nat, g: ProvinceID, p: nat)
    requires Tops(img, st, k, g) && p < |st.labels| && !IsBorder(img, p)
    ensures Fed(img, {k}, p) <==> st.labels[p] == g
    decreases p
  {
    assert TopAt(img, st, k, g, p);
    if !IsStart(img, p) {
      if SameAsLeft(img, p) {
        assert TopAt(img, st, k, g, p - 1);
        NeighbourOfTop(img, st, k, g, p, p - 1);
        FedIffLargest(img, st, k, g, p - 1);
      }
      if SameAsUp(img, p) {
        assert TopAt(img, st, k, g, p - img.width);
        NeighbourOfTop(img, st, k, g, p, p - img.width);
        FedIffLargest(img, st, k, g, p - img.width);
      }
    }
  }

  /** The label was first used on the same side as the pixel. */
  ghost predicate PixelSided(img: Image, st: Scan, k: nat, s: set<nat>, p: nat)
    requires p < |st.labels|
  {
    Rest(img, {k}, p) ==> st.labels[p] in st.origin && (p in s <==> st.origin[st.labels[p]] in s)
  }

  /** The parent is not the label `g`, and was first used on the same side. */
  ghost predicate ParentSided(st: Scan, g: ProvinceID, s: set<nat>, l: ProvinceID)
    requires l in st.parents
  {
    && st.parents[l] != g && l in st.origin && st.parents[l] in st.origin
    && (st.origin[l] in s <==> st.origin[st.parents[l]] in s)
  }

  ghost predicate Sided(img: Image, st: Scan, k: nat, g: ProvinceID, s: set<nat>) {
    && (forall p: nat :: p < |st.labels| ==> PixelSided(img, st, k, s, p))
    && forall l :: l in st.parents && l != g ==> ParentSided(st, g, s, l)
  }

  lemma {:induction false} RootSided(img: Image, st: Scan, k: nat, g: ProvinceID, s: set<nat>, l: ProvinceID)
    requires Descending(st.parents) && Sided(img, st, k, g, s) && l in st.origin && l != g
    ensures
      var r := RootOf(st.parents, l);
      r != g && r in st.origin && (st.origin[l] in s <==> st.origin[r] in s)
    decreases l
  {
    if l in st.parents {
      assert ParentSided(st, g, s, l);
      RootSided(img, st, k, g, s, st.parents[l]);
    }
  }

  /** What is known of a neighbour before the new pixel. */
  ghost predicate KnownSide(img: Image, st: Scan, k: nat, g: ProvinceID, s: set<nat>, n: nat) {
    && n < |st.labels| <= |img.colors| && !IsBorder(img, n)
    && PixelSided(img, st, k, s, n) && (Fed(img, {k}, n) <==> st.labels[n] == g)
  }

  lemma SideIsKnown(img: Image, st: Scan, k: nat, g: ProvinceID, s: set<nat>, n: nat)
    requires Tops(img, st, k, g) && Sided(img, st, k, g, s) && n < |st.labels| && !IsBorder(img, n)
    ensures KnownSide(img, st, k, g, s, n)
  {
    FedIffLargest(img, st, k, g, n);
  }

  /** A pixel with a neighbour of another label is not fed by the largest start alone, and is on the neighbour's side. */
  lemma NeighbourSide(img: Image, st: Scan, k: nat, g: ProvinceID, s: set<nat>, i: nat, n: nat)
    requires i < |img.colors| && ClosedOutside(img, {k}, s) && KnownSide(img, st, k, g, s, n)
    requires (SameAsLeft(img, i) && n == i - 1) || (SameAsUp(img, i) && n == i - img.width)
    requires st.labels[n] != g
    ensures st.labels[n] in st.origin && Rest(img, {k}, i) && (i in s <==> st.origin[st.labels[n]] in s)
  {
    assert Rest(img, {k}, i) && Rest(img, {k}, n);
  }

  /** Neighbours share their area, where no label is larger than the largest. */
  lemma MeetingLabels(img: Image, st: Scan, k: nat, g: ProvinceID, i: nat)
    requires Tops(img, st, k, g) && i == |st.labels| < |img.colors| && SameAsLeft(img, i) && SameAsUp(img, i)
    ensures !IsBorder(img, i - 1) && !IsBorder(img, i - img.width)
    ensures st.labels[i - 1] == g ==> st.labels[i - img.width] <= g
    ensures st.labels[i - img.width] == g ==> st.labels[i - 1] <= g
  {
    NeighboursAreColored(img, i);
    NeighboursAreConnected(img, i);
    assert TopAt(img, st, k, g, i - 1) && TopAt(img, st, k, g, i - img.width);
    assert Connected(img, i - 1, i - img.width);
    assert Connected(img, k, i - 1) <==> Connected(img, k, i - img.width);
  }

  /** Where two labels meet, both are on the side of the pixel, unless the larger one is the largest. */
  lemma MeetingStaysSided(img: Image, st: Scan, k: nat, g: ProvinceID, s: set<nat>, i: nat)
    requires Tops(img, st, k, g) && Sided(img, st, k, g, s) && ClosedOutside(img, {k}, s)
    requires i == |st.labels| < |img.colors| && SameAsLeft(img, i) && SameAsUp(img, i)
    requires st.labels[i - 1] != st.labels[i - img.width]
    ensures
      var (smaller, larger) := Sorted(st.labels[i - 1], st.labels[i - img.width]);
      && smaller != g && smaller in st.origin && (i in s <==> st.origin[smaller] in s)
      && (larger != g ==> larger in st.origin && (i in s <==> st.origin[larger] in s))
  {
    MeetingLabels(img, st, k, g, i);
    SideIsKnown(img, st, k, g, s, i - 1);
    SideIsKnown(img, st, k, g, s, i - img.width);
    if st.labels[i - 1] != g { NeighbourSide(img, st, k, g, s, i, i - 1); }
    if st.labels[i - img.width] != g { NeighbourSide(img, st, k, g, s, i, i - img.width); }
  }

  lemma OldPixelSided(img: Image, st: Scan, st': Scan, k: nat, s: set<nat>, p: nat)
    requires Grows(st, st') && p < |st.labels| && PixelSided(img, st, k, s, p)
    ensures PixelSided(img, st', k, s, p)
  {
    assert st'.labels[p] == st'.labels[..|st.labels|][p] == st.labels[p];
  }

  /** The new pixel, whatever its case, keeps to its side. */
  lemma NewPixelSided(img: Image, supply: nat -> ProvinceID, st: Scan, k: nat, g: ProvinceID, s: set<nat>)
    requires |st.labels| < |img.colors| && Descending(st.parents)
    requires Tops(img, st, k, g) && Sided(img, st, k, g, s) && ClosedOutside(img, {k}, s)
    requires Grows(st, Step(img, supply, st)) && Tops(img, Step(img, supply, st), k, g)
    ensures PixelSided(img, Step(img, supply, st), k, s, |st.labels|)
  {
    var i, st' := |st.labels|, Step(img, supply, st);
    if Rest(img, {k}, i) {
      FedIffLargest(img, st', k, g, i);
      NeighboursAreColored(img, i);
      if SameAsLeft(img, i) && SameAsUp(img, i) && st.labels[i - 1] != st.labels[i - img.width] {
        MeetingStaysSided(img, st, k, g, s, i);
        RootSided(img, st, k, g, s, Sorted(st.labels[i - 1], st.labels[i - img.width]).0);
      } else if SameAsUp(img, i) {
        SideIsKnown(img, st, k, g, s, i - img.width);
        NeighbourSide(img, st, k, g, s, i, i - img.width);
      } else if SameAsLeft(img, i) {
        SideIsKnown(img, st, k, g, s, i - 1);
        NeighbourSide(img, st, k, g, s, i, i - 1);
      }
    }
  }

  /** Of the parents, at most that of the larger label is new. */
  lemma NewParentsSided(img: Image, supply: nat -> ProvinceID, st: Scan, k: nat, g: ProvinceID, s: set<nat>)
    requires |st.labels| < |img.colors| && Descending(st.parents)
    requires Tops(img, st, k, g) && Sided(img, st, k, g, s) && ClosedOutside(img, {k}, s)
    requires Grows(st, Step(img, supply, st))
    ensures
      var st' := Step(img, supply, st);
      forall l :: l in st'.parents && l != g ==> ParentSided(st', g, s, l)
  {
    var i, st' := |st.labels|, Step(img, supply, st);
    forall l | l in st'.parents && l != g ensures ParentSided(st', g, s, l) {
      if l in st.parents && st'.parents[l] == st.parents[l] {
        assert ParentSided(st, g, s, l);
      } else {
        MeetingStaysSided(img, st, k, g, s, i);
      }
    }
  }

  lemma StepStaysSided(img: Image, supply: nat -> ProvinceID, st: Scan, k: nat, g: ProvinceID, s: set<nat>)
    requires |st.labels| < |img.colors| && Descending(st.parents)
    requires Tops(img, st, k, g) && Sided(img, st, k, g, s) && ClosedOutside(img, {k}, s)
    requires Grows(st, Step(img, supply, st)) && Tops(img, Step(img, supply, st), k, g)
    ensures Sided(img, Step(img, supply, st), k, g, s)
  {
    var st' := Step(img, supply, st);
    NewPixelSided(img, supply, st, k, g, s);
    NewParentsSided(img, supply, st, k, g, s);
    forall p: nat | p < |st.labels| ensures PixelSided(img, st', k, s, p) {
      OldPixelSided(img, st, st', k, s, p);
    }
  }

  /** What a scan knows, once the largest label of an area is that of `k`, which cuts off one side `s`. */
  ghost predicate Cutting(img: Image, supply: nat -> ProvinceID, st: Scan, k: nat, s: set<nat>) {
    && Setting(img, supply, st, k) && |st.labels| <= |img.colors|
    && Tops(img, st, k, StartLabel(img, supply, k)) && Sided(img, st, k, StartLabel(img, supply, k), s)
  }

  lemma StepStaysCutting(img: Image, supply: nat -> ProvinceID, st: Scan, k: nat, s: set<nat>)
    requires Cutting(img, supply, st, k, s) && |st.labels| < |img.colors| && ClosedOutside(img, {k}, s)
    ensures Cutting(img, supply, Step(img, supply, st), k, s)
  {
    var st' := Step(img, supply, st);
    StepKeepsInv(img, supply, st);
    StepKeepsStartInv(img, supply, st);
    LargestTops(img, supply, st', k);
    StepGrows(img, supply, st);
    StepStaysSided(img, supply, st, k, StartLabel(img, supply, k), s);
  }

  lemma {:induction false} ScanStaysCutting(img: Image, supply: nat -> ProvinceID, k: nat, s: set<nat>, i: nat)
    requires AllDistinct(supply) && IsLargest(img, supply, k) && ClosedOutside(img, {k}, s) && i <= |img.colors|
    ensures Cutting(img, supply, Scanned(img, supply, i), k, s)
  {
    if i == 0 {
      ScanKeepsStartInv(img, supply, 0);
      LargestTops(img, supply, Scanned(img, supply, 0), k);
    } else {
      ScanStaysCutting(img, supply, k, s, i - 1);
      StepStaysCutting(img, supply, Scanned(img, supply, i - 1), k, s);
    }
  }

  /**
    A start that cuts its area, and has the largest label of it, splits it: pixels
    that only its own pixels join get different labels.
   */
  lemma CuttingStartSplits(img: Image, supply: nat -> ProvinceID, k: nat, i: nat, j: nat)
    requires AllDistinct(supply) && IsLargest(img, supply, k) && Separates(img, {k}, i, j)
    ensures
      var st := Scanned(img, supply, |img.colors|);
      FinalLabel(st, i) != FinalLabel(st, j)
  {
    var st, g := Scanned(img, supply, |img.colors|), StartLabel(img, supply, k);
    var s :| ClosedOutside(img, {k}, s) && !(i in s <==> j in s);
    ScanStaysCutting(img, supply, k, s, |img.colors|);
    FedIffLargest(img, st, k, g, i);
    FedIffLargest(img, st, k, g, j);
    assert PixelSided(img, st, k, s, i) && PixelSided(img, st, k, s, j);
    RootSided(img, st, k, g, s, st.labels[i]);
    RootSided(img, st, k, g, s, st.labels[j]);
  }

  // ----- Areas with few starts -----

  /** No area has four starts. */
  ghost predicate AtMostThreeStarts(img: Image) {
    forall a: nat, b: nat, c: nat, d: nat ::
      Companions(img, a, b) && Companions(img, a, c) && Companions(img, a, d) ==>
      a == b || a == c || a == d || b == c || b == d || c == d
  }

  /** No area has three starts. */
  ghost predicate AtMostTwoStarts(img: Image) {
    forall a: nat, b: nat, c: nat ::
      Companions(img, a, b) && Companions(img, a, c) ==> a == b || a == c || b == c
  }

  /** What feeds a pixel is in its area. */
  lemma {:induction false} FedByCompanions(img: Image, g: set<nat>, h: set<nat>, k: nat, p: nat)
    requires p < |img.colors| && Connected(img, k, p) && !IsBorder(img, p)
    requires SameCompanions(img, g, h, k)
    ensures Fed(img, g, p) <==> Fed(img, h, p)
    decreases p
  {
    NeighboursAreConnected(img, p);
    NeighboursAreColored(img, p);
    if !IsStart(img, p) {
      if SameAsLeft(img, p) { FedByCompanions(img, g, h, k, p - 1); }
      if SameAsUp(img, p) { FedByCompanions(img, g, h, k, p - img.width); }
    }
  }

  /** The sets have the same starts in the area of `k`. */
  ghost predicate SameCompanions(img: Image, g: set<nat>, h: set<nat>, k: nat) {
    forall q: nat :: q < |img.colors| && IsStart(img, q) && Connected(img, k, q) ==> (q in g <==> q in h)
  }

  lemma NeighbourInArea(img: Image, g: set<nat>, h: set<nat>, s: set<nat>, k: nat, i: nat, n: nat)
    requires SameCompanions(img, g, h, k) && ClosedOutside(img, h, s) && Rest(img, g, i) && Rest(img, g, n)
    requires (SameAsLeft(img, i) && n == i - 1) || (SameAsUp(img, i) && n == i - img.width)
    ensures Connected(img, k, i) <==> Connected(img, k, n)
    ensures Connected(img, k, i) ==> (i in s <==> n in s)
  {
    NeighboursAreConnected(img, i);
    assert Connected(img, i, n);
    if Connected(img, k, i) {
      FedByCompanions(img, g, h, k, i);
      FedByCompanions(img, g, h, k, n);
      assert Rest(img, h, i) && Rest(img, h, n);
    }
  }

  /** Cutting is a matter of the starts in the area. */
  lemma ConnectedOutsideCompanions(img: Image, g: set<nat>, h: set<nat>, k: nat, q: nat)
    requires Connected(img, k, q) && ConnectedOutside(img, g, k, q) && SameCompanions(img, g, h, k)
    ensures ConnectedOutside(img, h, k, q)
  {
    forall s | ClosedOutside(img, h, s) ensures k in s <==> q in s {
      var s' := set p | p in s && Connected(img, k, p);
      forall i: nat | Rest(img, g, i)
        ensures SameAsLeft(img, i) && Rest(img, g, i - 1) ==> (i in s' <==> i - 1 in s')
        ensures SameAsUp(img, i) && Rest(img, g, i - img.width) ==> (i in s' <==> i - img.width in s')
      {
        if SameAsLeft(img, i) && Rest(img, g, i - 1) { NeighbourInArea(img, g, h, s, k, i, i - 1); }
        if SameAsUp(img, i) && Rest(img, g, i - img.width) { NeighbourInArea(img, g, h, s, k, i, i - img.width); }
      }
      assert ClosedOutside(img, g, s');
      assert k in s' <==> q in s';
    }
  }

  /** Nothing is cut off where nothing is fed. */
  lemma NothingFed(img: Image, k: nat, q: nat)
    requires Connected(img, k, q)
    ensures ConnectedOutside(img, {}, k, q)
  {
    forall s | ClosedOutside(img, {}, s) ensures k in s <==> q in s {
      forall i: nat | i < |img.colors|
        ensures SameAsLeft(img, i) ==> (i in s <==> i - 1 in s)
        ensures SameAsUp(img, i) ==> (i in s <==> i - img.width in s)
      {
        NeighboursAreColored(img, i);
        if !IsBorder(img, i) { NoneFeedsNothing(img, i); }
        if SameAsLeft(img, i) { NoneFeedsNothing(img, i - 1); }
        if SameAsUp(img, i) { NoneFeedsNothing(img, i - img.width); }
        assert !IsBorder(img, i) ==> Rest(img, {}, i);
      }
      assert ClosedUnderNeighbours(img, s);
    }
  }

  lemma {:induction false} NoneFeedsNothing(img: Image, p: nat)
    requires p < |img.colors|
    ensures !Fed(img, {}, p)
    decreases p
  {
    NeighboursAreColored(img, p);
    if SameAsLeft(img, p) { NoneFeedsNothing(img, p - 1); }
    else if SameAsUp(img, p) { NoneFeedsNothing(img, p - img.width); }
  }

  /** With two starts in an area, the larger label has nothing to be cut by. */
  lemma TwoStartsAreLabelledRightly(img: Image, supply: nat -> ProvinceID)
    requires AllDistinct(supply) && AtMostTwoStarts(img)
    ensures LabelsAreAreas(img, supply)
  {
    forall k: nat, q: nat
      | Companions(img, k, q) && StartLabel(img, supply, q) < StartLabel(img, supply, k)
      ensures ReachesSmaller(img, supply, k, q)
    {
      NoLargerOfTwo(img, supply, k, q);
      NothingFed(img, k, q);
    }
    ReachingStartsGiveAreas(img, supply);
  }

  lemma NoLargerOfTwo(img: Image, supply: nat -> ProvinceID, k: nat, q: nat)
    requires AtMostTwoStarts(img) && Companions(img, k, q) && StartLabel(img, supply, q) < StartLabel(img, supply, k)
    ensures Larger(img, supply, k) == {}
  {
    forall r: nat ensures r !in Larger(img, supply, k) {
      assert Companions(img, k, q);
    }
  }

  /** With three starts in an area, at most the largest can cut the second from the smallest. */
  lemma ThirdStartReaches(img: Image, supply: nat -> ProvinceID, k: nat, q: nat)
    requires AtMostThreeStarts(img)
    requires forall r: nat :: IsLargest(img, supply, r) ==> !Cuts(img, {r})
    requires Companions(img, k, q) && StartLabel(img, supply, q) < StartLabel(img, supply, k)
    ensures ReachesSmaller(img, supply, k, q)
  {
    var g := Larger(img, supply, k);
    if g == {} {
      NothingFed(img, k, q);
    } else {
      var r :| r in g;
      OnlyLarger(img, supply, k, q, r);
      assert g == {r};
      assert Rest(img, {r}, k) && Rest(img, {r}, q);
      assert !Cuts(img, {r});
      assert !Separates(img, {r}, k, q);
    }
  }

  lemma OnlyLarger(img: Image, supply: nat -> ProvinceID, k: nat, q: nat, r: nat)
    requires AtMostThreeStarts(img) && Companions(img, k, q) && r in Larger(img, supply, k)
    requires StartLabel(img, supply, q) < StartLabel(img, supply, k)
    ensures Larger(img, supply, k) == {r} && IsLargest(img, supply, r)
  {
    forall p: nat | Companions(img, k, p) ensures p == k || p == q || p == r {
      assert Companions(img, k, r);
    }
    forall p: nat | Companions(img, r, p) ensures StartLabel(img, supply, p) <= StartLabel(img, supply, r) {
      assert Companions(img, k, p);
    }
  }

  /**
    Where no area has more than three starts, labels are areas if and only if no
    start that gets the largest label of its area cuts it.
   */
  lemma ThreeStartsRightIffUncut(img: Image, supply: nat -> ProvinceID)
    requires AllDistinct(supply) && AtMostThreeStarts(img)
    ensures LabelsAreAreas(img, supply) <==> forall k: nat :: IsLargest(img, supply, k) ==> !Cuts(img, {k})
  {
    if forall k: nat :: IsLargest(img, supply, k) ==> !Cuts(img, {k}) {
      forall k: nat, q: nat
        | Companions(img, k, q) && StartLabel(img, supply, q) < StartLabel(img, supply, k)
        ensures ReachesSmaller(img, supply, k, q)
      {
        ThirdStartReaches(img, supply, k, q);
      }
      ReachingStartsGiveAreas(img, supply);
    }
    if k: nat :| IsLargest(img, supply, k) && Cuts(img, {k}) {
      var i: nat, j: nat :| Separates(img, {k}, i, j);
      CuttingStartSplits(img, supply, k, i, j);
      assert Colored(img, i) && Colored(img, j);
    }
  }

  // ----- Every order of the labels -----

  /** Labels in ascending order, except that the one with number `r` is larger than all up to number `n`. */
  function TopSupply(r: nat, n: nat): nat -> ProvinceID {
    (c: nat) => if c == r then n + 1 else if c == n then r + 1 else c + 1
  }

  lemma TopSupplyMakesLargest(img: Image, k: nat)
    requires k < |img.colors| && IsStart(img, k)
    ensures
      var supply := TopSupply(Rank(img, k), |img.colors|);
      AllDistinct(supply) && IsLargest(img, supply, k)
  {
    var supply := TopSupply(Rank(img, k), |img.colors|);
    forall q: nat | Companions(img, k, q) ensures StartLabel(img, supply, q) <= StartLabel(img, supply, k) {
      RankGrows(img, q, |img.colors|);
    }
  }

  ghost predicate RightInEveryOrder(img: Image) {
    forall supply :: AllDistinct(supply) ==> LabelsAreAreas(img, supply)
  }

  /** In any image, a start that cuts its area splits it in some order of the labels. */
  lemma CuttingStartIsWrongInSomeOrder(img: Image, k: nat)
    requires k < |img.colors| && IsStart(img, k) && Cuts(img, {k})
    ensures !RightInEveryOrder(img)
  {
    var supply := TopSupply(Rank(img, k), |img.colors|);
    TopSupplyMakesLargest(img, k);
    var i: nat, j: nat :| Separates(img, {k}, i, j);
    CuttingStartSplits(img, supply, k, i, j);
    assert Colored(img, i) && Colored(img, j);
    assert !LabelsAreAreas(img, supply);
  }

  ghost predicate NoStartCuts(img: Image) {
    forall k: nat :: k < |img.colors| && IsStart(img, k) ==> !Cuts(img, {k})
  }

  ghost predicate NoSetOfStartsCuts(img: Image) {
    forall g :: AllStarts(img, g) ==> !Cuts(img, g)
  }

  /**
    Right in every order: it is enough that no set of starts cuts an area, and
    necessary that no single start does. Where no area has more than three starts,
    the latter is also enough.
   */
  lemma RightInEveryOrderIfUncut(img: Image)
    ensures NoSetOfStartsCuts(img) ==> RightInEveryOrder(img)
    ensures RightInEveryOrder(img) ==> NoStartCuts(img)
    ensures AtMostThreeStarts(img) ==> (RightInEveryOrder(img) <==> NoStartCuts(img))
  {
    forall supply | AllDistinct(supply) && NoSetOfStartsCuts(img) ensures LabelsAreAreas(img, supply) {
      UncutImagesAreLabelledRightly(img, supply);
    }
    forall k: nat | k < |img.colors| && IsStart(img, k) && Cuts(img, {k}) ensures !RightInEveryOrder(img) {
      CuttingStartIsWrongInSomeOrder(img, k);
    }
    forall supply | AllDistinct(supply) && AtMostThreeStarts(img) && NoStartCuts(img)
      ensures LabelsAreAreas(img, supply)
    {
      ThreeStartsRightIffUncut(img, supply);
    }
  }

  // ----- The staircase -----

  lemma StaircaseStarts()
    ensures |STAIRCASE.colors| == 9
    ensures forall k :: 0 <= k < 9 ==> (IsBorder(STAIRCASE, k) <==> k in {0, 1, 3, 8})
    ensures forall k :: 0 <= k < 9 ==> (SameAsLeft(STAIRCASE, k) <==> k in {5, 7})
    ensures forall k :: 0 <= k < 9 ==> (SameAsUp(STAIRCASE, k) <==> k in {5, 7})
    ensures forall k :: 0 <= k < 9 ==> (IsStart(STAIRCASE, k) <==> k in {2, 4, 6})
  {
    StaircaseColors();
  }

  lemma StaircaseRanks()
    ensures |STAIRCASE.colors| == 9
    ensures Rank(STAIRCASE, 2) == 0 && Rank(STAIRCASE, 4) == 1 && Rank(STAIRCASE, 6) == 2
  {
    StaircaseStarts();
    assert Rank(STAIRCASE, 0) == Rank(STAIRCASE, 1) == 0;
    assert Rank(STAIRCASE, 3) == 1;
    assert Rank(STAIRCASE, 5) == 2;
  }

  lemma StaircaseIsOneArea()
    ensures forall i, j :: i in {2, 4, 5, 6, 7} && j in {2, 4, 5, 6, 7} ==> Connected(STAIRCASE, i, j)
  {
    StaircaseStarts();
    NeighboursAreConnected(STAIRCASE, 5);
    NeighboursAreConnected(STAIRCASE, 7);
    forall i, j | i in {2, 4, 5, 6, 7} && j in {2, 4, 5, 6, 7} ensures Connected(STAIRCASE, i, j) {
      assert Connected(STAIRCASE, 5, 4) && Connected(STAIRCASE, 5, 2);
      assert Connected(STAIRCASE, 7, 6) && Connected(STAIRCASE, 7, 4);
    }
  }

  /** What is left when one start's own pixels are taken away. */
  lemma StaircaseRest(k: nat, i: nat)
    requires k in {2, 4, 6}
    ensures Rest(STAIRCASE, {k}, i) <==> i in {2, 4, 5, 6, 7} && i != k
  {
    StaircaseStarts();
    if i in {5, 7} {
      assert Fed(STAIRCASE, {k}, i) <==> Fed(STAIRCASE, {k}, i - 1) && Fed(STAIRCASE, {k}, i - 3);
    }
  }

  lemma OnlyTheMiddleCuts()
    ensures !Cuts(STAIRCASE, {2}) && !Cuts(STAIRCASE, {6}) && Separates(STAIRCASE, {4}, 2, 6)
  {
    StaircaseStarts();
    StaircaseIsOneArea();
    forall k: nat, i: nat | k in {2, 4, 6} ensures Rest(STAIRCASE, {k}, i) <==> i in {2, 4, 5, 6, 7} && i != k {
      StaircaseRest(k, i);
    }
    forall k: nat, i: nat, j: nat | k in {2, 6} && Rest(STAIRCASE, {k}, i) && Rest(STAIRCASE, {k}, j)
      ensures ConnectedOutside(STAIRCASE, {k}, i, j)
    {
      forall s | ClosedOutside(STAIRCASE, {k}, s) ensures i in s <==> j in s {
        assert Rest(STAIRCASE, {k}, 5) && Rest(STAIRCASE, {k}, 7);
      }
    }
    var upper: set<nat> := {2, 5};
    assert ClosedOutside(STAIRCASE, {4}, upper);
    assert !ConnectedOutside(STAIRCASE, {4}, 2, 6);
  }

  /** The labels of the staircase are its one area if and only if the second new label is not the largest of the three. */
  lemma StaircaseSplitsIff(supply: nat -> ProvinceID)
    requires AllDistinct(supply)
    ensures
      var st := Scanned(STAIRCASE, supply, 9);
      && Colored(STAIRCASE, 2) && Colored(STAIRCASE, 6)
      && (FinalLabel(st, 2) != FinalLabel(st, 6) <==> supply(0) < supply(1) && supply(2) < supply(1))
      && (LabelsAreAreas(STAIRCASE, supply) <==> !(supply(0) < supply(1) && supply(2) < supply(1)))
  {
    StaircaseStarts();
    StaircaseRanks();
    StaircaseIsOneArea();
    OnlyTheMiddleCuts();
    assert supply(0) != supply(1) && supply(1) != supply(2);
    assert Companions(STAIRCASE, 4, 2) && Companions(STAIRCASE, 4, 6);
    assert IsLargest(STAIRCASE, supply, 4) <==> supply(0) < supply(1) && supply(2) < supply(1);
    forall k: nat | IsLargest(STAIRCASE, supply, k) ensures k in {2, 4, 6} {}
    assert Cuts(STAIRCASE, {4});
    ThreeStartsRightIffUncut(STAIRCASE, supply);
    if IsLargest(STAIRCASE, supply, 4) {
      CuttingStartSplits(STAIRCASE, supply, 4, 2, 6);
    } else {
      assert LabelsAreAreas(STAIRCASE, supply);
      assert Connected(STAIRCASE, 2, 6);
    }
  }
}
