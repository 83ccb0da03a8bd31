/** What the operations on states do to lists, queue and matrix, and what they leave alone. */
module StateEffects {
  import opened Types
  import opened Collections
  import opened StateModel
  import opened StateLaws

  // ----- Lists -----

  /** `r` is `s` without the element at `i`, which is the first `p`. */
  ghost predicate ErasedAt(s: seq<ProvinceID>, r: seq<ProvinceID>, p: ProvinceID, i: nat) {
    i < |s| && s[i] == p && p !in s[..i] && r == s[..i] + s[i + 1..]
  }

  /** Erasing takes out the first occurrence and keeps the order of the rest. */
  lemma {:induction false} EraseFirstSplits(s: seq<ProvinceID>, p: ProvinceID)
    ensures p !in s ==> EraseFirst(s, p) == s
    ensures p in s ==> exists i: nat :: ErasedAt(s, EraseFirst(s, p), p, i)
  {
    if s != [] && s[0] == p {
      assert ErasedAt(s, EraseFirst(s, p), p, 0);
    } else if s != [] {
      EraseFirstSplits(s[1..], p);
      var r := EraseFirst(s[1..], p);
      assert EraseFirst(s, p) == [s[0]] + r;
      if p in s[1..] {
        var i: nat :| ErasedAt(s[1..], r, p, i);
        ErasedFurther(s, r, p, i);
      }
    }
  }

  lemma ErasedFurther(s: seq<ProvinceID>, r: seq<ProvinceID>, p: ProvinceID, i: nat)
    requires s != [] && s[0] != p && ErasedAt(s[1..], r, p, i)
    ensures ErasedAt(s, [s[0]] + r, p, i + 1)
  {
    assert s[..i + 1] == [s[0]] + s[1..][..i];
    assert s[i + 2..] == s[1..][i + 1..];
  }

  /** Without the listed ids, a sequence holds the others as often as before. */
  lemma {:induction false} WithoutCounts(s: seq<ProvinceID>, gone: set<ProvinceID>, p: ProvinceID)
    ensures Count(Without(s, gone), p) == if p in gone then 0 else Count(s, p)
  {
    if s != [] {
      WithoutCounts(s[1..], gone, p);
      assert s == [s[0]] + s[1..];
    }
  }

  // ----- The matrix -----

  /** Every cell shows the state of its pixel's province, and 0 where there is no province. */
  lemma MatrixShowsStates(w: World, i: nat)
    requires Consistent(w) && i < |w.labels|
    ensures |w.matrix| == |w.labels|
    ensures w.labels[i] in w.provinces ==> w.matrix[i] == w.provinces[w.labels[i]].state
    ensures w.labels[i] !in w.provinces ==> w.matrix[i] == 0
  {
  }

  /** A cell shows a live state exactly where that state lists the pixel's province. */
  lemma MatrixMatchesLists(w: World, i: nat, s: StateID)
    requires Consistent(w) && i < |w.labels| && s in w.states
    ensures |w.matrix| == |w.labels|
    ensures w.matrix[i] == s <==> w.labels[i] in w.states[s].provinces
  {
    assert ListsRightly(w, s, w.labels[i]);
    assert w.labels[i] in w.states[s].provinces <==> Count(w.states[s].provinces, w.labels[i]) > 0;
    assert s != 0;
  }

  // ----- The operations -----

  /** Every province is as it was, but for the given one, which names `s`. */
  ghost predicate OnlyMoves(w: World, w': World, p: ProvinceID, s: StateID) {
    && w'.provinces.Keys == w.provinces.Keys && w'.labels == w.labels
    && forall q :: q in w.provinces ==> w'.provinces[q] == if q == p then w.provinces[q].(state := s) else w.provinces[q]
  }

  /** A removed id goes to the end of the queue; the other states are untouched, and the provinces that named it name none. */
  lemma RemoveStateEffect(w: World, id: StateID)
    requires Consistent(w)
    ensures id !in w.states ==> RemoveState(w, id) == (w, StateDoesNotExist)
    ensures id in w.states ==>
      var (w', status) := RemoveState(w, id);
      && status == Success
      && w'.available == w.available + [id] && w'.labels == w.labels
      && w'.states.Keys == w.states.Keys - {id} && (forall s :: s in w'.states ==> w'.states[s] == w.states[s])
      && w'.provinces.Keys == w.provinces.Keys
      && forall p :: p in w.provinces ==>
           w'.provinces[p] == if w.provinces[p].state == id then w.provinces[p].(state := 0xFFFF_FFFF) else w.provinces[p]
  {
    if id in w.states { RemovalDisowns(w, id); }
  }

  /** What leaving does to every live state's list. */
  lemma LeaveEffect(w: World, p: ProvinceID)
    requires Consistent(w) && p in w.provinces
    ensures
      var w' := Leave(w, p);
      && OnlyMoves(w, w', p, 0xFFFF_FFFF) && w'.available == w.available
      && w'.states.Keys == w.states.Keys
      && forall s :: s in w.states ==>
           w'.states[s] == w.states[s].(provinces := Without(w.states[s].provinces, {p}))
  {
    forall s | s in w.states
      ensures Leave(w, p).states[s] == w.states[s].(provinces := Without(w.states[s].provinces, {p}))
    {
      LeaveLists(w, p, s);
    }
  }

  /** `p` is on no list any more, except at the end of that of `s`, if `s` is live; states have no other changes. */
  ghost predicate Relisted(w: World, w': World, p: ProvinceID, s: StateID) {
    && w'.states.Keys == w.states.Keys
    && forall r :: r in w.states ==>
         w'.states[r] == w.states[r].(provinces := Without(w.states[r].provinces, {p}) + if r == s then [p] else [])
  }

  lemma MovedIsRelisted(w: World, p: ProvinceID, id: StateID)
    requires Consistent(w) && p in w.provinces
    ensures Relisted(w, MoveProvinceToState(w, p, id).0, p, id)
  {
    LeaveEffect(w, p);
    forall r | r in w.states ensures Without(w.states[r].provinces, {p}) + [] == Without(w.states[r].provinces, {p}) {}
  }

  /**
    A moved province leaves the list it was on and comes last on the list of the
    target, if that is live; no other field of any state changes, and no other
    province.
   */
  lemma MoveProvinceEffect(w: World, p: ProvinceID, id: StateID)
    requires Consistent(w)
    ensures p !in w.provinces ==> MoveProvinceToState(w, p, id) == (w, ValueNotFound)
    ensures p in w.provinces ==>
      var (w', status) := MoveProvinceToState(w, p, id);
      && status == Success && w'.available == w.available
      && OnlyMoves(w, w', p, id) && Relisted(w, w', p, id)
  {
    if p in w.provinces { MovedIsRelisted(w, p, id); }
  }

  /** A province that is taken out of its state is on no list afterwards. */
  lemma RemoveProvinceEffect(w: World, p: ProvinceID)
    requires Consistent(w)
    ensures p !in w.provinces ==> RemoveProvinceFromState(w, p) == (w, ValueNotFound)
    ensures p in w.provinces ==>
      var (w', status) := RemoveProvinceFromState(w, p);
      && status == Success && OnlyMoves(w, w', p, 0xFFFF_FFFF) && w'.available == w.available
      && w'.states.Keys == w.states.Keys
      && forall s :: s in w.states ==>
           w'.states[s] == w.states[s].(provinces := Without(w.states[s].provinces, {p}))
  {
    if p in w.provinces { LeaveEffect(w, p); }
  }

  /** An unknown province among the given ones refuses the whole call. */
  lemma UnknownProvincesAreRefused(w: World, ids: seq<ProvinceID>, color: Color)
    ensures !Known(w, ids) <==> AddNewState(w, ids, color) == (w, Failure(ValueNotFound))
  {
  }
}
