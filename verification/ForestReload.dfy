/** What saving the provinces and loading them again does to the merge forest. */
module ForestReload {
  import opened Types
  import opened Collections
  import opened ProvinceForest
  import opened ForestLaws
  import opened ForestRuns
  import opened AcyclicRuns
  import opened ForestEffects
  import ProvinceCsv

  // ----- Maps with the same parents -----

  ghost predicate SameParents(m: ProvinceMap, m': ProvinceMap) {
    m'.Keys == m.Keys && forall x :: x in m ==> m'[x].parent == m[x].parent
  }

  lemma {:induction false} SameParentsWalk(m: ProvinceMap, m': ProvinceMap, x: ProvinceID, n: nat, res: Maybe<ProvinceID>)
    requires SameParents(m, m') && Walk(m, x, n, res)
    ensures Walk(m', x, n, res)
    decreases n
  {
    if n > 0 { SameParentsWalk(m, m', m[x].parent, n - 1, res); }
  }

  lemma SameParentsAcyclic(m: ProvinceMap, m': ProvinceMap)
    requires SameParents(m, m') && Acyclic(m)
    ensures Acyclic(m') && forall x :: x in m ==> Root(m', x) == Root(m, x)
  {
    forall x | x in m ensures Climbs(m', x, Root(m, x)) {
      var n: nat :| Walk(m, x, n, Value(Root(m, x)));
      SameParentsWalk(m, m', x, n, Value(Root(m, x)));
    }
    forall x | x in m' ensures HasRoot(m', x) { assert Climbs(m', x, Root(m, x)); }
    forall x | x in m ensures Root(m', x) == Root(m, x) {
      ClimbsIsFunctional(m', x, Root(m', x), Root(m, x));
    }
  }

  lemma SameParentsSameGroups(m: ProvinceMap, m': ProvinceMap)
    requires SameParents(m, m') && Acyclic(m)
    ensures Acyclic(m') && Groups(m') == Groups(m) && forall x :: x in m ==> Group(m', x) == Group(m, x)
  {
    SameParentsAcyclic(m, m');
    assert forall x :: x in m ==> Group(m', x) == Group(m, x);
  }

  // ----- One reload -----

  /**
    With its child sets rebuilt from the parents, a map is a forest if and only if
    its parent chains end. Its groups are what they were.
   */
  lemma RebuiltIsForestIff(m: ProvinceMap)
    requires Keyed(m)
    ensures Forest(ProvinceCsv.Rebuilt(m)) <==> Acyclic(m)
    ensures Acyclic(m) ==>
      Groups(ProvinceCsv.Rebuilt(m)) == Groups(m) && forall x :: x in m ==> Group(ProvinceCsv.Rebuilt(m), x) == Group(m, x)
  {
    var m' := ProvinceCsv.Rebuilt(m);
    if Acyclic(m) {
      SameParentsSameGroups(m, m');
      forall x | x in m ensures m[x].parent == INVALID_PROVINCE || m[x].parent in m { RootStep(m, x); }
      forall p, c | p in m' && c in m' ensures Agree(m', p, c) {}
    }
    if Acyclic(m') { SameParentsAcyclic(m', m); }
  }

  ghost predicate Savable(m: ProvinceMap, ids: ProvinceCsv.IDText) {
    Keyed(m) && forall p :: p in m ==> ProvinceCsv.Printable(m[p], ids)
  }

  /** What is saved with chains that end is loaded as a forest of the same groups. */
  lemma ReloadIsForestIff(m: ProvinceMap, ids: ProvinceCsv.IDText, order: seq<ProvinceID>, held: Province)
    requires Savable(m, ids) && Enumerates(order, m)
    ensures ProvinceCsv.Reloaded(m, ids, order, held).Some?
    ensures
      var loaded := ProvinceCsv.Reloaded(m, ids, order, held).value;
      && loaded.Keys == m.Keys
      && (Forest(loaded) <==> Acyclic(m))
      && (loaded == m <==> Mirrored(m) && forall p :: p in m ==> m[p].children <= m.Keys)
      && (Acyclic(m) ==> Groups(loaded) == Groups(m) && forall x :: x in m ==> Group(loaded, x) == Group(m, x))
  {
    ProvinceCsv.LoadRestoresSave(m, ids, order, held);
    RebuiltIsForestIff(m);
  }

  lemma UnmergedIsSavable(m: ProvinceMap, ids: ProvinceCsv.IDText, t: ProvinceID)
    requires Forest(m) && Savable(m, ids)
    ensures t in m && m[t].parent in m ==> Terminates(m, m[t].parent)
    ensures Savable(Unmerged(m, t).0, ids)
  {
    UnmergeKeepsSoundIff(m, t);
    UnmergeEffect(m, t);
    var m' := Unmerged(m, t).0;
    forall p | p in m' ensures ProvinceCsv.Printable(m'[p], ids) {
      RootIsProvince(m, p);
      ParentIsFaithful(m, ids, p, m'[p].parent);
    }
  }

  /** No id is written that was not there before: a map that has provinces has roots, which have the empty parent. */
  lemma ParentIsFaithful(m: ProvinceMap, ids: ProvinceCsv.IDText, p: ProvinceID, parent: ProvinceID)
    requires Forest(m) && Savable(m, ids) && p in m && (parent == INVALID_PROVINCE || parent in m)
    ensures ids.Faithful(parent)
  {
    RootIsProvince(m, p);
    assert ProvinceCsv.Printable(m[if parent in m then parent else Root(m, p)], ids);
  }

  /**
    Saving and loading after an unmerge gives a forest, also where the unmerge was
    deep and left a stale child entry. The target is alone, the rest of its group
    together, and all other groups are untouched.
   */
  lemma ReloadRepairsUnmerge(
    m: ProvinceMap, t: ProvinceID, ids: ProvinceCsv.IDText, order: seq<ProvinceID>, held: Province)
    requires Forest(m) && Savable(m, ids) && t in m && Enumerates(order, m)
    ensures m[t].parent in m ==> Terminates(m, m[t].parent)
    ensures Enumerates(order, Unmerged(m, t).0) && ProvinceCsv.Reloaded(Unmerged(m, t).0, ids, order, held).Some?
    ensures
      var m' := Unmerged(m, t).0;
      var loaded := ProvinceCsv.Reloaded(m', ids, order, held).value;
      && Forest(loaded) && loaded.Keys == m.Keys
      && (loaded == m' <==> !Deep(m, t))
      && Group(loaded, t) == {t}
      && forall x :: x in m && x != t ==> Group(loaded, x) == Group(m, x) - {t}
  {
    UnmergeIsolatesProvince(m, t);
    UnmergedIsSavable(m, ids, t);
    var m' := Unmerged(m, t).0;
    assert Enumerates(order, m');
    ReloadIsForestIff(m', ids, order, held);
  }

  // ----- Runs -----

  lemma StepIsSound(m: ProvinceMap, e: Edit)
    requires Forest(m)
    ensures Sound(Step(m, e)) && Step(m, e).Keys == m.Keys
  {
    ForestsAreHarmless(m, e);
  }

  /** Every edit is followed by a save and a load. */
  ghost function ReloadingRun(m: ProvinceMap, es: seq<Edit>): ProvinceMap
    requires Forest(m)
    decreases es
  {
    if es == [] then m
    else
      StepIsSound(m, es[0]);
      RebuiltIsForestIff(Step(m, es[0]));
      ReloadingRun(ProvinceCsv.Rebuilt(Step(m, es[0])), es[1..])
  }

  /** With a reload after each edit, every run implements the partition, however deep its unmerges. */
  lemma {:induction false} ReloadingRunRefinesPartition(m: ProvinceMap, es: seq<Edit>)
    requires Forest(m)
    ensures Forest(ReloadingRun(m, es)) && ReloadingRun(m, es).Keys == m.Keys
    ensures Groups(ReloadingRun(m, es)) == AbstractRun(Groups(m), es)
    decreases es
  {
    if es != [] {
      var m' := Step(m, es[0]);
      StepIsSound(m, es[0]);
      RebuiltIsForestIff(m');
      StepRefines(m, es[0]);
      ReloadingRunRefinesPartition(ProvinceCsv.Rebuilt(m'), es[1..]);
    }
  }
}
