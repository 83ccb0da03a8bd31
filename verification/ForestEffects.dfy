/**
  What the operations on the merge forest do to every province of a map of any
  shape, told field by field, and what they leave alone.
 */
module ForestEffects {
  import opened Types
  import opened ProvinceForest
  import opened ForestLaws
  import opened ForestRuns
  import opened AcyclicRuns
  import opened ProvinceProject

  /** Provinces come and go nowhere, and differ in their links at most. */
  ghost predicate OnlyLinksDiffer(m: ProvinceMap, m': ProvinceMap) {
    && m'.Keys == m.Keys
    && forall x :: x in m ==> m'[x] == m[x].(parent := m'[x].parent, children := m'[x].children)
  }

  // ----- The root walk -----

  /** The walk's answer, step by step, with the status of each way to fail. */
  lemma RootAnswer(m: ProvinceMap, id: ProvinceID)
    requires Terminates(m, id)
    ensures id == INVALID_PROVINCE ==> RootResult(m, id) == Failure(Unexpected)
    ensures id != INVALID_PROVINCE && id !in m ==> RootResult(m, id) == Failure(ValueNotFound)
    ensures id != INVALID_PROVINCE && id in m ==>
      var p := m[id].parent;
      && (p == INVALID_PROVINCE ==> RootResult(m, id) == Value(id))
      && (p == id ==> RootResult(m, id) == Failure(Unexpected))
      && (p !in {INVALID_PROVINCE, id} ==> Terminates(m, p) && RootResult(m, id) == RootResult(m, p))
  {
    var n: nat, res :| Walk(m, id, n, res);
    WalkGivesRoot(m, id, n, res);
    if id != INVALID_PROVINCE && id in m && m[id].parent !in {INVALID_PROVINCE, id} {
      WalkGivesRoot(m, m[id].parent, n - 1, res);
    }
  }

  lemma {:induction false} FailedWalk(m: ProvinceMap, id: ProvinceID, n: nat, res: Maybe<ProvinceID>)
    requires Walk(m, id, n, res)
    ensures res.Failure? ==> res.status in {Unexpected, ValueNotFound}
    decreases n
  {
    if n > 0 { FailedWalk(m, m[id].parent, n - 1, res); }
  }

  /** A walk that ends without a root says so by its status. */
  lemma FailedAnswer(m: ProvinceMap, id: ProvinceID)
    requires Terminates(m, id)
    ensures RootResult(m, id).Failure? ==> RootResult(m, id).status in {Unexpected, ValueNotFound}
  {
    var n: nat, res :| Walk(m, id, n, res);
    WalkGivesRoot(m, id, n, res);
    FailedWalk(m, id, n, res);
  }

  // ----- Merging -----

  /** The status of a merge, from the answers of the two walks. */
  ghost predicate MergeStatusIs(m: ProvinceMap, a: ProvinceID, b: ProvinceID, status: Status)
    requires a in m && b in m ==> Terminates(m, a) && Terminates(m, b)
  {
    && (a == b ==> status == Unexpected)
    && (a != b && (a !in m || b !in m) ==> status == ValueNotFound)
    && (a != b && a in m && b in m ==>
          && (RootResult(m, a).Failure? ==> status == RootResult(m, a).status)
          && (RootResult(m, a).Value? && RootResult(m, b).Failure? ==> status == RootResult(m, b).status)
          && (RootResult(m, a).Value? && RootResult(m, b).Value? ==>
                status == if RootResult(m, a) == RootResult(m, b) then Unexpected else Success))
  }

  /**
    A merge that succeeds makes the root of the first province a child of the root
    of the second one: one parent and one child set change. Any other merge changes
    nothing.
   */
  lemma MergeEffect(m: ProvinceMap, a: ProvinceID, b: ProvinceID)
    requires a in m && b in m ==> Terminates(m, a) && Terminates(m, b)
    ensures
      var (m', status) := Merged(m, a, b);
      && MergeStatusIs(m, a, b, status)
      && OnlyLinksDiffer(m, m')
      && (status != Success ==> m' == m)
      && (status == Success ==>
            && RootResult(m, a).Value? && RootResult(m, b).Value?
            && var r1, r2 := RootResult(m, a).value, RootResult(m, b).value;
            && r1 in m && r2 in m && r1 != r2 && r2 != INVALID_PROVINCE
            && (forall x :: x in m ==> m'[x].parent == if x == r1 then r2 else m[x].parent)
            && forall x :: x in m ==> m'[x].children == if x == r2 then m[x].children + {r1} else m[x].children)
  {
    if a in m && b in m {
      FailedAnswer(m, a);
      FailedAnswer(m, b);
      if RootResult(m, a).Value? && RootResult(m, b).Value? {
        WalkResultExists(m, a);
        WalkResultExists(m, b);
        LinkedEffect(m, RootResult(m, a).value, RootResult(m, b).value);
      }
    }
  }

  lemma LinkedEffect(m: ProvinceMap, a: ProvinceID, b: ProvinceID)
    requires a in m && b in m
    ensures
      var m' := Linked(m, a, b);
      && OnlyLinksDiffer(m, m')
      && (a != b ==>
            && (forall x :: x in m ==> m'[x].parent == if x == a then b else m[x].parent)
            && forall x :: x in m ==> m'[x].children == if x == b then m[x].children + {a} else m[x].children)
  {
  }

  /** Merging a selection changes links only, too. */
  lemma {:induction false} SelectionKeepsFields(m: ProvinceMap, root: ProvinceID, selected: seq<ProvinceID>)
    requires Terminates(m, root) && AllTerminate(m, selected)
    ensures OnlyLinksDiffer(m, MergedAll(m, root, selected))
    decreases selected
  {
    if selected != [] {
      var prior, last := selected[..|selected| - 1], selected[|selected| - 1];
      SelectionKeepsFields(m, root, prior);
      var before := MergedAll(m, root, prior);
      if last != root { MergeEffect(before, root, last); }
    }
  }

  /** Merging makes no new roots. */
  lemma {:induction false} SelectionMakesNoRoots(m: ProvinceMap, root: ProvinceID, selected: seq<ProvinceID>)
    requires Terminates(m, root) && AllTerminate(m, selected)
    ensures Roots(MergedAll(m, root, selected)) <= Roots(m)
    decreases selected
  {
    if selected != [] {
      var prior, last := selected[..|selected| - 1], selected[|selected| - 1];
      SelectionMakesNoRoots(m, root, prior);
      var before := MergedAll(m, root, prior);
      if last != root {
        MergeEffect(before, root, last);
      }
    }
  }

  /** A group that has stayed keeps its root. */
  lemma GroupKeepsRoot(m: ProvinceMap, m': ProvinceMap, x: ProvinceID)
    requires Acyclic(m) && Acyclic(m') && Keyed(m) && m'.Keys == m.Keys && x in m && Roots(m') <= Roots(m)
    requires Group(m', x) == Group(m, x)
    ensures Root(m', x) == Root(m, x)
  {
    var r := Root(m', x);
    RootIsProvince(m', x);
    assert r in Roots(m') && r in m;
    RootIsItself(m', r);
    assert r in Group(m', x);
    RootIsItself(m, r);
  }

  lemma RootIsItself(m: ProvinceMap, r: ProvinceID)
    requires Acyclic(m) && r in m && m[r].parent == INVALID_PROVINCE && r != INVALID_PROVINCE
    ensures Root(m, r) == r
  {
    ClimbsFromRoot(m, r);
    ClimbsIsFunctional(m, r, Root(m, r), r);
  }

  /**
    Whose colour a merged selection has: a member that brings in a new group makes
    its own root the root of all; any other member changes nothing.
   */
  lemma LastNewMemberGivesRoot(m: ProvinceMap, prior: seq<ProvinceID>, last: ProvinceID)
    requires Forest(m) && prior != [] && prior[0] in m
    ensures Terminates(m, Root(m, prior[0])) && AllTerminate(m, prior) && AllTerminate(m, prior + [last])
    ensures
      var root := Root(m, prior[0]);
      var before, after := MergedAll(m, root, prior), MergedAll(m, root, prior + [last]);
      && Acyclic(after) && after.Keys == m.Keys
      && if last in m && last !in GroupsOf(m, prior)
         then Root(after, prior[0]) == Root(m, last)
         else after == before
  {
    var root := Root(m, prior[0]);
    assert (prior + [last])[..|prior|] == prior && (prior + [last])[0] == prior[0];
    SelectionBecomesOneGroup(m, prior);
    SelectionBecomesOneGroup(m, prior + [last]);
    PriorIsOneGroup(m, prior);
    var before := MergedAll(m, root, prior);
    AttemptEffect(before, root, last);
    if last in m {
      GroupsPartition(before, root, last);
      if last !in GroupsOf(m, prior) {
        SelectionMakesNoRoots(m, root, prior);
        GroupKeepsRoot(m, before, last);
        GroupsPartition(before, root, prior[0]);
      }
    }
  }

  /** After the first members, root and first member are in the group that the members make up. */
  lemma PriorIsOneGroup(m: ProvinceMap, prior: seq<ProvinceID>)
    requires Forest(m) && prior != [] && prior[0] in m
    requires Terminates(m, Root(m, prior[0])) && AllTerminate(m, prior)
    ensures
      var before, united := MergedAll(m, Root(m, prior[0]), prior), GroupsOf(m, prior);
      && Forest(before) && before.Keys == m.Keys
      && Root(m, prior[0]) in before
      && Group(before, Root(m, prior[0])) == Group(before, prior[0]) == united
      && forall x :: x in m && x !in united ==> Group(before, x) == Group(m, x)
  {
    var root := Root(m, prior[0]);
    RootIsProvince(m, prior[0]);
    RootIsItself(m, root);
    SelectionBecomesOneGroup(m, prior);
    MergedAllGroups(m, root, prior);
    GroupsPartition(m, root, root);
    assert Group(m, root) == Group(m, prior[0]);
    GroupsOfContains(m, prior, prior[0]);
    assert Group(m, root) + GroupsOf(m, prior) == GroupsOf(m, prior);
  }

  /** One attempt in a forest: provinces of two groups get the root of the second. */
  lemma AttemptEffect(m: ProvinceMap, root: ProvinceID, s: ProvinceID)
    requires Forest(m) && root in m && Terminates(m, root) && Terminates(m, s)
    ensures Forest(Attempted(m, root, s)) && Attempted(m, root, s).Keys == m.Keys
    ensures s in m && Group(m, s) != Group(m, root) ==>
      forall x :: x in Group(m, root) ==> Root(Attempted(m, root, s), x) == Root(m, s)
    ensures s !in m || Group(m, s) == Group(m, root) ==> Attempted(m, root, s) == m
  {
    MergeUnitesTwoGroups(m, root, s);
    MergedOnForest(m, root, s);
    if s in m {
      GroupsPartition(m, root, s);
      if Root(m, s) != Root(m, root) {
        RootIsProvince(m, root);
        RootIsProvince(m, s);
        LinkedRoot(m, Root(m, root), Root(m, s));
      }
    }
  }

  // ----- Unmerging -----

  /** Whether an unmerge goes through, and the status if it does not. */
  ghost predicate UnmergeStatusIs(m: ProvinceMap, t: ProvinceID, status: Status)
    requires t in m && m[t].parent in m ==> Terminates(m, m[t].parent)
  {
    && (t !in m ==> status == ValueNotFound)
    && (t in m ==>
          var p, known := m[t].parent, m[t].children <= m.Keys;
          && (p == INVALID_PROVINCE ==> status == if known then Success else ValueNotFound)
          && (p != INVALID_PROVINCE && p !in m ==> status == ValueNotFound)
          && (p != INVALID_PROVINCE && p in m && RootResult(m, p).Failure? ==> status == RootResult(m, p).status)
          && (p != INVALID_PROVINCE && p in m && RootResult(m, p).Value? ==>
                status == if known then Success else ValueNotFound))
  }

  /** `t`, which has no parent, hands what it lists to the first of them, if it lists any. */
  ghost predicate HandsOver(m: ProvinceMap, m': ProvinceMap, t: ProvinceID)
    requires t in m && m'.Keys == m.Keys
  {
    var C := m[t].children;
    if C == {} then m' == m
    else
      exists heir :: heir in C && (forall c :: c in C ==> heir <= c)
        && (forall x :: x in m ==>
              m'[x].parent == if x == heir then INVALID_PROVINCE else if x in C then heir else m[x].parent)
        && (forall x :: x in m ==>
              m'[x].children ==
              if x == t then {} else if x == heir then m[x].children + (C - {heir}) else m[x].children)
  }

  /** `t` is cut off; what it lists goes below its parent and into the child set of the root. */
  ghost predicate Raises(m: ProvinceMap, m': ProvinceMap, t: ProvinceID, root: ProvinceID)
    requires t in m && m'.Keys == m.Keys
  {
    var C := m[t].children;
    && (forall x :: x in m ==>
          m'[x].parent == if x == t then INVALID_PROVINCE else if x in C then m[t].parent else m[x].parent)
    && (forall x :: x in m ==>
          m'[x].children == if x == t then {} else if x == root then m[x].children - {t} + C else m[x].children)
  }

  /**
    What an unmerge does to each province of a map of any shape. One that does not
    succeed changes nothing.
   */
  lemma UnmergeEffect(m: ProvinceMap, t: ProvinceID)
    requires t in m && m[t].parent in m ==> Terminates(m, m[t].parent)
    ensures
      var (m', status) := Unmerged(m, t);
      && UnmergeStatusIs(m, t, status)
      && OnlyLinksDiffer(m, m')
      && (status != Success ==> m' == m)
      && (status == Success ==>
            && t in m
            && if m[t].parent == INVALID_PROVINCE then HandsOver(m, m', t)
               else
                 && m[t].parent in m && RootResult(m, m[t].parent).Value?
                 && Raises(m, m', t, RootResult(m, m[t].parent).value))
  {
    if t in m && m[t].parent == INVALID_PROVINCE {
      if m[t].children != {} && m[t].children <= m.Keys { HandedOverEffect(m, t, Front(m[t].children)); }
    } else if t in m && m[t].parent in m {
      FailedAnswer(m, m[t].parent);
      if RootResult(m, m[t].parent).Value? {
        WalkResultExists(m, m[t].parent);
        RaisedEffect(m, t, RootResult(m, m[t].parent).value);
      }
    }
  }

  lemma HandedOverEffect(m: ProvinceMap, t: ProvinceID, heir: ProvinceID)
    requires t in m && m[t].children != {} && m[t].children <= m.Keys && heir == Front(m[t].children)
    ensures
      var m1 := HandedOver(m, heir, m[t].children);
      var m' := m1[t := m1[t].(children := {})];
      OnlyLinksDiffer(m, m') && HandsOver(m, m', t)
  {
    var C, m1 := m[t].children, HandedOver(m, heir, m[t].children);
    var m' := m1[t := m1[t].(children := {})];
    forall x | x in m
      ensures m'[x] == m[x].(parent := m'[x].parent, children := m'[x].children)
      ensures m'[x].parent == if x == heir then INVALID_PROVINCE else if x in C then heir else m[x].parent
      ensures m'[x].children ==
        if x == t then {} else if x == heir then m[x].children + (C - {heir}) else m[x].children
    {
      assert m'[x] == if x == t then m1[x].(children := {}) else m1[x];
    }
    assert heir in C && forall c :: c in C ==> heir <= c;
  }

  lemma RaisedEffect(m: ProvinceMap, t: ProvinceID, root: ProvinceID)
    requires t in m && root in m && m[root].parent == INVALID_PROVINCE && m[t].parent != INVALID_PROVINCE
    ensures
      var m' := Isolated(Raised(WithoutChild(m, root, t), m[t].parent, root, m[t].children), t);
      OnlyLinksDiffer(m, m') && Raises(m, m', t, root)
  {
    var m1 := WithoutChild(m, root, t);
    assert forall x :: x in m ==> m1[x] == m[x].(children := if x == root then m[x].children - {t} else m[x].children);
    var m2 := Raised(m1, m[t].parent, root, m[t].children);
    assert forall x :: x in m ==> m2[x] == m1[x].(parent := m2[x].parent, children := m2[x].children);
  }

  // ----- Runs -----

  ghost function SoundRun(m: ProvinceMap, es: seq<Edit>): ProvinceMap
    requires Sound(m) && HarmlessRun(m, es)
    decreases es
  {
    if es == [] then m else SoundRun(SoundStep(m, es[0]), es[1..])
  }

  /** Colours tell provinces apart. */
  ghost predicate DistinctColors(m: ProvinceMap) {
    forall p, q :: p in m && q in m && m[p].uniqueColor == m[q].uniqueColor ==> p == q
  }

  lemma StepKeepsFields(m: ProvinceMap, e: Edit)
    requires Sound(m)
    ensures OnlyLinksDiffer(m, SoundStep(m, e))
  {
    match e
    case Merge(a, b) => MergeKeepsSound(m, a, b); MergeEffect(m, a, b);
    case Unmerge(t) => UnmergeKeepsSoundIff(m, t); UnmergeEffect(m, t);
  }

  /** Runs of merges and unmerges of any depth change links only; colours that told provinces apart still do. */
  lemma {:induction false} RunKeepsFields(m: ProvinceMap, es: seq<Edit>)
    requires Sound(m) && HarmlessRun(m, es)
    ensures OnlyLinksDiffer(m, SoundRun(m, es))
    ensures DistinctColors(m) <==> DistinctColors(SoundRun(m, es))
    decreases es
  {
    if es != [] {
      StepKeepsFields(m, es[0]);
      RunKeepsFields(SoundStep(m, es[0]), es[1..]);
      LinksKeepColors(m, SoundStep(m, es[0]));
    }
  }

  lemma LinksKeepColors(m: ProvinceMap, m': ProvinceMap)
    requires OnlyLinksDiffer(m, m')
    ensures DistinctColors(m) <==> DistinctColors(m')
  {
    assert forall x :: x in m ==> m'[x].uniqueColor == m[x].uniqueColor;
  }
}
