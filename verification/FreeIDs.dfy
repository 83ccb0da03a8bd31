/** The scan for free state ids that follows loading, and when it is enough. */
module FreeIDs {
  import opened Types
  import opened Collections
  import opened StateModel
  import opened StateLaws

  /** The ids from 1 up to, but not including, `n` that `live` lacks, in order. */
  function FreeBelow(live: set<StateID>, n: nat): seq<StateID>
    requires n <= 0x1_0000_0000
  {
    if n <= 1 then []
    else FreeBelow(live, n - 1) + if (n - 1) as StateID in live then [] else [(n - 1) as StateID]
  }

  lemma {:induction false} FreeBelowMembers(live: set<StateID>, n: nat)
    requires n <= 0x1_0000_0000
    ensures forall k :: k in FreeBelow(live, n) <==> 1 <= k as int < n && k !in live
    ensures Distinct(FreeBelow(live, n))
  {
    if n > 1 {
      FreeBelowMembers(live, n - 1);
    }
  }

  lemma {:induction false} FreeBelowAscends(live: set<StateID>, n: nat)
    requires n <= 0x1_0000_0000
    ensures forall i, j :: 0 <= i < j < |FreeBelow(live, n)| ==> FreeBelow(live, n)[i] < FreeBelow(live, n)[j]
  {
    if n > 1 {
      var prior := FreeBelow(live, n - 1);
      FreeBelowAscends(live, n - 1);
      FreeBelowMembers(live, n - 1);
      forall i | 0 <= i < |prior| ensures prior[i] < (n - 1) as StateID { assert prior[i] in prior; }
    }
  }

  lemma {:induction false} Largest(s: set<StateID>) returns (x: StateID)
    requires s != {}
    ensures x in s && forall y :: y in s ==> y <= x
  {
    var z :| z in s;
    if s == {z} {
      x := z;
    } else {
      assert s - {z} != {};
      var y := Largest(s - {z});
      x := if z < y then y else z;
      assert forall k :: k in s ==> k == z || k in s - {z};
    }
  }

  /** A set of positive ids without gaps is an initial segment. */
  lemma {:induction false} NoGaps(s: set<StateID>)
    requires forall x :: x in s ==> 1 <= x && forall k: StateID :: 1 <= k < x ==> k in s
    ensures forall k: StateID :: k in s <==> 1 <= k as int <= |s|
    decreases |s|
  {
    if s != {} {
      var x := Largest(s);
      var rest := s - {x};
      assert |rest| == |s| - 1;
      forall y | y in rest ensures 1 <= y && forall k: StateID :: 1 <= k < y ==> k in rest {}
      NoGaps(rest);
      if x > 1 { assert x - 1 in rest; }
      forall k: StateID ensures k in s <==> 1 <= k as int <= |s| {
        assert k in s <==> k in rest || k == x;
      }
    }
  }

  /** Every id missing below a live one is smaller than the number of live ids. */
  ghost predicate GapsAreLow(live: set<StateID>) {
    && 0 !in live && NO_STATE !in live
    && forall id, k :: id in live && 1 <= k < id && k !in live ==> k as int < |live|
  }

  ghost predicate Scanned(w: World) {
    |w.states| <= NO_STATE as int && w.available == FreeBelow(w.states.Keys, |w.states|)
  }

  lemma LowGapsAreCompact(w: World)
    requires Scanned(w) && GapsAreLow(w.states.Keys)
    ensures IDsCompact(w)
  {
    var live, queued := w.states.Keys, Members(w.available);
    assert |live| == |w.states|;
    FreeBelowMembers(live, |w.states|);
    MembersSize(w.available);
    assert live !! queued;
    assert |live + queued| == Used(w);
    forall x | x in live + queued ensures 1 <= x && forall k: StateID :: 1 <= k < x ==> k in live + queued {
      if x in live { assert x != 0; }
    }
    NoGaps(live + queued);
    assert NO_STATE !in live + queued;
    forall id: StateID ensures (id in w.states || id in w.available) <==> id in live + queued {}
  }

  lemma CompactHasLowGaps(w: World)
    requires Scanned(w) && IDsCompact(w)
    ensures GapsAreLow(w.states.Keys)
  {
    var live := w.states.Keys;
    assert |live| == |w.states|;
    FreeBelowMembers(live, |w.states|);
    assert 0 as StateID !in w.states && NO_STATE !in w.states;
    forall id, k | id in live && 1 <= k < id && k !in live ensures k as int < |live| {
      assert id in w.states;
      assert k in w.available;
    }
  }

  /**
    After a load, live and queued ids are exactly 1 to their number if and only
    if the scan has seen every gap.
   */
  lemma ScanIsEnoughIffGapsAreLow(w: World)
    requires Scanned(w)
    ensures IDsCompact(w) <==> GapsAreLow(w.states.Keys)
  {
    if GapsAreLow(w.states.Keys) { LowGapsAreCompact(w); }
    if IDsCompact(w) { CompactHasLowGaps(w); }
  }

  /** Loading states 1 and 3 queues nothing, and the next new state would take the live id 3. */
  lemma LoadOfOneAndThreeClashes(w: World)
    requires w.states.Keys == {1, 3} && Scanned(w)
    ensures NextID(w) == 3 && NextID(w) in w.states
  {
    assert |w.states| == |w.states.Keys| == 2;
    assert FreeBelow({1, 3}, 1) == [];
    assert FreeBelow({1, 3}, 2) == [];
  }
}
