/** Sequences without repetition, and the sets of their members. */
module Collections {

  ghost predicate Distinct<T>(s: seq<T>) {
    forall i, j :: 0 <= i < j < |s| ==> s[i] != s[j]
  }

  ghost function Members<T>(s: seq<T>): set<T> {
    set x | x in s
  }

  lemma MembersOfAppended<T>(s: seq<T>, x: T)
    ensures Members(s + [x]) == Members(s) + {x}
  {
  }

  lemma {:induction false} MembersSize<T>(s: seq<T>)
    requires Distinct(s)
    ensures |Members(s)| == |s|
    decreases s
  {
    if s != [] {
      var prior, last := s[..|s| - 1], s[|s| - 1];
      MembersSize(prior);
      assert s == prior + [last];
      MembersOfAppended(prior, last);
      assert last !in Members(prior);
    }
  }

  /** One more member of a sequence without repetition. */
  lemma NextMember<T>(s: seq<T>, i: nat)
    requires i < |s|
    ensures Members(s[..i + 1]) == Members(s[..i]) + {s[i]}
    ensures Distinct(s) ==> s[i] !in Members(s[..i])
  {
    assert s[..i + 1] == s[..i] + [s[i]];
  }

  /** The numbers below `n`. */
  ghost function Below(n: nat): (r: set<nat>)
    ensures (forall f: nat :: f in r <==> f < n) && |r| == n
  {
    if n == 0 then {}
    else
      var rest := Below(n - 1);
      assert n - 1 !in rest;
      rest + {n - 1}
  }

  /** The sequence holds every key of the map, once. */
  ghost predicate Enumerates<K(!new), V>(order: seq<K>, m: map<K, V>) {
    (forall k :: k in order <==> k in m) && Distinct(order)
  }
}
