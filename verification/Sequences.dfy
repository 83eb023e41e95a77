/** What it is to keep some items of a list and drop the others. */
module Sequences {
  predicate Rising(places: seq<nat>) {
    forall i, j :: 0 <= i < j < |places| ==> places[i] < places[j]
  }

  /** The items stand at these places of the list. */
  predicate StandAt<T(==)>(list: seq<T>, items: seq<T>, places: seq<nat>) {
    |places| == |items| && forall i :: 0 <= i < |places| ==> places[i] < |list| && list[places[i]] == items[i]
  }

  /** These are the places of the items that `keep` holds for. */
  predicate PlacesOf<T>(list: seq<T>, keep: T -> bool, places: seq<nat>) {
    forall k :: 0 <= k < |list| ==> (keep(list[k]) <==> k in places)
  }

  /** Just the items that `keep` holds for are kept, as often as they stand in the list, in order. */
  ghost predicate Keeps<T>(list: seq<T>, keep: T -> bool, kept: seq<T>) {
    exists places: seq<nat> :: Rising(places) && StandAt(list, kept, places) && PlacesOf(list, keep, places)
  }

  lemma KeepsNone<T>(keep: T -> bool)
    ensures Keeps([], keep, [])
  {
    assert Rising([]) && StandAt<T>([], [], []) && PlacesOf([], keep, []);
  }

  lemma KeepsOne<T>(keep: T -> bool, x: T)
    ensures Keeps([x], keep, if keep(x) then [x] else [])
  {
    if keep(x) {
      assert Rising([0]) && StandAt([x], [x], [0]) && PlacesOf([x], keep, [0]);
    } else {
      assert Rising([]) && StandAt([x], [], []) && PlacesOf([x], keep, []);
    }
  }

  function Moved(places: seq<nat>, offset: nat): (moved: seq<nat>)
    ensures |moved| == |places| && forall i :: 0 <= i < |places| ==> moved[i] == places[i] + offset
  {
    seq(|places|, i requires 0 <= i < |places| => places[i] + offset)
  }

  /** What is kept of two lists one after the other. */
  lemma KeepsJoin<T>(keep: T -> bool, a: seq<T>, keptA: seq<T>, b: seq<T>, keptB: seq<T>)
    requires Keeps(a, keep, keptA) && Keeps(b, keep, keptB)
    ensures Keeps(a + b, keep, keptA + keptB)
  {
    hide Rising, StandAt, PlacesOf;
    var p: seq<nat> :| Rising(p) && StandAt(a, keptA, p) && PlacesOf(a, keep, p);
    var q: seq<nat> :| Rising(q) && StandAt(b, keptB, q) && PlacesOf(b, keep, q);
    RisingJoin(a, keptA, p, q);
    StandJoin(a, keptA, p, b, keptB, q);
    PlacesJoin(keep, a, keptA, p, b, q);
  }

  lemma RisingJoin<T>(a: seq<T>, keptA: seq<T>, p: seq<nat>, q: seq<nat>)
    requires Rising(p) && StandAt(a, keptA, p) && Rising(q)
    ensures Rising(p + Moved(q, |a|))
  {
  }

  lemma StandJoin<T>(a: seq<T>, keptA: seq<T>, p: seq<nat>, b: seq<T>, keptB: seq<T>, q: seq<nat>)
    requires StandAt(a, keptA, p) && StandAt(b, keptB, q)
    ensures StandAt(a + b, keptA + keptB, p + Moved(q, |a|))
  {
    var places := p + Moved(q, |a|);
    assert forall i :: |p| <= i < |places| ==> places[i] == q[i - |p|] + |a|;
  }

  lemma PlacesJoin<T>(keep: T -> bool, a: seq<T>, keptA: seq<T>, p: seq<nat>, b: seq<T>, q: seq<nat>)
    requires StandAt(a, keptA, p) && PlacesOf(a, keep, p) && PlacesOf(b, keep, q)
    ensures PlacesOf(a + b, keep, p + Moved(q, |a|))
  {
    forall k | 0 <= k < |a + b|
      ensures keep((a + b)[k]) <==> k in p + Moved(q, |a|)
    {
      PlaceJoined(p, q, |a|, k);
      if k >= |a| {
        assert (a + b)[k] == b[k - |a|];
      }
    }
  }

  lemma PlaceJoined(p: seq<nat>, q: seq<nat>, n: nat, k: nat)
    requires forall i :: 0 <= i < |p| ==> p[i] < n
    ensures k in p + Moved(q, n) <==> if k < n then k in p else k - n in q
  {
    var moved := Moved(q, n);
    if k >= n && k - n in q {
      var i :| 0 <= i < |q| && q[i] == k - n;
      assert moved[i] == k;
    }
  }

  /** One more item behind the list. */
  lemma KeepsNext<T>(keep: T -> bool, list: seq<T>, kept: seq<T>, x: T)
    requires Keeps(list, keep, kept)
    ensures Keeps(list + [x], keep, if keep(x) then kept + [x] else kept)
  {
    hide Keeps;
    KeepsOne(keep, x);
    KeepsJoin(keep, list, kept, [x], if keep(x) then [x] else []);
    assert kept + [] == kept;
  }

  /** One more item in front of it. */
  lemma KeepsFirst<T>(keep: T -> bool, x: T, list: seq<T>, kept: seq<T>)
    requires Keeps(list, keep, kept)
    ensures Keeps([x] + list, keep, if keep(x) then [x] + kept else kept)
  {
    hide Keeps;
    KeepsOne(keep, x);
    KeepsJoin(keep, [x], if keep(x) then [x] else [], list, kept);
    assert [] + kept == kept;
  }
}
