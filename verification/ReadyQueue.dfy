/** The Master's ready queue: the comparison, the sort and the aging of the waiting queries.
    Queries are named by their qid, which is also their index in `prio`. */
module ReadyQueue {

  function Priority(prio: seq<int>, q: nat): int {
    if q < |prio| then prio[q] else 0
  }

  // comparar_prioridad: the lower number is more urgent, ties go to the older query.
  predicate Before(prio: seq<int>, a: nat, b: nat) {
    if Priority(prio, a) == Priority(prio, b) then a < b else Priority(prio, a) < Priority(prio, b)
  }

  ghost predicate Ordered(prio: seq<int>, s: seq<nat>) {
    forall i, j :: 0 <= i < j < |s| ==> !Before(prio, s[j], s[i])
  }

  ghost predicate Distinct(s: seq<nat>) {
    forall i, j :: 0 <= i < j < |s| ==> s[i] != s[j]
  }

  function Place(prio: seq<int>, x: nat, s: seq<nat>): seq<nat> {
    if s != [] && Before(prio, s[0], x) then [s[0]] + Place(prio, x, s[1..]) else [x] + s
  }

  /** The library's list_sort, as an insertion sort; `SortedUnique` shows that every sorted
      permutation is the same sequence, so nothing depends on the algorithm. */
  function Sort(prio: seq<int>, s: seq<nat>): seq<nat> {
    if s == [] then [] else Place(prio, s[0], Sort(prio, s[1..]))
  }

  lemma InPermutation(a: seq<nat>, b: seq<nat>, q: nat)
    requires multiset(a) == multiset(b)
    ensures |a| == |b| && (q in a <==> q in b)
  {
    assert |multiset(a)| == |a| && |multiset(b)| == |b|;
    assert q in a <==> q in multiset(a);
    assert q in b <==> q in multiset(b);
  }

  lemma {:induction false} PlacePermutes(prio: seq<int>, x: nat, s: seq<nat>)
    ensures multiset(Place(prio, x, s)) == multiset([x] + s)
  {
    if s != [] && Before(prio, s[0], x) {
      PlacePermutes(prio, x, s[1..]);
      assert multiset(Place(prio, x, s)) == multiset{s[0]} + multiset([x] + s[1..]);
      assert s == [s[0]] + s[1..];
    }
  }

  lemma {:induction false} PlaceOrders(prio: seq<int>, x: nat, s: seq<nat>)
    requires Ordered(prio, s)
    ensures Ordered(prio, Place(prio, x, s))
  {
    if s != [] && Before(prio, s[0], x) {
      var rest := Place(prio, x, s[1..]);
      PlaceOrders(prio, x, s[1..]);
      PlacePermutes(prio, x, s[1..]);
      forall j | 0 <= j < |rest| ensures !Before(prio, rest[j], s[0]) {
        InPermutation(rest, [x] + s[1..], rest[j]);
      }
    }
  }

  lemma {:induction false} SortSorts(prio: seq<int>, s: seq<nat>)
    ensures Ordered(prio, Sort(prio, s))
    ensures multiset(Sort(prio, s)) == multiset(s)
  {
    if s != [] {
      var rest := Sort(prio, s[1..]);
      SortSorts(prio, s[1..]);
      PlaceOrders(prio, s[0], rest);
      PlacePermutes(prio, s[0], rest);
      assert s == [s[0]] + s[1..];
      hide Ordered, Place;
      assert multiset([s[0]] + rest) == multiset{s[0]} + multiset(rest);
    }
  }

  lemma DropHead(s: seq<nat>)
    requires s != []
    ensures multiset(s[1..]) == multiset(s) - multiset{s[0]}
  {
    assert s == [s[0]] + s[1..];
  }

  /** Two sorted arrangements of the same waiting queries are the same queue. */
  lemma {:induction false} SortedUnique(prio: seq<int>, a: seq<nat>, b: seq<nat>)
    requires Ordered(prio, a) && Ordered(prio, b) && multiset(a) == multiset(b)
    ensures a == b
  {
    InPermutation(a, b, 0);
    if a != [] {
      assert a[0] == b[0] by {
        InPermutation(a, b, a[0]);
        InPermutation(a, b, b[0]);
      }
      DropHead(a);
      DropHead(b);
      SortedUnique(prio, a[1..], b[1..]);
    }
  }

  lemma SortIsOnlyArrangement(prio: seq<int>, s: seq<nat>, r: seq<nat>)
    ensures r == Sort(prio, s) <==> Ordered(prio, r) && multiset(r) == multiset(s)
  {
    SortSorts(prio, s);
    if Ordered(prio, r) && multiset(r) == multiset(s) {
      SortedUnique(prio, r, Sort(prio, s));
    }
  }

  lemma InSort(prio: seq<int>, s: seq<nat>, q: nat)
    ensures q in Sort(prio, s) <==> q in s
    ensures |Sort(prio, s)| == |s|
  {
    SortSorts(prio, s);
    InPermutation(Sort(prio, s), s, q);
  }

  function Decrement(p: int): int {
    if p > 0 then p - 1 else p
  }

  /** One aging pass over the queue, front to back. */
  function Aged(prio: seq<int>, ready: seq<nat>): (r: seq<int>)
    ensures |r| == |prio|
  {
    if ready == [] then prio
    else
      var n := |ready| - 1;
      var p := Aged(prio, ready[..n]);
      if ready[n] < |p| then p[ready[n] := Decrement(p[ready[n]])] else p
  }

  /** Each waiting query loses one, floored at 0; the others keep their priority. */
  lemma {:induction false} AgedAt(prio: seq<int>, ready: seq<nat>, q: nat)
    requires Distinct(ready)
    ensures Priority(Aged(prio, ready), q) == if q in ready then Decrement(Priority(prio, q)) else Priority(prio, q)
  {
    if ready != [] {
      var n := |ready| - 1;
      AgedAt(prio, ready[..n], q);
      assert ready == ready[..n] + [ready[n]];
    }
  }

  // Also with repeated entries, aging never raises a priority and never takes one below 0.
  lemma {:induction false} AgedBounds(prio: seq<int>, ready: seq<nat>, q: nat)
    ensures Priority(Aged(prio, ready), q) <= Priority(prio, q)
    ensures Priority(prio, q) >= 0 ==> Priority(Aged(prio, ready), q) >= 0
    ensures q !in ready ==> Priority(Aged(prio, ready), q) == Priority(prio, q)
  {
    if ready != [] {
      var n := |ready| - 1;
      AgedBounds(prio, ready[..n], q);
      assert ready == ready[..n] + [ready[n]];
    }
  }

  ghost predicate Nondecreasing(prio: seq<int>, s: seq<nat>) {
    forall i, j :: 0 <= i < j < |s| ==> Priority(prio, s[i]) <= Priority(prio, s[j])
  }

  /** Before the re-sort the aged priorities are still nondecreasing along the queue. */
  lemma AgingKeepsPrioritiesNondecreasing(prio: seq<int>, ready: seq<nat>)
    requires Distinct(ready) && Ordered(prio, ready)
    ensures Nondecreasing(Aged(prio, ready), ready)
  {
    var p := Aged(prio, ready);
    forall i, j | 0 <= i < j < |ready| ensures Priority(p, ready[i]) <= Priority(p, ready[j]) {
      AgedAt(prio, ready, ready[i]);
      AgedAt(prio, ready, ready[j]);
      assert !Before(prio, ready[j], ready[i]);
    }
  }

  // The first position whose priority reaches `bound`.
  function Cut(prio: seq<int>, s: seq<nat>, bound: int): (k: nat)
    ensures k <= |s|
    ensures forall i :: 0 <= i < k ==> Priority(prio, s[i]) < bound
    ensures k < |s| ==> Priority(prio, s[k]) >= bound
  {
    if s == [] || Priority(prio, s[0]) >= bound then 0 else 1 + Cut(prio, s[1..], bound)
  }

  // Outside the priority-0 group, aging keeps the order of any two waiting queries.
  lemma AgingKeepsOrder(prio: seq<int>, ready: seq<nat>, i: nat, j: nat)
    requires Distinct(ready) && Ordered(prio, ready) && i < j < |ready|
    requires Priority(Aged(prio, ready), ready[i]) != 0 || Priority(Aged(prio, ready), ready[j]) != 0
    ensures !Before(Aged(prio, ready), ready[j], ready[i])
  {
    AgedAt(prio, ready, ready[i]);
    AgedAt(prio, ready, ready[j]);
    assert !Before(prio, ready[j], ready[i]);
  }

  /** The re-sort after an aging pass only permutes queries inside the priority-0 group: every
      position holding another priority keeps its query, and every position keeps its priority. */
  lemma ResortPermutesOnlyZeros(prio: seq<int>, ready: seq<nat>)
    requires Distinct(ready) && Ordered(prio, ready)
    ensures var p := Aged(prio, ready);
            |Sort(p, ready)| == |ready| &&
            forall i :: 0 <= i < |ready| ==>
              && Priority(p, Sort(p, ready)[i]) == Priority(p, ready[i])
              && (Priority(p, ready[i]) != 0 ==> Sort(p, ready)[i] == ready[i])
  {
    hide *;
    var p := Aged(prio, ready);
    AgingKeepsPrioritiesNondecreasing(prio, ready);
    var a := Cut(p, ready, 0);
    var b := Cut(p, ready, 1);
    CutsAround(p, ready, a, b);
    var middle := Sort(p, ready[a..b]);
    SortOfZeros(p, ready[a..b]);
    var r := ready[..a] + middle + ready[b..];
    SplicedPermutes(ready, a, b, middle);
    SplicedOrdered(prio, ready, a, b, middle);
    SortIsOnlyArrangement(p, ready, r);
    SplicedAgrees(p, ready, a, b, middle);
  }

  lemma SplicedAgrees(p: seq<int>, ready: seq<nat>, a: nat, b: nat, middle: seq<nat>)
    requires a <= b <= |ready| && |middle| == b - a
    requires forall k :: a <= k < b ==> Priority(p, ready[k]) == 0
    requires forall k :: 0 <= k < |middle| ==> Priority(p, middle[k]) == 0
    ensures var r := ready[..a] + middle + ready[b..];
            |r| == |ready| && forall i :: 0 <= i < |ready| ==>
              Priority(p, r[i]) == Priority(p, ready[i]) && (Priority(p, ready[i]) != 0 ==> r[i] == ready[i])
  {
    hide *;
    var r := ready[..a] + middle + ready[b..];
    forall i | 0 <= i < |ready|
      ensures Priority(p, r[i]) == Priority(p, ready[i]) && (Priority(p, ready[i]) != 0 ==> r[i] == ready[i])
    {
      if a <= i < b {
        assert r[i] == middle[i - a];
      } else {
        assert r[i] == ready[i];
      }
    }
  }

  lemma SplicedPermutes(ready: seq<nat>, a: nat, b: nat, middle: seq<nat>)
    requires a <= b <= |ready| && multiset(middle) == multiset(ready[a..b])
    ensures multiset(ready[..a] + middle + ready[b..]) == multiset(ready)
  {
    assert ready == ready[..a] + ready[a..b] + ready[b..];
  }

  lemma SplicedOrdered(prio: seq<int>, ready: seq<nat>, a: nat, b: nat, middle: seq<nat>)
    requires Distinct(ready) && Ordered(prio, ready)
    requires a <= b <= |ready| && |middle| == b - a && Ordered(Aged(prio, ready), middle)
    requires forall k :: 0 <= k < a ==> Priority(Aged(prio, ready), ready[k]) < 0
    requires forall k :: a <= k < b ==> Priority(Aged(prio, ready), ready[k]) == 0
    requires forall k :: b <= k < |ready| ==> Priority(Aged(prio, ready), ready[k]) > 0
    requires forall k :: 0 <= k < |middle| ==> Priority(Aged(prio, ready), middle[k]) == 0
    ensures Ordered(Aged(prio, ready), ready[..a] + middle + ready[b..])
  {
    var p := Aged(prio, ready);
    var r := ready[..a] + middle + ready[b..];
    hide Aged;
    forall i, j | 0 <= i < j < |r| ensures !Before(p, r[j], r[i]) {
      if (i < a || b <= i) && (j < a || b <= j) {
        AgingKeepsOrder(prio, ready, i, j);
      } else if a <= i && j < b {
        assert !Before(p, middle[j - a], middle[i - a]);
      }
    }
  }

  lemma SortOfZeros(p: seq<int>, s: seq<nat>)
    requires forall i :: 0 <= i < |s| ==> Priority(p, s[i]) == 0
    ensures |Sort(p, s)| == |s| && Ordered(p, Sort(p, s)) && multiset(Sort(p, s)) == multiset(s)
    ensures forall i :: 0 <= i < |s| ==> Priority(p, Sort(p, s)[i]) == 0
  {
    SortSorts(p, s);
    InSort(p, s, 0);
    forall i | 0 <= i < |s| ensures Priority(p, Sort(p, s)[i]) == 0 {
      InSort(p, s, Sort(p, s)[i]);
    }
  }

  // From the cut on, a queue with nondecreasing priorities stays at the bound or above.
  lemma FromCut(p: seq<int>, s: seq<nat>, bound: int)
    requires Nondecreasing(p, s)
    ensures forall i :: Cut(p, s, bound) <= i < |s| ==> Priority(p, s[i]) >= bound
  {
    hide Cut, Priority;
    var k := Cut(p, s, bound);
    forall i | k <= i < |s| ensures Priority(p, s[i]) >= bound {
      assert k == i || Priority(p, s[k]) <= Priority(p, s[i]);
    }
  }

  // The two cuts bound the priority-0 group of a queue with nondecreasing priorities.
  lemma CutsAround(p: seq<int>, ready: seq<nat>, a: nat, b: nat)
    requires Nondecreasing(p, ready)
    requires a == Cut(p, ready, 0) && b == Cut(p, ready, 1)
    ensures a <= b <= |ready|
    ensures forall i :: 0 <= i < a ==> Priority(p, ready[i]) < 0
    ensures forall i :: a <= i < b ==> Priority(p, ready[i]) == 0
    ensures forall i :: b <= i < |ready| ==> Priority(p, ready[i]) > 0
    ensures forall i :: 0 <= i < b - a ==> Priority(p, ready[a..b][i]) == 0
  {
    FromCut(p, ready, 0);
    FromCut(p, ready, 1);
    hide *;
    assert a <= b by {
      assert b < |ready| ==> Priority(p, ready[b]) >= 1;
    }
  }
}
