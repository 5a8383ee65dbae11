/**
 * The two route builders of algo/ShortestPath.java.
 *
 * `calculateDistance` (a double-precision haversine) is not modelled: every
 * builder takes the distance as a parameter `dist`, called as the source
 * calls it, `dist(candidate, reference)`, and every property below holds
 * for any such function.
 */
module ShortestPath {
  import opened JavaLists
  import opened Addresses

  type Distance = (Address, Address) -> real

  // ---------------------------------------------------------------------
  // The recursive overload: findOptimalRoute(ref, list, newList)
  // ---------------------------------------------------------------------

  /** The distance from every address of `s` to `ref`, in list order. */
  function Distances(ref: Address, s: seq<Address>, dist: Distance): (ds: seq<real>)
    ensures |ds| == |s|
    ensures forall i :: 0 <= i < |s| ==> ds[i] == dist(s[i], ref)
  {
    seq(|s|, i requires 0 <= i < |s| => dist(s[i], ref))
  }

  /**
   * `Collections.min` of the distances, then `indexOf` that minimum: the
   * address of `s` nearest to `ref`, and of several equally near ones the
   * one with the lowest index.
   */
  function NearestIndex(ref: Address, s: seq<Address>, dist: Distance): (m: nat)
    requires |s| > 0
    ensures m < |s|
    ensures forall j :: 0 <= j < |s| ==> dist(s[m], ref) <= dist(s[j], ref)
    ensures forall j :: 0 <= j < m ==> dist(s[m], ref) < dist(s[j], ref)
  {
    var ds := Distances(ref, s, dist);
    var min := Min(ds);
    var i := IndexOf(ds, min);
    assert 0 <= i && ds[i] == min;
    assert forall j :: 0 <= j < |s| ==> ds[j] == dist(s[j], ref);
    assert forall j :: 0 <= j < i ==> ds[j] != min by {
      forall j | 0 <= j < i ensures ds[j] != min {
        assert ds[j] == ds[..i][j];
      }
    }
    i
  }

  /**
   * The addresses the recursive overload appends to `newList`: `ref`, then
   * the address of `s` nearest to `ref`, then the route built from that
   * address over what `list.remove` leaves.
   */
  function GreedyRoute(ref: Address, s: seq<Address>, dist: Distance): (route: seq<Address>)
    ensures |route| == |s| + 1
    decreases |s|
  {
    if s == [] then [ref]
    else
      var m := NearestIndex(ref, s, dist);
      [ref] + GreedyRoute(s[m], RemoveSame(s, s[m]), dist)
  }

  /**
   * findOptimalRoute(ref, list, newList): appends `ref` to `newList`, then
   * repeatedly moves the remaining address nearest to the current one from
   * `list` to `newList`. On return the caller's `list` is empty.
   * The two lists must be different objects: with one list for both, every
   * call adds an address and removes one, and the recursion never ends.
   */
  method FindOptimalRouteInto(ref: Address, list: AddressList, newList: AddressList, dist: Distance)
    returns (r: AddressList)
    requires list != newList
    modifies list, newList
    ensures r == newList
    ensures list.items == []
    ensures newList.items == old(newList.items) + GreedyRoute(ref, old(list.items), dist)
    decreases |list.items|
  {
    ghost var s := list.items;
    newList.Add(ref);
    if list.items == [] {
      return newList;
    }
    var minIndex := NearestIndex(ref, list.items, dist);
    var address := list.items[minIndex];
    var _ := list.Remove(address);
    var _ := FindOptimalRouteInto(address, list, newList, dist);
    GreedyRouteAppend(old(newList.items), ref, s, dist);
    r := newList;
  }

  /** One step of the route: `ref`, then the route from the nearest address over the rest. */
  lemma GreedyRouteAppend(before: seq<Address>, ref: Address, s: seq<Address>, dist: Distance)
    requires s != []
    ensures var m := NearestIndex(ref, s, dist);
      before + [ref] + GreedyRoute(s[m], RemoveSame(s, s[m]), dist) == before + GreedyRoute(ref, s, dist)
  {
  }

  /**
   * The route starts at `ref` (an empty `list` gives just `ref`) and visits
   * only addresses taken from `s`.
   */
  lemma {:induction false} GreedyRouteStart(ref: Address, s: seq<Address>, dist: Distance)
    ensures s == [] ==> GreedyRoute(ref, s, dist) == [ref]
    ensures GreedyRoute(ref, s, dist)[0] == ref
    ensures forall j :: 1 <= j <= |s| ==> GreedyRoute(ref, s, dist)[j] in s
    decreases |s|
  {
    if s != [] {
      var m := NearestIndex(ref, s, dist);
      var rest := RemoveSame(s, s[m]);
      GreedyRouteStart(s[m], rest, dist);
      forall j | 1 <= j <= |s| ensures GreedyRoute(ref, s, dist)[j] in s {
        var x := GreedyRoute(s[m], rest, dist)[j - 1];
        if j > 1 {
          assert x in multiset(rest);
        }
      }
    }
  }

  /**
   * Greedy choice along `route`: every address is at least as near to the
   * address before it as every address that comes after it.
   */
  ghost predicate NearestFirst(route: seq<Address>, dist: Distance) {
    forall k, j :: 0 <= k && k + 1 < j < |route| ==>
      dist(route[k + 1], route[k]) <= dist(route[j], route[k])
  }

  /** Putting `ref` in front keeps the greedy choice when the first address is nearest to `ref`. */
  lemma NearestFirstCons(ref: Address, tail: seq<Address>, dist: Distance)
    requires NearestFirst(tail, dist)
    requires forall j :: 0 < j < |tail| ==> dist(tail[0], ref) <= dist(tail[j], ref)
    ensures NearestFirst([ref] + tail, dist)
  {
    var route := [ref] + tail;
    forall k, j | 0 <= k && k + 1 < j < |route|
      ensures dist(route[k + 1], route[k]) <= dist(route[j], route[k])
    {
      if k > 0 {
        assert route[k] == tail[k - 1] && route[k + 1] == tail[k] && route[j] == tail[j - 1];
      }
    }
  }

  /** The route chooses greedily at every step. */
  lemma {:induction false} GreedyRouteNearestFirst(ref: Address, s: seq<Address>, dist: Distance)
    ensures NearestFirst(GreedyRoute(ref, s, dist), dist)
    decreases |s|
  {
    if s != [] {
      var m := NearestIndex(ref, s, dist);
      var rest := RemoveSame(s, s[m]);
      var tail := GreedyRoute(s[m], rest, dist);
      GreedyRouteAppend([], ref, s, dist);
      GreedyRouteNearestFirst(s[m], rest, dist);
      NearestStepsFirst(ref, s[m], rest, s, dist);
      NearestFirstCons(ref, tail, dist);
    }
  }

  /**
   * The route from `x` over `rest` visits only addresses of `s`, so when `x`
   * is nearest to `ref` among `s` it is no farther than anything visited later.
   */
  lemma NearestStepsFirst(ref: Address, x: Address, rest: seq<Address>, s: seq<Address>, dist: Distance)
    requires multiset(rest) <= multiset(s)
    requires forall i :: 0 <= i < |s| ==> dist(x, ref) <= dist(s[i], ref)
    ensures var tail := GreedyRoute(x, rest, dist);
      forall j :: 0 < j < |tail| ==> dist(tail[0], ref) <= dist(tail[j], ref)
  {
    var tail := GreedyRoute(x, rest, dist);
    GreedyRouteStart(x, rest, dist);
    forall j | 0 < j < |tail| ensures dist(tail[0], ref) <= dist(tail[j], ref) {
      assert tail[j] in multiset(rest);
      assert tail[j] in multiset(s);
      var i :| 0 <= i < |s| && s[i] == tail[j];
    }
  }

  /**
   * On a consistent list, `list.remove(address)` removes exactly the entry
   * at `minIndex`: an earlier entry that were the same object would be
   * equally near, and `indexOf` would have returned it.
   */
  lemma RemoveNearest(ref: Address, s: seq<Address>, dist: Distance)
    requires Consistent(s) && s != []
    ensures var m := NearestIndex(ref, s, dist);
      RemoveSame(s, s[m]) == s[..m] + s[m + 1..]
  {
    var m := NearestIndex(ref, s, dist);
    forall j | 0 <= j < m ensures !Same(s[j], s[m]) {
      assert s[j] != s[m];
      assert s[j] in s && s[m] in s;
    }
    assert IndexOfSame(s, s[m]) == m;
  }

  /** A list is its `m`-th entry plus the entries around it. */
  lemma SplitAt(s: seq<Address>, m: nat)
    requires m < |s|
    ensures multiset(s) == multiset{s[m]} + multiset(s[..m] + s[m + 1..])
  {
    assert s == s[..m] + [s[m]] + s[m + 1..];
  }

  /**
   * On a consistent list, the route is `ref` followed by a permutation of
   * the list: every address is visited exactly once.
   */
  lemma {:induction false} GreedyRoutePermutation(ref: Address, s: seq<Address>, dist: Distance)
    requires Consistent(s)
    ensures multiset(GreedyRoute(ref, s, dist)) == multiset{ref} + multiset(s)
    decreases |s|
  {
    if s != [] {
      var m := NearestIndex(ref, s, dist);
      var rest := RemoveSame(s, s[m]);
      RemoveNearest(ref, s, dist);
      SplitAt(s, m);
      ConsistentSub(s, rest);
      GreedyRoutePermutation(s[m], rest, dist);
      GreedyRouteAppend([], ref, s, dist);
    }
  }

  // ---------------------------------------------------------------------
  // The two-argument overload: findOptimalRoute(ref, addresses)
  // ---------------------------------------------------------------------

  /** `s` is in nondecreasing distance to the fixed address `ref`. */
  ghost predicate SortedByDistanceTo(ref: Address, s: seq<Address>, dist: Distance) {
    forall i, j :: 0 <= i < j < |s| ==> dist(s[i], ref) <= dist(s[j], ref)
  }

  /** The last of the addresses `s`, or `prev` when there are none. */
  function LastOr(prev: Address, s: seq<Address>): Address {
    if s == [] then prev else s[|s| - 1]
  }

  /**
   * The polling loop's output for the poll order `s`: each polled address
   * is added unless it is the same object as the one polled just before it
   * (`prev` for the first).
   */
  function SkipRepeats(prev: Address, s: seq<Address>): (r: seq<Address>)
    ensures |r| <= |s|
    decreases |s|
  {
    if s == [] then []
    else (if Same(s[0], prev) then [] else [s[0]]) + SkipRepeats(s[0], s[1..])
  }

  /**
   * `PriorityQueue<Address>` ordered by the distance to `ref`. Only which
   * addresses are queued is modelled: of several equally near addresses,
   * `Poll` may return any.
   */
  class AddressQueue {
    const ref: Address
    const dist: Distance
    var contents: multiset<Address>

    /** `new PriorityQueue<>(Comparator.comparingDouble(a -> calculateDistance(a, ref)))`. */
    constructor (ref: Address, dist: Distance)
      ensures this.ref == ref && this.dist == dist
      ensures contents == multiset{}
    {
      this.ref := ref;
      this.dist := dist;
      contents := multiset{};
    }

    /** `addAll`. */
    method AddAll(s: seq<Address>)
      modifies this
      ensures contents == old(contents) + multiset(s)
    {
      contents := contents + multiset(s);
    }

    /** `poll` on a non-empty queue: removes and returns a nearest address. */
    method Poll() returns (next: Address)
      requires contents != multiset{}
      modifies this
      ensures next in old(contents)
      ensures contents == old(contents) - multiset{next}
      ensures forall a :: a in old(contents) ==> dist(next, ref) <= dist(a, ref)
    {
      NearestExists(contents, ref, dist);
      next :| next in contents && forall a :: a in contents ==> dist(next, ref) <= dist(a, ref);
      contents := contents - multiset{next};
    }
  }

  /** A non-empty queue has a head: an address no farther from `ref` than any other. */
  lemma {:induction false} NearestExists(m: multiset<Address>, ref: Address, dist: Distance)
    requires m != multiset{}
    ensures exists n :: n in m && forall a :: a in m ==> dist(n, ref) <= dist(a, ref)
    decreases |m|
  {
    var y :| y in m;
    var rest := m - multiset{y};
    if rest == multiset{} {
      OnlyQueued(m, y, ref, dist);
    } else {
      NearestExists(rest, ref, dist);
      var z :| z in rest && forall a :: a in rest ==> dist(z, ref) <= dist(a, ref);
      NearerOfTwo(m, y, z, ref, dist);
    }
  }

  /** A queue holding copies of one address only has that address at its head. */
  lemma OnlyQueued(m: multiset<Address>, y: Address, ref: Address, dist: Distance)
    requires y in m && m - multiset{y} == multiset{}
    ensures forall a :: a in m ==> dist(y, ref) <= dist(a, ref)
  {
    forall a | a in m ensures a == y {
      assert (m - multiset{y})[a] == 0;
    }
  }

  /** Of `y` and the head `z` of the rest of the queue, the nearer one heads the whole queue. */
  lemma NearerOfTwo(m: multiset<Address>, y: Address, z: Address, ref: Address, dist: Distance)
    requires y in m && z in m - multiset{y}
    requires forall a :: a in m - multiset{y} ==> dist(z, ref) <= dist(a, ref)
    ensures var n := if dist(y, ref) <= dist(z, ref) then y else z;
      n in m && forall a :: a in m ==> dist(n, ref) <= dist(a, ref)
  {
    var n := if dist(y, ref) <= dist(z, ref) then y else z;
    forall a | a in m ensures dist(n, ref) <= dist(a, ref) {
      if a != y {
        assert a in m - multiset{y};
      }
    }
  }

  /**
   * findOptimalRoute(ref, addresses): `ref`, then the addresses in the order
   * a priority queue keyed on the distance to the fixed `ref` yields them,
   * skipping an address that is the same object as the one polled before
   * it. `polled` is that poll order. The caller's list is only read.
   */
  method FindOptimalRoute(ref: Address, addresses: AddressList?, dist: Distance)
    returns (route: seq<Address>, ghost polled: seq<Address>)
    ensures |route| >= 1 && route[0] == ref
    ensures addresses == null || addresses.items == [] ==> route == [ref]
    ensures addresses == null ==> polled == []
    ensures addresses != null ==> multiset(polled) == multiset(addresses.items)
    ensures SortedByDistanceTo(ref, polled, dist)
    ensures route == [ref] + SkipRepeats(ref, polled)
    ensures SortedByDistanceTo(ref, route[1..], dist)
    ensures addresses != null && DistinctObjects([ref] + addresses.items) ==>
      |route| == 1 + |addresses.items| && multiset(route[1..]) == multiset(addresses.items)
  {
    route := [ref];
    polled := [];
    if addresses == null || addresses.items == [] {
      return;
    }
    var queue := new AddressQueue(ref, dist);
    queue.AddAll(addresses.items);
    var prev := ref;
    while queue.contents != multiset{}
      invariant Draining(ref, addresses.items, queue.contents, polled, route, dist)
      invariant prev == LastOr(ref, polled)
      decreases |queue.contents|
    {
      ghost var queued := queue.contents;
      var next := queue.Poll();
      DrainStep(ref, addresses.items, queued, polled, route, next, dist);
      if !Same(next, prev) {
        route := route + [next];
      }
      assert LastOr(ref, polled + [next]) == next;
      prev := next;
      polled := polled + [next];
    }
    Drained(ref, addresses.items, polled, route, dist);
  }

  /**
   * The polling loop's invariant: the queue and the poll order together
   * hold the caller's addresses, the poll order is sorted and no queued
   * address is nearer than the last one polled, and the route is read off
   * the poll order.
   */
  ghost predicate Draining(ref: Address, items: seq<Address>, queued: multiset<Address>,
                           polled: seq<Address>, route: seq<Address>, dist: Distance)
  {
    && queued + multiset(polled) == multiset(items)
    && SortedByDistanceTo(ref, polled, dist)
    && (polled != [] ==> forall a :: a in queued ==> dist(polled[|polled| - 1], ref) <= dist(a, ref))
    && route == [ref] + SkipRepeats(ref, polled)
  }

  /** Polling a nearest queued address keeps the loop's invariant. */
  lemma DrainStep(ref: Address, items: seq<Address>, queued: multiset<Address>, polled: seq<Address>,
                  route: seq<Address>, next: Address, dist: Distance)
    requires Draining(ref, items, queued, polled, route, dist)
    requires next in queued
    requires forall a :: a in queued ==> dist(next, ref) <= dist(a, ref)
    ensures Draining(ref, items, queued - multiset{next}, polled + [next],
                     if Same(next, LastOr(ref, polled)) then route else route + [next], dist)
  {
    MoveToPolled(items, queued, polled, next);
    SortedSnoc(ref, polled, next, dist);
    RouteSnoc(ref, polled, next);
  }

  /** Moving one address from the queue to the poll order loses nothing. */
  lemma MoveToPolled(items: seq<Address>, queued: multiset<Address>, polled: seq<Address>, next: Address)
    requires queued + multiset(polled) == multiset(items)
    requires next in queued
    ensures (queued - multiset{next}) + multiset(polled + [next]) == multiset(items)
  {
    assert queued == (queued - multiset{next}) + multiset{next};
  }

  /** Once the queue is empty, what the loop's invariant says about the result. */
  lemma Drained(ref: Address, items: seq<Address>, polled: seq<Address>, route: seq<Address>, dist: Distance)
    requires Draining(ref, items, multiset{}, polled, route, dist)
    ensures multiset(polled) == multiset(items)
    ensures SortedByDistanceTo(ref, polled, dist)
    ensures route == [ref] + SkipRepeats(ref, polled)
    ensures SortedByDistanceTo(ref, route[1..], dist)
    ensures DistinctObjects([ref] + items) ==>
      |route| == 1 + |items| && multiset(route[1..]) == multiset(items)
  {
    PolledRoute(ref, items, polled, dist);
    assert route[1..] == SkipRepeats(ref, polled);
  }

  /** What the polling loop's result says about the route, from its poll order alone. */
  lemma PolledRoute(ref: Address, items: seq<Address>, polled: seq<Address>, dist: Distance)
    requires multiset(polled) == multiset(items)
    requires SortedByDistanceTo(ref, polled, dist)
    ensures SortedByDistanceTo(ref, SkipRepeats(ref, polled), dist)
    ensures DistinctObjects([ref] + items) ==> SkipRepeats(ref, polled) == polled
  {
    SkipRepeatsSorted(ref, ref, polled, dist);
    if DistinctObjects([ref] + items) {
      DistinctObjectsPermutation([ref] + items, [ref] + polled);
      SkipRepeatsKeepsAll(ref, polled);
    }
  }

  /** Polling one more address extends the route by it, unless it repeats the last one polled. */
  lemma {:induction false} SkipRepeatsSnoc(prev: Address, s: seq<Address>, x: Address)
    ensures SkipRepeats(prev, s + [x]) ==
      SkipRepeats(prev, s) + (if Same(x, LastOr(prev, s)) then [] else [x])
    decreases |s|
  {
    if s != [] {
      assert (s + [x])[0] == s[0] && (s + [x])[1..] == s[1..] + [x];
      SkipRepeatsSnoc(s[0], s[1..], x);
    } else {
      assert [x][1..] == [];
    }
  }

  /** The route after one more poll, in the shape the polling loop builds it. */
  lemma RouteSnoc(ref: Address, s: seq<Address>, x: Address)
    ensures [ref] + SkipRepeats(ref, s + [x]) ==
      ([ref] + SkipRepeats(ref, s)) + (if Same(x, LastOr(ref, s)) then [] else [x])
  {
    SkipRepeatsSnoc(ref, s, x);
  }

  /** Skipping repeats keeps only addresses of `s`, in their order, so a sorted poll order gives a sorted route. */
  lemma {:induction false} SkipRepeatsSorted(ref: Address, prev: Address, s: seq<Address>, dist: Distance)
    requires SortedByDistanceTo(ref, s, dist)
    ensures multiset(SkipRepeats(prev, s)) <= multiset(s)
    ensures SortedByDistanceTo(ref, SkipRepeats(prev, s), dist)
    decreases |s|
  {
    if s != [] {
      var tail := SkipRepeats(s[0], s[1..]);
      assert s == [s[0]] + s[1..];
      SortedRest(ref, s, dist);
      SkipRepeatsSorted(ref, s[0], s[1..], dist);
      forall a | a in tail ensures dist(s[0], ref) <= dist(a, ref) {
        assert a in multiset(s[1..]);
      }
      if !Same(s[0], prev) {
        SortedCons(ref, s[0], tail, dist);
      }
    }
  }

  /** The rest of a sorted list is sorted, and its first address is no farther than any of the rest. */
  lemma SortedRest(ref: Address, s: seq<Address>, dist: Distance)
    requires s != [] && SortedByDistanceTo(ref, s, dist)
    ensures SortedByDistanceTo(ref, s[1..], dist)
    ensures forall a :: a in s[1..] ==> dist(s[0], ref) <= dist(a, ref)
  {
    forall i, j | 0 <= i < j < |s| - 1 ensures dist(s[1..][i], ref) <= dist(s[1..][j], ref) {
      assert s[1..][i] == s[i + 1] && s[1..][j] == s[j + 1];
    }
    forall a | a in s[1..] ensures dist(s[0], ref) <= dist(a, ref) {
      var j :| 0 <= j < |s| - 1 && s[1..][j] == a;
      assert a == s[j + 1];
    }
  }

  /** An address no farther than any of a sorted list can go in front of it. */
  lemma SortedCons(ref: Address, x: Address, s: seq<Address>, dist: Distance)
    requires SortedByDistanceTo(ref, s, dist)
    requires forall a :: a in s ==> dist(x, ref) <= dist(a, ref)
    ensures SortedByDistanceTo(ref, [x] + s, dist)
  {
    var t := [x] + s;
    forall i, j | 0 <= i < j < |t| ensures dist(t[i], ref) <= dist(t[j], ref) {
      assert t[j] == s[j - 1];
      if i > 0 { assert t[i] == s[i - 1]; }
    }
  }

  /** An address no nearer than the last of a sorted list can go after it. */
  lemma SortedSnoc(ref: Address, s: seq<Address>, x: Address, dist: Distance)
    requires SortedByDistanceTo(ref, s, dist)
    requires s != [] ==> dist(s[|s| - 1], ref) <= dist(x, ref)
    ensures SortedByDistanceTo(ref, s + [x], dist)
  {
    var t := s + [x];
    forall i, j | 0 <= i < j < |t| ensures dist(t[i], ref) <= dist(t[j], ref) {
      assert t[i] == s[i];
      if j < |s| { assert t[j] == s[j]; }
      else if i < |s| - 1 { assert dist(s[i], ref) <= dist(s[|s| - 1], ref); }
    }
  }

  /** When no address repeats the one before it, nothing is skipped. */
  lemma {:induction false} SkipRepeatsKeepsAll(prev: Address, s: seq<Address>)
    requires DistinctObjects([prev] + s)
    ensures SkipRepeats(prev, s) == s
    decreases |s|
  {
    if s != [] {
      assert ([prev] + s)[0] == prev && ([prev] + s)[1] == s[0];
      assert DistinctObjects([s[0]] + s[1..]) by {
        assert [s[0]] + s[1..] == s == ([prev] + s)[1..];
      }
      SkipRepeatsKeepsAll(s[0], s[1..]);
    }
  }

  /** An address counted twice sits at two different positions. */
  lemma {:induction false} TwoPositions(s: seq<Address>, x: Address)
    requires multiset(s)[x] >= 2
    ensures exists p, q :: 0 <= p < |s| && 0 <= q < |s| && p != q && s[p] == x && s[q] == x
    decreases |s|
  {
    assert s == [s[0]] + s[1..];
    if s[0] == x {
      assert x in multiset(s[1..]);
      var q :| 0 <= q < |s| - 1 && s[1..][q] == x;
      assert s[q + 1] == x;
    } else {
      TwoPositions(s[1..], x);
      var p, q :| 0 <= p < |s| - 1 && 0 <= q < |s| - 1 && p != q && s[1..][p] == x && s[1..][q] == x;
      assert s[p + 1] == x && s[q + 1] == x;
    }
  }

  /** Two positions holding one address make it count twice. */
  lemma TwiceCounted(t: seq<Address>, i: nat, j: nat)
    requires i < j < |t| && t[i] == t[j]
    ensures multiset(t)[t[i]] >= 2
  {
    assert t == t[..j] + [t[j]] + t[j + 1..];
    assert t[i] in t[..j];
  }

  /** Having no duplicate objects survives reordering. */
  lemma DistinctObjectsPermutation(s: seq<Address>, t: seq<Address>)
    requires DistinctObjects(s)
    requires multiset(s) == multiset(t)
    ensures DistinctObjects(t)
  {
    forall i, j | 0 <= i < |t| && 0 <= j < |t| && i != j ensures t[i].id != t[j].id {
      if t[i] == t[j] {
        if i < j { TwiceCounted(t, i, j); } else { TwiceCounted(t, j, i); }
        TwoPositions(s, t[i]);
        assert false;
      } else {
        assert t[i] in multiset(s) && t[j] in multiset(s);
        var p :| 0 <= p < |s| && s[p] == t[i];
        var q :| 0 <= q < |s| && s[q] == t[j];
      }
    }
  }

  // ---------------------------------------------------------------------
  // The two overloads order differently
  // ---------------------------------------------------------------------

  /** Distance along one meridian line, for the example below. */
  function LongitudeGap(a: Address, b: Address): real {
    if a.longitude <= b.longitude then b.longitude - a.longitude else a.longitude - b.longitude
  }

  /**
   * From a start at longitude 0 with stops at longitudes 1, -2 and 3, the
   * recursive overload goes 0, 1, 3, -2 (always to the nearest remaining
   * stop), while the two-argument overload, which sorts by the distance to
   * the start, can only go 0, 1, -2, 3.
   */
  lemma FixedReferenceIsNotNearestNeighbour(r: Address, a: Address, b: Address, c: Address)
    requires r.longitude == 0.0 && a.longitude == 1.0 && b.longitude == -2.0 && c.longitude == 3.0
    requires a.id != b.id && a.id != c.id && b.id != c.id
    ensures GreedyRoute(r, [a, b, c], LongitudeGap) == [r, a, c, b]
    ensures !SortedByDistanceTo(r, [a, c, b], LongitudeGap)
    ensures SortedByDistanceTo(r, [a, b, c], LongitudeGap)
  {
    LongitudeExample(r, a, b, c);
    ExampleFromStart(r, a, b, c, LongitudeGap);
    ExampleFromA(a, b, c, LongitudeGap);
    PrependToThree(r, a, c, b);
    assert LongitudeGap([a, c, b][1], r) > LongitudeGap([a, c, b][2], r);
    SortedThree(r, a, b, c, LongitudeGap);
  }

  lemma PrependToThree(w: Address, x: Address, y: Address, z: Address)
    ensures [w] + [x, y, z] == [w, x, y, z]
  {
  }

  /** The distances of the example, by longitude alone. */
  lemma LongitudeExample(r: Address, a: Address, b: Address, c: Address)
    requires r.longitude == 0.0 && a.longitude == 1.0 && b.longitude == -2.0 && c.longitude == 3.0
    ensures LongitudeGap(a, r) == 1.0 && LongitudeGap(b, r) == 2.0 && LongitudeGap(c, r) == 3.0
    ensures LongitudeGap(b, a) == 3.0 && LongitudeGap(c, a) == 2.0
  {
  }

  lemma SortedThree(ref: Address, x: Address, y: Address, z: Address, dist: Distance)
    requires dist(x, ref) <= dist(y, ref) <= dist(z, ref)
    ensures SortedByDistanceTo(ref, [x, y, z], dist)
  {
  }

  lemma ExampleFromC(b: Address, c: Address, dist: Distance)
    ensures GreedyRoute(c, [b], dist) == [c, b]
  {
    assert NearestIndex(c, [b], dist) == 0;
    assert RemoveSame([b], b) == [];
    assert GreedyRoute(c, [b], dist) == [c] + [b];
  }

  lemma ExampleFromA(a: Address, b: Address, c: Address, dist: Distance)
    requires b.id != c.id && dist(c, a) < dist(b, a)
    ensures GreedyRoute(a, [b, c], dist) == [a, c, b]
  {
    assert NearestIndex(a, [b, c], dist) == 1;
    assert RemoveSame([b, c], c) == [b];
    ExampleFromC(b, c, dist);
    assert GreedyRoute(a, [b, c], dist) == [a] + [c, b];
  }

  lemma ExampleFromStart(r: Address, a: Address, b: Address, c: Address, dist: Distance)
    requires a.id != b.id && a.id != c.id
    requires dist(a, r) < dist(b, r) && dist(a, r) < dist(c, r)
    ensures GreedyRoute(r, [a, b, c], dist) == [r] + GreedyRoute(a, [b, c], dist)
  {
    assert NearestIndex(r, [a, b, c], dist) == 0;
    assert RemoveSame([a, b, c], a) == [b, c];
  }

}
