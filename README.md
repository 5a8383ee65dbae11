# path-optimizer route ordering, in Dafny

This project models the route-ordering core of path-optimizer, a Spring service. Given a list of UK postcodes plus a start and a destination postcode, it returns the postcodes in visiting order.

- `ShortestPath.java` has two route builders, both called `findOptimalRoute`.
  - The recursive overload `findOptimalRoute(ref, list, newList)` is a true greedy nearest-neighbour. At every step it moves the remaining address nearest to the *current* address from the caller's `list` to the caller's `newList`.
  - The two-argument overload `findOptimalRoute(ref, addresses)` is the one the service calls. It drains a priority queue keyed on the distance to the *fixed* start `ref`. It skips an address that is the same object as the one polled just before it.
- `OptimizedPathService.findOptimizedPath` does the following:
  - copies the location list;
  - removes the first occurrence of the destination, then of the start;
  - geocodes the start and the destination, and answers an empty list if either fails;
  - geocodes the rest, silently dropping failures;
  - orders them with the two-argument builder;
  - appends the destination;
  - maps the route to postcodes.

Files:

- `Wrappers.dfy`: `Option`, the model of `java.util.Optional`.
- `JavaLists.dfy`: `List.indexOf`, `List.remove(Object)` and `Collections.min` on values.
- `Addresses.dfy`:
  - the `Address` datatype;
  - object identity (`Same`), because `Address` does not override `equals`, so `equals` and `List.remove` compare references;
  - the identity-based `indexOf`/`remove`;
  - `AddressList`, a `java.util.List<Address>` changed in place.
- `ShortestPath.dfy`:
  - both overloads;
  - `AddressQueue`, the `PriorityQueue`;
  - their specification functions and lemmas.
- `OptimizedPathService.dfy`: `findOptimizedPath`, with the geocoder as a parameter.

The distance (`calculateDistance`, a haversine in doubles) is an arbitrary function parameter `dist: (Address, Address) -> real`. It is called as the source calls it, `dist(candidate, reference)`. Every property below holds for every such function.

The postcode lookup is a parameter `resolver: string -> Option<PostcodeResult>`. Each successful lookup deserialises a new `Address` object, so the model gives it a fresh object id: the start gets 0, the destination 1, and the i-th remaining location 2 + i.

**The service does not use the nearest-neighbour search.** The recursive overload's Javadoc (ShortestPath.java lines 15-17) describes nearest-neighbour search, and the recursive overload does that. But `findOptimizedPath` calls the two-argument overload (OptimizedPathService.java line 57), which sorts the intermediates by their distance to the start only. `FixedReferenceIsNotNearestNeighbour` exhibits four points where the two overloads give different orders.

`findOptimizedPath` appends the destination unconditionally (OptimizedPathService.java line 60). Only the first occurrence of the destination's postcode is removed from the locations (line 27). A second occurrence stays as an intermediate, so the destination's postcode is then listed twice.

## Model

| member | source | states |
|---|---|---|
| JavaLists.IndexOf | src/main/java/com/viktority/pathoptimizer/algo/ShortestPath.java:50 | `indexOf`: -1 exactly when the element is absent; otherwise the index of its first occurrence (nothing equal before it) |
| JavaLists.RemoveFirst | src/main/java/com/viktority/pathoptimizer/services/OptimizedPathService.java:26-28 | `List.remove(Object)` on the copied postcode list: unchanged when absent; otherwise one shorter, the first occurrence removed (multiset minus one copy), the prefix before it unchanged and the rest shifted down, so later duplicates stay |
| JavaLists.Min | src/main/java/com/viktority/pathoptimizer/algo/ShortestPath.java:47 | `Collections.min` on a non-empty list: the result is an element and no element is smaller |
| Addresses.Same | src/main/java/com/viktority/pathoptimizer/algo/ShortestPath.java:114 | the inherited `Object.equals`: an address is always the same object as itself |
| Addresses.SameIsEquivalence | src/main/java/com/viktority/pathoptimizer/pojo/Address.java:4-64 | the inherited `equals` is reflexive, symmetric and transitive |
| Addresses.IndexOfSame | src/main/java/com/viktority/pathoptimizer/algo/ShortestPath.java:58 | identity search used by `list.remove(address)`: a position holding the same object, with no such object before it; -1 only when no entry is that object |
| Addresses.RemoveSame | src/main/java/com/viktority/pathoptimizer/algo/ShortestPath.java:58 | `list.remove(address)` by reference: unchanged when no entry is that object. Otherwise the first entry that is that object is removed: the list is one shorter, the entries before it are unchanged, the later ones shift down, and the multiset loses exactly that entry |
| Addresses.SameIsEquality | src/main/java/com/viktority/pathoptimizer/pojo/Address.java:4-64 | on a well-formed list (same object means same value), searching and removing by identity agrees with searching and removing by value |
| Addresses.ConsistentSub | src/main/java/com/viktority/pathoptimizer/algo/ShortestPath.java:58 | a list whose entries come from a well-formed list (as after `remove`) is well-formed |
| Addresses.Postcodes | src/main/java/com/viktority/pathoptimizer/services/OptimizedPathService.java:63 | `stream().map(Address::getPostcode)`: one postcode per address, the i-th being the i-th address's postcode |
| Addresses.PostcodesAppend | src/main/java/com/viktority/pathoptimizer/services/OptimizedPathService.java:60-63 | appending the destination and then mapping gives the route's postcodes followed by the destination's postcode |
| Addresses.AddressList.constructor | src/main/java/com/viktority/pathoptimizer/services/OptimizedPathService.java:47-51 | a new list holds exactly the given elements |
| Addresses.AddressList.Add | src/main/java/com/viktority/pathoptimizer/algo/ShortestPath.java:28 | `add` appends the element at the end and changes nothing else |
| Addresses.AddressList.Remove | src/main/java/com/viktority/pathoptimizer/algo/ShortestPath.java:58 | `remove` returns true exactly when the object was in the list, and leaves the list with its first occurrence removed |
| ShortestPath.Distances | src/main/java/com/viktority/pathoptimizer/algo/ShortestPath.java:41-44 | one distance per address of `list`, the i-th being the distance from the i-th address to `ref` |
| ShortestPath.NearestIndex | src/main/java/com/viktority/pathoptimizer/algo/ShortestPath.java:41-53 | the chosen index is in range; its address is no farther from the current `ref` than any other; every earlier address is strictly farther (ties go to the lowest index) |
| ShortestPath.GreedyRoute | src/main/java/com/viktority/pathoptimizer/algo/ShortestPath.java:24-67 | the addresses the recursive overload appends: one more than the addresses in `list` |
| ShortestPath.FindOptimalRouteInto | src/main/java/com/viktority/pathoptimizer/algo/ShortestPath.java:24-67 | the recursive overload on two distinct caller lists: returns `newList`, leaves the caller's `list` empty, and `newList` becomes its old contents followed by the greedy route from `ref` over the old `list`; terminates because each call shortens `list` |
| ShortestPath.GreedyRouteStart | src/main/java/com/viktority/pathoptimizer/algo/ShortestPath.java:28-33 | `ref` is appended first; an empty list gives just `ref`; every later entry comes from the list |
| ShortestPath.NearestFirstCons | src/main/java/com/viktority/pathoptimizer/algo/ShortestPath.java:41-61 | prefixing the current address keeps the greedy property when the next address is the nearest one |
| ShortestPath.GreedyRouteNearestFirst | src/main/java/com/viktority/pathoptimizer/algo/ShortestPath.java:41-61 | greedy minimum at every step: each address on the route is no farther from the one before it than any address that comes later |
| ShortestPath.RemoveNearest | src/main/java/com/viktority/pathoptimizer/algo/ShortestPath.java:47-58 | on a well-formed list, `list.remove(address)` removes exactly the entry at `minIndex` |
| ShortestPath.SplitAt | src/main/java/com/viktority/pathoptimizer/algo/ShortestPath.java:53-58 | a list is the picked entry plus the entries around it, as multisets |
| ShortestPath.GreedyRoutePermutation | src/main/java/com/viktority/pathoptimizer/algo/ShortestPath.java:28-61 | on a well-formed list, the route is `ref` plus a permutation of the list: every address is visited exactly once |
| ShortestPath.SkipRepeats | src/main/java/com/viktority/pathoptimizer/algo/ShortestPath.java:113-119 | the route the polling loop appends for a poll order: never longer than the poll order (an address is added unless it is the same object as the one polled before it) |
| ShortestPath.AddressQueue.constructor | src/main/java/com/viktority/pathoptimizer/algo/ShortestPath.java:94 | a new queue keyed on the distance to `ref` is empty |
| ShortestPath.AddressQueue.AddAll | src/main/java/com/viktority/pathoptimizer/algo/ShortestPath.java:97 | `addAll` adds every element of the list, with multiplicity |
| ShortestPath.AddressQueue.Poll | src/main/java/com/viktority/pathoptimizer/algo/ShortestPath.java:105 | `poll` on a non-empty queue removes one copy of a queued address and returns it, and no queued address is nearer to `ref` |
| ShortestPath.NearestExists | src/main/java/com/viktority/pathoptimizer/algo/ShortestPath.java:105 | a non-empty queue has a head: an address no farther from `ref` than any other |
| ShortestPath.FindOptimalRoute | src/main/java/com/viktority/pathoptimizer/algo/ShortestPath.java:78-125 | the two-argument overload starts with `ref`. A null or empty list gives `[ref]`. The poll order is a permutation of `addresses` sorted by distance to the fixed `ref`. The route is `ref` followed by that order, minus each address identical to the one polled before it, and stays sorted by distance to `ref`. With distinct objects distinct from `ref`, the tail is a permutation of `addresses` and the length is 1 + \|addresses\|. The caller's list is only read, because the method may modify nothing |
| ShortestPath.DrainStep | src/main/java/com/viktority/pathoptimizer/algo/ShortestPath.java:103-119 | polling a nearest queued address keeps the loop invariant. Queue plus poll order is the original multiset. The poll order stays sorted, with no queued address nearer than the last polled. The route grows by the polled address exactly when it is not the same object as the previous one |
| ShortestPath.Drained | src/main/java/com/viktority/pathoptimizer/algo/ShortestPath.java:103-124 | when the queue is empty, the poll order is a sorted permutation of the caller's addresses and the route read off it is sorted. With distinct objects the route's tail is a permutation of the addresses |
| ShortestPath.PolledRoute | src/main/java/com/viktority/pathoptimizer/algo/ShortestPath.java:100-119 | the route read off a sorted permutation is sorted. With distinct objects nothing is skipped |
| ShortestPath.SkipRepeatsSnoc | src/main/java/com/viktority/pathoptimizer/algo/ShortestPath.java:113-119 | one more poll extends the route by the polled address unless it is the same object as the previous poll |
| ShortestPath.RouteSnoc | src/main/java/com/viktority/pathoptimizer/algo/ShortestPath.java:113-119 | the same step, stated for the route with `ref` in front |
| ShortestPath.SkipRepeatsSorted | src/main/java/com/viktority/pathoptimizer/algo/ShortestPath.java:113-119 | skipping repeats keeps only polled addresses, and keeps them sorted by distance to `ref` |
| ShortestPath.SkipRepeatsKeepsAll | src/main/java/com/viktority/pathoptimizer/algo/ShortestPath.java:114-116 | when no address is the same object as `ref` or as another address, no polled address is skipped |
| ShortestPath.TwoPositions | src/main/java/com/viktority/pathoptimizer/algo/ShortestPath.java:97-105 | an address queued twice sits at two different positions of the list |
| ShortestPath.TwiceCounted | src/main/java/com/viktority/pathoptimizer/algo/ShortestPath.java:97-105 | an address at two positions is counted twice |
| ShortestPath.DistinctObjectsPermutation | src/main/java/com/viktority/pathoptimizer/algo/ShortestPath.java:97-105 | a permutation of a list of distinct objects holds distinct objects, so the poll order of distinct addresses has no repeats |
| ShortestPath.FixedReferenceIsNotNearestNeighbour | src/main/java/com/viktority/pathoptimizer/algo/ShortestPath.java:24-125 | from longitude 0 with stops at 1, -2 and 3, the recursive overload visits 1, 3, -2, which is not sorted by distance to the start. The two-argument overload's order 1, -2, 3 is sorted. The two overloads are different orderings |
| ShortestPath.ExampleFromStart | src/main/java/com/viktority/pathoptimizer/algo/ShortestPath.java:41-61 | the first recursive step of the example picks the nearest address and recurses over the other two |
| ShortestPath.ExampleFromA | src/main/java/com/viktority/pathoptimizer/algo/ShortestPath.java:41-61 | the second step picks the address nearer to the current one, not to the start |
| OptimizedPathService.Lookup | src/main/java/com/viktority/pathoptimizer/services/OptimizedPathService.java:31-32 | a lookup yields an address exactly when the postcode resolves. That address is a new object with the given id and carries the resolved postcode, latitude and longitude |
| OptimizedPathService.ResolveAll | src/main/java/com/viktority/pathoptimizer/services/OptimizedPathService.java:47-51 | at most one address per remaining code. Every address is the lookup of the code at its own position, and the addresses are in list order (strictly increasing positions) |
| OptimizedPathService.ResolveAllKeeps | src/main/java/com/viktority/pathoptimizer/services/OptimizedPathService.java:47-51 | every code that resolves yields an address; only failed lookups are dropped |
| OptimizedPathService.FindOptimizedPath | src/main/java/com/viktority/pathoptimizer/services/OptimizedPathService.java:22-68 | empty result when the start does not resolve, and empty when the start resolves but the destination does not. Otherwise the path has these properties: it starts with the start's postcode and ends with the destination's. It is the postcode projection of a route of length 2 + the number of resolved intermediates. That route runs from the start through a permutation of the resolved intermediates, sorted by distance to the start, and ends at the destination, appended unconditionally |
| OptimizedPathService.VisitInOrder | src/main/java/com/viktority/pathoptimizer/services/OptimizedPathService.java:43-67 | once start and destination have resolved, the path starts with the start's postcode and ends with the destination's. It is the postcode projection of the start, then the resolved intermediates sorted by distance to the start, then the destination |
| OptimizedPathService.WithDestination | src/main/java/com/viktority/pathoptimizer/services/OptimizedPathService.java:57-63 | appending the destination to an ordered route and taking postcodes gives the served path |
| OptimizedPathService.FreshObjects | src/main/java/com/viktority/pathoptimizer/services/OptimizedPathService.java:31-51 | the start and the intermediates are all different objects, so the skip at ShortestPath.java line 114 never fires from the service |

## Left out

- `calculateDistance` (ShortestPath.java lines 128-144): the double-precision haversine is replaced by an arbitrary `dist`. Reals replace doubles, so NaN, rounding and `Double.equals` subtleties are not modelled.
- `getAddressFromPostCode` (OptimizedPathService.java lines 70-83): the HTTP call, the `RestTemplate` status check and its exceptions are replaced by the `resolver` parameter. A failed lookup is `None`. The model covers only the fields the route reads: postcode, latitude and longitude.
- `ShortestPath.AddressQueue.Poll`: it may return any of several equally near addresses. Java's `PriorityQueue` tie order is not modelled, and determinism of the two-argument overload among exact ties is not stated.
- `ShortestPath.FindOptimalRoute`: the `next == null` break (lines 108-111) is not modelled. The loop runs only on a non-empty queue, and a `PriorityQueue` holds no null, so `poll` never returns null there.
- `ShortestPath.FindOptimalRoute`: the result is returned as a sequence rather than as a fresh `ArrayList` object. `findOptimizedPath`'s `xx.add(stopAddress)` is modelled as appending to that sequence.
- `ShortestPath.FindOptimalRouteInto`: it requires `list` and `newList` to be different objects. With one list for both, the Java recursion adds one address and removes one per call and never ends.
- `ShortestPath.GreedyRoutePermutation` and `ShortestPath.RemoveNearest`: they assume a well-formed list, where the same object always carries the same field values. A Java heap always satisfies this.
- SLF4J logging, `OptimizedPathController` and `PathOptimizerApplication` carry no route logic.
- Null lists and null entries: `AddressList` and `Address` are non-null types. So the `NullPointerException` for a null `list` or `newList` in the recursive overload is not expressed, and neither is the one for a null entry that `PriorityQueue.addAll` rejects. Only a null `addresses` in the two-argument overload is modelled.
- The unused fields of `Address` (eastings, region, codes and so on).
