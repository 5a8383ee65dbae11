/**
 * services/OptimizedPathService.java: findOptimizedPath, which resolves
 * postcodes to addresses, orders the intermediates with the two-argument
 * route builder and appends the destination.
 *
 * The postcode lookup (an HTTP call to postcodes.io) is a parameter
 * `resolver`; each successful lookup deserialises a new Address object,
 * which the model numbers: the start gets object id 0, the destination 1,
 * and the i-th remaining location 2 + i.
 */
module OptimizedPathService {
  import opened Wrappers
  import opened JavaLists
  import opened Addresses
  import opened ShortestPath

  /** The `result` of a successful lookup: the fields of Address the route uses. */
  datatype PostcodeResult = PostcodeResult(postcode: string, latitude: real, longitude: real)

  type Resolver = string -> Option<PostcodeResult>

  /** getAddressFromPostCode: the new Address object `id` for the lookup of `code`, if it succeeds. */
  function Lookup(resolver: Resolver, code: string, id: nat): (r: Option<Address>)
    ensures r.None? <==> resolver(code).None?
    ensures r.Some? ==> r.value.id == id
    ensures r.Some? ==> var p := resolver(code).value;
      r.value.postcode == p.postcode && r.value.latitude == p.latitude && r.value.longitude == p.longitude
  {
    match resolver(code)
    case None => None
    case Some(p) => Some(Address(id, p.postcode, p.latitude, p.longitude))
  }

  /**
   * The stream map/filter over the remaining locations: the addresses of
   * the codes that resolve, in list order; the code at position i becomes
   * object `firstId + i`, and codes that do not resolve are dropped.
   */
  function ResolveAll(resolver: Resolver, codes: seq<string>, firstId: nat): (r: seq<Address>)
    ensures |r| <= |codes|
    ensures forall i, j :: 0 <= i < j < |r| ==> r[i].id < r[j].id
    ensures forall k :: 0 <= k < |r| ==>
      firstId <= r[k].id < firstId + |codes| &&
      Lookup(resolver, codes[r[k].id - firstId], r[k].id) == Some(r[k])
    decreases |codes|
  {
    if codes == [] then []
    else
      var rest := ResolveAll(resolver, codes[1..], firstId + 1);
      var found := Lookup(resolver, codes[0], firstId);
      if found.None? then rest else [found.value] + rest
  }

  /** Every location that resolves is kept: none is dropped except for a failed lookup. */
  lemma {:induction false} ResolveAllKeeps(resolver: Resolver, codes: seq<string>, firstId: nat, i: nat)
    requires i < |codes| && resolver(codes[i]).Some?
    ensures Lookup(resolver, codes[i], firstId + i).value in ResolveAll(resolver, codes, firstId)
    decreases i
  {
    if i > 0 {
      ResolveAllKeeps(resolver, codes[1..], firstId + 1, i - 1);
    }
  }

  /**
   * findOptimizedPath(locations, start, dest): the postcodes of the route
   * from the start through the resolved intermediates to the destination,
   * or the empty list when the start or the destination does not resolve.
   * `route` is the address route whose postcodes are returned.
   */
  method FindOptimizedPath(locations: seq<string>, start: string, dest: string,
                           resolver: Resolver, dist: Distance)
    returns (path: seq<string>, ghost route: seq<Address>)
    ensures resolver(start).None? ==> path == []
    ensures resolver(start).Some? && resolver(dest).None? ==> path == []
    ensures resolver(start).Some? && resolver(dest).Some? ==>
      && path != []
      && path[0] == resolver(start).value.postcode
      && path[|path| - 1] == resolver(dest).value.postcode
      && ServedRoute(path, route, Lookup(resolver, start, 0).value, Lookup(resolver, dest, 1).value,
                     ResolveAll(resolver, RemoveFirst(RemoveFirst(locations, dest), start), 2), dist)
  {
    var list := locations;
    list := RemoveFirst(list, dest);
    list := RemoveFirst(list, start);
    var startAddress := Lookup(resolver, start, 0);
    var stopAddress := Lookup(resolver, dest, 1);
    if startAddress.None? {
      return [], [];
    }
    if stopAddress.None? {
      return [], [];
    }
    path, route := VisitInOrder(startAddress.value, stopAddress.value, list, resolver, dist);
  }

  /**
   * The rest of findOptimizedPath once the start (object 0) and the
   * destination have resolved: resolve the remaining `list`, order it from
   * the start, append the destination and take the postcodes.
   */
  method VisitInOrder(startAddress: Address, stopAddress: Address, list: seq<string>,
                      resolver: Resolver, dist: Distance)
    returns (path: seq<string>, ghost route: seq<Address>)
    requires startAddress.id == 0
    ensures path != []
    ensures path[0] == startAddress.postcode
    ensures path[|path| - 1] == stopAddress.postcode
    ensures ServedRoute(path, route, startAddress, stopAddress, ResolveAll(resolver, list, 2), dist)
  {
    var addresses := ResolveAll(resolver, list, 2);
    var intermediates := new AddressList(addresses);
    ghost var polled;
    var xx;
    xx, polled := FindOptimalRoute(startAddress, intermediates, dist);
    assert DistinctObjects([startAddress] + addresses) by {
      FreshObjects(startAddress, addresses);
    }
    WithDestination(xx, addresses, stopAddress, dist);
    xx := xx + [stopAddress];
    path := Postcodes(xx);
    route := xx;
  }

  /**
   * A successful answer: the postcodes of `route`, which runs from `startAddress`
   * through the intermediates `stops`, reordered by distance to the start,
   * to `stopAddress`.
   */
  ghost predicate ServedRoute(path: seq<string>, route: seq<Address>, startAddress: Address,
                              stopAddress: Address, stops: seq<Address>, dist: Distance)
  {
    && |path| == |route| == |stops| + 2
    && (forall i :: 0 <= i < |path| ==> path[i] == route[i].postcode)
    && route[0] == startAddress
    && route[|route| - 1] == stopAddress
    && multiset(route[1..|route| - 1]) == multiset(stops)
    && SortedByDistanceTo(startAddress, route[1..|route| - 1], dist)
  }

  /** Appending the destination to the ordered route and taking postcodes gives a served route. */
  lemma WithDestination(ordered: seq<Address>, stops: seq<Address>, stop: Address, dist: Distance)
    requires |ordered| == 1 + |stops|
    requires multiset(ordered[1..]) == multiset(stops)
    requires SortedByDistanceTo(ordered[0], ordered[1..], dist)
    ensures ServedRoute(Postcodes(ordered + [stop]), ordered + [stop], ordered[0], stop, stops, dist)
  {
    var route := ordered + [stop];
    assert route[1..|route| - 1] == ordered[1..];
  }

  /** The start object (id 0) and the intermediates (ids 2 and up, increasing) are all different objects. */
  lemma FreshObjects(start: Address, addresses: seq<Address>)
    requires start.id == 0
    requires forall k :: 0 <= k < |addresses| ==> 2 <= addresses[k].id
    requires forall i, j :: 0 <= i < j < |addresses| ==> addresses[i].id < addresses[j].id
    ensures DistinctObjects([start] + addresses)
  {
    var s := [start] + addresses;
    forall i, j | 0 <= i < |s| && 0 <= j < |s| && i != j ensures s[i].id != s[j].id {
      if i > 0 && j > 0 {
        assert s[i] == addresses[i - 1] && s[j] == addresses[j - 1];
      } else if i > 0 {
        assert s[i] == addresses[i - 1];
      } else {
        assert s[j] == addresses[j - 1];
      }
    }
  }
}
