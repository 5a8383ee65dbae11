/**
 * The geocoded address (pojo/Address.java) and the `java.util.List<Address>`
 * that the recursive route builder mutates.
 *
 * Address does not override `equals`, so two addresses are equal only when
 * they are the same Java object. The model gives every Address object an
 * `id`, and compares addresses by that id.
 */
module Addresses {
  import opened JavaLists

  /** An Address object: its identity, plus the only fields the route code reads. */
  datatype Address = Address(id: nat, postcode: string, latitude: real, longitude: real)

  /** `Object.equals`, which Address inherits: reference identity. */
  predicate Same(a: Address, b: Address): (r: bool)
    ensures a == b ==> r
  {
    a.id == b.id
  }

  /** Like `Object.equals`, identity is reflexive, symmetric and transitive. */
  lemma SameIsEquivalence(a: Address, b: Address, c: Address)
    ensures Same(a, a)
    ensures Same(a, b) ==> Same(b, a)
    ensures Same(a, b) && Same(b, c) ==> Same(a, c)
  {
  }

  /**
   * What holds of every list of references: two entries that are the same
   * object are the same value.
   */
  ghost predicate Consistent(s: seq<Address>) {
    forall a, b :: a in s && b in s && a.id == b.id ==> a == b
  }

  /** No object occurs twice in `s`. */
  ghost predicate DistinctObjects(s: seq<Address>) {
    forall i, j :: 0 <= i < |s| && 0 <= j < |s| && i != j ==> s[i].id != s[j].id
  }

  /** `List.indexOf` on a list of addresses: the first entry that is the same object as `x`, or -1. */
  function IndexOfSame(s: seq<Address>, x: Address): (i: int)
    ensures -1 <= i < |s|
    ensures 0 <= i ==> Same(s[i], x)
    ensures forall j :: 0 <= j < |s| && (i == -1 || j < i) ==> !Same(s[j], x)
  {
    if s == [] then -1
    else if Same(s[0], x) then 0
    else
      var j := IndexOfSame(s[1..], x);
      if j == -1 then -1 else j + 1
  }

  /** `List.remove(Object)` on a list of addresses: drops the first entry that is the same object as `x`. */
  function RemoveSame(s: seq<Address>, x: Address): (r: seq<Address>)
    ensures IndexOfSame(s, x) == -1 ==> r == s
    ensures 0 <= IndexOfSame(s, x) ==> |r| == |s| - 1
    ensures multiset(r) <= multiset(s)
    ensures var i := IndexOfSame(s, x);
      0 <= i ==> r[..i] == s[..i] && r[i..] == s[i + 1..]
    ensures var i := IndexOfSame(s, x);
      0 <= i ==> multiset(r) == multiset(s) - multiset{s[i]}
  {
    var i := IndexOfSame(s, x);
    if i == -1 then s
    else
      assert s == s[..i] + [s[i]] + s[i + 1..];
      s[..i] + s[i + 1..]
  }

  /**
   * On a consistent list, removing by identity is removing by value: the
   * entry removed is the first one equal to `x`.
   */
  lemma {:induction false} SameIsEquality(s: seq<Address>, x: Address)
    requires Consistent(s + [x])
    ensures IndexOfSame(s, x) == IndexOf(s, x)
    ensures RemoveSame(s, x) == RemoveFirst(s, x)
  {
    if s != [] {
      assert s[0] in s + [x] && x in s + [x];
      if !Same(s[0], x) {
        assert Consistent(s[1..] + [x]) by {
          forall a | a in s[1..] + [x] ensures a in s + [x] {
            if a in s[1..] { assert a in s; }
          }
        }
        SameIsEquality(s[1..], x);
      }
    }
  }

  /** A list whose entries all come from a consistent list is consistent. */
  lemma ConsistentSub(s: seq<Address>, t: seq<Address>)
    requires Consistent(s)
    requires multiset(t) <= multiset(s)
    ensures Consistent(t)
  {
    forall a | a in t ensures a in s {
      assert a in multiset(t);
    }
  }

  /** `stream().map(Address::getPostcode)`: the postcodes of a route, in order. */
  function Postcodes(route: seq<Address>): (ps: seq<string>)
    ensures |ps| == |route|
    ensures forall i :: 0 <= i < |route| ==> ps[i] == route[i].postcode
  {
    seq(|route|, i requires 0 <= i < |route| => route[i].postcode)
  }

  /** The postcodes of a route with an address appended are the route's postcodes followed by its postcode. */
  lemma PostcodesAppend(route: seq<Address>, a: Address)
    ensures Postcodes(route + [a]) == Postcodes(route) + [a.postcode]
  {
  }

  /** A `java.util.List<Address>` that its callers change in place. */
  class AddressList {
    var items: seq<Address>

    /** `Collectors.toList()`: a new list holding the elements of `c`, in order. */
    constructor (c: seq<Address>)
      ensures items == c
    {
      items := c;
    }

    /** `List.add`: appends `a`. */
    method Add(a: Address)
      modifies this
      ensures items == old(items) + [a]
    {
      items := items + [a];
    }

    /** `List.remove(Object)`: drops the first entry that is the same object as `a`. */
    method Remove(a: Address) returns (removed: bool)
      modifies this
      ensures removed <==> 0 <= IndexOfSame(old(items), a)
      ensures items == RemoveSame(old(items), a)
    {
      removed := 0 <= IndexOfSame(items, a);
      items := RemoveSame(items, a);
    }
  }
}
