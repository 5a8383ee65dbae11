/**
 * The java.util list operations the route code relies on, on values:
 * `List.indexOf`, `List.remove(Object)` and `Collections.min`.
 * Equality here is the element type's own; the identity-based variants
 * for addresses live in module Addresses.
 */
module JavaLists {

  /** `List.indexOf(x)`: the index of the first element equal to `x`, or -1. */
  function IndexOf<T(==)>(s: seq<T>, x: T): (i: int)
    ensures -1 <= i < |s|
    ensures i == -1 <==> x !in s
    ensures 0 <= i ==> s[i] == x && x !in s[..i]
  {
    if s == [] then -1
    else if s[0] == x then 0
    else
      var j := IndexOf(s[1..], x);
      if j == -1 then -1
      else
        assert s[..j + 1] == [s[0]] + s[1..][..j];
        j + 1
  }

  /**
   * `List.remove(Object)`: drops the first element equal to `x`, if there is
   * one; every later occurrence of `x` stays where it was.
   */
  function RemoveFirst<T(==)>(s: seq<T>, x: T): (r: seq<T>)
    ensures x !in s ==> r == s
    ensures x in s ==> |r| == |s| - 1
    ensures multiset(r) == multiset(s) - multiset{x}
    ensures x in s ==> r[..IndexOf(s, x)] == s[..IndexOf(s, x)]
    ensures x in s ==> r[IndexOf(s, x)..] == s[IndexOf(s, x) + 1..]
  {
    var i := IndexOf(s, x);
    if i == -1 then s
    else
      assert s == s[..i] + [x] + s[i + 1..];
      s[..i] + s[i + 1..]
  }

  /** `Collections.min` over a non-empty list of distances. */
  function Min(ds: seq<real>): (m: real)
    requires |ds| > 0
    ensures m in ds
    ensures forall i :: 0 <= i < |ds| ==> m <= ds[i]
  {
    if |ds| == 1 then ds[0]
    else
      var rest := Min(ds[1..]);
      if ds[0] <= rest then ds[0] else rest
  }
}
