/**
 * The three operations of .NET's `List<T>` (and `Collection<T>`) that the graph
 * code relies on: `IndexOf`, `RemoveAt` and `Remove`.  `Remove` and `IndexOf`
 * compare with `Equals`, which for the node classes here is reference equality.
 */
module Lists {

  /** `IndexOf(x)`: the first index holding x, or -1. */
  function IndexOf<X(==)>(s: seq<X>, x: X): (i: int)
    ensures -1 <= i < |s|
    ensures i == -1 <==> x !in s
    ensures 0 <= i ==> s[i] == x && x !in s[..i]
  {
    if s == [] then -1
    else if s[0] == x then 0
    else
      var j := IndexOf(s[1..], x);
      if j == -1 then -1
      else
        assert s[..j + 1] == [s[0]] + s[1..][..j];
        j + 1
  }

  /** `RemoveAt(i)`: the elements before and after i, in order. */
  function RemoveAt<X>(s: seq<X>, i: nat): (r: seq<X>)
    requires i < |s|
    ensures |r| == |s| - 1
    ensures forall k :: 0 <= k < i ==> r[k] == s[k]
    ensures forall k :: i <= k < |r| ==> r[k] == s[k + 1]
  {
    s[..i] + s[i + 1..]
  }

  /** `Remove(x)`: drops the first occurrence of x; nothing when x is absent. */
  function RemoveFirst<X(==)>(s: seq<X>, x: X): (r: seq<X>)
    ensures x !in s ==> r == s
    ensures x in s ==> |r| == |s| - 1 && multiset(r) == multiset(s) - multiset{x}
  {
    var i := IndexOf(s, x);
    if i == -1 then s
    else
      assert s == s[..i] + [x] + s[i + 1..];
      RemoveAt(s, i)
  }
}
