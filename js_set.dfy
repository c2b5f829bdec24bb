/** A JavaScript `Set` of numbers: a collection without repeats that
    iterates (and so converts with `Array.from`) in insertion order. It is
    modelled by the sequence of its members in that order. */
module JsSet {

  predicate Distinct<T(==)>(s: seq<T>) {
    forall i, j :: 0 <= i < j < |s| ==> s[i] != s[j]
  }

  /** `set.add(x)`: appends `x` unless it is already a member. */
  function Add(s: seq<int>, x: int): (r: seq<int>)
    requires Distinct(s)
    ensures Distinct(r)
    ensures forall y :: y in r <==> y in s || y == x
    ensures x in s ==> r == s
    ensures x !in s ==> r == s + [x]
  {
    if x in s then s else s + [x]
  }

  /** `set.delete(x)`: removes `x` and keeps the others in their order. */
  function Delete(s: seq<int>, x: int): (r: seq<int>)
    requires Distinct(s)
    ensures Distinct(r)
    ensures forall y :: y in r <==> y in s && y != x
    ensures x !in s ==> r == s
    ensures |r| == if x in s then |s| - 1 else |s|
  {
    if |s| == 0 then []
    else if s[0] == x then
      assert x !in s[1..];
      s[1..]
    else
      var rest := Delete(s[1..], x);
      assert s[0] !in s[1..];
      [s[0]] + rest
  }

  /** An element just appended can be deleted again without trace. */
  lemma {:induction false} DeleteAfterAppend(s: seq<int>, x: int)
    requires Distinct(s) && x !in s
    ensures Distinct(s + [x])
    ensures Delete(s + [x], x) == s
  {
    if |s| > 0 {
      assert (s + [x])[1..] == s[1..] + [x];
      DeleteAfterAppend(s[1..], x);
    }
  }
}
