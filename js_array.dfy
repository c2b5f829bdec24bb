/** The JavaScript array built-ins the frontend calls, as functions on
    sequences: `slice` (with its clamping and its reading of negative
    positions from the end, section 23.1.3.28 of ECMA-262), `indexOf`,
    `find`, `Math.max(...arr)` and element access past the end. */
module JsArray {
  import opened Wrappers

  /** How `slice` turns a relative position into an index in `0..len`:
      a negative position counts from the end, and the result is clamped. */
  function ClampIndex(rel: int, len: nat): (k: nat)
    ensures k <= len
    ensures 0 <= rel ==> k == if rel < len then rel else len
    ensures rel < 0 ==> k == if len + rel < 0 then 0 else len + rel
  {
    if rel < 0 then (if len + rel < 0 then 0 else len + rel)
    else if rel < len then rel else len
  }

  /** `arr.slice(begin, end)`. */
  function Slice<T>(arr: seq<T>, begin: int, end: int): seq<T> {
    var k := ClampIndex(begin, |arr|);
    var f := ClampIndex(end, |arr|);
    if k <= f then arr[k..f] else []
  }

  function Min(a: int, b: int): int {
    if a < b then a else b
  }

  /** For the non-negative positions the frontend uses, `slice` is the
      ordinary subsequence with both ends clamped to the array. */
  lemma SliceNonNegative<T>(arr: seq<T>, begin: nat, end: int)
    requires begin <= end
    ensures Min(begin, |arr|) <= Min(end, |arr|)
    ensures Slice(arr, begin, end) == arr[Min(begin, |arr|)..Min(end, |arr|)]
    ensures |Slice(arr, begin, end)| == Min(end, |arr|) - Min(begin, |arr|)
  {
  }

  /** `arr[i]`: `undefined` outside the array. */
  function At<T>(arr: seq<T>, i: int): (r: Option<T>)
    ensures r.Some? <==> 0 <= i < |arr|
    ensures r.Some? ==> r.value == arr[i]
  {
    if 0 <= i < |arr| then Some(arr[i]) else None
  }

  /** `arr.indexOf(x)`: the first position holding `x`, or -1. */
  function IndexOf<T(==)>(arr: seq<T>, x: T): (r: int)
    ensures -1 <= r < |arr|
    ensures r == -1 <==> x !in arr
    ensures 0 <= r ==> arr[r] == x && forall j :: 0 <= j < r ==> arr[j] != x
  {
    if |arr| == 0 then -1
    else if arr[0] == x then 0
    else
      var k := IndexOf(arr[1..], x);
      if k < 0 then -1 else k + 1
  }

  /** `arr.find(p)`: the first element satisfying `p`, or `undefined`. */
  function Find<T>(arr: seq<T>, p: T -> bool): (r: Option<T>)
    ensures r.None? <==> forall j :: 0 <= j < |arr| ==> !p(arr[j])
    ensures r.Some? ==> exists k :: 0 <= k < |arr| && arr[k] == r.value && p(arr[k]) &&
                                    forall j :: 0 <= j < k ==> !p(arr[j])
  {
    if |arr| == 0 then None
    else if p(arr[0]) then Some(arr[0])
    else
      var r := Find(arr[1..], p);
      if r.Some? then
        ghost var k :| 0 <= k < |arr[1..]| && arr[1..][k] == r.value && p(arr[1..][k]) &&
                       forall j :: 0 <= j < k ==> !p(arr[1..][j]);
        assert arr[k + 1] == r.value && forall j :: 0 <= j < k + 1 ==> !p(arr[j]);
        r
      else r
  }

  /** `Math.max(...arr)` on a non-empty array of integers. */
  function Max(arr: seq<int>): (m: int)
    requires |arr| > 0
    ensures m in arr
    ensures forall j :: 0 <= j < |arr| ==> arr[j] <= m
  {
    if |arr| == 1 then arr[0]
    else
      var rest := Max(arr[1..]);
      assert forall j :: 1 <= j < |arr| ==> arr[j] == arr[1..][j - 1];
      if arr[0] < rest then rest else arr[0]
  }
}
