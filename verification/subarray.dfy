/** `Array.isSubarray(ofArray:)`: does a sequence occur as a contiguous run
    inside another?  Modelled as the source's two nested scans.
 */
module Subarray {

  /** `p` sits in `a` starting at index `i`. */
  predicate OccursAt<T(==)>(p: seq<T>, a: seq<T>, i: int)
  {
    0 <= i && i + |p| <= |a| && a[i..i + |p|] == p
  }

  /** The inner loop: `a[i+j..]` agrees with `p[j..]` up to `|p|`. */
  function MatchFrom<T(==)>(p: seq<T>, a: seq<T>, i: nat, j: nat): (r: bool)
    requires i + |p| <= |a| && j <= |p|
    ensures r <==> a[i + j..i + |p|] == p[j..]
    decreases |p| - j
  {
    if j == |p| then true
    else if a[i + j] != p[j] then false
    else
      var r := MatchFrom(p, a, i, j + 1);
      assert a[i + j..i + |p|] == [a[i + j]] + a[i + j + 1..i + |p|];
      assert p[j..] == [p[j]] + p[j + 1..];
      r
  }

  /** The outer loop over start positions `i .. |a|-|p|`. */
  function ScanFrom<T(==)>(p: seq<T>, a: seq<T>, i: nat): (r: bool)
    requires |p| <= |a| && i <= |a| - |p| + 1
    ensures r <==> exists k :: i <= k && OccursAt(p, a, k)
    decreases |a| - |p| + 1 - i
  {
    if i > |a| - |p| then false
    else if MatchFrom(p, a, i, 0) then
      assert OccursAt(p, a, i);
      true
    else
      ScanFrom(p, a, i + 1)
  }

  /** `p.isSubarray(ofArray: a)`: true exactly when `p` occurs contiguously
      in `a`; hence false when `p` is longer and true when `p` is empty. */
  function IsSubarray<T(==)>(p: seq<T>, a: seq<T>): (r: bool)
    ensures r <==> exists i :: OccursAt(p, a, i)
    ensures |p| > |a| ==> !r
    ensures |p| == 0 ==> r
  {
    if |a| < |p| then false
    else
      assert |p| == 0 ==> OccursAt(p, a, 0);
      ScanFrom(p, a, 0)
  }
}
