/**
 * Picking the winning template (`getMaxIndex`): a left-to-right scan that
 * starts from maximum 0 at index 0 and moves only on a strictly greater entry.
 */
module Ranking {

  /** `m` holds the largest entry of `s`, and every entry before it is smaller. */
  ghost predicate IsFirstMax(s: seq<int>, m: nat) {
    m < |s| &&
    (forall k :: 0 <= k < |s| ==> s[k] <= s[m]) &&
    (forall k :: 0 <= k < m ==> s[k] < s[m])
  }

  method GetMaxIndex(a: array<int>) returns (maxIndex: nat)
    ensures (forall k :: 0 <= k < a.Length ==> a[k] <= 0) ==> maxIndex == 0
    ensures (exists k :: 0 <= k < a.Length && a[k] > 0) ==> IsFirstMax(a[..], maxIndex)
  {
    var max := 0;
    maxIndex := 0;
    for i := 0 to a.Length
      invariant max >= 0
      invariant max == 0 ==> maxIndex == 0 && forall k :: 0 <= k < i ==> a[k] <= 0
      invariant max > 0 ==> maxIndex < i && a[maxIndex] == max
      invariant forall k :: 0 <= k < i ==> a[k] <= max
      invariant forall k :: 0 <= k < maxIndex ==> a[k] < max
    {
      if a[i] > max {
        max := a[i];
        maxIndex := i;
      }
    }
  }
}
