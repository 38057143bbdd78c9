/**
 * The binary search shared by every node operation: it returns an index of
 * `target` when present and otherwise the position where it would go.
 */
module BinarySearch {

  /** Non-decreasing order. */
  predicate Sorted(s: seq<int>)
  {
    forall i, j :: 0 <= i < j < |s| ==> s[i] <= s[j]
  }

  /** Increasing order, hence no duplicates. */
  predicate StrictlySorted(s: seq<int>)
  {
    forall i, j :: 0 <= i < j < |s| ==> s[i] < s[j]
  }

  /** `i` is where `t` belongs in `s`: every element before it is smaller, every element from it on is at least `t`. */
  predicate IsInsertionPoint(s: seq<int>, t: int, i: int)
  {
    0 <= i <= |s|
    && (forall j :: 0 <= j < i ==> s[j] < t)
    && (forall j :: i <= j < |s| ==> t <= s[j])
  }

  /** The weaker form for sequences that may hold `t` more than once. */
  predicate SplitsAround(s: seq<int>, t: int, i: int)
  {
    0 <= i <= |s|
    && (forall j :: 0 <= j < i ==> s[j] <= t)
    && (forall j :: i <= j < |s| ==> t <= s[j])
  }

  /** What the search knows between iterations: everything left of `low` is smaller, everything right of `high` larger. */
  predicate Window(s: seq<int>, t: int, low: int, high: int)
  {
    (forall j :: 0 <= j < |s| && j < low ==> s[j] < t)
    && (forall j :: 0 <= j < |s| && high < j ==> t < s[j])
  }

  /** The remaining iterations of the search loop, from the window `low..high`. */
  function Probe(keys: seq<int>, target: int, low: int, high: int): (r: int)
    requires 0 <= low <= high + 1 <= |keys|
    ensures low <= r <= high + 1
    ensures Sorted(keys) && Window(keys, target, low, high) ==>
      SplitsAround(keys, target, r) && (target in keys <==> r < |keys| && keys[r] == target)
    decreases high - low
  {
    if low <= high then
      var mid := (low + high) / 2;
      if keys[mid] == target then
        ProbeHit(keys, target, mid);
        mid
      else if target > keys[mid] then
        NarrowUp(keys, target, low, high, mid);
        Probe(keys, target, mid + 1, high)
      else
        NarrowDown(keys, target, low, high, mid);
        Probe(keys, target, low, mid - 1)
    else
      ProbeMiss(keys, target, low, high);
      low
  }

  lemma ProbeHit(keys: seq<int>, target: int, mid: int)
    requires 0 <= mid < |keys| && keys[mid] == target
    ensures Sorted(keys) ==> SplitsAround(keys, target, mid)
  {
  }

  lemma NarrowUp(keys: seq<int>, target: int, low: int, high: int, mid: int)
    requires 0 <= low <= mid <= high < |keys| && target > keys[mid]
    ensures Sorted(keys) && Window(keys, target, low, high) ==> Window(keys, target, mid + 1, high)
  {
  }

  lemma NarrowDown(keys: seq<int>, target: int, low: int, high: int, mid: int)
    requires 0 <= low <= mid <= high < |keys| && target < keys[mid]
    ensures Sorted(keys) && Window(keys, target, low, high) ==> Window(keys, target, low, mid - 1)
  {
  }

  lemma ProbeMiss(keys: seq<int>, target: int, low: int, high: int)
    requires 0 <= low == high + 1 <= |keys|
    ensures Sorted(keys) && Window(keys, target, low, high) ==>
      SplitsAround(keys, target, low) && target !in keys
  {
  }

  /** The whole search: the loop started on the full key range. */
  function Search(keys: seq<int>, target: int): (r: int)
    ensures 0 <= r <= |keys|
    ensures Sorted(keys) ==> SplitsAround(keys, target, r)
    ensures Sorted(keys) ==> (target in keys <==> r < |keys| && keys[r] == target)
    ensures StrictlySorted(keys) ==> IsInsertionPoint(keys, target, r)
  {
    var r := Probe(keys, target, 0, |keys| - 1);
    assert StrictlySorted(keys) ==> IsInsertionPoint(keys, target, r) by {
      if StrictlySorted(keys) {
        assert Sorted(keys);
        forall j | 0 <= j < r ensures keys[j] < target {
          if target in keys {
            assert keys[j] < keys[r];
          } else {
            assert keys[j] != target;
          }
        }
      }
    }
    r
  }

  /** The search written as the loop it is, with the window as its invariant. */
  method SearchLoop(keys: seq<int>, target: int) returns (r: int)
    ensures r == Search(keys, target)
    ensures 0 <= r <= |keys|
    ensures StrictlySorted(keys) ==> IsInsertionPoint(keys, target, r)
  {
    var low, high := 0, |keys| - 1;
    while low <= high
      invariant 0 <= low <= high + 1 <= |keys|
      invariant Probe(keys, target, low, high) == Probe(keys, target, 0, |keys| - 1)
      decreases high - low
    {
      var mid := (low + high) / 2;
      if keys[mid] == target {
        return mid;
      }
      if target > keys[mid] {
        low := mid + 1;
      } else {
        high := mid - 1;
      }
    }
    return low;
  }

  /** A strictly sorted sequence has one insertion point per target, and the search finds it. */
  lemma SearchFindsInsertionPoint(s: seq<int>, t: int, i: int)
    requires StrictlySorted(s) && IsInsertionPoint(s, t, i)
    ensures Search(s, t) == i
  {
    var r := Search(s, t);
    var m := if r < i then r else i;
    if m < |s| {
      assert m < r <==> s[m] < t;
      assert m < i <==> s[m] < t;
    }
  }
}
