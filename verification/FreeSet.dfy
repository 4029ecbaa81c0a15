// The set of free pages, as a bit per page node, and the two quantities that the
// server's node array caches about it: where the next free node is, and how long
// the consecutive free run starting at a node is.
module FreeSet {
  import opened Lists

  // Node indices stand for page node pointers; this one is the null pointer.
  const NULL: int := -1

  // The least free index at or above i, or NULL when there is none.
  function NextFree(free: seq<bool>, i: nat): (r: int)
    ensures r == NULL ==> forall k :: i <= k < |free| ==> !free[k]
    ensures r != NULL ==> i <= r < |free| && free[r] && forall k :: i <= k < r ==> !free[k]
    decreases |free| - i
  {
    if i >= |free| then NULL else if free[i] then i else NextFree(free, i + 1)
  }

  // The length of the maximal run of consecutive free indices that starts at i.
  function RunLen(free: seq<bool>, i: nat): (r: nat)
    requires i <= |free|
    ensures i + r <= |free|
    ensures forall k :: i <= k < i + r ==> free[k]
    ensures i + r < |free| ==> !free[i + r]
    decreases |free| - i
  {
    if i == |free| || !free[i] then 0 else 1 + RunLen(free, i + 1)
  }

  lemma RunLenIs(free: seq<bool>, i: nat, r: nat)
    requires i + r <= |free|
    requires forall k :: i <= k < i + r ==> free[k]
    requires i + r < |free| ==> !free[i + r]
    ensures RunLen(free, i) == r
  {
    var c := RunLen(free, i);
    assert i + c < |free| ==> !free[i + c];
    assert i + r < |free| ==> !free[i + r];
  }

  lemma NextFreeIs(free: seq<bool>, i: nat, r: int)
    requires if r == NULL then forall k :: i <= k < |free| ==> !free[k]
             else i <= r < |free| && free[r] && forall k :: i <= k < r ==> !free[k]
    ensures NextFree(free, i) == r
  {}

  // Inside a run the lengths count down and the successor is the next index.
  lemma InRun(free: seq<bool>, h: nat, i: nat)
    requires h < |free| && h <= i < h + RunLen(free, h)
    ensures RunLen(free, i) == h + RunLen(free, h) - i
    ensures i + 1 < h + RunLen(free, h) ==> NextFree(free, i + 1) == i + 1
  {
    RunLenIs(free, i, h + RunLen(free, h) - i);
  }

  // Taking a free block out changes a successor only where the successor was the block.
  lemma NextAfterTake(free: seq<bool>, obj: nat, n: nat, i: nat)
    requires 1 <= n && obj + n <= |free|
    requires forall k :: obj <= k < obj + n ==> free[k]
    requires i <= obj || obj + n <= i
    ensures NextFree(Mark(free, obj, n, false), i) ==
            if NextFree(free, i) == obj then NextFree(free, obj + n) else NextFree(free, i)
  {
    assert free[obj];
    NextFreeIs(Mark(free, obj, n, false), i, if NextFree(free, i) == obj then NextFree(free, obj + n) else NextFree(free, i));
  }

  // Giving a block back: the successor of an index below it can only become the block.
  lemma NextAfterGive(free: seq<bool>, s: nat, len: nat, i: nat)
    requires 1 <= len && s + len <= |free|
    requires forall k :: s <= k < s + len ==> !free[k]
    ensures NextFree(Mark(free, s, len, true), i) ==
            if i <= s then (if NextFree(free, i) == NULL || NextFree(free, i) > s then s else NextFree(free, i))
            else if i < s + len then i
            else NextFree(free, i)
  {
    var f := Mark(free, s, len, true);
    assert f[s];
    NextFreeIs(f, i,
      if i <= s then (if NextFree(free, i) == NULL || NextFree(free, i) > s then s else NextFree(free, i))
      else if i < s + len then i
      else NextFree(free, i));
  }

  // Run lengths depend only on the indices up to the first gap.
  lemma RunLenUpToGap(free: seq<bool>, f: seq<bool>, i: nat, gap: nat)
    requires |free| == |f| && i <= gap < |free|
    requires !free[gap] && forall k :: i <= k <= gap ==> free[k] == f[k]
    ensures RunLen(free, i) == RunLen(f, i)
  {
    RunLenIs(f, i, RunLen(free, i));
  }

  // An n-page block whose page number is a multiple of n and which is wholly free;
  // base is the page number of node 0.
  ghost predicate Fits(free: seq<bool>, base: nat, n: nat, i: int) {
    && 1 <= n && 0 <= i && i + n <= |free|
    && (base + i) % n == 0
    && forall k :: i <= k < i + n ==> free[k]
  }

  lemma FitsFree(free: seq<bool>, base: nat, n: nat, i: int)
    requires Fits(free, base, n, i)
    ensures 0 <= i && 1 <= n && i + n <= |free| && forall k :: i <= k < i + n ==> free[k]
  {}

  lemma NoFitBelow(free: seq<bool>, base: nat, n: nat)
    ensures forall j: nat :: NextFree(free, 0) == NULL || j < NextFree(free, 0) ==> !Fits(free, base, n, j)
  {
    forall j: nat | NextFree(free, 0) == NULL || j < NextFree(free, 0) ensures !Fits(free, base, n, j) {
      assert j < |free| ==> !free[j];
    }
  }

  // Marking a block and then unmarking it gives the free set back.
  lemma MarkRoundTrip(free: seq<bool>, s: nat, len: nat)
    requires s + len <= |free|
    requires forall k :: s <= k < s + len ==> free[k]
    ensures Mark(Mark(free, s, len, false), s, len, true) == free
  {
    var m := Mark(Mark(free, s, len, false), s, len, true);
    assert forall i :: 0 <= i < |free| ==> m[i] == free[i];
  }
}
