// Where every page is: in the server's list, in one block of one CPU's pool, or, after a
// free the server did not relink, in no list at all.
module Accounting {
  import opened Lists
  import opened FreeSet
  import opened MemServer
  import opened PageAlloc
  import opened PoolLists
  import opened AllocState

  // Page i belongs to the k-th block of CPU c's pool.
  ghost predicate Covers(st: State, c: nat, k: nat, i: int) {
    && c < |st.lists| && k < |st.lists[c]|
    && var b := st.lists[c][k]; 0 <= b < |st.ns| && b <= i < b + Len(st.ns[b])
  }

  // Each page is in one place: met once by walking the server's list, or in one block of one
  // pool and not in that list, or dropped and in neither.
  lemma OnePlace(st: State, i: nat)
    requires Good(st) && i < |st.ns| == |st.holder|
    ensures st.holder[i].ByServer? <==> i in Chain(st.ns, st.pages)
    ensures st.holder[i].ByPool? <==> exists c, k :: Covers(st, c, k, i)
    ensures forall c, k, d, j :: Covers(st, c, k, i) && Covers(st, d, j, i) ==> c == d && k == j
    ensures forall k, j :: 0 <= k < j < |Chain(st.ns, st.pages)| ==> Chain(st.ns, st.pages)[k] < Chain(st.ns, st.pages)[j]
  {
    hide Canonical, Pools, Block, Chain;
    ServerListIsFreeSet(st.ns, st.pages, st.free);
    PoolsSizes(st.ns, st.free, st.pool, st.lists, st.holder);
    PlacedAt(st.ns, st.free, st.pool, st.lists, st.holder, i);
    forall c: nat, k: nat | Covers(st, c, k, i) ensures st.holder[i] == ByPool(c, st.lists[c][k]) {
      BlockIn(st.ns, st.free, st.pool, st.lists, st.holder, c, k);
    }
    if st.holder[i].ByPool? {
      PoolBlockAt(st.ns, st.free, st.pool, st.lists, st.holder, i);
      var c, b := st.holder[i].cpu, st.holder[i].block;
      var k: nat :| k < |st.lists[c]| && st.lists[c][k] == b;
      assert Covers(st, c, k, i);
    }
    forall c: nat, k: nat, d: nat, j: nat | Covers(st, c, k, i) && Covers(st, d, j, i) ensures c == d && k == j {
      if k != j { DistinctUnless(st, c, k, d, j); }
    }
  }

  lemma DistinctUnless(st: State, c: nat, k: nat, d: nat, j: nat)
    requires Good(st) && c < |st.lists| && d < |st.lists| && k < |st.lists[c]| && j < |st.lists[d]| && k != j
    ensures c == d ==> st.lists[c][k] != st.lists[d][j]
  {
    if c == d { DistinctAt(st.ns, st.free, st.pool, st.lists, st.holder, c, k, j); }
  }

  // A block is lost exactly when its own mark was cleared, as both callers of
  // memserver_receive do, some page is free, and none above the block is.
  lemma LostIff(free: seq<bool>, s: nat, own: int)
    requires s < |free|
    ensures !Relinks(free, s, own) <==>
      own != 1 && (exists i :: 0 <= i < |free| && free[i]) && forall i :: s <= i < |free| ==> !free[i]
  {
    assert NextFree(free, 0) != NULL ==> free[NextFree(free, 0)];
    assert NextFree(free, s) != NULL ==> free[NextFree(free, s)];
  }

  // Page i lies in the block of the object at p.
  ghost predicate Occupies(st: State, p: int, i: int) {
    var b := Index(st.base, p);
    Heads(st, b) && b <= i < b + Len(st.ns[b])
  }

  // Every block of a pool holds a live object.
  lemma BlockIsLive(st: State, b: nat) returns (p: int, s: int)
    requires Good(st) && Heads(st, b)
    ensures Live(st, p, s) && Index(st.base, p) == b
  {
    hide Pools, Canonical;
    GoodPage(st, b);
    if st.ns[b].combpage == 0 {
      var o := st.objs[b][0];
      ObjsClimb(PageAddr(st.base, b), st.objs[b], 0, 0);
      IndexIs(st.base, b, o.start);
      p, s := o.start, o.end - o.start;
      assert Obj(p, p + s) == o;
    } else {
      p, s := PageAddr(st.base, b), st.ns[b].combpage * PAGESIZE;
      IndexIs(st.base, b, p);
    }
  }

  // Conservation: the free pages are exactly those neither dropped nor in the block of a live
  // object, so the live objects and the dropped pages determine the free set.
  lemma FreeIsRest(st: State, i: nat)
    requires Good(st) && i < |st.ns| == |st.free| == |st.holder|
    ensures st.free[i] <==> !st.holder[i].Dropped? && !(exists p, s :: Live(st, p, s) && Occupies(st, p, i))
  {
    hide Canonical, Pools, PageOk;
    PlacedAt(st.ns, st.free, st.pool, st.lists, st.holder, i);
    if st.holder[i].ByPool? {
      PoolBlockAt(st.ns, st.free, st.pool, st.lists, st.holder, i);
      var p, s := BlockIsLive(st, st.holder[i].block);
      assert Live(st, p, s) && Occupies(st, p, i);
    }
    forall p, s | Live(st, p, s) && Occupies(st, p, i) ensures st.holder[i].ByPool? {
      BlockSpan(st, Index(st.base, p));
    }
  }
}
