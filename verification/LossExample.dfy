// A page lost at the allocator's own entry points: two one-page requests on a heap of two
// pages, freed lower page first.
module LossExample {
  import opened Arith
  import opened FreeSet
  import opened MemServer
  import opened PageAlloc
  import opened PoolLists
  import opened AllocState
  import opened Accounting
  import opened Pmm

  // A valid allocator of two pages, none of them dropped.
  ghost predicate TwoPages(st: State) {
    && Good(st) && |st.ns| == |st.free| == |st.holder| == 2
    && forall i :: 0 <= i < 2 ==> !st.holder[i].Dropped?
  }

  lemma OnlyPowerOfTwo(s: int)
    requires IsPow2(s) && PAGESIZE <= s < 2 * PAGESIZE
    ensures s == PAGESIZE
  {
    var k: nat :| s == Pow2(k);
    Pow2Twelve();
    if k < 12 { Pow2Monotone(k, 11); }
    if k > 12 { Pow2Monotone(13, k); }
  }

  // A live object of one page is a whole page by itself.
  lemma WholePage(st: State, p: int)
    requires TwoPages(st) && Live(st, p, PAGESIZE)
    ensures var i := Index(st.base, p);
      0 <= i < 2 && Heads(st, i) && p == PageAddr(st.base, i) && Len(st.ns[i]) == 1 && st.ns[i].combpage == 1
  {
    LiveSpan(st, p, PAGESIZE);
    GoodPage(st, Index(st.base, p));
  }

  lemma RoomIn(st: State, i: nat)
    requires i < |st.free| && st.free[i]
    ensures !NoRoom(st, 0, PAGESIZE)
  {
    DivUnique(PAGESIZE, PAGESIZE, 1, 0);
    assert Fits(st.free, st.base, 1, i);
  }

  // After one request the other page is free.
  lemma OtherFree(st: State, st': State, p: int)
    requires TwoPages(st) && TwoPages(st') && st'.base == st.base
    requires forall q, s :: !Live(st, q, s)
    requires Gains(st, st', p, PAGESIZE)
    ensures 0 <= Index(st'.base, p) < 2 && st'.free[1 - Index(st'.base, p)]
  {
    hide Live, Good;
    assert Live(st', p, PAGESIZE);
    WholePage(st', p);
    var i := 1 - Index(st'.base, p);
    FreeIsRest(st', i);
    forall q, s | Live(st', q, s) ensures !Occupies(st', q, i) {
      assert q == p;
    }
  }

  // After two both are taken, by different pages.
  lemma BothTaken(st: State, p: int, q: int)
    requires TwoPages(st) && Live(st, p, PAGESIZE) && Live(st, q, PAGESIZE) && p != q
    ensures var i, j := Index(st.base, p), Index(st.base, q); 0 <= i < 2 && j == 1 - i && (i < j <==> p < q)
    ensures st.free == [false, false]
  {
    hide Live, Good;
    WholePage(st, p);
    WholePage(st, q);
    var i, j := Index(st.base, p), Index(st.base, q);
    assert i != j;
    forall k: nat | k < 2 ensures !st.free[k] {
      var x := if k == i then p else q;
      assert Live(st, x, PAGESIZE) && Occupies(st, x, k);
      FreeIsRest(st, k);
    }
  }

  // Freeing one whole page of two.
  lemma FreedPage(st: State, st': State, p: int)
    requires Good(st) && |st.ns| == |st.free| == |st.holder| == |st.objs| == 2
    requires var i := Index(st.base, p); 0 <= i < 2 && Heads(st, i) && st.ns[i].combpage == 1
    requires Accounted(st, st', p)
    ensures var i := Index(st.base, p);
      && |st'.holder| == 2
      && (if Relinks(st.free, i, 0) then st'.free == st.free[i := true] else st'.free == st.free)
      && forall k :: 0 <= k < 2 ==>
           (st'.holder[k].Dropped? <==> st.holder[k].Dropped? || (k == i && !Relinks(st.free, i, 0)))
  {
    hide Relinks, Good;
    var i := Index(st.base, p);
    assert EmptiesBlock(st, i);
    assert Returned(st, st', i, 1);
  }

  lemma Sizes(st: State)
    requires Good(st)
    ensures |st.ns| == |st.free| == |st.holder| == |st.objs|
  {}

  // Both requests succeed and take both pages.
  method TakeBoth(a: Allocator) returns (low: int, high: int)
    requires a.Valid() && TwoPages(a.Snap()) && |a.pool| == 1
    requires a.Snap().free == [true, true] && forall p, s :: !Live(a.Snap(), p, s)
    modifies a, a.server, a.server.nodes, a.pages
    ensures a.Valid() && TwoPages(a.Snap()) && |a.pool| == 1 && a.Snap().free == [false, false]
    ensures forall p, s :: Live(a.Snap(), p, s) <==> s == PAGESIZE && (p == low || p == high)
    ensures Index(a.server.base, low) == 0 && Index(a.server.base, high) == 1
  {
    hide Good, Live, NoRoom;
    ghost var st0 := a.Snap();
    RoomIn(st0, 0);
    var p, size := a.Kalloc(0, 4096);
    OnlyPowerOfTwo(size);
    ghost var st1 := a.Snap();
    Sizes(st1);
    OtherFree(st0, st1, p);
    RoomIn(st1, 1 - Index(st1.base, p));
    var q;
    q, size := a.Kalloc(0, 4096);
    OnlyPowerOfTwo(size);
    ghost var st2 := a.Snap();
    Sizes(st2);
    assert Live(st1, p, PAGESIZE) && Live(st2, p, PAGESIZE) && Live(st2, q, PAGESIZE);
    BothTaken(st2, p, q);
    BothTaken(st2, q, p);
    low, high := if p < q then p else q, if p < q then q else p;
  }

  // kfree of one of two whole pages.
  method FreeOne(a: Allocator, p: int)
    requires a.Valid() && TwoPages(a.Snap()) && Live(a.Snap(), p, PAGESIZE)
    modifies a, a.server, a.server.nodes, a.pages
    ensures a.Valid() && |a.Snap().ns| == 2 && Loses(old(a.Snap()), a.Snap(), p)
    ensures var i, free := Index(a.server.base, p), old(a.Snap()).free;
      && 0 <= i < 2 && |free| == |a.holder| == 2
      && (if Relinks(free, i, 0) then a.Snap().free == free[i := true] else a.Snap().free == free)
      && forall k :: 0 <= k < 2 ==> (a.holder[k].Dropped? <==> k == i && !Relinks(free, i, 0))
  {
    hide Good, Live, Loses, Accounted, Relinks, Canonical;
    ghost var st := a.Snap();
    WholePage(st, p);
    Sizes(st);
    a.Kfree(p);
    FreedPage(st, a.Snap(), p);
    Sizes(a.Snap());
  }

  // After both pages are freed, the lower one first, nothing is live and the upper page is in
  // no list.
  method LoseOne() returns (a: Allocator)
    ensures a.Valid() && forall p, s :: !Live(a.Snap(), p, s)
    ensures a.Snap().free == [true, false]
    ensures |a.holder| == 2 && !a.holder[0].Dropped? && a.holder[1].Dropped?
  {
    hide Good, Live, Relinks;
    a := new Allocator(1, 2, 1);
    Sizes(a.Snap());
    assert a.Snap().free == [true, true];
    var low, high := TakeBoth(a);
    assert Live(a.Snap(), low, PAGESIZE) && Live(a.Snap(), high, PAGESIZE);
    LostIff([false, false], 0, 0);
    FreeOne(a, low);
    assert a.Snap().free == [true, false];
    Sizes(a.Snap());
    assert Live(a.Snap(), high, PAGESIZE);
    assert [true, false][0];
    LostIff([true, false], 1, 0);
    FreeOne(a, high);
  }
}
