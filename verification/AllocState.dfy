// The whole state of the page and object allocator as a value: what is live in it, and
// why live objects can never overlap one another or the allocator's own records.
module AllocState {
  import opened Lists
  import opened Arith
  import opened FreeSet
  import opened MemServer
  import opened PageAlloc
  import opened PoolLists

  // base is the page number of node 0; objs are the small objects of each page.
  datatype State = State(base: nat, ns: seq<PageNode>, pages: int, free: seq<bool>,
                         pool: seq<int>, lists: seq<seq<int>>, holder: seq<Holder>, objs: seq<seq<Obj>>)

  function PageAddr(base: nat, i: int): int { (base + i) * PAGESIZE }

  function Index(base: nat, p: int): int { p / PAGESIZE - base }

  // Node i heads a block of some pool: a page of small objects (count 0) or a large block.
  ghost predicate Heads(st: State, i: int) {
    0 <= i < |st.ns| == |st.holder| && st.holder[i].ByPool? && st.holder[i].block == i
  }

  ghost predicate SmallPage(st: State, i: int) { Heads(st, i) && st.ns[i].combpage == 0 }

  // Pages of small objects are never empty, other pages always are; sizes are powers of
  // two and large blocks are aligned to their size.
  ghost predicate PageOk(st: State, i: nat) {
    && i < |st.ns| == |st.objs| == |st.holder|
    && Laid(PageAddr(st.base, i), st.objs[i])
    && (st.objs[i] != [] <==> SmallPage(st, i))
    && (forall k :: 0 <= k < |st.objs[i]| ==> IsPow2(st.objs[i][k].end - st.objs[i][k].start))
    && (Heads(st, i) && st.ns[i].combpage != 0 ==>
          IsPow2(st.ns[i].combpage) && (st.base + i) % st.ns[i].combpage == 0)
  }

  ghost predicate GoodBut(st: State, x: int) {
    && 1 <= st.base
    && Canonical(st.ns, st.pages, st.free)
    && Pools(st.ns, st.free, st.pool, st.lists, st.holder)
    && |st.objs| == |st.ns|
    && forall i: nat {:trigger st.objs[i]} :: i < |st.ns| && i != x ==> PageOk(st, i)
  }

  ghost predicate Good(st: State) { GoodBut(st, NULL) }

  // [p, p + s) was handed out and has not been freed.
  ghost predicate Live(st: State, p: int, s: int) {
    var i := Index(st.base, p);
    && Heads(st, i) && i < |st.objs|
    && if st.ns[i].combpage == 0 then Obj(p, p + s) in st.objs[i]
       else p == PageAddr(st.base, i) && s == st.ns[i].combpage * PAGESIZE
  }

  // The bytes the block headed by i occupies.
  lemma BlockSpan(st: State, i: nat)
    requires Good(st) && Heads(st, i)
    ensures st.ns[i].combpage >= 0 && i + Len(st.ns[i]) <= |st.ns|
    ensures forall j :: i <= j < i + Len(st.ns[i]) ==> st.holder[j] == st.holder[i]
  {
    PoolBlockAt(st.ns, st.free, st.pool, st.lists, st.holder, i);
  }

  lemma GoodPage(st: State, i: nat)
    requires Good(st) && i < |st.ns|
    ensures PageOk(st, i)
  {
    assert st.objs[i] == st.objs[i];
  }

  lemma IndexIs(base: nat, i: nat, p: int)
    requires PageAddr(base, i) <= p < PageAddr(base, i) + PAGESIZE
    ensures Index(base, p) == i
  {
    DivUnique(p, PAGESIZE, base + i, p - PageAddr(base, i));
  }

  // A live object lies inside its block, has a power-of-two size and is aligned to it.
  lemma LiveSpan(st: State, p: int, s: int)
    requires Good(st) && Live(st, p, s)
    ensures var i := Index(st.base, p);
            && Heads(st, i)
            && PageAddr(st.base, i) <= p && p + s <= PageAddr(st.base, i + Len(st.ns[i]))
            && 0 < s && IsPow2(s) && p % s == 0
            && (st.ns[i].combpage == 0 ==> PageAddr(st.base, i) + HEADER <= p)
  {
    var i := Index(st.base, p);
    GoodPage(st, i);
    BlockSpan(st, i);
    if st.ns[i].combpage == 0 {
      var k :| 0 <= k < |st.objs[i]| && st.objs[i][k] == Obj(p, p + s);
      ObjsClimb(PageAddr(st.base, i), st.objs[i], k, k);
    } else {
      var n := st.ns[i].combpage;
      BlockAligned(st.base + i, n);
      assert PageAddr(st.base, i + n) == PageAddr(st.base, i) + n * PAGESIZE;
    }
  }

  lemma BlockAligned(x: nat, n: int)
    requires IsPow2(n) && x % n == 0
    ensures IsPow2(n * PAGESIZE) && (x * PAGESIZE) % (n * PAGESIZE) == 0
  {
    var k: nat :| n == Pow2(k);
    Pow2Twelve();
    Pow2Add(k, 12);
    assert n * PAGESIZE == Pow2(k + 12);
    var q := x / n;
    assert x == n * q;
    assert x * PAGESIZE == (n * PAGESIZE) * q by { Swap(n, q, PAGESIZE); }
    DivUnique(x * PAGESIZE, n * PAGESIZE, q, 0);
  }

  lemma Pow2Twelve()
    ensures Pow2(12) == 4096
  {
    assert Pow2(6) == 64;
    Pow2Add(6, 6);
  }

  // Live objects are pairwise disjoint.
  lemma LiveDisjoint(st: State, p: int, s: int, q: int, t: int)
    requires Good(st) && Live(st, p, s) && Live(st, q, t) && p <= q
    ensures if p == q then s == t else p + s <= q
  {
    var i, j := Index(st.base, p), Index(st.base, q);
    LiveSpan(st, p, s);
    LiveSpan(st, q, t);
    if i == j {
      GoodPage(st, i);
      if st.ns[i].combpage == 0 {
        var page := PageAddr(st.base, i);
        var a :| 0 <= a < |st.objs[i]| && st.objs[i][a] == Obj(p, p + s);
        var b :| 0 <= b < |st.objs[i]| && st.objs[i][b] == Obj(q, q + t);
        if a <= b { ObjsClimb(page, st.objs[i], a, b); } else { ObjsClimb(page, st.objs[i], b, a); }
      }
    } else {
      HeadsApart(st, i, j);
    }
  }

  lemma HeadsApart(st: State, i: nat, j: nat)
    requires Good(st) && Heads(st, i) && Heads(st, j) && i < j
    ensures i + Len(st.ns[i]) <= j
    ensures PageAddr(st.base, i + Len(st.ns[i])) <= PageAddr(st.base, j)
  {
    BlockSpan(st, i);
  }

  // No live object touches the header record below a live small object.
  lemma HeaderDisjoint(st: State, p: int, s: int, q: int, t: int)
    requires Good(st) && Live(st, p, s) && Live(st, q, t) && SmallPage(st, Index(st.base, q))
    ensures p + s <= q - HEADER || q <= p
  {
    if p < q {
      var i, j := Index(st.base, p), Index(st.base, q);
      LiveSpan(st, p, s);
      LiveSpan(st, q, t);
      if i == j {
        GoodPage(st, i);
        var a :| 0 <= a < |st.objs[i]| && st.objs[i][a] == Obj(p, p + s);
        var b :| 0 <= b < |st.objs[i]| && st.objs[i][b] == Obj(q, q + t);
        var page := PageAddr(st.base, i);
        if a <= b { ObjsClimb(page, st.objs[i], a, b); } else { ObjsClimb(page, st.objs[i], b, a); }
      } else {
        HeadsApart(st, i, j);
      }
    }
  }

  // The live objects of st' are those of st and one more, which was not live before.
  ghost predicate Gains(st: State, st': State, p: int, s: int) {
    && (forall q, t {:trigger Live(st', q, t)} :: Live(st', q, t) <==> Live(st, q, t) || (q == p && t == s))
    && forall t :: !Live(st, p, t)
  }

  // The live objects of st' are those of st except the one at p, if any.
  ghost predicate Loses(st: State, st': State, p: int) {
    forall q, t {:trigger Live(st', q, t)} :: Live(st', q, t) <==> Live(st, q, t) && q != p
  }

  ghost predicate SameLive(st: State, st': State) {
    forall q, t {:trigger Live(st', q, t)} :: Live(st', q, t) <==> Live(st, q, t)
  }

  lemma SameThenGains(st: State, mid: State, st': State, p: int, s: int)
    requires SameLive(st, mid) && Gains(mid, st', p, s)
    ensures Gains(st, st', p, s)
  {
    forall t ensures !Live(st, p, t) {
      assert Live(mid, p, t) <==> Live(st, p, t);
    }
  }

  lemma LosesThenSame(st: State, mid: State, st': State, p: int)
    requires Loses(st, mid, p) && SameLive(mid, st')
    ensures Loses(st, st', p)
  {
    forall q, t ensures Live(st', q, t) <==> Live(st, q, t) && q != p {
      assert Live(mid, q, t) <==> Live(st, q, t) && q != p;
    }
  }

  // st' is st with the free block [b, b + n) put at the front of CPU c's pool.
  ghost predicate Pushed(st: State, st': State, c: nat, b: int, n: int, combpage: int) {
    && c < |st.lists| == |st.pool| && combpage >= 0 && n == Max(1, combpage)
    && 0 <= b && b + n <= |st.ns| == |st.free| == |st.holder| == |st'.ns|
    && (forall i :: b <= i < b + n ==> st.free[i])
    && Fronted(st'.ns, b, n, combpage, st.pool[c])
    && (forall i :: 0 <= i < |st.ns| && !st.free[i] ==> st'.ns[i] == st.ns[i])
    && st'.base == st.base && st'.objs == st.objs
    && st'.free == Mark(st.free, b, n, false)
    && st'.pool == st.pool[c := b]
    && st'.lists == st.lists[c := [b] + st.lists[c]]
    && st'.holder == Mark(st.holder, b, n, ByPool(c, b))
  }

  lemma PushedHeads(st: State, st': State, c: nat, b: int, n: int, combpage: int, i: nat)
    requires Good(st) && Pushed(st, st', c, b, n, combpage)
    requires i < |st.ns|
    ensures Heads(st', i) <==> Heads(st, i) || i == b
    ensures Heads(st, i) ==> !(b <= i < b + n) && st'.ns[i] == st.ns[i]
  {
    PlacedAt(st.ns, st.free, st.pool, st.lists, st.holder, i);
  }

  lemma PushGood(st: State, st': State, c: nat, b: int, n: int, combpage: int)
    requires Good(st) && Pushed(st, st', c, b, n, combpage)
    requires Canonical(st'.ns, st'.pages, st'.free)
    requires combpage > 0 ==> IsPow2(combpage) && (st.base + b) % combpage == 0
    ensures GoodBut(st', if combpage == 0 then b else NULL)
    ensures st.objs[b] == []
  {
    hide Pools, Canonical;
    PushBlock(st.ns, st'.ns, st.free, st.pool, st.lists, st.holder, c, b, n, combpage);
    forall i: nat | i < |st.ns| && (combpage == 0 ==> i != b) ensures PageOk(st', i) {
      GoodPage(st, i);
      PushedHeads(st, st', c, b, n, combpage, i);
    }
    GoodPage(st, b);
    PushedHeads(st, st', c, b, n, combpage, b);
  }

  lemma PushLive(st: State, st': State, c: nat, b: int, n: int, combpage: int)
    requires Good(st) && Pushed(st, st', c, b, n, combpage)
    ensures combpage == 0 ==> SameLive(st, st')
    ensures combpage > 0 ==> Gains(st, st', PageAddr(st.base, b), combpage * PAGESIZE)
  {
    hide Good, GoodBut, Fronted;
    PushedFirst(st, st', c, b, n, combpage);
    forall q, t
      ensures Live(st', q, t) <==> Live(st, q, t) || (combpage > 0 && q == PageAddr(st.base, b) && t == combpage * PAGESIZE)
      ensures q == PageAddr(st.base, b) ==> !Live(st, q, t)
    {
      IndexIs(st.base, b, PageAddr(st.base, b));
      var i := Index(st.base, q);
      if 0 <= i < |st.ns| { PushedHeads(st, st', c, b, n, combpage, i); }
    }
  }

  lemma PushedFirst(st: State, st': State, c: nat, b: int, n: int, combpage: int)
    requires Good(st) && Pushed(st, st', c, b, n, combpage)
    ensures |st.objs| == |st.ns| && st.objs[b] == [] && st'.ns[b].combpage == combpage
  {
    GoodPage(st, b);
    PushedHeads(st, st', c, b, n, combpage, b);
  }

  // One more object in a page of small objects.
  lemma InsertGood(st: State, st': State, x: int, i: nat, k: nat, a: int, size: int)
    requires GoodBut(st, x) && (x == i || x == NULL)
    requires SmallPage(st, i) && Laid(PageAddr(st.base, i), st.objs[i])
    requires x == i ==> st.objs[i] == []
    requires FitsGap(PageAddr(st.base, i), st.objs[i], size, a, k) && IsPow2(size)
    requires st' == st.(objs := st.objs[i := InsertObj(st.objs[i], k, Obj(a, a + size))])
    ensures Good(st') && Gains(st, st', a, size)
  {
    var page, objs, o := PageAddr(st.base, i), st.objs[i], Obj(a, a + size);
    var objs' := InsertObj(objs, k, o);
    InsertLaid(page, objs, size, a, k);
    forall j: nat | j < |st.ns| ensures PageOk(st', j) {
      if j != x { assert PageOk(st, j) by { assert st.objs[j] == st.objs[j]; } }
      if j == i {
        forall m | 0 <= m < |objs'| ensures IsPow2(objs'[m].end - objs'[m].start) {
          if m < k { assert objs'[m] == objs[m]; }
          if m > k { assert objs'[m] == objs[m - 1]; }
        }
      }
    }
    assert objs'[k] == o;
    ObjsClimb(page, objs', k, k);
    IndexIs(st.base, i, a);
    forall q: Obj ensures q in objs' <==> q in objs || q == o { InsertMembers(objs, k, o, q); }
    forall t ensures !Live(st, a, t) {
      if Live(st, a, t) { SlotNotTaken(page, objs, size, a, k, t); }
    }
  }

  lemma InsertMembers(objs: seq<Obj>, k: nat, o: Obj, q: Obj)
    requires k <= |objs|
    ensures q in InsertObj(objs, k, o) <==> q in objs || q == o
  {
    assert objs == objs[..k] + objs[k..];
  }

  lemma SlotNotTaken(page: int, objs: seq<Obj>, size: int, a: int, k: nat, t: int)
    requires Laid(page, objs) && FitsGap(page, objs, size, a, k)
    ensures Obj(a, a + t) !in objs
  {
    if Obj(a, a + t) in objs {
      var m :| 0 <= m < |objs| && objs[m] == Obj(a, a + t);
      if m < k { ObjsClimb(page, objs, m, k - 1); } else { ObjsClimb(page, objs, k, m); }
      assert false;
    }
  }

  // One object less; the page may become empty.
  lemma RemoveGood(st: State, st': State, i: nat, k: nat)
    requires Good(st) && SmallPage(st, i) && k < |st.objs[i]|
    requires st' == st.(objs := st.objs[i := RemoveAt(st.objs[i], k)])
    ensures GoodBut(st', if |st.objs[i]| == 1 then i else NULL)
    ensures Laid(PageAddr(st.base, i), st'.objs[i])
  {
    hide Pools, Canonical, Laid;
    GoodPage(st, i);
    var objs := st.objs[i];
    var objs' := RemoveAt(objs, k);
    RemoveLaid(PageAddr(st.base, i), objs, k);
    forall j: nat | j < |st.ns| && (j == i ==> |st.objs[i]| > 1) ensures PageOk(st', j) {
      GoodPage(st, j);
      if j == i {
        forall m | 0 <= m < |objs'| ensures IsPow2(objs'[m].end - objs'[m].start) {
          assert objs'[m] == objs[if m < k then m else m + 1];
        }
      }
    }
  }

  lemma RemoveLive(st: State, st': State, i: nat, k: nat)
    requires Good(st) && SmallPage(st, i) && k < |st.objs[i]|
    requires st' == st.(objs := st.objs[i := RemoveAt(st.objs[i], k)])
    ensures Loses(st, st', st.objs[i][k].start)
  {
    hide Pools, Canonical, RemoveAt;
    GoodPage(st, i);
    var page, objs, o := PageAddr(st.base, i), st.objs[i], st.objs[i][k];
    ObjsClimb(page, objs, k, k);
    IndexIs(st.base, i, o.start);
    forall q: Obj ensures q in RemoveAt(objs, k) <==> q in objs && q.start != o.start { RemoveMembers(page, objs, k, q); }
  }

  lemma RemoveMembers(page: int, objs: seq<Obj>, k: nat, q: Obj)
    requires Laid(page, objs) && k < |objs|
    ensures q in RemoveAt(objs, k) <==> q in objs && q.start != objs[k].start
  {
    if q in objs {
      var m :| 0 <= m < |objs| && objs[m] == q;
      if m < k { ObjsClimb(page, objs, m, k); assert RemoveAt(objs, k)[m] == q; }
      if m > k { ObjsClimb(page, objs, k, m); assert RemoveAt(objs, k)[m - 1] == q; }
    }
    if q in RemoveAt(objs, k) {
      var m :| 0 <= m < |RemoveAt(objs, k)| && RemoveAt(objs, k)[m] == q;
      if m < k { ObjsClimb(page, objs, m, k); } else { ObjsClimb(page, objs, k, m + 1); }
    }
  }

  // st' is st with the k-th block of CPU c picked out of its list and held by nobody.
  ghost predicate PickedFrom(st: State, st': State, c: nat, k: nat) {
    && c < |st.lists| == |st.pool| && k < |st.lists[c]|
    && PickedOut(st.ns, st'.ns, st.lists[c], k)
    && var b := st.lists[c][k];
    && b + Len(st.ns[b]) <= |st.ns| == |st.holder|
    && st' == st.(ns := st'.ns,
                  pool := if k == 0 then st.pool[c := st.ns[b + Len(st.ns[b]) - 1].next] else st.pool,
                  lists := st.lists[c := RemoveAt(st.lists[c], k)],
                  holder := Picked(st.ns, st.lists, st.holder, c, k))
  }

  // What receiving a held block needs to know about it.
  ghost predicate InHand(st: State, b: int, len: int) {
    && 0 <= b && 1 <= len && b + len <= |st.ns| == |st.holder|
    && (forall i :: 0 <= i < |st.ns| ==> (st.holder[i] == Dropped(b) <==> b <= i < b + len))
    && Returnable(st.ns, st.free, b, len)
    && st.ns[b].own == 0
  }

  lemma PickedUntouched(st: State, st': State, x: int, c: nat, k: nat, i: nat)
    requires GoodBut(st, x) && PickedFrom(st, st', c, k) && i < |st.ns|
    ensures st'.ns[i].combpage == st.ns[i].combpage
    ensures st.free[i] ==> st'.ns[i] == st.ns[i]
    ensures Heads(st', i) <==> Heads(st, i) && i != st.lists[c][k]
  {
    hide Pools, Canonical;
    var b := st.lists[c][k];
    BlockIn(st.ns, st.free, st.pool, st.lists, st.holder, c, k);
    PlacedAt(st.ns, st.free, st.pool, st.lists, st.holder, i);
    if st.free[i] { UntouchedDropped(st.ns, st'.ns, st.free, st.pool, st.lists, st.holder, c, k, i); }
    assert b <= i < b + Len(st.ns[b]) ==> st.holder[i] == ByPool(c, b);
  }

  lemma PickGood(st: State, st': State, x: int, c: nat, k: nat)
    requires GoodBut(st, x) && PickedFrom(st, st', c, k)
    requires var b := st.lists[c][k];
             if x == NULL then st.ns[b].combpage != 0 else x == b && st.objs[b] == [] && Laid(PageAddr(st.base, b), [])
    ensures Good(st')
  {
    hide Pools, Canonical, PickedOut, PickedFrom, Laid;
    PickedFacts(st, st', c, k);
    PoolsSizes(st.ns, st.free, st.pool, st.lists, st.holder);
    PickPools(st.ns, st'.ns, st.free, st.pool, st.lists, st.holder, c, k);
    forall i | 0 <= i < |st.ns| && st.free[i] ensures st'.ns[i] == st.ns[i] {
      PickedUntouched(st, st', x, c, k, i);
    }
    HeldWrites(st.ns, st'.ns, st.pages, st.free);
    forall i: nat | i < |st.ns| ensures PageOk(st', i) {
      PickedUntouched(st, st', x, c, k, i);
      if i != x { assert PageOk(st, i) by { assert st.objs[i] == st.objs[i]; } }
    }
  }

  lemma PickedFacts(st: State, st': State, c: nat, k: nat)
    requires PickedFrom(st, st', c, k)
    ensures c < |st.lists| == |st.pool| && k < |st.lists[c]|
    ensures PickedOut(st.ns, st'.ns, st.lists[c], k) && |st'.ns| == |st.ns| == |st.holder|
    ensures var b := st.lists[c][k]; 0 <= b && b + Len(st.ns[b]) <= |st.ns|
    ensures st'.base == st.base && st'.pages == st.pages && st'.free == st.free && st'.objs == st.objs
    ensures st'.holder == Picked(st.ns, st.lists, st.holder, c, k)
    ensures st'.lists == st.lists[c := RemoveAt(st.lists[c], k)]
    ensures var b := st.lists[c][k];
            st'.pool == if k == 0 then st.pool[c := st.ns[b + Len(st.ns[b]) - 1].next] else st.pool
  {}

  lemma PickInHand(st: State, st': State, x: int, c: nat, k: nat)
    requires GoodBut(st, x) && PickedFrom(st, st', c, k) && Good(st')
    ensures InHand(st', st.lists[c][k], Len(st.ns[st.lists[c][k]]))
  {
    hide Pools, Canonical, GoodBut;
    GoodPools(st, x);
    GoodPools(st', NULL);
    var b := st.lists[c][k];
    var len := Len(st.ns[b]);
    BlockIn(st.ns, st.free, st.pool, st.lists, st.holder, c, k);
    forall i | 0 <= i < |st.ns| ensures st'.holder[i] == Dropped(b) <==> b <= i < b + len {
      PlacedAt(st.ns, st.free, st.pool, st.lists, st.holder, i);
      assert st.holder[b] == ByPool(c, b);
    }
    PickedBlockChain(st, st', c, k);
    DroppedReturnable(st'.ns, st'.free, st'.pool, st'.lists, st'.holder, b, len);
  }

  lemma GoodPools(st: State, x: int)
    requires GoodBut(st, x)
    ensures Pools(st.ns, st.free, st.pool, st.lists, st.holder)
    ensures |st.ns| == |st.free| == |st.holder| == |st.objs| && |st.pool| == |st.lists|
  {}

  lemma PickedBlockChain(st: State, st': State, c: nat, k: nat)
    requires PickedFrom(st, st', c, k)
    requires PoolBlock(st.ns, st.holder, c, st.lists[c], k)
    ensures var b := st.lists[c][k]; var len := Len(st.ns[b]);
            Block(st'.ns, b, len) && st'.ns[b + len - 1].next == NULL && st'.ns[b].own == 0
  {
    var b := st.lists[c][k];
    assert st'.ns[b].combpage == st.ns[b].combpage;
  }

  lemma PickLive(st: State, st': State, x: int, c: nat, k: nat)
    requires GoodBut(st, x) && PickedFrom(st, st', c, k)
    requires var b := st.lists[c][k];
             if x == NULL then st.ns[b].combpage != 0 else x == b && st.objs[b] == []
    ensures Loses(st, st', PageAddr(st.base, st.lists[c][k]))
  {
    hide Pools, Canonical, PickedOut;
    PickedFacts(st, st', c, k);
    var b := st.lists[c][k];
    IndexIs(st.base, b, PageAddr(st.base, b));
    forall q, t ensures Live(st', q, t) <==> Live(st, q, t) && q != PageAddr(st.base, b) {
      var i := Index(st.base, q);
      if 0 <= i < |st.ns| { PickedUntouched(st, st', x, c, k, i); }
    }
  }

  // st' is st after memserver_receive was given the block in hand.
  ghost predicate Received(st: State, st': State, b: int, len: int) {
    && 0 <= b && 1 <= len && b + len <= |st.ns| == |st'.ns| == |st.holder| == |st.free|
    && Canonical(st'.ns, st'.pages, st'.free)
    && st' == st.(ns := st'.ns, pages := st'.pages, free := st'.free, holder := st'.holder)
    && if Relinks(st.free, b, st.ns[b].own) then
         && st'.free == Mark(st.free, b, len, true)
         && st'.holder == Mark(st.holder, b, len, ByServer)
         && forall i :: 0 <= i < |st.ns| && !st'.free[i] ==> st'.ns[i] == st.ns[i]
       else
         st'.free == st.free && st'.holder == st.holder && st'.ns == st.ns[b := st.ns[b].(combpage := len)]
  }

  lemma ReceiveGood(st: State, st': State, b: int, len: int)
    requires Good(st) && InHand(st, b, len) && Received(st, st', b, len)
    ensures Good(st') && SameLive(st, st')
  {
    hide Pools, Canonical, Relinks;
    if Relinks(st.free, b, st.ns[b].own) {
      ReceivedPools(st.ns, st'.ns, st.free, st.pool, st.lists, st.holder, b, len);
    } else {
      StillDroppedPools(st.ns, st'.ns, st.free, st.pool, st.lists, st.holder, b, len);
    }
    forall i: nat | i < |st.ns|
      ensures PageOk(st', i)
      ensures Heads(st', i) <==> Heads(st, i)
      ensures Heads(st, i) ==> st'.ns[i] == st.ns[i]
    {
      GoodPage(st, i);
      PlacedAt(st.ns, st.free, st.pool, st.lists, st.holder, i);
    }
  }

  // The same nodes are lost to every list.
  ghost predicate SameDropped(st: State, st': State) {
    && |st.holder| == |st'.holder|
    && forall i {:trigger st'.holder[i]} :: 0 <= i < |st.holder| ==> (st'.holder[i].Dropped? <==> st.holder[i].Dropped?)
  }

  // No page of CPU c's pool has a slot for the size.
  ghost predicate PoolFull(st: State, c: nat, realsize: int) {
    |st.objs| == |st.ns| &&
    forall i: nat, a :: SmallPage(st, i) && st.holder[i].cpu == c ==> !FitsPage(PageAddr(st.base, i), st.objs[i], realsize, a)
  }

  // An allocation of the size on CPU c has nowhere to go.
  ghost predicate NoRoom(st: State, c: nat, realsize: int) {
    if realsize >= PAGESIZE then forall j :: 0 <= j ==> !Fits(st.free, st.base, realsize / PAGESIZE, j)
    else PoolFull(st, c, realsize) && forall j :: 0 <= j < |st.free| ==> !st.free[j]
  }

  ghost predicate LowestFit(free: seq<bool>, base: nat, n: nat, j: int) {
    Fits(free, base, n, j) && forall i :: 0 <= i < j ==> !Fits(free, base, n, i)
  }

  ghost predicate LowestIn(page: int, objs: seq<Obj>, size: int, a: int) {
    FitsPage(page, objs, size, a) && forall b :: FitsPage(page, objs, size, b) ==> a <= b
  }

  // The k-th block of CPU c's list is the first page of small objects with room for the size.
  ghost predicate FirstRoom(st: State, c: nat, k: nat, size: int) {
    && c < |st.lists| && k < |st.lists[c]| && |st.objs| == |st.ns|
    && SmallPage(st, st.lists[c][k])
    && (exists a :: FitsPage(PageAddr(st.base, st.lists[c][k]), st.objs[st.lists[c][k]], size, a))
    && forall j: nat, a {:trigger FitsPage(PageAddr(st.base, st.lists[c][j]), st.objs[st.lists[c][j]], size, a)} ::
         j < k && SmallPage(st, st.lists[c][j]) ==> !FitsPage(PageAddr(st.base, st.lists[c][j]), st.objs[st.lists[c][j]], size, a)
  }

  // The object goes to the lowest slot of the first page with room in CPU c's list, and no
  // block moves.
  ghost predicate ChosenInPool(st: State, c: nat, size: int, ret: int, st': State) {
    exists k: nat ::
      && FirstRoom(st, c, k, size)
      && LowestIn(PageAddr(st.base, st.lists[c][k]), st.objs[st.lists[c][k]], size, ret)
      && st' == st.(objs := st'.objs)
  }

  // Block j of n pages went from the server to the front of CPU c's list.
  ghost predicate Took(st: State, st': State, c: nat, j: int, n: nat) {
    && c < |st.lists| == |st.pool| && 0 <= j && j + n <= |st.free| == |st.holder|
    && st'.free == Mark(st.free, j, n, false) && st'.holder == Mark(st.holder, j, n, ByPool(c, j))
    && st'.lists == st.lists[c := [j] + st.lists[c]] && st'.pool == st.pool[c := j]
  }

  // The object goes to the lowest slot of the lowest free page.
  ghost predicate ChosenFresh(st: State, c: nat, size: int, ret: int, st': State) {
    exists j ::
      LowestFit(st.free, st.base, 1, j) && LowestIn(PageAddr(st.base, j), [], size, ret) && Took(st, st', c, j, 1)
  }

  // The object is the lowest aligned block of free pages.
  ghost predicate ChosenPages(st: State, c: nat, size: int, ret: int, st': State) {
    var n := size / PAGESIZE;
    n >= 1 && exists j :: LowestFit(st.free, st.base, n, j) && ret == PageAddr(st.base, j) && Took(st, st', c, j, n)
  }

  // Where an allocation that succeeds puts the object.
  ghost predicate Chosen(st: State, c: nat, size: int, ret: int, st': State) {
    if size >= PAGESIZE then ChosenPages(st, c, size, ret, st')
    else if PoolFull(st, c, size) then ChosenFresh(st, c, size, ret, st')
    else ChosenInPool(st, c, size, ret, st')
  }

  // A power of two of at least a page is a power-of-two number of whole pages.
  lemma WholePages(size: int)
    requires IsPow2(size) && size >= PAGESIZE
    ensures var n := size / PAGESIZE; IsPow2(n) && n >= 1 && n * PAGESIZE == size
  {
    var k: nat :| size == Pow2(k);
    Pow2Twelve();
    if k < 12 { Pow2Monotone(k, 11); }
    Pow2Add(k - 12, 12);
    DivUnique(size, PAGESIZE, Pow2(k - 12), 0);
  }

  lemma PushDropped(st: State, st': State, c: nat, b: int, n: int, combpage: int)
    requires Good(st) && Pushed(st, st', c, b, n, combpage)
    ensures SameDropped(st, st')
  {
    forall i | 0 <= i < |st.holder| ensures st'.holder[i].Dropped? <==> st.holder[i].Dropped? {
      PlacedAt(st.ns, st.free, st.pool, st.lists, st.holder, i);
    }
  }

  lemma HeadOfList(st: State, c: nat)
    requires Good(st) && c < |st.pool|
    ensures c < |st.lists| && st.pool[c] == Head(st.lists[c], 0)
  {}

  // The k-th block of a good pool, and how to get to the next one.
  lemma BlockInGood(st: State, c: nat, k: nat)
    requires Good(st) && c < |st.lists| && k < |st.lists[c]|
    ensures var b := st.lists[c][k];
            && 0 <= b < |st.ns| == |st.holder| == |st.objs|
            && b + Len(st.ns[b]) <= |st.ns| && 1 <= Len(st.ns[b])
            && st.ns[b].combpage >= 0
            && Heads(st, b) && st.holder[b] == ByPool(c, b)
            && (forall i :: b <= i < b + Len(st.ns[b]) ==> st.holder[i] == ByPool(c, b) && st.ns[i].own == 1)
            && st.ns[b + Len(st.ns[b]) - 1].next == Head(st.lists[c], k + 1)
            && PageOk(st, b)
  {
    BlockIn(st.ns, st.free, st.pool, st.lists, st.holder, c, k);
    GoodPage(st, st.lists[c][k]);
  }

  lemma HeadsNotNull(st: State, c: nat)
    requires Good(st) && c < |st.lists|
    ensures forall k: nat {:trigger Head(st.lists[c], k)} :: k < |st.lists[c]| ==> Head(st.lists[c], k) != NULL
  {
    forall k: nat | k < |st.lists[c]| ensures Head(st.lists[c], k) != NULL {
      BlockIn(st.ns, st.free, st.pool, st.lists, st.holder, c, k);
    }
  }

  lemma SmallPageListed(st: State, i: nat) returns (k: nat)
    requires Good(st) && Heads(st, i)
    ensures st.holder[i].cpu < |st.lists| && k < |st.lists[st.holder[i].cpu]| && st.lists[st.holder[i].cpu][k] == i
  {
    PoolBlockAt(st.ns, st.free, st.pool, st.lists, st.holder, i);
    k :| k < |st.lists[st.holder[i].cpu]| && st.lists[st.holder[i].cpu][k] == i;
  }

  // CPU c's pool holds the page p lies in.
  ghost predicate Holds(st: State, c: nat, p: int) {
    var i := Index(st.base, p);
    0 <= i < |st.holder| && st.holder[i].ByPool? && st.holder[i].cpu == c
  }

  // Freeing p gives a whole block back: a large one, or a small page's last object.
  ghost predicate EmptiesBlock(st: State, b: int) {
    && Heads(st, b) && |st.objs| == |st.ns| == |st.free|
    && (st.ns[b].combpage != 0 || |st.objs[b]| == 1)
  }

  // Block b left its CPU's list, and no other block moved.
  ghost predicate Unlisted(st: State, st': State, b: int) {
    && 0 <= b < |st.holder| && st.holder[b].ByPool?
    && var c := st.holder[b].cpu;
       exists k: nat :: c < |st.lists| && k < |st.lists[c]| && st.lists[c][k] == b
         && st'.lists == st.lists[c := RemoveAt(st.lists[c], k)]
  }

  // Where the pages are after block b, of len pages, was given to the server disowned:
  // in the server's list, or in no list at all if the block lay above every free page.
  ghost predicate Returned(st: State, st': State, b: int, len: int) {
    && 0 <= b && 1 <= len && b + len <= |st.free| == |st.holder| == |st'.holder|
    && (if Relinks(st.free, b, 0) then st'.free == Mark(st.free, b, len, true) else st'.free == st.free)
    && forall i {:trigger st'.holder[i]} :: 0 <= i < |st.holder| ==>
         (st'.holder[i].Dropped? <==> st.holder[i].Dropped? || (b <= i < b + len && !Relinks(st.free, b, 0)))
  }

  // The effect of freeing the live pointer p on who holds which page.
  ghost predicate Accounted(st: State, st': State, p: int) {
    var b := Index(st.base, p);
    if EmptiesBlock(st, b) then Returned(st, st', b, Len(st.ns[b])) && Unlisted(st, st', b)
    else st' == st.(objs := st'.objs)
  }

  lemma PickThenReceive(st: State, mid: State, st': State, c: nat, k: nat)
    requires c < |st.lists| && k < |st.lists[c]|
    requires PickedFrom(st, mid, c, k) && |st.holder| == |st.free|
    requires PoolBlock(st.ns, st.holder, c, st.lists[c], k)
    requires var b := st.lists[c][k]; mid.ns[b].own == 0 && Received(mid, st', b, Len(st.ns[b]))
    ensures Returned(st, st', st.lists[c][k], Len(st.ns[st.lists[c][k]])) && Unlisted(st, st', st.lists[c][k])
  {
    var b := st.lists[c][k];
    forall i | 0 <= i < |st.holder|
      ensures st'.holder[i].Dropped? <==> st.holder[i].Dropped? || (b <= i < b + Len(st.ns[b]) && !Relinks(st.free, b, 0))
    {
      assert b <= i < b + Len(st.ns[b]) ==> st.holder[i] == ByPool(c, b);
    }
  }

  // The three answers of the pool search about a pointer in the block headed by b.
  lemma NotLiveInside(st: State, b: nat, p: int)
    requires Good(st) && Heads(st, b)
    requires PageAddr(st.base, b) <= p < PageAddr(st.base, b + Len(st.ns[b]))
    ensures b <= Index(st.base, p) < b + Len(st.ns[b])
    ensures Holds(st, st.holder[b].cpu, p)
    ensures st.ns[b].combpage != 0 && p != PageAddr(st.base, b) ==> forall s :: !Live(st, p, s)
    ensures st.ns[b].combpage == 0 && p == PageAddr(st.base, b) ==> forall s :: !Live(st, p, s)
    ensures st.ns[b].combpage == 0 ==> Index(st.base, p) == b
    ensures st.ns[b].combpage != 0 && p == PageAddr(st.base, b) ==>
      Index(st.base, p) == b && Live(st, p, st.ns[b].combpage * PAGESIZE)
  {
    BlockSpan(st, b);
    IndexBetween(st.base, b, b + Len(st.ns[b]), p);
    var i := Index(st.base, p);
    if p == PageAddr(st.base, b) { IndexIs(st.base, b, p); }
    if st.ns[b].combpage == 0 && p == PageAddr(st.base, b) {
      forall s ensures !Live(st, p, s) {
        if Live(st, p, s) { LiveSpan(st, p, s); }
      }
    }
  }

  lemma IndexBetween(base: nat, b: int, e: int, p: int)
    ensures PageAddr(base, b) <= p < PageAddr(base, e) <==> b <= Index(base, p) < e
  {
    var q := p / PAGESIZE;
    assert p == PAGESIZE * q + p % PAGESIZE;
  }
}
