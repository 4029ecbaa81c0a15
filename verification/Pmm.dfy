// The kernel allocator proper: per-CPU pools over the page server, and the entry points
// that round sizes up to powers of two and search every pool for a freed pointer.
module Pmm {
  import opened Lists
  import opened Arith
  import opened FreeSet
  import opened MemServer
  import opened PageAlloc
  import opened PoolLists
  import opened AllocState
  import opened AllocTrace

  // live is what a client who saw the answers rets believes is allocated: the pointers
  // handed out and not freed since, each with a power-of-two size in [size, 2 * size).
  ghost predicate Books(ops: seq<Op>, rets: seq<int>, live: map<int, int>)
    requires |ops| == |rets|
  {
    if ops == [] then live == map[]
    else
      var last := |ops| - 1;
      exists was :: Books(ops[..last], rets[..last], was) && Booked(ops[last], rets[last], was, live)
  }

  ghost predicate Booked(op: Op, ret: int, was: map<int, int>, live: map<int, int>) {
    match op
    case Alloc(_, size) =>
      if ret == NULLPTR then live == was
      else ret in live && ret !in was && live == was[ret := live[ret]] && size <= live[ret] < 2 * size
    case Free(ptr) => live == was - {ptr}
  }

  ghost predicate LiveIs(st: State, live: map<int, int>) {
    forall p, s {:trigger Live(st, p, s)} :: Live(st, p, s) <==> p in live && live[p] == s
  }

  class Allocator {
    const server: Server
    const pages: seq<Page>   // the page behind each page node
    var pool: seq<int>       // each CPU's first block
    ghost var lists: seq<seq<int>>
    ghost var holder: seq<Holder>

    ghost function Objs(): seq<seq<Obj>>
      reads pages
    {
      seq(|pages|, i requires 0 <= i < |pages| reads pages => pages[i].objs)
    }

    ghost function Snap(): State
      reads this, server, server.nodes, pages
    {
      State(server.base, server.nodes[..], server.pages, server.free, pool, lists, holder, Objs())
    }

    // The pages are distinct, lie where their nodes say, and are well threaded.
    ghost predicate Shape()
      reads pages
    {
      && 0 < |pages| == server.nodes.Length
      && (forall i, j :: 0 <= i < j < |pages| ==> pages[i] != pages[j])
      && forall i :: 0 <= i < |pages| ==> pages[i].start == PageAddr(server.base, i) && pages[i].Valid()
    }

    ghost predicate Valid()
      reads this, server, server.nodes, pages
    {
      Shape() && Good(Snap())
    }

    constructor (base: nat, amount: nat, cpus: nat)
      requires 1 <= base && 1 <= amount
      ensures fresh(server) && fresh(server.nodes) && (forall i :: 0 <= i < |pages| ==> fresh(pages[i]))
      ensures server.base == base && server.nodes.Length == amount && |pool| == cpus
      ensures |server.free| == amount && forall i :: 0 <= i < amount ==> server.free[i]
      ensures Valid()
      ensures |holder| == amount && forall i :: 0 <= i < amount ==> holder[i] == ByServer
      ensures forall p, s :: !Live(Snap(), p, s)
    {
      var srv := new Server(base, amount);
      var pgs: seq<Page> := [];
      for i := 0 to amount
        invariant |pgs| == i && srv.Valid() && srv.base == base && srv.nodes.Length == amount && fresh(srv) && fresh(srv.nodes)
        invariant |srv.free| == amount && forall k :: 0 <= k < amount ==> srv.free[k]
        invariant forall j :: 0 <= j < i ==> fresh(pgs[j]) && pgs[j].start == PageAddr(base, j) && pgs[j].Valid() && pgs[j].objs == []
        invariant forall j, k :: 0 <= j < k < i ==> pgs[j] != pgs[k]
      {
        PageAligned(base, i);
        var pg := new Page(PageAddr(base, i));
        pgs := pgs + [pg];
      }
      server := srv;
      pages := pgs;
      pool := seq(cpus, _ => NULL);
      lists := seq(cpus, _ => []);
      holder := seq(amount, _ => ByServer);
      new;
      InitialGood(Snap(), cpus);
    }

    // A page block from the server, put at the front of CPU c's pool.
    method TakeBlock(c: nat, combpage: int) returns (obj: int)
      requires Valid() && c < |pool| && combpage >= 0
      requires combpage > 0 ==> IsPow2(combpage)
      modifies this, server, server.nodes
      ensures Shape()
      ensures obj == NULL ==> Snap() == old(Snap()) && forall j :: 0 <= j ==> !Fits(old(server.free), server.base, Max(1, combpage), j)
      ensures obj != NULL ==> Pushed(old(Snap()), Snap(), c, obj, Max(1, combpage), combpage)
      ensures obj != NULL ==> GoodBut(Snap(), if combpage == 0 then obj else NULL)
      ensures obj != NULL ==> LowestFit(old(server.free), server.base, Max(1, combpage), obj)
    {
      hide Canonical, Pools, Fits, Good, GoodBut, Pushed;
      ghost var st := Snap();
      GoodServer(st);
      obj := server.MemserverDelivery(combpage);
      if obj != NULL {
        FitsFree(st.free, st.base, Max(1, combpage), obj);
        LinkFirst(c, obj, combpage, st);
      }
    }

    // Puts a block just delivered in front of CPU c's list.
    method LinkFirst(c: nat, obj: int, combpage: int, ghost st: State)
      requires Shape() && Good(st) && c < |pool| && combpage >= 0
      requires combpage > 0 ==> IsPow2(combpage)
      requires st.base == server.base && st.objs == Objs() && st.pool == pool && st.lists == lists && st.holder == holder
      requires |st.ns| == |st.free| == |st.holder| == server.nodes.Length && |st.lists| == |st.pool|
      requires 0 <= obj && obj + Max(1, combpage) <= |st.free|
      requires Fits(st.free, st.base, Max(1, combpage), obj) && server.free == Mark(st.free, obj, Max(1, combpage), false)
      requires Delivered(server.nodes[..], obj, Max(1, combpage), combpage)
      requires Canonical(server.nodes[..], server.pages, server.free)
      requires forall i :: 0 <= i < |st.ns| && !st.free[i] ==> server.nodes[i] == st.ns[i]
      modifies this, server.nodes
      ensures Shape() && Pushed(st, Snap(), c, obj, Max(1, combpage), combpage)
      ensures GoodBut(Snap(), if combpage == 0 then obj else NULL)
    {
      hide Canonical, Pools, Fits, Good, GoodBut, Pushed;
      ghost var n := Max(1, combpage);
      FitsFree(st.free, st.base, n, obj);
      FitsAligned(st.free, st.base, n, obj);
      var last := obj + Max(server.nodes[obj].combpage, 1) - 1;
      ghost var delivered := server.nodes[..];
      server.nodes[last] := server.nodes[last].(next := pool[c]);
      pool := pool[c := obj];
      lists := lists[c := [obj] + lists[c]];
      holder := Mark(holder, obj, n, ByPool(c, obj));
      TakenIsPushed(st, delivered, Snap(), c, obj, n, combpage);
      PushGood(st, Snap(), c, obj, n, combpage);
    }

    // An object in page i, if it has room; x is a page that may still be empty.
    method AllocInPage(i: nat, realsize: int, ghost x: int) returns (ret: int)
      requires Shape() && GoodBut(Snap(), x) && (x == i || x == NULL)
      requires SmallPage(Snap(), i) && (x == i ==> pages[i].objs == [])
      requires IsPow2(realsize) && realsize < PAGESIZE
      modifies pages[i]
      ensures Shape()
      ensures ret == NULLPTR ==> Snap() == old(Snap()) && forall a :: !FitsPage(pages[i].start, pages[i].objs, realsize, a)
      ensures ret != NULLPTR ==> Good(Snap()) && Gains(old(Snap()), Snap(), ret, realsize)
      ensures ret != NULLPTR ==> LowestIn(pages[i].start, old(pages[i].objs), realsize, ret) && Index(server.base, ret) == i
      ensures Snap() == old(Snap()).(objs := Snap().objs)
      ensures holder == old(holder) && pool == old(pool)
    {
      hide Good, GoodBut, SmallPage, FitsPage, FitsGap, Gains, Laid, Threaded;
      SmallPageInRange(Snap(), i);
      ghost var st := Snap();
      ghost var at;
      ret, at := pages[i].PagenodeDelivery(realsize);
      if ret != NULLPTR { GapIndexBound(pages[i].start, st.objs[i], realsize, ret, at); }
      if ret == NULLPTR {
        assert Objs() == st.objs;
      } else {
        assert Objs() == st.objs[i := InsertObj(st.objs[i], at, Obj(ret, ret + realsize))];
        InsertGood(st, Snap(), x, i, at, ret, realsize);
        SlotInPage(st.base, i, st.objs[i], realsize, ret, at);
      }
    }

    // cpumempool_delivery: whole pages from the server for large sizes; for small ones the
    // first page of CPU c's pool with room, or else a fresh page.
    method CpumempoolDelivery(c: nat, realsize: int) returns (ret: int)
      requires Valid() && c < |pool|
      requires realsize > 0 ==> IsPow2(realsize)
      modifies this, server, server.nodes, pages
      ensures Valid() && |pool| == old(|pool|)
      ensures ret == NULLPTR ==> Snap() == old(Snap()) && (realsize > 0 ==> NoRoom(old(Snap()), c, realsize))
      ensures ret != NULLPTR ==> Gains(old(Snap()), Snap(), ret, realsize)
      ensures ret != NULLPTR ==> Chosen(old(Snap()), c, realsize, ret, Snap())
      ensures ret != NULLPTR ==> !NoRoom(old(Snap()), c, realsize) && Holds(Snap(), c, ret)
      ensures SameDropped(old(Snap()), Snap())
    {
      hide Good, GoodBut, Pools, Canonical, Gains, Live, Fits, FitsPage;
      if realsize <= 0 { return NULLPTR; }
      if realsize >= PAGESIZE {
        ret := DeliverPages(c, realsize);
      } else {
        ret := DeliverFromPool(c, realsize);
        if ret == NULLPTR {
          ret := DeliverFreshPage(c, realsize);
        }
      }
    }

    method DeliverPages(c: nat, realsize: int) returns (ret: int)
      requires Valid() && c < |pool| && IsPow2(realsize) && realsize >= PAGESIZE
      modifies this, server, server.nodes
      ensures Valid() && |pool| == old(|pool|)
      ensures ret == NULLPTR ==> Snap() == old(Snap()) && NoRoom(old(Snap()), c, realsize)
      ensures ret != NULLPTR ==> Gains(old(Snap()), Snap(), ret, realsize)
      ensures ret != NULLPTR ==> ChosenPages(old(Snap()), c, realsize, ret, Snap())
      ensures ret != NULLPTR ==> !NoRoom(old(Snap()), c, realsize) && Holds(Snap(), c, ret)
      ensures SameDropped(old(Snap()), Snap())
    {
      hide GoodBut, Pools, Canonical, Fits, Gains;
      ghost var st := Snap();
      var pageamount := realsize / PAGESIZE;
      WholePages(realsize);
      assert Max(1, pageamount) == pageamount;
      var objnode := TakeBlock(c, pageamount);
      if objnode != NULL {
        PushLive(st, Snap(), c, objnode, pageamount, pageamount);
        PushDropped(st, Snap(), c, objnode, pageamount, pageamount);
        ret := pages[objnode].start;
        IndexIs(st.base, objnode, ret);
        assert LowestFit(st.free, st.base, pageamount, objnode) && Took(st, Snap(), c, objnode, pageamount);
        FitsFree(st.free, st.base, pageamount, objnode);
      } else {
        ret := NULLPTR;
      }
    }

    method DeliverFromPool(c: nat, realsize: int) returns (ret: int)
      requires Valid() && c < |pool| && IsPow2(realsize) && realsize < PAGESIZE
      modifies pages
      ensures Valid()
      ensures ret == NULLPTR ==> Snap() == old(Snap()) && PoolFull(old(Snap()), c, realsize)
      ensures ret != NULLPTR ==> Gains(old(Snap()), Snap(), ret, realsize)
      ensures ret != NULLPTR ==> ChosenInPool(old(Snap()), c, realsize, ret, Snap())
      ensures ret != NULLPTR ==> !PoolFull(old(Snap()), c, realsize) && Holds(Snap(), c, ret)
      ensures holder == old(holder)
    {
      hide GoodBut, Pools, Canonical, FitsPage, Gains, PoolFull, PageOk, LowestIn, ChosenInPool, FullBefore;
      ghost var st := Snap();
      GoodServer(st);
      HeadOfList(st, c);
      HeadsNotNull(st, c);
      NoneBefore(st, c, realsize);
      var node := pool[c];
      ghost var k := 0;
      while node != NULL
        invariant Shape() && Snap() == st
        invariant k <= |lists[c]| && node == Head(lists[c], k)
        invariant k < |lists[c]| <==> node != NULL
        invariant FullBefore(st, c, k, realsize)
        decreases |lists[c]| - k
      {
        BlockInGood(st, c, k);
        if server.nodes[node].combpage == 0 {
          ret := AllocInPage(node, realsize, NULL);
          if ret != NULLPTR {
            FirstPage(st, c, k, realsize, ret, Snap());
            return;
          }
        }
        StillFull(st, c, k, realsize);
        node := server.nodes[node + Max(server.nodes[node].combpage, 1) - 1].next;
        k := k + 1;
      }
      ret := NULLPTR;
      PoolSearched(st, c, realsize);
    }

    // A page from the server whose first object is the one asked for.
    method DeliverFreshPage(c: nat, realsize: int) returns (ret: int)
      requires Valid() && c < |pool| && IsPow2(realsize) && realsize < PAGESIZE
      modifies this, server, server.nodes, pages
      ensures Valid() && |pool| == old(|pool|)
      ensures ret == NULLPTR ==> Snap() == old(Snap()) && forall j :: 0 <= j < |old(server.free)| ==> !old(server.free)[j]
      ensures ret != NULLPTR ==> Gains(old(Snap()), Snap(), ret, realsize)
      ensures ret != NULLPTR ==> ChosenFresh(old(Snap()), c, realsize, ret, Snap())
      ensures ret != NULLPTR ==> Holds(Snap(), c, ret)
      ensures ret != NULLPTR ==> var i := Index(server.base, ret); 0 <= i < |old(server.free)| && old(server.free)[i]
      ensures SameDropped(old(Snap()), Snap())
    {
      hide GoodBut, Pools, Canonical, FitsPage, Fits, Gains;
      ghost var st := Snap();
      GoodServer(st);
      assert Max(1, 0) == 1;
      var node := TakeBlock(c, 0);
      if node == NULL {
        NoFreePage(st.free, st.base);
        return NULLPTR;
      }
      ghost var mid := Snap();
      PushGoodFacts(st, mid, c, node);
      PushLive(st, mid, c, node, 1, 0);
      PushDropped(st, mid, c, node, 1, 0);
      ret := AllocInPage(node, realsize, node);
      FreshPageHasRoom(mid.base, node, realsize);
      SameThenGains(st, mid, Snap(), ret, realsize);
      FitsFree(st.free, st.base, 1, node);
      assert LowestFit(st.free, st.base, 1, node) && Took(st, Snap(), c, node, 1);
    }

    // Picks the k-th block of CPU c's pool out, disowns its nodes and gives it to the server;
    // x is the block's page when it has just become empty.
    method ReleaseBlock(c: nat, head: int, tail: int, priornode: int, ghost k: nat, ghost x: int)
      requires Shape() && GoodBut(Snap(), x)
      requires c < |pool| == |lists| && k < |lists[c]| && head == lists[c][k]
      requires 0 <= head <= tail < server.nodes.Length && tail == head + Len(server.nodes[head]) - 1
      requires priornode == LastBefore(Snap(), c, k)
      requires if x == NULL then server.nodes[head].combpage != 0 else x == head && pages[head].objs == []
      modifies this, server, server.nodes
      ensures Valid() && |pool| == old(|pool|)
      ensures Loses(old(Snap()), Snap(), PageAddr(server.base, head))
      ensures Returned(old(Snap()), Snap(), head, old(Len(server.nodes[head]))) && Unlisted(old(Snap()), Snap(), head)
    {
      hide Unlisted, GoodBut, Pools, Canonical, Loses, Returned, Received, InHand, Laid, PickedOut;
      ghost var st := Snap();
      PickPlace(st, x, c, k);
      BlockStill(st, x, c, k);
      PickOut(c, head, tail, priornode, k, x);
      lists := lists[c := RemoveAt(lists[c], k)];
      holder := Mark(holder, head, Len(st.ns[head]), Dropped(head));
      ghost var mid := Snap();
      PickSteps(st, mid, x, c, k);
      GiveBack(head, Len(st.ns[head]));
      PickThenReceive(st, mid, Snap(), c, k);
      LosesThenSame(st, mid, Snap(), PageAddr(st.base, head));
    }

    // Unlinks the block from its list and clears the own marks of its nodes.
    method PickOut(c: nat, head: int, tail: int, priornode: int, ghost k: nat, ghost x: int)
      requires GoodBut(Snap(), x) && c < |pool| == |lists| && k < |lists[c]| && head == lists[c][k]
      requires 0 <= head <= tail < server.nodes.Length && tail == head + Len(server.nodes[head]) - 1
      requires priornode == LastBefore(Snap(), c, k)
      modifies this`pool, server.nodes
      ensures PickedOut(old(server.nodes[..]), server.nodes[..], lists[c], k)
      ensures pool == if k == 0 then old(pool)[c := old(server.nodes[tail].next)] else old(pool)
    {
      hide Pools, Canonical;
      ghost var ns := server.nodes[..];
      PickPlace(Snap(), x, c, k);
      if priornode != NULL {
        server.nodes[priornode] := server.nodes[priornode].(next := server.nodes[tail].next);
      } else {
        pool := pool[c := server.nodes[tail].next];
      }
      server.nodes[tail] := server.nodes[tail].(next := NULL);
      var node := head;
      while node <= tail
        invariant head <= node <= tail + 1
        invariant pool == if k == 0 then old(pool)[c := ns[tail].next] else old(pool)
        invariant forall i :: 0 <= i < server.nodes.Length ==>
          server.nodes[i] ==
            if head <= i <= tail then
              PageNode(if i < node then 0 else 1, ns[i].combpage, if i == tail then NULL else i + 1)
            else if k > 0 && i == priornode then ns[i].(next := ns[tail].next)
            else ns[i]
      {
        server.nodes[node] := server.nodes[node].(own := 0);
        node := node + 1;
      }
    }

    method GiveBack(head: int, ghost len: int)
      requires Valid() && InHand(Snap(), head, len)
      modifies this`holder, server, server.nodes
      ensures Valid()
      ensures Received(old(Snap()), Snap(), head, len) && SameLive(old(Snap()), Snap())
    {
      hide Pools, Canonical, GoodBut, Relinks;
      ghost var st := Snap();
      GoodServer(st);
      InHandFacts(st, head, len);
      server.MemserverReceive(head);
      if Relinks(st.free, head, st.ns[head].own) {
        holder := Mark(holder, head, len, ByServer);
      }
      assert Received(st, Snap(), head, len);
      ReceiveGood(st, Snap(), head, len);
    }

    // Frees an object in CPU c's k-th block, a page of small objects: 1 freed, 2 no such object.
    method FreeInPage(c: nat, head: int, priornode: int, objptr: int, ghost k: nat) returns (ret: int)
      requires Valid() && c < |pool| == |lists| && k < |lists[c]| && head == lists[c][k]
      requires SmallPage(Snap(), head) && Index(server.base, objptr) == head && objptr < pages[head].start + PAGESIZE
      requires priornode == LastBefore(Snap(), c, k)
      modifies this, server, server.nodes, pages
      ensures Valid() && |pool| == old(|pool|)
      ensures ret == 1 || ret == 2
      ensures ret == 2 ==> Snap() == old(Snap()) && forall s :: !Live(old(Snap()), objptr, s)
      ensures ret == 1 ==> exists s :: Live(old(Snap()), objptr, s)
      ensures ret == 1 ==> Loses(old(Snap()), Snap(), objptr) && Accounted(old(Snap()), Snap(), objptr)
    {
      hide Pools, Canonical, GoodBut, Live, Loses, Returned, Laid;
      ghost var st := Snap();
      ghost var at;
      ret, at := RemoveFromPage(head, objptr);
      if pages[head].first == TAILNODE {
        ghost var mid := Snap();
        pages[head].Emptied();
        ReleaseBlock(c, head, head, priornode, k, head);
        ReleasedEmptyPage(st, mid, Snap(), head, objptr);
      } else if ret == 1 {
        pages[head].NotEmptyBy();
      }
    }

    // Takes the object that starts at objptr, if any, out of a page of small objects.
    method RemoveFromPage(head: int, objptr: int) returns (ret: int, ghost at: nat)
      requires Valid() && SmallPage(Snap(), head)
      requires Index(server.base, objptr) == head && objptr < pages[head].start + PAGESIZE
      modifies pages[head]
      ensures Shape() && (ret == 1 || ret == 2)
      ensures ret == 2 ==> Snap() == old(Snap()) && pages[head].first != TAILNODE && forall s :: !Live(old(Snap()), objptr, s)
      ensures ret == 1 ==> exists s :: Live(old(Snap()), objptr, s)
      ensures ret == 1 ==> Loses(old(Snap()), Snap(), objptr)
      ensures ret == 1 ==> at < |old(pages[head].objs)| && |pages[head].objs| == |old(pages[head].objs)| - 1
      ensures ret == 1 ==>
        Snap() == old(Snap()).(objs := old(Snap()).objs[head := RemoveAt(old(Snap()).objs[head], at)])
      ensures ret == 1 ==> GoodBut(Snap(), if |old(pages[head].objs)| == 1 then head else NULL)
    {
      hide Pools, Canonical, GoodBut, Live, Loses, Laid;
      ghost var st := Snap();
      GoodPageFacts(st, head);
      ret, at := pages[head].PagenodeReceive(objptr);
      if ret != 1 {
        assert Objs() == st.objs;
        SmallNotLive(st, head, objptr);
        pages[head].NotEmptied();
        ret := 2;
      } else {
        assert Objs() == st.objs[head := RemoveAt(st.objs[head], at)];
        RemoveGood(st, Snap(), head, at);
        RemoveLive(st, Snap(), head, at);
        SmallLive(st, head, at);
      }
    }

    // The answer for a pointer into CPU c's k-th block.
    method ReceiveInBlock(c: nat, head: int, tail: int, priornode: int, objptr: int, ghost k: nat) returns (ret: int)
      requires Valid() && c < |pool| == |lists| && k < |lists[c]| && head == lists[c][k]
      requires 0 <= head < server.nodes.Length && tail == head + Len(server.nodes[head]) - 1
      requires priornode == LastBefore(Snap(), c, k) && InBlock(Snap(), head, objptr)
      modifies this, server, server.nodes, pages
      ensures Valid() && |pool| == old(|pool|)
      ensures ret == 1 || ret == 2
      ensures Holds(old(Snap()), c, objptr)
      ensures ret == 2 ==> Snap() == old(Snap()) && forall s :: !Live(old(Snap()), objptr, s)
      ensures ret == 1 ==> exists s :: Live(old(Snap()), objptr, s)
      ensures ret == 1 ==> Loses(old(Snap()), Snap(), objptr) && Accounted(old(Snap()), Snap(), objptr)
    {
      hide Pools, Canonical, Live, Loses, Accounted, GoodBut, PageOk, SmallPage, Heads, Holds, Returned;
      ghost var st := Snap();
      BlockInGood(st, c, k);
      NotLiveInside(st, head, objptr);
      if pages[head].start == objptr {
        if server.nodes[head].combpage == 0 { return 2; }
        ReleaseBlock(c, head, tail, priornode, k, NULL);
        LargeAccounted(st, Snap(), head);
        return 1;
      }
      if server.nodes[head].combpage != 0 { return 2; }
      IsSmall(st, head);
      ret := FreeInPage(c, head, priornode, objptr, k);
    }

    // 0: p is in no page of CPU c's pool; 1: p was live there and has been freed; 2: p lies in
    // a page of the pool but is not the start of a live object.
    method CpumempoolReceive(c: nat, objptr: int) returns (ret: int)
      requires Valid() && c < |pool|
      modifies this, server, server.nodes, pages
      ensures Valid() && |pool| == old(|pool|)
      ensures ret == 0 || ret == 1 || ret == 2
      ensures objptr != NULLPTR ==> (ret == 0 <==> !Holds(old(Snap()), c, objptr))
      ensures ret != 1 ==> Snap() == old(Snap())
      ensures ret == 2 ==> forall s :: !Live(old(Snap()), objptr, s)
      ensures ret == 1 ==> exists s :: Live(old(Snap()), objptr, s)
      ensures ret == 1 ==> Loses(old(Snap()), Snap(), objptr) && Accounted(old(Snap()), Snap(), objptr)
    {
      hide Pools, Canonical, Live, Loses, Accounted, GoodBut, PageOk, SmallPage, Heads, Holds, InBlock, Shape;
      ghost var st := Snap();
      GoodServer(st);
      if objptr == NULLPTR {
        NullNotLive(st);
        return 2;
      }
      var head, tail, priornode;
      ghost var k;
      head, tail, priornode, k := FindBlock(c, objptr);
      if head != NULL {
        ret := ReceiveInBlock(c, head, tail, priornode, objptr, k);
      } else {
        NotHeld(st, c, objptr);
        ret := 0;
      }
    }

    // The block of CPU c's pool that the pointer lies in, with its last node and the last
    // node of the block before it.
    method FindBlock(c: nat, objptr: int) returns (head: int, tail: int, priornode: int, ghost k: nat)
      requires Valid() && c < |pool| == |lists|
      ensures head == NULL ==> forall j: nat {:trigger lists[c][j]} :: j < |lists[c]| ==> !InBlock(Snap(), lists[c][j], objptr)
      ensures head != NULL ==>
        && k < |lists[c]| && head == lists[c][k] && priornode == LastBefore(Snap(), c, k)
        && 0 <= head < server.nodes.Length && tail == head + Len(server.nodes[head]) - 1
        && InBlock(Snap(), head, objptr)
    {
      hide Pools, Canonical, GoodBut, PageOk, Heads;
      ghost var st := Snap();
      HeadOfList(st, c);
      HeadsNotNull(st, c);
      head, tail, priornode, k := pool[c], NULL, NULL, 0;
      while head != NULL
        invariant k <= |lists[c]| && head == Head(lists[c], k) && priornode == LastBefore(st, c, k)
        invariant k < |lists[c]| <==> head != NULL
        invariant forall j: nat {:trigger lists[c][j]} :: j < k ==> !InBlock(st, lists[c][j], objptr)
        decreases |lists[c]| - k
      {
        BlockInGood(st, c, k);
        tail := head + Max(1, server.nodes[head].combpage) - 1;
        if pages[head].start == objptr || (objptr >= pages[head].start && objptr < pages[tail].At(TAILNODE).endptr - HEADER) {
          return;
        }
        priornode := tail;
        head := server.nodes[priornode].next;
        k := k + 1;
      }
    }

    // The least power of two that is at least size, by repeated doubling.
    method RealSize(size: nat) returns (realsize: nat)
      requires 1 <= size
      ensures IsPow2(realsize) && size <= realsize < 2 * size
      ensures forall x: nat :: IsPow2(x) && size <= x ==> realsize <= x
    {
      realsize := 1;
      ghost var k: nat := 0;
      while realsize < size
        invariant realsize == Pow2(k)
        invariant realsize < 2 * size
        invariant k > 0 ==> Pow2(k - 1) < size
        decreases size - realsize
      {
        realsize := realsize * 2;
        k := k + 1;
      }
      assert forall x: nat :: IsPow2(x) && size <= x ==> realsize <= x by {
        forall x: nat | IsPow2(x) && size <= x ensures realsize <= x {
          var j: nat :| x == Pow2(j);
          if j < k { Pow2Monotone(j, k - 1); } else { Pow2Monotone(k, j); }
        }
      }
    }

    method Kalloc(cpu: nat, size: nat) returns (ret: int, ghost realsize: nat)
      requires Valid() && cpu < |pool|
      modifies this, server, server.nodes, pages
      ensures Valid() && |pool| == old(|pool|)
      ensures SameDropped(old(Snap()), Snap())
      ensures size == 0 || size > MAX_REQUEST ==> ret == NULLPTR
      ensures ret == NULLPTR ==> Snap() == old(Snap())
      ensures ret == NULLPTR && 0 < size <= MAX_REQUEST ==> NoRoom(old(Snap()), cpu, realsize)
      ensures 0 < size <= MAX_REQUEST ==> IsPow2(realsize) && size <= realsize < 2 * size
      ensures ret != NULLPTR ==> Gains(old(Snap()), Snap(), ret, realsize) && ret % realsize == 0
      ensures ret != NULLPTR ==> !NoRoom(old(Snap()), cpu, realsize) && Holds(Snap(), cpu, ret)
      ensures ret != NULLPTR ==> Chosen(old(Snap()), cpu, realsize, ret, Snap())
    {
      hide Good, GoodBut, Pools, Canonical, NoRoom;
      realsize := 0;
      ret := NULLPTR;
      if size <= 0 || size > MAX_REQUEST {
        SameDroppedSelf(Snap());
        return;
      }
      var rounded := RealSize(size);
      realsize := rounded;
      ret := CpumempoolDelivery(cpu, rounded);
      if ret != NULLPTR {
        assert Live(Snap(), ret, realsize);
        LiveSpan(Snap(), ret, realsize);
      }
    }

    // Frees a live pointer and nothing else; a pointer that is not live changes nothing.
    method Kfree(ptr: int)
      requires Valid()
      modifies this, server, server.nodes, pages
      ensures Valid() && |pool| == old(|pool|)
      ensures (exists s :: Live(old(Snap()), ptr, s)) ==>
        Loses(old(Snap()), Snap(), ptr) && Accounted(old(Snap()), Snap(), ptr)
      ensures !(exists s :: Live(old(Snap()), ptr, s)) ==> Snap() == old(Snap())
    {
      hide Good, GoodBut, Pools, Canonical, Live, Loses, Accounted, Holds;
      ghost var st := Snap();
      if ptr == NULLPTR {
        NullNotLive(st);
        return;
      }
      if ptr < pages[0].start || ptr >= pages[|pages| - 1].At(TAILNODE).endptr {
        OutsideNotLive(st, ptr);
        return;
      }
      var i := 0;
      while i < |pool|
        invariant 0 <= i <= |pool| == |st.pool|
        invariant Valid() && Snap() == st
        invariant forall c :: 0 <= c < i ==> !Holds(st, c, ptr)
      {
        var ret := CpumempoolReceive(i, ptr);
        if ret != 0 { return; }
        i := i + 1;
      }
      UnheldNotLive(st, ptr);
    }

    // One request, with the books a client would keep.
    method Serve(op: Op, ghost live: map<int, int>) returns (ret: int, ghost live': map<int, int>)
      requires Valid() && LiveIs(Snap(), live)
      requires op.Alloc? ==> op.cpu < |pool|
      modifies this, server, server.nodes, pages
      ensures Valid() && |pool| == old(|pool|)
      ensures Served(old(Snap()), op, ret, Snap())
      ensures Booked(op, ret, live, live') && LiveIs(Snap(), live')
    {
      hide Good, GoodBut, Pools, Canonical, Live, Served, NoRoom, LiveIs, Holds;
      ghost var st := Snap();
      match op {
      case Alloc(cpu, size) =>
        ghost var realsize;
        ret, realsize := Kalloc(cpu, size);
        ServedAlloc(st, cpu, size, ret, realsize, Snap());
        live' := if ret != NULLPTR then live[ret := realsize] else live;
        if ret != NULLPTR { GainsBooks(st, Snap(), live, ret, realsize); }
      case Free(ptr) =>
        Kfree(ptr);
        ret := NULLPTR;
        ServedFree(st, ptr, Snap());
        live' := live - {ptr};
        FreeBooks(st, Snap(), live, ptr);
      }
    }

    // Runs a sequence of requests.  live is what the client's books say at the end, and trace
    // holds the state before each request and after the last.
    method Run(ops: seq<Op>) returns (rets: seq<int>, ghost live: map<int, int>, ghost trace: seq<State>)
      requires Valid() && forall p, s :: !Live(Snap(), p, s)
      requires forall k :: 0 <= k < |ops| && ops[k].Alloc? ==> ops[k].cpu < |pool|
      modifies this, server, server.nodes, pages
      ensures Valid() && |rets| == |ops| && Books(ops, rets, live)
      ensures forall p, s :: Live(Snap(), p, s) <==> p in live && live[p] == s
      ensures forall p, q :: p in live && q in live && p < q ==> p + live[p] <= q
      ensures forall p :: p in live ==> 0 < live[p] && p % live[p] == 0 && IsPow2(live[p])
      ensures Traced(ops, rets, trace) && trace[0] == old(Snap()) && trace[|ops|] == Snap()
      ensures |holder| == |old(holder)| && forall i :: 0 <= i < |holder| ==>
        (holder[i].Dropped? <==> old(holder)[i].Dropped? || LostBy(ops, trace, |ops|, i))
    {
      hide Good, GoodBut, Pools, Canonical, Live, Traced, Served, LostBy, LiveIs;
      rets, live, trace := [], map[], [Snap()];
      NoSteps(Snap());
      NothingBooked(Snap());
      var k := 0;
      while k < |ops|
        invariant 0 <= k <= |ops| && |rets| == k && |trace| == k + 1 && |pool| == old(|pool|)
        invariant Valid() && Books(ops[..k], rets, live) && LiveIs(Snap(), live)
        invariant Traced(ops[..k], rets, trace) && trace[0] == old(Snap()) && trace[k] == Snap()
      {
        ghost var was := live;
        assert ops[..k + 1] == ops[..k] + [ops[k]];
        var ret;
        ret, live := Serve(ops[k], live);
        BooksStep(ops[..k], rets, was, ops[k], ret, live);
        TracedStep(ops[..k], rets, trace, ops[k], ret, Snap());
        rets, trace := rets + [ret], trace + [Snap()];
        k := k + 1;
      }
      assert ops[..k] == ops;
      LiveBooksSafe(Snap(), live);
      forall i: nat | i < |old(holder)|
        ensures |holder| == |old(holder)|
        ensures holder[i].Dropped? <==> old(holder)[i].Dropped? || LostBy(ops, trace, |ops|, i)
      {
        DroppedOverRun(ops, rets, trace, |ops|, i);
      }
      GoodSizes(Snap());
      GoodSizes(trace[0]);
      LiveIsAll(Snap(), live);
    }
  }

  lemma NothingBooked(st: State)
    requires forall p, s :: !Live(st, p, s)
    ensures LiveIs(st, map[])
  {}

  lemma LiveIsAll(st: State, live: map<int, int>)
    requires LiveIs(st, live)
    ensures forall p, s :: Live(st, p, s) <==> p in live && live[p] == s
  {}

  lemma GoodSizes(st: State)
    requires Good(st)
    ensures |st.holder| == |st.ns|
  {}

  lemma NoSteps(st: State)
    requires Good(st)
    ensures Traced([], [], [st])
  {}

  lemma ServedAlloc(st: State, c: nat, size: nat, ret: int, realsize: int, st': State)
    requires SameDropped(st, st') && st'.base == st.base && |st'.ns| == |st.ns|
    requires size == 0 || size > MAX_REQUEST ==> ret == NULLPTR
    requires ret == NULLPTR ==> st' == st
    requires ret == NULLPTR && 0 < size <= MAX_REQUEST ==> NoRoom(st, c, realsize)
    requires 0 < size <= MAX_REQUEST ==> IsPow2(realsize) && size <= realsize < 2 * size
    requires ret != NULLPTR ==> 0 < realsize && Gains(st, st', ret, realsize) && ret % realsize == 0
    requires ret != NULLPTR ==> !NoRoom(st, c, realsize) && Holds(st', c, ret) && Chosen(st, c, realsize, ret, st')
    ensures Served(st, Alloc(c, size), ret, st')
  {
    hide NoRoom, Gains, Holds, SameDropped;
    assert 0 < size <= MAX_REQUEST ==> Answered(st, c, realsize, ret, st');
  }

  lemma ServedFree(st: State, p: int, st': State)
    requires (exists s :: Live(st, p, s)) ==> Loses(st, st', p) && Accounted(st, st', p)
    requires !(exists s :: Live(st, p, s)) ==> st' == st
    requires st'.base == st.base && |st'.ns| == |st.ns|
    ensures Served(st, Free(p), NULLPTR, st')
  {
    hide Live, Loses, Accounted;
  }

  // A slot of a page lies in the page.
  lemma SlotInPage(base: nat, i: nat, objs: seq<Obj>, size: int, a: int, k: nat)
    requires Laid(PageAddr(base, i), objs) && FitsGap(PageAddr(base, i), objs, size, a, k)
    ensures FitsPage(PageAddr(base, i), objs, size, a) && Index(base, a) == i
  {
    InsertLaid(PageAddr(base, i), objs, size, a, k);
    ObjsClimb(PageAddr(base, i), InsertObj(objs, k, Obj(a, a + size)), k, k);
    IndexIs(base, i, a);
  }

  // None of the first k blocks of CPU c's list is a page of small objects with room.
  ghost predicate FullBefore(st: State, c: nat, k: nat, size: int) {
    && c < |st.lists| && k <= |st.lists[c]| && |st.objs| == |st.ns|
    && forall j :: 0 <= j < k && SmallPage(st, st.lists[c][j]) ==>
         forall a :: !FitsPage(PageAddr(st.base, st.lists[c][j]), st.objs[st.lists[c][j]], size, a)
  }

  lemma StillFull(st: State, c: nat, k: nat, size: int)
    requires FullBefore(st, c, k, size) && k < |st.lists[c]|
    requires SmallPage(st, st.lists[c][k]) ==>
      forall a :: !FitsPage(PageAddr(st.base, st.lists[c][k]), st.objs[st.lists[c][k]], size, a)
    ensures FullBefore(st, c, k + 1, size)
  {}

  lemma NoneBefore(st: State, c: nat, size: int)
    requires c < |st.lists| && |st.objs| == |st.ns|
    ensures FullBefore(st, c, 0, size)
  {}

  lemma PoolSearched(st: State, c: nat, realsize: int)
    requires Good(st) && c < |st.lists|
    requires FullBefore(st, c, |st.lists[c]|, realsize)
    ensures PoolFull(st, c, realsize)
  {
    forall i: nat, a | SmallPage(st, i) && st.holder[i].cpu == c
      ensures !FitsPage(PageAddr(st.base, i), st.objs[i], realsize, a)
    {
      var k := SmallPageListed(st, i);
    }
  }

  lemma FirstPage(st: State, c: nat, k: nat, size: int, a: int, st': State)
    requires Good(st) && c < |st.lists| && k < |st.lists[c]| && |st.objs| == |st.ns| && SmallPage(st, st.lists[c][k])
    requires LowestIn(PageAddr(st.base, st.lists[c][k]), st.objs[st.lists[c][k]], size, a)
    requires FullBefore(st, c, k, size)
    requires st' == st.(objs := st'.objs)
    ensures ChosenInPool(st, c, size, a, st') && !PoolFull(st, c, size)
  {
    hide FitsPage, Canonical, Pools;
    assert FirstRoom(st, c, k, size);
    BlockInGood(st, c, k);
    RoomInPage(st, c, st.lists[c][k], size, a);
  }

  lemma RoomInPage(st: State, c: nat, i: nat, realsize: int, a: int)
    requires Good(st) && SmallPage(st, i) && st.holder[i].cpu == c
    requires i < |st.objs| && FitsPage(PageAddr(st.base, i), st.objs[i], realsize, a)
    ensures !PoolFull(st, c, realsize)
  {}

  lemma NoFreePage(free: seq<bool>, base: nat)
    requires forall j :: 0 <= j ==> !Fits(free, base, 1, j)
    ensures forall j :: 0 <= j < |free| ==> !free[j]
  {
    forall j | 0 <= j < |free| ensures !free[j] {
      if free[j] { assert Fits(free, base, 1, j); }
    }
  }

  lemma PushGoodFacts(st: State, st': State, c: nat, b: int)
    requires Good(st) && Pushed(st, st', c, b, 1, 0)
    ensures SmallPage(st', b) && st'.objs[b] == []
  {
    PushedFirst(st, st', c, b, 1, 0);
    PushedHeads(st, st', c, b, 1, 0, b);
  }

  lemma FreshPageHasRoom(base: nat, i: nat, size: int)
    requires 1 <= base && IsPow2(size) && size < PAGESIZE
    ensures exists a :: FitsPage(PageAddr(base, i), [], size, a)
  {
    PageAligned(base, i);
    FreshPageFits(PageAddr(base, i), size);
    assert FitsPage(PageAddr(base, i), [], size, RoundUp(PageAddr(base, i) + HEADER, size));
  }

  lemma GoodPageFacts(st: State, i: int)
    requires Good(st) && SmallPage(st, i)
    ensures 0 <= i < |st.ns| == |st.objs| && PageOk(st, i) && st.objs[i] != []
    ensures Len(st.ns[i]) == 1
  {
    GoodPage(st, i);
  }

  lemma SmallNotLive(st: State, i: int, p: int)
    requires SmallPage(st, i) && Index(st.base, p) == i && i < |st.objs|
    requires forall o :: o in st.objs[i] ==> o.start != p
    ensures forall s :: !Live(st, p, s)
  {}

  lemma SmallLive(st: State, i: int, k: nat)
    requires SmallPage(st, i) && i < |st.objs| && k < |st.objs[i]| && Index(st.base, st.objs[i][k].start) == i
    ensures exists s :: Live(st, st.objs[i][k].start, s)
  {
    var o := st.objs[i][k];
    assert o == Obj(o.start, o.start + (o.end - o.start));
    assert Live(st, o.start, o.end - o.start);
  }

  // Giving an emptied page back costs no live object.
  lemma ReleasedEmptyPage(st: State, mid: State, st': State, b: int, p: int)
    requires Good(st) && SmallPage(st, b) && b < |st.objs| && |st.objs[b]| == 1
    requires mid == st.(objs := st.objs[b := []])
    requires Index(st.base, p) == b && Loses(st, mid, p)
    requires Loses(mid, st', PageAddr(st.base, b)) && Returned(mid, st', b, 1) && Unlisted(mid, st', b)
    ensures Loses(st, st', p) && Accounted(st, st', p)
  {
    GoodServer(st);
    GoodPage(st, b);
    IndexIs(st.base, b, PageAddr(st.base, b));
    forall q, t ensures Live(st', q, t) <==> Live(st, q, t) && q != p {
      assert Live(mid, q, t) <==> Live(st, q, t) && q != p;
    }
  }

  ghost predicate InBlock(st: State, b: int, p: int) {
    0 <= b < |st.ns| && PageAddr(st.base, b) <= p < PageAddr(st.base, b + Len(st.ns[b]))
  }

  // A pointer that lies in no block of a pool is not held by the pool.
  lemma NotHeld(st: State, c: nat, p: int)
    requires Good(st) && c < |st.lists|
    requires forall j: nat {:trigger st.lists[c][j]} :: j < |st.lists[c]| ==> !InBlock(st, st.lists[c][j], p)
    ensures !Holds(st, c, p)
  {
    if Holds(st, c, p) {
      var i := Index(st.base, p);
      PoolBlockAt(st.ns, st.free, st.pool, st.lists, st.holder, i);
    }
  }

  lemma NullNotLive(st: State)
    requires Good(st)
    ensures forall s :: !Live(st, NULLPTR, s)
  {
    forall s ensures !Live(st, NULLPTR, s) {
      if Live(st, NULLPTR, s) { LiveSpan(st, NULLPTR, s); }
    }
  }

  lemma IsSmall(st: State, i: int)
    requires Heads(st, i) && st.ns[i].combpage == 0
    ensures SmallPage(st, i)
  {}

  lemma LargeAccounted(st: State, st': State, b: int)
    requires Good(st) && Heads(st, b) && st.ns[b].combpage != 0
    requires Returned(st, st', b, Len(st.ns[b])) && Unlisted(st, st', b)
    ensures Accounted(st, st', PageAddr(st.base, b))
  {
    GoodServer(st);
    IndexIs(st.base, b, PageAddr(st.base, b));
  }

  lemma SameDroppedSelf(st: State)
    ensures SameDropped(st, st)
  {}

  lemma OutsideNotLive(st: State, p: int)
    requires Good(st) && 0 < |st.ns|
    requires p < PageAddr(st.base, 0) || p >= PageAddr(st.base, |st.ns|)
    ensures forall s :: !Live(st, p, s)
  {
    IndexBetween(st.base, 0, |st.ns|, p);
  }

  lemma UnheldNotLive(st: State, p: int)
    requires Good(st) && forall c :: 0 <= c < |st.pool| ==> !Holds(st, c, p)
    ensures forall s :: !Live(st, p, s)
  {
    forall s ensures !Live(st, p, s) {
      if Live(st, p, s) {
        PoolBlockAt(st.ns, st.free, st.pool, st.lists, st.holder, Index(st.base, p));
        assert Holds(st, st.holder[Index(st.base, p)].cpu, p);
      }
    }
  }

  lemma BookedIsLive(st: State, was: map<int, int>, p: int)
    requires LiveIs(st, was) && p in was
    ensures Live(st, p, was[p])
  {}

  lemma GainsBooks(st: State, st': State, was: map<int, int>, p: int, s: int)
    requires LiveIs(st, was) && Gains(st, st', p, s)
    ensures LiveIs(st', was[p := s]) && p !in was
  {
    if p in was { BookedIsLive(st, was, p); }
    forall q, t ensures Live(st', q, t) <==> q in was[p := s] && was[p := s][q] == t {
      assert Live(st', q, t) <==> Live(st, q, t) || (q == p && t == s);
    }
  }

  lemma FreeBooks(st: State, st': State, was: map<int, int>, p: int)
    requires LiveIs(st, was)
    requires (exists s :: Live(st, p, s)) ==> Loses(st, st', p)
    requires !(exists s :: Live(st, p, s)) ==> st' == st
    ensures LiveIs(st', was - {p})
  {
    if p in was { BookedIsLive(st, was, p); }
    forall q, t ensures Live(st', q, t) <==> q in was - {p} && was[q] == t {
      assert Live(st, q, t) <==> q in was && was[q] == t;
    }
  }

  lemma BooksStep(ops: seq<Op>, rets: seq<int>, was: map<int, int>, op: Op, ret: int, live: map<int, int>)
    requires |ops| == |rets| && Books(ops, rets, was) && Booked(op, ret, was, live)
    ensures Books(ops + [op], rets + [ret], live)
  {
    assert (ops + [op])[..|ops|] == ops && (rets + [ret])[..|ops|] == rets;
  }

  lemma LiveBooksSafe(st: State, live: map<int, int>)
    requires Good(st) && LiveIs(st, live)
    ensures forall p, q :: p in live && q in live && p < q ==> p + live[p] <= q
    ensures forall p :: p in live ==> 0 < live[p] && p % live[p] == 0 && IsPow2(live[p])
  {
    forall p | p in live ensures 0 < live[p] && p % live[p] == 0 && IsPow2(live[p]) {
      LiveSpan(st, p, live[p]);
    }
    forall p, q | p in live && q in live && p < q ensures p + live[p] <= q {
      LiveDisjoint(st, p, live[p], q, live[q]);
    }
  }

  // The last node of the block before the k-th one, which the search remembers.
  ghost function LastBefore(st: State, c: nat, k: nat): int {
    if k == 0 || c >= |st.lists| || k > |st.lists[c]| then NULL
    else var b := st.lists[c][k - 1];
         if 0 <= b < |st.ns| then b + Len(st.ns[b]) - 1 else NULL
  }

  lemma PickPlace(st: State, x: int, c: nat, k: nat)
    requires GoodBut(st, x) && c < |st.lists| && k < |st.lists[c]|
    ensures |st.holder| == |st.ns| && 0 <= st.lists[c][k] < |st.ns|
    ensures st.lists[c][k] + Len(st.ns[st.lists[c][k]]) <= |st.ns|
    ensures var b := st.lists[c][k];
            forall i :: b <= i < b + Len(st.ns[b]) ==>
              st.ns[i].own == 1 && (i < b + Len(st.ns[b]) - 1 ==> st.ns[i].next == i + 1)
    ensures k == 0 ==> LastBefore(st, c, k) == NULL
    ensures k > 0 ==> 0 <= st.lists[c][k - 1] < |st.ns|
                      && LastBefore(st, c, k) == st.lists[c][k - 1] + Len(st.ns[st.lists[c][k - 1]]) - 1
    ensures k > 0 ==> PriorOutside(st, c, k)
  {
    hide Pools, Canonical;
    BlockIn(st.ns, st.free, st.pool, st.lists, st.holder, c, k);
    if k > 0 {
      BlockIn(st.ns, st.free, st.pool, st.lists, st.holder, c, k - 1);
      PickPrior(st, x, c, k);
    }
  }

  ghost predicate PriorOutside(st: State, c: nat, k: nat) {
    && c < |st.lists| && k < |st.lists[c]| && 0 <= st.lists[c][k] < |st.ns|
    && 0 <= LastBefore(st, c, k) < |st.ns|
    && !(st.lists[c][k] <= LastBefore(st, c, k) < st.lists[c][k] + Len(st.ns[st.lists[c][k]]))
  }

  lemma PickPrior(st: State, x: int, c: nat, k: nat)
    requires GoodBut(st, x) && c < |st.lists| && 0 < k < |st.lists[c]|
    ensures PriorOutside(st, c, k)
  {
    hide Pools, Canonical, PoolBlock, Block;
    BlockIn(st.ns, st.free, st.pool, st.lists, st.holder, c, k);
    BlockIn(st.ns, st.free, st.pool, st.lists, st.holder, c, k - 1);
    DistinctAt(st.ns, st.free, st.pool, st.lists, st.holder, c, k - 1, k);
    BlocksApart(st.ns, st.holder, c, st.lists[c], k - 1, c, st.lists[c], k, LastBefore(st, c, k));
  }

  lemma PickSteps(st: State, mid: State, x: int, c: nat, k: nat)
    requires GoodBut(st, x) && PickedFrom(st, mid, c, k)
    requires var b := st.lists[c][k];
             0 <= b < |st.objs| && if x == NULL then st.ns[b].combpage != 0 else x == b && st.objs[b] == [] && Laid(PageAddr(st.base, b), [])
    ensures Good(mid) && InHand(mid, st.lists[c][k], Len(st.ns[st.lists[c][k]]))
    ensures Loses(st, mid, PageAddr(st.base, st.lists[c][k]))
    ensures mid.ns[st.lists[c][k]].own == 0
  {
    PickGood(st, mid, x, c, k);
    PickInHand(st, mid, x, c, k);
    PickLive(st, mid, x, c, k);
  }

  lemma BlockStill(st: State, x: int, c: nat, k: nat)
    requires GoodBut(st, x) && c < |st.lists| && k < |st.lists[c]|
    ensures PoolBlock(st.ns, st.holder, c, st.lists[c], k) && |st.holder| == |st.free|
  {
    BlockIn(st.ns, st.free, st.pool, st.lists, st.holder, c, k);
  }

  lemma InHandFacts(st: State, b: int, len: int)
    requires InHand(st, b, len)
    ensures 0 <= b < |st.ns| && b + len <= |st.ns| == |st.holder| && 1 <= len
    ensures Returnable(st.ns, st.free, b, len) && Max(st.ns[b].combpage, 1) == len
    ensures st.ns[b].own == 0
  {}

  lemma SmallPageInRange(st: State, i: int)
    requires SmallPage(st, i)
    ensures 0 <= i < |st.ns|
  {}

  lemma PageAligned(base: nat, i: nat)
    requires 1 <= base
    ensures PageAddr(base, i) % PAGESIZE == 0 && 0 < PageAddr(base, i)
  {
    DivUnique(PageAddr(base, i), PAGESIZE, base + i, 0);
  }

  lemma InitialGood(st: State, cpus: nat)
    requires 1 <= st.base && |st.free| == |st.ns| && Canonical(st.ns, st.pages, st.free)
    requires |st.holder| == |st.ns| && forall i :: 0 <= i < |st.ns| ==> st.free[i] && st.holder[i] == ByServer
    requires |st.pool| == |st.lists| == cpus && forall c :: 0 <= c < cpus ==> st.pool[c] == NULL && st.lists[c] == []
    requires |st.objs| == |st.ns| && forall i :: 0 <= i < |st.ns| ==> st.objs[i] == []
    ensures Good(st)
    ensures forall p, s :: !Live(st, p, s)
  {
    forall i: nat | i < |st.ns| ensures Placed(st.ns, st.free, st.lists, st.holder, i) {
      assert st.free[i];
    }
    forall c | 0 <= c < cpus ensures st.pool[c] == Head(st.lists[c], 0) && Distinct(st.lists[c]) {
      assert st.pool[c] == NULL;
    }
    forall i: nat | i < |st.ns| ensures PageOk(st, i) {
      PageAligned(st.base, i);
    }
  }

  // A delivered block, linked to CPU c's first block, has been pushed on c's pool.
  lemma TakenIsPushed(st: State, delivered: seq<PageNode>, st': State, c: nat, b: int, n: int, combpage: int)
    requires c < |st.pool| == |st.lists| && combpage >= 0 && n == Max(1, combpage)
    requires 0 <= b && b + n <= |st.ns| == |st.free| == |st.holder| == |delivered|
    requires forall i :: b <= i < b + n ==> st.free[i]
    requires Delivered(delivered, b, n, combpage) && Canonical(delivered, st'.pages, st'.free)
    requires forall i :: 0 <= i < |st.ns| && !st.free[i] ==> delivered[i] == st.ns[i]
    requires st'.ns == delivered[b + n - 1 := delivered[b + n - 1].(next := st.pool[c])]
    requires st'.base == st.base && st'.objs == st.objs && st'.free == Mark(st.free, b, n, false)
    requires st'.pool == st.pool[c := b] && st'.lists == st.lists[c := [b] + st.lists[c]]
    requires st'.holder == Mark(st.holder, b, n, ByPool(c, b))
    ensures Pushed(st, st', c, b, n, combpage) && Canonical(st'.ns, st'.pages, st'.free)
  {
    HeldWrites(delivered, st'.ns, st'.pages, st'.free);
  }

  lemma GoodServer(st: State)
    requires Good(st)
    ensures Canonical(st.ns, st.pages, st.free) && Detached(st.ns, st.free)
    ensures |st.ns| == |st.free| == |st.holder| == |st.objs| && |st.pool| == |st.lists|
    ensures 1 <= st.base
  {
    PoolsDetached(st.ns, st.free, st.pool, st.lists, st.holder);
  }

  lemma FitsAligned(free: seq<bool>, base: nat, n: nat, i: int)
    requires Fits(free, base, n, i)
    ensures 1 <= n && (base + i) % n == 0
  {}
}
