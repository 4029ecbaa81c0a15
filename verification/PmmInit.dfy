// pmm_init: laying out the control records and the managed pages over the heap area.
module PmmInit {
  import opened Arith
  import opened FreeSet
  import opened MemServer
  import opened PageAlloc
  import opened PoolLists
  import opened AllocState
  import opened AllocTrace
  import opened Pmm

  const SIZEOF_POOL: int := 16
  const SIZEOF_SERVER: int := 16
  const SIZEOF_PAGENODE: int := 64

  // Addresses chosen by pmm_init: the pools, the server, the node array, and the pages.
  datatype Layout = Layout(pools: int, server: int, nodes: int, pages: int, amount: int)

  // The records and the pages lie in the heap in this order and do not overlap, the pages
  // end at the last page boundary of the heap, and one page more would not fit.
  ghost predicate Fitted(l: Layout, heapStart: int, heapEnd: int, cpus: int) {
    var end := heapEnd / PAGESIZE * PAGESIZE;
    && heapStart <= l.pools < heapStart + 4 && l.pools % 4 == 0
    && l.pools + cpus * SIZEOF_POOL <= l.server
    && l.server + SIZEOF_SERVER == l.nodes
    && 1 <= l.amount
    && l.nodes + l.amount * SIZEOF_PAGENODE <= l.pages
    && l.pages + l.amount * PAGESIZE == end <= heapEnd
    && l.nodes + (l.amount + 1) * SIZEOF_PAGENODE > end - (l.amount + 1) * PAGESIZE
  }

  // Where pmm_init puts the server record: behind the pools, with the pool size squared.
  function ServerAt(heapStart: nat, cpus: nat): nat {
    (heapStart + 3) / 4 * 4 + cpus * SIZEOF_POOL * SIZEOF_POOL
  }

  // One page and its node fit between the server record and the heap's last page boundary.
  predicate RoomForOne(heapStart: nat, heapEnd: nat, cpus: nat) {
    ServerAt(heapStart, cpus) + SIZEOF_SERVER + SIZEOF_PAGENODE + PAGESIZE <= heapEnd / PAGESIZE * PAGESIZE
  }

  // The number of pages that fit below end together with their nodes.
  method CountPages(nodes: int, end: int) returns (amount: int, pages: int)
    requires 0 <= nodes && 0 <= end
    ensures amount >= 0 && pages == end - amount * PAGESIZE
    ensures amount > 0 ==> nodes + amount * SIZEOF_PAGENODE <= pages
    ensures nodes + (amount + 1) * SIZEOF_PAGENODE > end - (amount + 1) * PAGESIZE
  {
    var node, pageAsist := nodes, end - PAGESIZE;
    amount := 0;
    while node + SIZEOF_PAGENODE <= pageAsist
      invariant amount >= 0
      invariant node == nodes + amount * SIZEOF_PAGENODE
      invariant pageAsist == end - (amount + 1) * PAGESIZE
      invariant amount > 0 ==> nodes + amount * SIZEOF_PAGENODE <= end - amount * PAGESIZE
      decreases pageAsist - node
    {
      amount := amount + 1;
      node := node + SIZEOF_PAGENODE;
      pageAsist := pageAsist - PAGESIZE;
    }
    pages := pageAsist + PAGESIZE;
  }

  // null stands for the calls of halt.
  method Init(heapStart: nat, heapEnd: nat, cpus: nat) returns (a: Allocator?, l: Layout)
    ensures a != null ==> fresh(a) && a.Valid() && Fitted(l, heapStart, heapEnd, cpus)
    ensures a != null ==> |a.pool| == cpus && |a.pages| == l.amount && PageAddr(a.server.base, 0) == l.pages
    ensures a != null ==> fresh(a.server) && fresh(a.server.nodes) && forall i :: 0 <= i < |a.pages| ==> fresh(a.pages[i])
    ensures a != null ==> |a.holder| == |a.Snap().free| == l.amount && forall i :: 0 <= i < l.amount ==> a.holder[i] == ByServer && a.Snap().free[i]
    ensures a != null ==> forall p, s :: !Live(a.Snap(), p, s)
    ensures l.server == ServerAt(heapStart, cpus)
    ensures a != null <==> RoomForOne(heapStart, heapEnd, cpus)
    ensures a == null ==> forall m: Layout :: m.server == l.server ==> !Fitted(m, heapStart, heapEnd, cpus)
  {
    var pools := (heapStart + 3) / 4 * 4;
    var server := pools + cpus * SIZEOF_POOL * SIZEOF_POOL;
    var nodes := server + SIZEOF_SERVER;
    var end := heapEnd / PAGESIZE * PAGESIZE;
    var amount, pages := CountPages(nodes, end);
    l := Layout(pools, server, nodes, pages, amount);
    a := null;
    if pools > heapEnd || server > heapEnd || nodes > heapEnd || nodes + SIZEOF_PAGENODE > heapEnd || amount == 0 {
      return;
    }
    BaseOfPages(end, amount, pages);
    a := new Allocator(pages / PAGESIZE, amount, cpus);
  }

  lemma BaseOfPages(end: int, amount: int, pages: int)
    requires end % PAGESIZE == 0 && amount >= 1 && pages == end - amount * PAGESIZE && pages >= 1
    ensures pages / PAGESIZE * PAGESIZE == pages && pages / PAGESIZE >= 1
  {
    DivUnique(pages, PAGESIZE, end / PAGESIZE - amount, 0);
  }

  // Live objects stay clear of the allocator's records and inside the heap.
  lemma LiveAboveRecords(st: State, l: Layout, heapStart: int, heapEnd: int, cpus: int, p: int, s: int)
    requires Good(st) && Live(st, p, s)
    requires Fitted(l, heapStart, heapEnd, cpus) && |st.ns| == l.amount && PageAddr(st.base, 0) == l.pages
    ensures l.nodes + l.amount * SIZEOF_PAGENODE <= p && p + s <= heapEnd
  {
    LiveSpan(st, p, s);
    BlockSpan(st, Index(st.base, p));
  }

  // From boot through any requests: live objects are disjoint, aligned, clear of the
  // allocator's records and inside the heap, and a page is out of every list exactly when one
  // of the requests lost it.
  method BootAndRun(heapStart: nat, heapEnd: nat, cpus: nat, ops: seq<Op>)
    returns (a: Allocator?, l: Layout, rets: seq<int>, ghost live: map<int, int>, ghost trace: seq<State>)
    requires forall k :: 0 <= k < |ops| && ops[k].Alloc? ==> ops[k].cpu < cpus
    ensures a != null <==> RoomForOne(heapStart, heapEnd, cpus)
    ensures a != null ==> a.Valid() && Fitted(l, heapStart, heapEnd, cpus)
    ensures a != null ==> |rets| == |ops| && Books(ops, rets, live)
    ensures a != null ==> forall p, q :: p in live && q in live && p < q ==> p + live[p] <= q
    ensures a != null ==> forall p :: p in live ==>
      l.nodes + l.amount * SIZEOF_PAGENODE <= p && p + live[p] <= heapEnd && IsPow2(live[p]) && p % live[p] == 0
    ensures a != null ==> Traced(ops, rets, trace) && trace[|ops|] == a.Snap()
    ensures a != null ==> |trace[0].free| == l.amount && forall i :: 0 <= i < l.amount ==> trace[0].free[i]
    ensures a != null ==> |a.holder| == l.amount && forall i :: 0 <= i < l.amount ==>
      (a.holder[i].Dropped? <==> LostBy(ops, trace, |ops|, i))
  {
    hide Good, Live, Books, LostBy, Traced;
    rets, live, trace := [], map[], [];
    a, l := Init(heapStart, heapEnd, cpus);
    if a == null { return; }
    rets, live, trace := a.Run(ops);
    forall p | p in live
      ensures l.nodes + l.amount * SIZEOF_PAGENODE <= p && p + live[p] <= heapEnd
    {
      assert Live(a.Snap(), p, live[p]);
      LiveAboveRecords(a.Snap(), l, heapStart, heapEnd, cpus, p, live[p]);
    }
  }
}
