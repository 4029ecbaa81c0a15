// The page server of the kernel allocator: an array of page nodes, of which the free
// ones are threaded into one list in address order.  Each free node also caches the
// length of the consecutive free run that starts at it.
module MemServer {
  import opened FreeSet
  import opened Lists
  import opened Arith

  // own: 0 the server, 1 a CPU pool.  next: an index into the node array, or NULL.
  datatype PageNode = PageNode(own: int, combpage: int, next: int)

  function Max(a: int, b: int): int { if a > b then a else b }

  // Everything the server stores about its free pages is a function of the free set.
  ghost predicate Canonical(ns: seq<PageNode>, pages: int, free: seq<bool>) {
    && |ns| == |free|
    && pages == NextFree(free, 0)
    && forall i {:trigger ns[i]} :: 0 <= i < |ns| && free[i] ==>
         ns[i] == PageNode(0, RunLen(free, i), NextFree(free, i + 1))
  }

  // No node outside the server's list points at a node of the list.
  ghost predicate Detached(ns: seq<PageNode>, free: seq<bool>) {
    && |ns| == |free|
    && forall i {:trigger ns[i]} :: 0 <= i < |ns| && !free[i] ==>
         ns[i].next == NULL || (0 <= ns[i].next < |ns| && !free[ns[i].next])
  }

  // The chain of nodes of a block that has been handed out.
  ghost predicate Block(ns: seq<PageNode>, s: int, len: int) {
    && 0 <= s && 1 <= len && s + len <= |ns|
    && Max(ns[s].combpage, 1) == len
    && (forall i :: s < i < s + len ==> ns[i].combpage == s + len - i)
    && (forall i :: s <= i < s + len - 1 ==> ns[i].next == i + 1)
  }

  // A block that the server does not hold and that only its own chain points into.
  ghost predicate Returnable(ns: seq<PageNode>, free: seq<bool>, s: int, len: int) {
    && |ns| == |free|
    && Block(ns, s, len)
    && (forall i :: s <= i < s + len ==> !free[i])
    && forall i :: 0 <= i < |ns| && !free[i] && s <= ns[i].next < s + len ==> s <= i < s + len - 1
  }

  // What memserver_delivery leaves in the n nodes of the block it hands out.
  ghost predicate Delivered(ns: seq<PageNode>, s: int, n: int, combpage: int) {
    && 0 <= s && 1 <= n && s + n <= |ns|
    && forall i :: s <= i < s + n ==>
         ns[i] == PageNode(1, if i == s && combpage == 0 then 0 else s + n - i, if i == s + n - 1 then NULL else i + 1)
  }

  // The maximal run of free nodes starting at h.
  ghost predicate RunStart(free: seq<bool>, h: int) {
    0 <= h < |free| && free[h] && (h == 0 || !free[h - 1])
  }

  // The nodes after a block has been cut out of the run starting at head; prior is the
  // last node of the preceding run.
  ghost predicate Cut(ns: seq<PageNode>, ns': seq<PageNode>, head: int, prior: int, obj: int, n: int) {
    && |ns| == |ns'|
    && 0 <= head <= obj && 1 <= n && obj + n <= |ns|
    && forall i :: 0 <= i < |ns| && !(obj <= i < obj + n) ==>
         ns'[i] ==
           if head <= i < obj then
             ns[i].(combpage := obj - i, next := if i == obj - 1 then ns[obj + n - 1].next else i + 1)
           else if obj == head && i == prior then ns[i].(next := ns[obj + n - 1].next)
           else ns[i]
  }

  // Where the walk over run heads stands: prior is the last node of the run before head.
  ghost predicate Cursor(free: seq<bool>, pages: int, head: int, prior: int) {
    if prior == NULL then head == pages == NextFree(free, 0)
    else 0 <= prior < |free| && free[prior] && (prior + 1 < |free| ==> !free[prior + 1]) && head == NextFree(free, prior + 1)
         && pages != NULL && pages <= prior
  }

  lemma CursorStart(free: seq<bool>, pages: int, head: int, prior: int)
    requires Cursor(free, pages, head, prior)
    requires head != NULL
    ensures RunStart(free, head)
    ensures prior != NULL ==> prior + 1 < head
    ensures prior == NULL <==> head == pages
  {}

  // The scan's quotient test on a run of len pages whose first page has number base + h.
  predicate RunHolds(base: nat, h: nat, len: nat, n: nat)
    requires 1 <= n
  {
    (base + h + n - 1) / n < (base + h + len) / n
  }

  // The lowest node at or above h whose page number is a multiple of n.
  function AlignUp(base: nat, h: nat, n: nat): nat
    requires 1 <= n
  {
    h + (n - (base + h) % n) % n
  }

  // Stepping the walk from one run head to the next.
  lemma CursorNext(ns: seq<PageNode>, pages: int, free: seq<bool>, node: int, prior: int)
    requires Canonical(ns, pages, free) && Cursor(free, pages, node, prior) && node != NULL
    ensures 0 <= node < |ns|
    ensures var tail := node + ns[node].combpage - 1;
            && node <= tail < |ns|
            && ns[node].combpage == RunLen(free, node)
            && ns[tail].next == NextFree(free, tail + 1)
            && Cursor(free, pages, ns[tail].next, tail)
            && forall i :: node <= i <= tail ==> free[i]
  {
    CursorStart(free, pages, node, prior);
    assert free[node];
    var tail := node + ns[node].combpage - 1;
    assert free[tail];
  }

  // When the walk has just passed s, it stands at the first free node above s.
  lemma CursorAround(free: seq<bool>, pages: int, node: int, prior: int, s: nat)
    requires Cursor(free, pages, node, prior) && prior < s && (node != NULL ==> s <= node)
    requires s < |free|
    ensures NextFree(free, s) == node
    ensures prior == NULL <==> NextFree(free, 0) == node
  {
    NextFreeIs(free, s, node);
  }

  // A block that starts at or above the run start h and before the next run lies in h's run.
  lemma FitInsideRun(free: seq<bool>, base: nat, n: nat, h: int, j: int)
    requires RunStart(free, h) && Fits(free, base, n, j)
    requires var next := NextFree(free, h + RunLen(free, h)); h <= j && (next != NULL ==> j < next)
    ensures j + n <= h + RunLen(free, h)
  {
    var e := h + RunLen(free, h);
    assert free[j];
    assert e < |free| ==> !free[e];
  }

  // Nothing fits at or above h and below the next run when h's run fails the quotient test.
  lemma NoFitInRun(free: seq<bool>, base: nat, n: nat, h: int)
    requires RunStart(free, h) && 1 <= n
    requires !RunHolds(base, h, RunLen(free, h), n)
    ensures var next := NextFree(free, h + RunLen(free, h));
            forall j :: h <= j && (next != NULL ==> j < next) ==> !Fits(free, base, n, j)
  {
    var next := NextFree(free, h + RunLen(free, h));
    forall j | h <= j && (next != NULL ==> j < next) ensures !Fits(free, base, n, j) {
      if Fits(free, base, n, j) {
        FitInsideRun(free, base, n, h, j);
        AlignedBlockDetected(base + h, base + h + RunLen(free, h), n, base + j);
      }
    }
  }

  // The first aligned block of a run that passes the quotient test.
  lemma FirstFitInRun(free: seq<bool>, base: nat, n: nat, h: int)
    requires RunStart(free, h) && 1 <= n
    requires RunHolds(base, h, RunLen(free, h), n)
    ensures var obj := AlignUp(base, h, n);
            && h <= obj && obj + n <= h + RunLen(free, h)
            && Fits(free, base, n, obj)
            && forall j :: h <= j < obj ==> !Fits(free, base, n, j)
  {
    AlignedFit(base + h, base + h + RunLen(free, h), n);
    forall j | h <= j < AlignUp(base, h, n) ensures !Fits(free, base, n, j) {
      if Fits(free, base, n, j) { AlignedLeast(base + h, n, base + j); }
    }
  }

  // Taking [obj, obj + n) out of the free set changes run lengths below obj only, and
  // successors only where the successor was obj.
  lemma CutFreeSet(free: seq<bool>, h: int, obj: int, n: int, i: int)
    requires RunStart(free, h) && 1 <= n
    requires h <= obj && obj + n <= h + RunLen(free, h)
    requires 0 <= i < |free| && free[i] && !(obj <= i < obj + n)
    ensures var f := Mark(free, obj, n, false);
            RunLen(f, i) == if h <= i < obj then obj - i else RunLen(free, i)
  {
    hide RunLen;
    RunLenIs(Mark(free, obj, n, false), i, if h <= i < obj then obj - i else RunLen(free, i));
  }

  // The nodes of a free run count down to its end and are chained in order.
  lemma RunNodes(ns: seq<PageNode>, pages: int, free: seq<bool>, h: int)
    requires Canonical(ns, pages, free) && Detached(ns, free) && RunStart(free, h)
    ensures |ns| == |free| && 0 <= pages <= h
    ensures pages < h ==> ns[h - 1].next != h
    ensures forall i :: h <= i < h + RunLen(free, h) ==> ns[i].combpage == h + RunLen(free, h) - i
    ensures forall i :: h <= i < h + RunLen(free, h) - 1 ==> ns[i].next == i + 1
  {
    assert h > 0 ==> ns[h - 1].next != h;
    forall i | h <= i < h + RunLen(free, h)
      ensures ns[i].combpage == h + RunLen(free, h) - i
      ensures i + 1 < h + RunLen(free, h) ==> ns[i].next == i + 1
    {
      InRun(free, h, i);
    }
  }

  // Cutting a delivered block out keeps the server canonical, for the smaller free set.
  lemma CutCanonicalAt(ns: seq<PageNode>, ns': seq<PageNode>, pages: int, free: seq<bool>,
                       head: int, prior: int, obj: int, n: int, i: int)
    requires Canonical(ns, pages, free)
    requires Cursor(free, pages, head, prior) && head != NULL
    requires Cut(ns, ns', head, prior, obj, n) && obj + n <= head + RunLen(free, head)
    requires 0 <= i < |ns| && free[i] && !(obj <= i < obj + n)
    ensures var f := Mark(free, obj, n, false); ns'[i] == PageNode(0, RunLen(f, i), NextFree(f, i + 1))
  {
    hide NextFree, RunLen;
    CursorStart(free, pages, head, prior);
    CutFreeSet(free, head, obj, n, i);
    NextAfterTake(free, obj, n, i + 1);
    assert free[obj + n - 1];
    if head <= i < obj {
      InRun(free, head, i);
    } else if obj == head && i != prior {
      PriorIsOnlyPredecessor(free, pages, head, prior, i);
    }
  }

  // Only the last node of the preceding run has the head of a run as its successor.
  lemma PriorIsOnlyPredecessor(free: seq<bool>, pages: int, head: int, prior: int, i: int)
    requires Cursor(free, pages, head, prior) && head != NULL && pages == NextFree(free, 0)
    requires 0 <= i < |free| && free[i] && i != prior
    ensures NextFree(free, i + 1) != head
  {}

  lemma CutCanonical(ns: seq<PageNode>, ns': seq<PageNode>, pages: int, free: seq<bool>,
                     head: int, prior: int, obj: int, n: int, combpage: int)
    requires Canonical(ns, pages, free) && Detached(ns, free)
    requires Cursor(free, pages, head, prior) && head != NULL
    requires Cut(ns, ns', head, prior, obj, n) && obj + n <= head + RunLen(free, head)
    requires Delivered(ns', obj, n, combpage)
    ensures Canonical(ns', if obj == pages then ns[obj + n - 1].next else pages, Mark(free, obj, n, false))
    ensures Detached(ns', Mark(free, obj, n, false))
  {
    var f := Mark(free, obj, n, false);
    CursorStart(free, pages, head, prior);
    NextAfterTake(free, obj, n, 0);
    forall i | 0 <= i < |ns| && f[i]
      ensures ns'[i] == PageNode(0, RunLen(f, i), NextFree(f, i + 1))
    {
      CutCanonicalAt(ns, ns', pages, free, head, prior, obj, n, i);
    }
    forall i | 0 <= i < |ns| && !f[i]
      ensures ns'[i].next == NULL || (0 <= ns'[i].next < |ns| && !f[ns'[i].next])
    {
      if !free[i] { assert ns'[i] == ns[i]; }
    }
  }

  // The list after a block was linked back in, with the counts right above m only.
  ghost predicate Recounted(ns: seq<PageNode>, free: seq<bool>, f: seq<bool>, m: int) {
    && |ns| == |free| == |f|
    && forall i {:trigger ns[i]} :: 0 <= i < |ns| && f[i] ==>
         ns[i] == PageNode(0, if i > m then RunLen(f, i) else RunLen(free, i), NextFree(f, i + 1))
  }

  // memserver_receive relinks the block unless it lies above every free node of a
  // non-empty list and the own mark of its first node has been cleared.
  ghost predicate Relinks(free: seq<bool>, s: nat, own: int) {
    NextFree(free, 0) == NULL || NextFree(free, s) != NULL || own == 1
  }

  // Run lengths once a block has been given back: the block joins the run right above it,
  // and nothing above the block changes.
  lemma GivenRunLen(free: seq<bool>, s: int, len: int, i: int)
    requires 0 <= s && 1 <= len && s + len <= |free|
    requires forall k :: s <= k < s + len ==> !free[k]
    requires s <= i <= |free|
    ensures RunLen(Mark(free, s, len, true), i) ==
            if i < s + len then s + len - i + RunLen(free, s + len) else RunLen(free, i)
  {
    RunLenIs(Mark(free, s, len, true), i, if i < s + len then s + len - i + RunLen(free, s + len) else RunLen(free, i));
  }

  // The node array once the block's own nodes are linked and counted.
  ghost predicate Linked(ns: seq<PageNode>, ns': seq<PageNode>, free: seq<bool>, s: int, len: int, prior: int) {
    && |ns| == |ns'| == |free| && 0 <= s && 1 <= len && s + len <= |free|
    && (forall i {:trigger ns'[i]} :: 0 <= i < |ns| && !(s <= i < s + len) ==> ns'[i] == if i == prior then ns[i].(next := s) else ns[i])
    && forall i {:trigger ns'[i]} :: s <= i < s + len ==>
         ns'[i] == PageNode(0, s + len - i + RunLen(free, s + len), if i == s + len - 1 then NextFree(free, s) else i + 1)
  }

  // What the three ways of linking a block in write is the linked array.
  lemma BlockLinked(ns: seq<PageNode>, ns': seq<PageNode>, pages: int, free: seq<bool>, s: int, len: int, node: int, prior: int)
    requires Canonical(ns, pages, free) && |ns'| == |ns|
    requires Returnable(ns, free, s, len)
    requires Cursor(free, pages, node, prior) && prior < s && (node != NULL ==> s + len - 1 <= node)
    requires forall i :: 0 <= i < |ns| && !(s <= i < s + len) ==> ns'[i] == if i == prior then ns[i].(next := s) else ns[i]
    requires var above := if node == s + len then ns[node].combpage else 0;
             forall i :: s <= i < s + len ==>
               ns'[i] == PageNode(0, s + len - i + above, if i == s + len - 1 then node else i + 1)
    ensures Linked(ns, ns', free, s, len, prior)
  {
    CursorAround(free, pages, node, prior, s);
    if node != s + len { RunLenIs(free, s + len, 0); }
  }

  // Normalising the count of a held block's first node leaves the server as it was.
  lemma FirstCountKeeps(ns: seq<PageNode>, pages: int, free: seq<bool>, s: int)
    requires Canonical(ns, pages, free) && Detached(ns, free)
    requires 0 <= s < |ns| && Returnable(ns, free, s, Max(ns[s].combpage, 1))
    ensures var len := Max(ns[s].combpage, 1);
            var ns' := ns[s := ns[s].(combpage := len)];
            Canonical(ns', pages, free) && Detached(ns', free) && Returnable(ns', free, s, len)
    ensures pages == NextFree(free, 0)
  {}

  lemma BlockChain(ns: seq<PageNode>, s: int, len: int)
    requires Block(ns, s, len)
    ensures forall i :: s <= i < s + len - 1 ==> ns[i].next == i + 1
  {}

  lemma CanonicalPages(ns: seq<PageNode>, pages: int, free: seq<bool>)
    requires Canonical(ns, pages, free)
    ensures |ns| == |free| && pages == NextFree(free, 0)
  {}

  lemma LinkedIsRecounted(ns: seq<PageNode>, ns': seq<PageNode>, pages: int, free: seq<bool>, s: int, len: int, prior: int)
    requires Canonical(ns, pages, free) && Detached(ns, free)
    requires Linked(ns, ns', free, s, len, prior)
    requires forall k :: s <= k < s + len ==> !free[k]
    requires forall i :: 0 <= i < |ns| && !free[i] && s <= ns[i].next < s + len ==> s <= i < s + len - 1
    requires Cursor(free, pages, NextFree(free, s), prior) && prior < s
    ensures var f := Mark(free, s, len, true);
            && Recounted(ns', free, f, if prior == NULL then s - 1 else prior)
            && Detached(ns', f)
            && NextFree(f, 0) == (if prior == NULL then s else pages)
  {
    hide NextFree, RunLen, Canonical;
    var f := Mark(free, s, len, true);
    NextAfterGive(free, s, len, 0);
    CanonicalPages(ns, pages, free);
    forall i | 0 <= i < |ns| && f[i]
      ensures ns'[i] == PageNode(0, if i > (if prior == NULL then s - 1 else prior) then RunLen(f, i) else RunLen(free, i), NextFree(f, i + 1))
    {
      LinkedAt(ns, ns', pages, free, s, len, prior, i);
    }
    forall i | 0 <= i < |ns| && !f[i]
      ensures ns'[i].next == NULL || (0 <= ns'[i].next < |ns| && !f[ns'[i].next])
    {
      assert ns'[i] == ns[i];
    }
  }

  lemma LinkedAt(ns: seq<PageNode>, ns': seq<PageNode>, pages: int, free: seq<bool>, s: int, len: int, prior: int, i: nat)
    requires Canonical(ns, pages, free) && Linked(ns, ns', free, s, len, prior)
    requires forall k :: s <= k < s + len ==> !free[k]
    requires Cursor(free, pages, NextFree(free, s), prior) && prior < s
    requires i < |ns| && (free[i] || s <= i < s + len)
    ensures var f := Mark(free, s, len, true);
            ns'[i] == PageNode(0, if i > (if prior == NULL then s - 1 else prior) then RunLen(f, i) else RunLen(free, i), NextFree(f, i + 1))
  {
    hide NextFree, RunLen;
    NextAfterGive(free, s, len, i + 1);
    if i >= s { GivenRunLen(free, s, len, i); }
  }

  lemma AllFreeCanonical(ns: seq<PageNode>, pages: int, free: seq<bool>)
    requires pages == if |ns| == 0 then NULL else 0
    requires |free| == |ns| && forall i :: 0 <= i < |ns| ==> free[i]
    requires forall k :: 0 <= k < |ns| ==> ns[k] == PageNode(0, |ns| - k, if k == |ns| - 1 then NULL else k + 1)
    ensures Canonical(ns, pages, free)
  {
    forall i | 0 <= i < |ns| ensures ns[i] == PageNode(0, RunLen(free, i), NextFree(free, i + 1)) {
      RunLenIs(free, i, |ns| - i);
    }
  }

  class Server {
    const base: nat
    const nodes: array<PageNode>
    var pages: int
    ghost var free: seq<bool>

    ghost predicate Valid()
      reads this, nodes
    {
      Canonical(nodes[..], pages, free) && Detached(nodes[..], free)
    }

    // The server as pmm_init leaves it: every page free, in one run.
    constructor (base: nat, amount: nat)
      ensures this.base == base && nodes.Length == amount && fresh(nodes)
      ensures |free| == amount && (forall i :: 0 <= i < amount ==> free[i]) && Valid()
    {
      this.base := base;
      nodes := new PageNode[amount](_ => PageNode(0, 0, NULL));
      pages := if amount == 0 then NULL else 0;
      free := seq(amount, _ => true);
      new;
      for i := 0 to amount
        invariant |free| == amount && (forall k :: 0 <= k < amount ==> free[k])
        invariant pages == if amount == 0 then NULL else 0
        invariant forall k :: 0 <= k < i ==> nodes[k] == PageNode(0, amount - k, if k == amount - 1 then NULL else k + 1)
      {
        nodes[i] := PageNode(0, amount - i, if i == amount - 1 then NULL else i + 1);
      }
      AllFreeCanonical(nodes[..], pages, free);
    }

    // First fit: the lowest aligned block of max(1, combpage) pages, or NULL if there is none.
    method MemserverDelivery(combpage: int) returns (ret: int)
      requires Valid()
      modifies this, nodes
      ensures Valid()
      ensures ret == NULL ==> free == old(free) && pages == old(pages) && nodes[..] == old(nodes[..])
      ensures ret == NULL ==> forall j :: 0 <= j ==> !Fits(old(free), base, Max(1, combpage), j)
      ensures ret != NULL ==> Fits(old(free), base, Max(1, combpage), ret)
      ensures ret != NULL ==> forall j :: 0 <= j < ret ==> !Fits(old(free), base, Max(1, combpage), j)
      ensures ret != NULL ==> free == Mark(old(free), ret, Max(1, combpage), false)
      ensures ret != NULL ==> Delivered(nodes[..], ret, Max(1, combpage), combpage)
      ensures forall i :: 0 <= i < nodes.Length && !old(free)[i] ==> nodes[i] == old(nodes[i])
    {
      hide Fits, RunHolds, AlignUp, NextFree, RunLen, Canonical;
      ret := NULL;
      var pageamount := Max(1, combpage);
      var headpagenode := pages;
      var priornode := NULL;
      CanonicalPages(nodes[..], pages, free);
      NoFitBelow(free, base, pageamount);
      while headpagenode != NULL
        invariant Valid() && pages == old(pages) && free == old(free) && nodes[..] == old(nodes[..])
        invariant Cursor(free, pages, headpagenode, priornode)
        invariant forall j :: 0 <= j && (headpagenode == NULL || j < headpagenode) ==> !Fits(free, base, pageamount, j)
        decreases if headpagenode == NULL then 0 else nodes.Length - headpagenode
      {
        CursorStart(free, pages, headpagenode, priornode);
        CursorNext(nodes[..], pages, free, headpagenode, priornode);
        var tailpagenode := headpagenode + nodes[headpagenode].combpage - 1;
        if RunHolds(base, headpagenode, tailpagenode + 1 - headpagenode, pageamount) {
          var objnode := AlignUp(base, headpagenode, pageamount);
          FirstFitInRun(free, base, pageamount, headpagenode);
          HandOut(headpagenode, priornode, objnode, pageamount, combpage);
          return objnode;
        }
        NoFitInRun(free, base, pageamount, headpagenode);
        priornode := tailpagenode;
        headpagenode := nodes[priornode].next;
      }
    }

    // Takes the chosen block off the server and marks it as owned by a CPU.
    method HandOut(head: int, prior: int, obj: int, n: int, combpage: int)
      requires Valid()
      requires Cursor(free, pages, head, prior) && head != NULL
      requires head <= obj && 1 <= n && obj + n <= head + RunLen(free, head)
      modifies this, nodes
      ensures Valid()
      ensures free == Mark(old(free), obj, n, false)
      ensures Delivered(nodes[..], obj, n, combpage)
      ensures forall i :: 0 <= i < nodes.Length && !old(free)[i] ==> nodes[i] == old(nodes[i])
    {
      hide NextFree, RunLen, Canonical, Detached;
      CursorStart(free, pages, head, prior);
      CanonicalPages(nodes[..], pages, free);
      Take(head, prior, obj, n);
      MarkDelivered(obj, n, combpage);
      CutCanonical(old(nodes[..]), nodes[..], old(pages), free, head, prior, obj, n, combpage);
      free := Mark(free, obj, n, false);
    }

    // Unlinks [obj, obj + n) from the run at head and repairs the counts below obj.
    method Take(head: int, prior: int, obj: int, n: int)
      requires Valid()
      requires Cursor(free, pages, head, prior) && head != NULL
      requires head <= obj && 1 <= n && obj + n <= head + RunLen(free, head)
      modifies this`pages, nodes
      ensures Cut(old(nodes[..]), nodes[..], head, prior, obj, n)
      ensures forall i :: obj <= i < obj + n ==> nodes[i].next == if i == obj + n - 1 then NULL else i + 1
      ensures pages == if obj == old(pages) then old(nodes[obj + n - 1].next) else old(pages)
    {
      hide NextFree, RunLen, Canonical, Detached;
      CursorStart(free, pages, head, prior);
      RunNodes(nodes[..], pages, free, head);
      if head == obj {
        CutFront(head, prior, n);
      } else {
        CutInside(head, obj, n);
      }
    }

    method CutFront(head: int, prior: int, n: int)
      requires 0 <= head && 1 <= n && head + n <= nodes.Length
      requires head != pages ==> 0 <= prior < head
      requires forall i :: head <= i < head + n - 1 ==> nodes[i].next == i + 1
      modifies this`pages, nodes
      ensures head == old(pages) ==> pages == old(nodes[head + n - 1].next)
      ensures head != old(pages) ==> pages == old(pages)
      ensures forall i :: 0 <= i < nodes.Length && !(head <= i < head + n) ==>
        nodes[i] == if i == prior && head != old(pages) then old(nodes[i]).(next := old(nodes[head + n - 1].next)) else old(nodes[i])
      ensures forall i :: head <= i < head + n ==> nodes[i].next == if i == head + n - 1 then NULL else i + 1
    {
      var last := head + n - 1;
      if head == pages {
        pages := nodes[last].next;
      } else {
        nodes[prior] := nodes[prior].(next := nodes[last].next);
      }
      nodes[last] := nodes[last].(next := NULL);
    }

    method CutInside(head: int, obj: int, n: int)
      requires 0 <= pages <= head < obj && 1 <= n && obj + n <= nodes.Length
      requires forall i :: head <= i < obj + n - 1 ==> nodes[i].next == i + 1
      requires forall i :: head <= i < obj ==> nodes[i].combpage == nodes[obj].combpage + obj - i
      requires pages < head ==> nodes[head - 1].next != head
      modifies nodes
      ensures forall i :: 0 <= i < nodes.Length && !(head <= i < obj + n) ==> nodes[i] == old(nodes[i])
      ensures forall i :: head <= i < obj ==>
        nodes[i] == old(nodes[i]).(combpage := obj - i, next := if i == obj - 1 then old(nodes[obj + n - 1].next) else i + 1)
      ensures forall i :: obj <= i < obj + n ==> nodes[i].next == if i == obj + n - 1 then NULL else i + 1
    {
      LowerCounts(head, obj);
      var last := obj + n - 1;
      nodes[obj - 1] := nodes[obj - 1].(next := nodes[last].next);
      nodes[last] := nodes[last].(next := NULL);
    }

    // The backward scan that takes the block's length off the counts of the run below it.
    method LowerCounts(head: int, obj: int)
      requires 0 <= pages <= head < obj < nodes.Length
      requires forall i :: head <= i < obj ==> nodes[i].next == i + 1 && nodes[i].combpage == nodes[obj].combpage + obj - i
      requires pages < head ==> nodes[head - 1].next != head
      modifies nodes
      ensures forall i :: 0 <= i < nodes.Length ==>
        nodes[i] == if head <= i < obj then old(nodes[i]).(combpage := obj - i) else old(nodes[i])
    {
      var node := obj - 1;
      while node >= pages && nodes[node].next == node + 1
        invariant head - 1 <= node < obj
        invariant forall i :: 0 <= i < nodes.Length ==>
          nodes[i] == if node < i < obj then old(nodes[i]).(combpage := obj - i) else old(nodes[i])
        decreases node
      {
        nodes[node] := nodes[node].(combpage := nodes[node].combpage - nodes[obj].combpage);
        node := node - 1;
      }
    }

    method MarkDelivered(obj: int, n: int, combpage: int)
      requires 0 <= obj && 1 <= n && obj + n <= nodes.Length
      requires forall i :: obj <= i < obj + n ==> nodes[i].next == if i == obj + n - 1 then NULL else i + 1
      modifies nodes
      ensures Delivered(nodes[..], obj, n, combpage)
      ensures forall i :: 0 <= i < nodes.Length && !(obj <= i < obj + n) ==> nodes[i] == old(nodes[i])
    {
      for i := 0 to n
        invariant forall k :: 0 <= k < nodes.Length ==>
          nodes[k] == if obj <= k < obj + i then PageNode(1, n - (k - obj), old(nodes[k]).next) else old(nodes[k])
      {
        nodes[obj + i] := nodes[obj + i].(combpage := n - i, own := 1);
      }
      if combpage == 0 {
        nodes[obj] := nodes[obj].(combpage := 0);
      }
    }

    method MemserverReceive(start: int)
      requires Valid()
      requires 0 <= start < nodes.Length && Returnable(nodes[..], free, start, Max(nodes[start].combpage, 1))
      modifies this, nodes
      ensures Valid()
      ensures var len := Max(old(nodes[start].combpage), 1);
              if Relinks(old(free), start, old(nodes[start].own)) then free == Mark(old(free), start, len, true)
              else free == old(free) && pages == old(pages) && nodes[..] == old(nodes[..])[start := old(nodes[start]).(combpage := len)]
      ensures forall i :: 0 <= i < nodes.Length && !free[i] && i != start ==> nodes[i] == old(nodes[i])
    {
      hide NextFree, RunLen, Canonical, Detached;
      FirstCountKeeps(nodes[..], pages, free, start);
      var combpage := Max(nodes[start].combpage, 1);
      nodes[start] := nodes[start].(combpage := combpage);
      assert nodes[..] == old(nodes[..])[start := old(nodes[start]).(combpage := combpage)];
      var end := start + combpage - 1;
      if pages == NULL {
        FillEmpty(start, end);
      } else {
        var node, nodeprior := Locate(start, end);
        CursorAround(free, pages, node, nodeprior, start);
        if node != NULL {
          Insert(start, end, node, nodeprior);
        } else if nodes[start].own == 1 {
          Append(start, end, nodeprior);
        }
      }
    }

    // The first run head at or above end, or NULL, and the last node of the run before it.
    method Locate(ghost start: int, end: int) returns (node: int, nodeprior: int)
      requires Valid() && 0 <= start <= end < nodes.Length
      requires forall i :: start <= i <= end ==> !free[i]
      ensures Cursor(free, pages, node, nodeprior) && nodeprior < start
      ensures node != NULL ==> end <= node < nodes.Length
    {
      hide NextFree, RunLen, Canonical, Detached;
      CanonicalPages(nodes[..], pages, free);
      node, nodeprior := pages, NULL;
      while node != NULL
        invariant Cursor(free, pages, node, nodeprior)
        invariant nodeprior < start
        decreases if node == NULL then 0 else nodes.Length - node
      {
        CursorNext(nodes[..], pages, free, node, nodeprior);
        assert !free[start];
        if node >= end { return; }
        nodeprior := node + nodes[node].combpage - 1;
        node := nodes[nodeprior].next;
      }
    }

    // The block becomes the whole list.
    method FillEmpty(start: int, end: int)
      requires Valid() && 0 <= start <= end < nodes.Length
      requires Returnable(nodes[..], free, start, end - start + 1) && nodes[start].combpage == end - start + 1
      requires pages == NULL
      modifies this, nodes
      ensures Valid()
      ensures free == Mark(old(free), start, end - start + 1, true)
      ensures forall i :: 0 <= i < nodes.Length && !free[i] ==> nodes[i] == old(nodes[i])
    {
      hide NextFree, RunLen, Canonical, Detached;
      CanonicalPages(nodes[..], pages, free);
      pages := start;
      nodes[end] := nodes[end].(next := NULL);
      ClearOwn(start, end);
      CursorAround(free, NULL, NULL, NULL, start);
      BlockLinked(old(nodes[..]), nodes[..], NULL, free, start, end - start + 1, NULL, NULL);
      Relink(old(nodes[..]), old(pages), start, end - start + 1, NULL);
    }

    method ClearOwn(start: int, end: int)
      requires 0 <= start <= end < nodes.Length
      modifies nodes
      ensures forall i :: 0 <= i < nodes.Length ==>
        nodes[i] == if start <= i <= end then old(nodes[i]).(own := 0) else old(nodes[i])
    {
      var node := end;
      while node >= start
        invariant start - 1 <= node <= end
        invariant forall i :: 0 <= i < nodes.Length ==>
          nodes[i] == if node < i <= end then old(nodes[i]).(own := 0) else old(nodes[i])
      {
        nodes[node] := nodes[node].(own := 0);
        node := node - 1;
      }
    }

    // Links the block in below node, the first run head above it.
    method Insert(start: int, end: int, node: int, nodeprior: int)
      requires Valid() && 0 <= start <= end < nodes.Length
      requires Returnable(nodes[..], free, start, end - start + 1) && nodes[start].combpage == end - start + 1
      requires Cursor(free, pages, node, nodeprior) && nodeprior < start && end <= node
      modifies this, nodes
      ensures Valid()
      ensures free == Mark(old(free), start, end - start + 1, true)
      ensures forall i :: 0 <= i < nodes.Length && !free[i] ==> nodes[i] == old(nodes[i])
    {
      hide NextFree, RunLen, Canonical, Detached, Linked, Mark, Block;
      BlockChain(nodes[..], start, end - start + 1);
      ghost var ns := nodes[..];
      CursorAround(free, pages, node, nodeprior, start);
      CursorNext(ns, pages, free, node, nodeprior);
      LinkBelow(start, end, node, nodeprior);
      BlockLinked(ns, nodes[..], old(pages), free, start, end - start + 1, node, nodeprior);
      Relink(ns, old(pages), start, end - start + 1, nodeprior);
    }

    method LinkBelow(start: int, end: int, node: int, nodeprior: int)
      requires NULL <= nodeprior < start <= end <= node < nodes.Length
      requires forall i :: start <= i < end ==> nodes[i].next == i + 1
      modifies this`pages, nodes
      ensures pages == if nodeprior == NULL then start else old(pages)
      ensures forall i :: 0 <= i < nodes.Length && !(start <= i <= end) ==>
        nodes[i] == if i == nodeprior then old(nodes[i]).(next := start) else old(nodes[i])
      ensures var above := if node == end + 1 then old(nodes[node].combpage) else 0;
              forall i :: start <= i <= end ==> nodes[i] == PageNode(0, end + 1 - i + above, if i == end then node else i + 1)
    {
      nodes[end] := nodes[end].(next := node);
      if nodeprior != NULL {
        nodes[nodeprior] := nodes[nodeprior].(next := start);
      } else {
        pages := start;
      }
      CountBlock(start, end);
    }

    // Links the block in above every run.
    method Append(start: int, end: int, nodeprior: int)
      requires Valid() && 0 <= start <= end < nodes.Length
      requires Returnable(nodes[..], free, start, end - start + 1) && nodes[start].combpage == end - start + 1
      requires Cursor(free, pages, NULL, nodeprior) && nodeprior < start && pages != NULL
      modifies this, nodes
      ensures Valid()
      ensures free == Mark(old(free), start, end - start + 1, true)
      ensures forall i :: 0 <= i < nodes.Length && !free[i] ==> nodes[i] == old(nodes[i])
    {
      hide NextFree, RunLen, Canonical, Detached;
      CanonicalPages(nodes[..], pages, free);
      CursorAround(free, pages, NULL, nodeprior, start);
      nodes[nodeprior] := nodes[nodeprior].(next := start);
      nodes[end] := nodes[end].(next := NULL);
      ClearOwn(start, end);
      BlockLinked(old(nodes[..]), nodes[..], pages, free, start, end - start + 1, NULL, nodeprior);
      Relink(old(nodes[..]), old(pages), start, end - start + 1, nodeprior);
    }

    // Counts the block's nodes downwards from the run that begins right above it, if any.
    method CountBlock(start: int, end: int)
      requires 0 <= start <= end < nodes.Length
      requires forall i :: start <= i < end ==> nodes[i].next == i + 1
      requires nodes[end].next < nodes.Length
      modifies nodes
      ensures var above := if old(nodes[end].next) == end + 1 then old(nodes[end + 1].combpage) else 0;
              forall i :: 0 <= i < nodes.Length ==>
                nodes[i] == if start <= i <= end then PageNode(0, end + 1 - i + above, old(nodes[i].next)) else old(nodes[i])
    {
      ghost var above := if nodes[end].next == end + 1 then nodes[end + 1].combpage else 0;
      var node := end;
      while node >= start
        invariant start - 1 <= node <= end
        invariant forall i :: 0 <= i < nodes.Length ==>
          nodes[i] == if node < i <= end then PageNode(0, end + 1 - i + above, old(nodes[i].next)) else old(nodes[i])
      {
        if nodes[node].next == node + 1 {
          nodes[node] := nodes[node].(combpage := nodes[node + 1].combpage + 1);
        } else {
          nodes[node] := nodes[node].(combpage := 1);
        }
        nodes[node] := nodes[node].(own := 0);
        node := node - 1;
      }
    }

    // Records the block as free once it is linked, repairing the counts of the run below it.
    method Relink(ghost ns: seq<PageNode>, ghost was: int, start: int, ghost len: int, nodeprior: int)
      requires Canonical(ns, was, free) && Detached(ns, free)
      requires Returnable(ns, free, start, len)
      requires Linked(ns, nodes[..], free, start, len, nodeprior)
      requires Cursor(free, was, NextFree(free, start), nodeprior) && nodeprior < start
      requires pages == if nodeprior == NULL then start else was
      modifies this`free, nodes
      ensures Valid()
      ensures free == Mark(old(free), start, len, true)
      ensures forall i :: 0 <= i < nodes.Length && !free[i] ==> nodes[i] == old(nodes[i])
    {
      hide NextFree, RunLen;
      LinkedIsRecounted(ns, nodes[..], was, free, start, len, nodeprior);
      ghost var f := Mark(free, start, len, true);
      if nodeprior != NULL {
        RepairBelow(nodeprior, start, f);
      }
      free := f;
    }

    // The backward scan that recounts the run ending at nodeprior after its successor changed.
    method RepairBelow(nodeprior: int, ghost start: int, ghost f: seq<bool>)
      requires Recounted(nodes[..], free, f, nodeprior) && Detached(nodes[..], f)
      requires 0 <= nodeprior < start < |f| && f[nodeprior] && f[start]
      requires forall i :: 0 <= i < start ==> f[i] == free[i]
      requires forall i :: nodeprior < i < start ==> !f[i]
      requires pages == NextFree(f, 0)
      modifies nodes
      ensures Canonical(nodes[..], pages, f) && Detached(nodes[..], f)
      ensures forall i :: 0 <= i < nodes.Length && !f[i] ==> nodes[i] == old(nodes[i])
    {
      var node := nodeprior;
      while node >= pages && nodes[node].next == node + 1
        invariant pages - 1 <= node <= nodeprior
        invariant node < nodeprior ==> f[node + 1]
        invariant Recounted(nodes[..], free, f, node)
        invariant forall i :: 0 <= i < nodes.Length && !f[i] ==> nodes[i] == old(nodes[i])
        decreases node
      {
        assert f[node + 1] && f[node];
        nodes[node] := nodes[node].(combpage := nodes[node + 1].combpage + 1);
        node := node - 1;
      }
      forall i | 0 <= i <= node && f[i] ensures RunLen(free, i) == RunLen(f, i) {
        RunLenUpToGap(free, f, i, if f[node] then node + 1 else node);
      }
    }

    // Handing a block out and taking it straight back, still marked as owned by a CPU,
    // restores every field the server keeps about its pages.
    method DeliverThenReceive(combpage: int) returns (ret: int)
      requires Valid()
      modifies this, nodes
      ensures Valid()
      ensures free == old(free) && pages == old(pages)
      ensures forall i :: 0 <= i < nodes.Length && free[i] ==> nodes[i] == old(nodes[i])
    {
      hide Canonical, NextFree, RunLen, Fits;
      ghost var f := free;
      CanonicalNodes(nodes[..], pages, f);
      ret := MemserverDelivery(combpage);
      if ret != NULL {
        ghost var n := Max(1, combpage);
        FitsFree(f, base, n, ret);
        DeliveredReturnable(old(nodes[..]), nodes[..], f, ret, n, combpage);
        MemserverReceive(ret);
        MarkRoundTrip(f, ret, n);
        assert free == f;
      }
      CanonicalNodes(nodes[..], pages, f);
    }
  }

  // The canonical structure unfolded.
  lemma CanonicalNodes(ns: seq<PageNode>, pages: int, free: seq<bool>)
    requires Canonical(ns, pages, free)
    ensures |ns| == |free| && pages == NextFree(free, 0)
    ensures forall i :: 0 <= i < |ns| && free[i] ==> ns[i] == PageNode(0, RunLen(free, i), NextFree(free, i + 1))
  {}

  // Two servers with the same free pages agree on pages and on every field of every free node,
  // whatever deliveries and returns led to them.
  lemma SameFreeSameNodes(ns: seq<PageNode>, pages: int, ns': seq<PageNode>, pages': int, free: seq<bool>)
    requires Canonical(ns, pages, free) && Canonical(ns', pages', free)
    ensures pages == pages'
    ensures forall i :: 0 <= i < |free| && free[i] ==> ns[i] == ns'[i]
  {
    hide Canonical;
    CanonicalNodes(ns, pages, free);
    CanonicalNodes(ns', pages', free);
  }

  // A freshly delivered block can be given back.
  lemma DeliveredReturnable(ns: seq<PageNode>, ns': seq<PageNode>, free: seq<bool>, s: int, n: int, combpage: int)
    requires Detached(ns, free) && |ns'| == |ns|
    requires Delivered(ns', s, n, combpage) && n == Max(1, combpage)
    requires forall i :: s <= i < s + n ==> free[i]
    requires forall i :: 0 <= i < |ns| && !free[i] ==> ns'[i] == ns[i]
    ensures Returnable(ns', Mark(free, s, n, false), s, n)
  {
    var f := Mark(free, s, n, false);
    forall i | 0 <= i < |ns'| && !f[i] && s <= ns'[i].next < s + n ensures s <= i < s + n - 1 {
      if !free[i] { HeldNext(ns, ns', free, i); }
    }
  }

  lemma HeldNext(ns: seq<PageNode>, ns': seq<PageNode>, free: seq<bool>, i: nat)
    requires Detached(ns, free) && i < |ns| == |ns'| && !free[i] && ns'[i] == ns[i]
    ensures ns'[i].next == NULL || (0 <= ns'[i].next < |ns| && !free[ns'[i].next])
  {}

  // The nodes met by following next from a node index, which must climb.
  function Chain(ns: seq<PageNode>, i: int): (r: seq<int>)
    decreases |ns| - i
  {
    if i < 0 || i >= |ns| then []
    else if ns[i].next > i then [i] + Chain(ns, ns[i].next)
    else [i]
  }

  ghost predicate Ascending(s: seq<int>) {
    forall i, j :: 0 <= i < j < |s| ==> s[i] < s[j]
  }

  // The list the server walks is exactly the free nodes, each once, in address order.
  lemma {:induction false} ChainIsFreeSet(ns: seq<PageNode>, pages: int, free: seq<bool>, i: nat)
    requires Canonical(ns, pages, free)
    ensures var c := Chain(ns, NextFree(free, i));
            Ascending(c) && forall k :: k in c <==> i <= k < |free| && free[k]
    decreases |ns| - i
  {
    hide RunLen, NextFree;
    var n := NextFree(free, i);
    if n == NULL {
      assert forall k :: i <= k < |free| ==> !free[k];
    } else {
      var rest := Chain(ns, NextFree(free, n + 1));
      ChainIsFreeSet(ns, pages, free, n + 1);
      assert ns[n].next == NextFree(free, n + 1);
      assert Chain(ns, n) == [n] + rest;
      AscendingCons(n, rest);
    }
  }

  lemma AscendingCons(n: int, s: seq<int>)
    requires Ascending(s) && forall k :: k in s ==> n < k
    ensures Ascending([n] + s)
  {
    assert forall j :: 0 <= j < |s| ==> s[j] in s;
  }

  lemma ServerListIsFreeSet(ns: seq<PageNode>, pages: int, free: seq<bool>)
    requires Canonical(ns, pages, free)
    ensures Ascending(Chain(ns, pages))
    ensures forall k :: k in Chain(ns, pages) <==> 0 <= k < |free| && free[k]
  {
    ChainIsFreeSet(ns, pages, free, 0);
  }
}
