// Small-object allocation inside one page.  The list of live objects is threaded through
// header records that lie in the page itself, each right below the object it describes.
module PageAlloc {
  import opened Lists
  import opened Arith

  const PAGESIZE: int := 4096
  const HEADER: int := 24 // sizeof(allocatednode_t)

  // Addresses of list nodes: the two end nodes live outside the page, in the page node.
  const NULLPTR: int := 0
  const HEADNODE: int := -1
  const TAILNODE: int := -2

  datatype AllocatedNode = AllocatedNode(startptr: int, endptr: int, next: int)

  // A live object occupies [start, end).
  datatype Obj = Obj(start: int, end: int)

  // The gap before list position k runs from the end of the object before it (or the page
  // start) to the header of the object at k (or the page end).
  ghost function GapStart(page: int, objs: seq<Obj>, k: nat): int
    requires k <= |objs|
  {
    if k == 0 then page else objs[k - 1].end
  }

  ghost function GapEnd(page: int, objs: seq<Obj>, k: nat): int
    requires k <= |objs|
  {
    if k == |objs| then page + PAGESIZE else objs[k].start - HEADER
  }

  // Objects in address order, each preceded by its header, nothing overlapping, all
  // inside the page; every object is aligned to its own size.
  ghost predicate Laid(page: int, objs: seq<Obj>) {
    && 0 < page && page % PAGESIZE == 0
    && (forall k {:trigger objs[k]} :: 0 <= k < |objs| ==>
          && objs[k].start < objs[k].end
          && objs[k].start % (objs[k].end - objs[k].start) == 0)
    && forall k: nat {:trigger GapStart(page, objs, k)} {:trigger GapEnd(page, objs, k)} ::
         k <= |objs| ==> GapStart(page, objs, k) <= GapEnd(page, objs, k)
  }

  // An object of the given size at address a, header included, fits in the gap before k.
  ghost predicate FitsGap(page: int, objs: seq<Obj>, size: int, a: int, k: nat) {
    && 1 <= size && k <= |objs| && a % size == 0
    && GapStart(page, objs, k) + HEADER <= a
    && a + size <= GapEnd(page, objs, k)
  }

  ghost predicate FitsPage(page: int, objs: seq<Obj>, size: int, a: int) {
    exists k: nat :: FitsGap(page, objs, size, a, k)
  }

  // The header address of the object at position k, or the tail node.
  ghost function Node(objs: seq<Obj>, k: nat): int {
    if k < |objs| then objs[k].start - HEADER else TAILNODE
  }

  ghost predicate Threaded(first: int, headers: map<int, AllocatedNode>, objs: seq<Obj>) {
    && first == Node(objs, 0)
    && forall k: nat {:trigger Node(objs, k)} {:trigger objs[k]} :: k < |objs| ==>
         && Node(objs, k) in headers
         && headers[Node(objs, k)] == AllocatedNode(objs[k].start, objs[k].end, Node(objs, k + 1))
  }

  function RoundUp(a: int, size: int): int
    requires 1 <= size
  {
    ((a + size - 1) / size) * size
  }

  // The scan's test for a slot between the end of one object and the start of the next.
  predicate HasRoom(priorEnd: int, nodeStart: int, size: int)
    requires 1 <= size
  {
    (priorEnd + HEADER + size - 1) / size < (nodeStart - HEADER) / size
  }

  lemma ObjsClimb(page: int, objs: seq<Obj>, i: nat, j: nat)
    requires Laid(page, objs) && i <= j < |objs|
    ensures page + HEADER <= objs[i].start && objs[i].end <= page + PAGESIZE
    ensures i < j ==> objs[i].end + HEADER <= objs[j].start
    decreases j - i, i
  {
    assert GapStart(page, objs, i) <= GapEnd(page, objs, i);
    assert GapStart(page, objs, j) <= GapEnd(page, objs, j);
    if i < j {
      ObjsClimb(page, objs, i, j - 1);
    }
    LowEnd(page, objs, i);
    HighEnd(page, objs, i);
  }

  lemma LowEnd(page: int, objs: seq<Obj>, i: nat)
    requires Laid(page, objs) && i < |objs|
    ensures page + HEADER <= objs[i].start
  {
    assert GapStart(page, objs, i) <= GapEnd(page, objs, i);
    if i > 0 { LowEnd(page, objs, i - 1); }
  }

  lemma HighEnd(page: int, objs: seq<Obj>, i: nat)
    requires Laid(page, objs) && i < |objs|
    ensures objs[i].end <= page + PAGESIZE
    decreases |objs| - i
  {
    assert GapStart(page, objs, i + 1) <= GapEnd(page, objs, i + 1);
    if i + 1 < |objs| { HighEnd(page, objs, i + 1); }
  }

  // The quotient comparison of the scan decides whether the gap has room, and rounding
  // up gives the lowest slot.
  lemma GapTest(page: int, objs: seq<Obj>, size: int, k: nat)
    requires Laid(page, objs) && 1 <= size && k <= |objs|
    ensures var lo := GapStart(page, objs, k) + HEADER;
            var slot := RoundUp(lo, size);
            && lo <= slot
            && (HasRoom(GapStart(page, objs, k), GapEnd(page, objs, k) + HEADER, size) <==> FitsGap(page, objs, size, slot, k))
            && forall a :: FitsGap(page, objs, size, a, k) ==> slot <= a && FitsGap(page, objs, size, slot, k)
  {
    GapStartPositive(page, objs, k);
    var lo := GapStart(page, objs, k) + HEADER;
    RoundUpTest(lo, GapEnd(page, objs, k), size);
    forall a | FitsGap(page, objs, size, a, k)
      ensures RoundUp(lo, size) <= a && FitsGap(page, objs, size, RoundUp(lo, size), k)
    {
      RoundUpLeast(lo, size, a);
    }
  }

  lemma GapStartPositive(page: int, objs: seq<Obj>, k: nat)
    requires Laid(page, objs) && k <= |objs|
    ensures GapStart(page, objs, k) >= page
  {
    if k > 0 { ObjsClimb(page, objs, k - 1, k - 1); }
  }

  // A slot of an earlier gap lies below every slot of a later one.
  lemma GapOrder(page: int, objs: seq<Obj>, size: int, a: int, j: nat, b: int, k: nat)
    requires Laid(page, objs) && j < k
    requires FitsGap(page, objs, size, a, j) && FitsGap(page, objs, size, b, k)
    ensures a < b
  {
    ObjsClimb(page, objs, j, k - 1);
  }

  ghost function InsertObj(objs: seq<Obj>, k: nat, o: Obj): seq<Obj>
    requires k <= |objs|
  {
    objs[..k] + [o] + objs[k..]
  }

  lemma InsertLaid(page: int, objs: seq<Obj>, size: int, a: int, k: nat)
    requires Laid(page, objs) && FitsGap(page, objs, size, a, k)
    ensures Laid(page, InsertObj(objs, k, Obj(a, a + size)))
  {
    var objs' := InsertObj(objs, k, Obj(a, a + size));
    forall i: nat | i <= |objs'| ensures GapStart(page, objs', i) <= GapEnd(page, objs', i) {
      if i < k { assert GapStart(page, objs, i) <= GapEnd(page, objs, i); }
      if i > k + 1 { assert GapStart(page, objs, i - 1) <= GapEnd(page, objs, i - 1); }
    }
    forall i | 0 <= i < |objs'|
      ensures objs'[i].start < objs'[i].end && objs'[i].start % (objs'[i].end - objs'[i].start) == 0
    {
      if i < k { assert objs'[i] == objs[i]; }
      if i > k { assert objs'[i] == objs[i - 1]; }
    }
  }

  lemma RemoveLaid(page: int, objs: seq<Obj>, k: nat)
    requires Laid(page, objs) && k < |objs|
    ensures Laid(page, RemoveAt(objs, k))
  {
    var objs' := RemoveAt(objs, k);
    forall i: nat | i <= |objs'| ensures GapStart(page, objs', i) <= GapEnd(page, objs', i) {
      if i <= k { assert GapStart(page, objs, i) <= GapEnd(page, objs, i); }
      if i >= k { assert GapStart(page, objs, i + 1) <= GapEnd(page, objs, i + 1); }
    }
    forall i | 0 <= i < |objs'|
      ensures objs'[i].start < objs'[i].end && objs'[i].start % (objs'[i].end - objs'[i].start) == 0
    {
      if i < k { assert objs'[i] == objs[i]; }
      if i >= k { assert objs'[i] == objs[i + 1]; }
    }
  }

  // An empty page has room for any power of two below the page size.
  lemma FreshPageFits(page: int, size: int)
    requires 0 < page && page % PAGESIZE == 0
    requires IsPow2(size) && size < PAGESIZE
    ensures FitsGap(page, [], size, RoundUp(page + HEADER, size), 0)
  {
    RoundUpTest(page + HEADER, page + PAGESIZE, size);
    if size > 2036 {
      var k: nat :| size == Pow2(k);
      assert size == 2048 by { Pow2Below4096(k); }
    }
  }

  lemma Pow2Below4096(k: nat)
    requires 2036 < Pow2(k) < 4096
    ensures Pow2(k) == 2048
  {
    assert Pow2(11) == 2048 by { Pow2Add(5, 6); assert Pow2(5) == 32 && Pow2(6) == 64; }
    if k < 11 { Pow2Monotone(k, 10); }
    if k > 11 { Pow2Monotone(12, k); }
  }

  lemma SlotPositive(page: int, objs: seq<Obj>, size: int, a: int, k: nat)
    requires Laid(page, objs) && FitsGap(page, objs, size, a, k)
    ensures a > NULLPTR
  {
    GapStartPositive(page, objs, k);
  }

  // The first gap that has room has the lowest slot of the page.
  lemma LowestSlot(page: int, objs: seq<Obj>, size: int, a: int, k: nat)
    requires Laid(page, objs) && 1 <= size && k <= |objs|
    requires a == RoundUp(GapStart(page, objs, k) + HEADER, size) && FitsGap(page, objs, size, a, k)
    requires forall b, j: nat :: j < k ==> !FitsGap(page, objs, size, b, j)
    ensures forall b :: FitsPage(page, objs, size, b) ==> a <= b
  {
    forall b | FitsPage(page, objs, size, b) ensures a <= b {
      var j: nat :| FitsGap(page, objs, size, b, j);
      GapTest(page, objs, size, k);
      if j > k { GapOrder(page, objs, size, a, k, b, j); }
    }
  }

  lemma NoSlot(page: int, objs: seq<Obj>, size: int)
    requires forall a, j: nat :: j <= |objs| ==> !FitsGap(page, objs, size, a, j)
    ensures forall a :: !FitsPage(page, objs, size, a)
  {}

  // Threading one more record between its neighbours.
  lemma InsertThreaded(first: int, headers: map<int, AllocatedNode>, first': int, headers': map<int, AllocatedNode>,
                       page: int, objs: seq<Obj>, size: int, a: int, k: nat)
    requires Laid(page, objs) && Threaded(first, headers, objs) && FitsGap(page, objs, size, a, k)
    requires first' == if k == 0 then a - HEADER else first
    requires var record := AllocatedNode(a, a + size, Node(objs, k));
             headers' == if k == 0 then headers[a - HEADER := record]
                         else headers[Node(objs, k - 1) := headers[Node(objs, k - 1)].(next := a - HEADER)][a - HEADER := record]
    ensures Threaded(first', headers', InsertObj(objs, k, Obj(a, a + size)))
  {
    hide Laid;
    var objs' := InsertObj(objs, k, Obj(a, a + size));
    forall i: nat | i < |objs'|
      ensures Node(objs', i) in headers'
      ensures headers'[Node(objs', i)] == AllocatedNode(objs'[i].start, objs'[i].end, Node(objs', i + 1))
    {
      ShiftedNodes(objs, k, Obj(a, a + size), i);
      if i < k { NodesApart(page, objs, size, a, k, i); }
      if i > k { NodesApart(page, objs, size, a, k, i - 1); }
    }
  }

  lemma ShiftedNodes(objs: seq<Obj>, k: nat, o: Obj, i: nat)
    requires k <= |objs| && i <= |objs|
    ensures var objs' := InsertObj(objs, k, o);
            && objs'[i] == (if i < k then objs[i] else if i == k then o else objs[i - 1])
            && Node(objs', i) == (if i < k then Node(objs, i) else if i == k then o.start - HEADER else Node(objs, i - 1))
            && Node(objs', i + 1) == (if i + 1 < k then Node(objs, i + 1) else if i + 1 == k then o.start - HEADER else Node(objs, i))
  {}

  // The new record and the existing ones are at different addresses.
  lemma NodesApart(page: int, objs: seq<Obj>, size: int, a: int, k: nat, j: nat)
    requires Laid(page, objs) && FitsGap(page, objs, size, a, k) && j < |objs|
    ensures Node(objs, j) != a - HEADER
    ensures k > 0 && j != k - 1 ==> Node(objs, j) != Node(objs, k - 1)
  {
    if j < k { ObjsClimb(page, objs, j, k - 1); } else { ObjsClimb(page, objs, k, j); }
    if k > 0 && j >= k { ObjsClimb(page, objs, k - 1, j); }
  }

  lemma GapIndexBound(page: int, objs: seq<Obj>, size: int, a: int, k: nat)
    requires FitsGap(page, objs, size, a, k)
    ensures k <= |objs|
  {}

  // Unthreading the record at position k.
  lemma RemoveThreaded(first: int, headers: map<int, AllocatedNode>, first': int, headers': map<int, AllocatedNode>,
                       page: int, objs: seq<Obj>, k: nat)
    requires Laid(page, objs) && Threaded(first, headers, objs) && k < |objs|
    requires first' == if k == 0 then Node(objs, 1) else first
    requires headers' == if k == 0 then headers
                         else headers[Node(objs, k - 1) := headers[Node(objs, k - 1)].(next := Node(objs, k + 1))]
    ensures Threaded(first', headers', RemoveAt(objs, k))
  {
    hide Laid;
    var objs' := RemoveAt(objs, k);
    forall i: nat | i < |objs'|
      ensures Node(objs', i) in headers'
      ensures headers'[Node(objs', i)] == AllocatedNode(objs'[i].start, objs'[i].end, Node(objs', i + 1))
    {
      var j := if i < k then i else i + 1;
      NodesAfterRemove(objs, k, i);
      if k > 0 && j != k - 1 { NodesDistinct(page, objs, j, k - 1); }
    }
  }

  lemma NodesDistinct(page: int, objs: seq<Obj>, i: nat, j: nat)
    requires Laid(page, objs) && i < |objs| && j < |objs| && i != j
    ensures Node(objs, i) != Node(objs, j)
  {
    if i < j { ObjsClimb(page, objs, i, j); } else { ObjsClimb(page, objs, j, i); }
  }

  lemma NodesAfterRemove(objs: seq<Obj>, k: nat, i: nat)
    requires k < |objs| && i < |objs| - 1
    ensures var objs' := RemoveAt(objs, k); var j := if i < k then i else i + 1;
            objs'[i] == objs[j] && Node(objs', i) == Node(objs, j)
            && Node(objs', i + 1) == (if i + 1 < k then Node(objs, i + 1) else Node(objs, i + 2))
  {}

  class Page {
    const start: int
    var first: int // headnode.next
    var headers: map<int, AllocatedNode>
    ghost var objs: seq<Obj>

    ghost predicate Valid()
      reads this
    {
      Laid(start, objs) && Threaded(first, headers, objs)
    }

    // pagenode_init: an empty list between the two end nodes.
    constructor (start: int)
      requires 0 < start && start % PAGESIZE == 0
      ensures this.start == start && objs == [] && Valid()
    {
      this.start := start;
      first := TAILNODE;
      headers := map[];
      objs := [];
    }

    // The record at a list address; the end nodes are those set up by pagenode_init.
    function At(node: int): AllocatedNode
      requires node == HEADNODE || node == TAILNODE || node in headers
      reads this
    {
      if node == HEADNODE then AllocatedNode(start, start, first)
      else if node == TAILNODE then
        AllocatedNode(start + PAGESIZE + HEADER, start + PAGESIZE + HEADER, NULLPTR)
      else headers[node]
    }

    method SetNext(node: int, next: int)
      requires node == HEADNODE || node in headers
      modifies this`first, this`headers
      ensures node == HEADNODE ==> first == next && headers == old(headers)
      ensures node != HEADNODE ==> first == old(first) && headers == old(headers)[node := old(headers[node]).(next := next)]
    {
      if node == HEADNODE { first := next; } else { headers := headers[node := headers[node].(next := next)]; }
    }

    // The node before list position k, as the scan's prior pointer holds it.
    ghost function Prior(k: nat): int
      reads this
    {
      if k == 0 then HEADNODE else Node(objs, k - 1)
    }

    // The lowest size-aligned slot whose header and data fit a gap, or NULLPTR.
    method PagenodeDelivery(realsize: int) returns (ret: int, ghost at: nat)
      requires Valid()
      requires 1 <= realsize < PAGESIZE
      modifies this
      ensures Valid()
      ensures ret == NULLPTR ==> objs == old(objs) && forall a :: !FitsPage(start, old(objs), realsize, a)
      ensures ret != NULLPTR ==> FitsGap(start, old(objs), realsize, ret, at)
      ensures ret != NULLPTR ==> forall a :: FitsPage(start, old(objs), realsize, a) ==> ret <= a
      ensures ret != NULLPTR ==> objs == InsertObj(old(objs), at, Obj(ret, ret + realsize))
    {
      hide Laid, FitsGap, FitsPage, RoundUp, HasRoom;
      NodesNotNull();
      ret, at := NULLPTR, 0;
      var prior := HEADNODE;
      var node := At(prior).next;
      while node != NULLPTR
        invariant Valid() && objs == old(objs)
        invariant at <= |objs| + 1
        invariant at <= |objs| ==> prior == Prior(at) && node == Node(objs, at)
        invariant at <= |objs| ==> node != NULLPTR
        invariant at == |objs| + 1 ==> node == NULLPTR
        invariant forall a, j: nat :: j < at ==> !FitsGap(start, objs, realsize, a, j)
        decreases |objs| + 1 - at
      {
        GapTest(start, objs, realsize, at);
        GapAt(at, prior, node);
        if HasRoom(At(prior).endptr, At(node).startptr, realsize) {
          ret := RoundUp(At(prior).endptr + HEADER, realsize);
          SlotPositive(start, objs, realsize, ret, at);
          LowestSlot(start, objs, realsize, ret, at);
          Link(prior, node, ret, realsize, at);
          return;
        }
        prior := node;
        node := At(node).next;
        at := at + 1;
      }
      NoSlot(start, objs, realsize);
    }

    lemma NodesNotNull()
      requires Valid()
      ensures forall k: nat :: Node(objs, k) != NULLPTR
    {
      forall k: nat ensures Node(objs, k) != NULLPTR {
        if k < |objs| { ObjsClimb(start, objs, k, k); }
      }
    }

    method PagenodeReceive(objptr: int) returns (ret: int, ghost at: nat)
      requires Valid()
      requires objptr < start + PAGESIZE
      modifies this
      ensures Valid()
      ensures ret == 0 || ret == 1
      ensures ret == 0 ==> objs == old(objs) && forall o :: o in old(objs) ==> o.start != objptr
      ensures ret == 1 ==> at < |old(objs)| && old(objs)[at].start == objptr && objs == RemoveAt(old(objs), at)
    {
      hide Laid;
      NodesNotNull();
      ret, at := 0, 0;
      var prior := HEADNODE;
      var node := At(prior).next;
      while node != NULLPTR
        invariant Valid() && objs == old(objs)
        invariant at <= |objs| + 1
        invariant at <= |objs| ==> prior == Prior(at) && node == Node(objs, at)
        invariant at <= |objs| ==> node != NULLPTR
        invariant at == |objs| + 1 ==> node == NULLPTR
        invariant forall j: nat :: j < at && j < |objs| ==> objs[j].start != objptr
        decreases |objs| + 1 - at
      {
        GapAt(at, prior, node);
        if At(node).startptr == objptr {
          Unlink(prior, node, at);
          return 1, at;
        }
        prior := node;
        node := At(node).next;
        at := at + 1;
      }
    }

    method Unlink(prior: int, node: int, ghost at: nat)
      requires Valid() && at < |objs|
      requires prior == Prior(at) && node == Node(objs, at)
      modifies this
      ensures Valid()
      ensures objs == RemoveAt(old(objs), at)
    {
      hide Laid, Threaded, RemoveAt;
      GapAt(at, prior, node);
      SetNext(prior, At(node).next);
      RemoveThreaded(old(first), old(headers), first, headers, start, objs, at);
      RemoveLaid(start, objs, at);
      objs := RemoveAt(objs, at);
    }

    // The two ends of the gap the scan looks at.
    lemma GapAt(k: nat, prior: int, node: int)
      requires Valid() && k <= |objs| && prior == Prior(k) && node == Node(objs, k)
      ensures prior == HEADNODE || prior in headers
      ensures node == TAILNODE || node in headers
      ensures At(prior).endptr == GapStart(start, objs, k)
      ensures At(node).startptr - HEADER == GapEnd(start, objs, k)
      ensures node != NULLPTR && prior != TAILNODE
      ensures prior == HEADNODE <==> k == 0
      ensures At(node).startptr == if k < |objs| then objs[k].start else start + PAGESIZE + HEADER
      ensures At(node).next == if k < |objs| then Node(objs, k + 1) else NULLPTR
    {
      if k > 0 { ObjsClimb(start, objs, k - 1, k - 1); }
      if k < |objs| { ObjsClimb(start, objs, k, k); }
    }

    method Link(prior: int, node: int, slot: int, realsize: int, ghost at: nat)
      requires Valid() && FitsGap(start, objs, realsize, slot, at)
      requires prior == Prior(at) && node == Node(objs, at)
      modifies this
      ensures Valid()
      ensures objs == InsertObj(old(objs), at, Obj(slot, slot + realsize))
    {
      hide Laid, Threaded, InsertObj, FitsGap;
      GapIndexBound(start, objs, realsize, slot, at);
      GapAt(at, prior, node);
      SetNext(prior, slot - HEADER);
      headers := headers[slot - HEADER := AllocatedNode(slot, slot + realsize, node)];
      InsertThreaded(old(first), old(headers), first, headers, start, objs, realsize, slot, at);
      InsertLaid(start, objs, realsize, slot, at);
      objs := InsertObj(objs, at, Obj(slot, slot + realsize));
    }

    // The list is empty exactly when the head node links to the tail node.
    lemma Emptied()
      requires Valid() && first == TAILNODE
      ensures objs == []
    {
      if objs != [] { ObjsClimb(start, objs, 0, 0); }
    }

    lemma NotEmptied()
      requires Valid() && objs != []
      ensures first != TAILNODE
    {
      ObjsClimb(start, objs, 0, 0);
    }

    lemma NotEmptyBy()
      requires Valid() && first != TAILNODE
      ensures objs != []
    {}
  }
}
