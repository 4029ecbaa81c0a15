// The CPU pools as lists of blocks threaded through the shared node array, and who holds
// each page node: the server's list, one block of one pool, or nobody at all.
module PoolLists {
  import opened Lists
  import opened FreeSet
  import opened MemServer

  // Dropped(b): the node belongs to a freed block, headed by b, that is in no list.
  datatype Holder = ByServer | ByPool(cpu: nat, block: int) | Dropped(block: int)

  function Len(node: PageNode): int { Max(node.combpage, 1) }

  function Head(list: seq<int>, k: nat): int { if k < |list| then list[k] else NULL }

  // The k-th block of CPU c's list: its chain, its holder, and the link to the next block.
  ghost predicate PoolBlock(ns: seq<PageNode>, holder: seq<Holder>, c: nat, list: seq<int>, k: nat) {
    && k < |list| && |ns| == |holder|
    && var b := list[k];
    && 0 <= b < |ns| && ns[b].combpage >= 0
    && Block(ns, b, Len(ns[b]))
    && ns[b + Len(ns[b]) - 1].next == Head(list, k + 1)
    && forall i :: b <= i < b + Len(ns[b]) ==> holder[i] == ByPool(c, b) && ns[i].own == 1
  }

  // The node's holder is consistent with the lists.
  ghost predicate Placed(ns: seq<PageNode>, free: seq<bool>, lists: seq<seq<int>>, holder: seq<Holder>, i: nat) {
    && |ns| == |free| == |holder| && i < |ns|
    && (free[i] <==> holder[i].ByServer?)
    && (holder[i].ByPool? ==>
          var c, b := holder[i].cpu, holder[i].block;
          c < |lists| && b in lists[c] && 0 <= b <= i && b < |ns| && i < b + Len(ns[b]))
    && (holder[i].Dropped? ==>
          && 0 <= holder[i].block < |ns| && holder[holder[i].block] == holder[i]
          && (ns[i].next == NULL || (0 <= ns[i].next < |ns| && holder[ns[i].next] == holder[i])))
  }

  // Every node is in exactly one place, and the pools' lists are well formed.
  ghost predicate Pools(ns: seq<PageNode>, free: seq<bool>, pool: seq<int>, lists: seq<seq<int>>, holder: seq<Holder>) {
    && |ns| == |free| == |holder| && |pool| == |lists|
    && (forall i: nat {:trigger holder[i]} :: i < |ns| ==> Placed(ns, free, lists, holder, i))
    && (forall c {:trigger lists[c]} :: 0 <= c < |lists| ==> pool[c] == Head(lists[c], 0) && Distinct(lists[c]))
    && forall c: nat, k: nat {:trigger lists[c][k]} :: c < |lists| && k < |lists[c]| ==> PoolBlock(ns, holder, c, lists[c], k)
  }

  // The nodes of a block just put at the front of a pool's list.
  ghost predicate Fronted(ns: seq<PageNode>, s: int, n: int, combpage: int, next: int) {
    && 0 <= s && 1 <= n && s + n <= |ns|
    && forall i :: s <= i < s + n ==>
         ns[i] == PageNode(1, if i == s && combpage == 0 then 0 else s + n - i, if i == s + n - 1 then next else i + 1)
  }

  // A block of another place keeps its nodes and stays a pool block.
  lemma BlockKept(ns: seq<PageNode>, ns': seq<PageNode>, holder: seq<Holder>, holder': seq<Holder>, c: nat, list: seq<int>, k: nat)
    requires PoolBlock(ns, holder, c, list, k) && |ns'| == |ns| == |holder'|
    requires forall i :: list[k] <= i < list[k] + Len(ns[list[k]]) ==> ns'[i] == ns[i] && holder'[i] == holder[i]
    ensures PoolBlock(ns', holder', c, list, k)
  {
    assert ns'[list[k]] == ns[list[k]];
  }

  lemma PushBlock(ns: seq<PageNode>, ns': seq<PageNode>, free: seq<bool>, pool: seq<int>, lists: seq<seq<int>>, holder: seq<Holder>,
                  c: nat, s: int, n: int, combpage: int)
    requires Pools(ns, free, pool, lists, holder) && c < |lists| && |ns'| == |ns|
    requires n == Max(1, combpage) && combpage >= 0
    requires Fronted(ns', s, n, combpage, pool[c])
    requires forall i :: s <= i < s + n ==> free[i]
    requires forall i :: 0 <= i < |ns| && !free[i] ==> ns'[i] == ns[i]
    ensures Pools(ns', Mark(free, s, n, false), pool[c := s], lists[c := [s] + lists[c]], Mark(holder, s, n, ByPool(c, s)))
  {
    var free', holder' := Mark(free, s, n, false), Mark(holder, s, n, ByPool(c, s));
    var lists' := lists[c := [s] + lists[c]];
    assert Placed(ns, free, lists, holder, s) by { assert holder[s] == holder[s]; }
    forall i: nat | i < |ns| ensures Placed(ns', free', lists', holder', i) {
      assert Placed(ns, free, lists, holder, i) by { assert holder[i] == holder[i]; }
      if s <= i < s + n {
        assert ([s] + lists[c])[0] == s;
      } else if holder[i].ByPool? {
        var b := holder[i].block;
        PoolBlockAt(ns, free, pool, lists, holder, i);
        assert holder[b] == holder[i];
        assert Placed(ns, free, lists, holder, b);
        assert ns'[b] == ns[b];
        assert b in lists[holder[i].cpu] ==> b in lists'[holder[i].cpu];
      } else if holder[i].Dropped? {
        var b := holder[i].block;
        assert Placed(ns, free, lists, holder, b);
        assert ns'[i] == ns[i];
        if ns[i].next != NULL { assert Placed(ns, free, lists, holder, ns[i].next); }
      }
    }
    forall d: nat, k: nat | d < |lists'| && k < |lists'[d]| ensures PoolBlock(ns', holder', d, lists'[d], k) {
      PushedBlock(ns, ns', free, pool, lists, holder, c, s, n, combpage, d, k);
    }
    forall d | 0 <= d < |lists'| ensures pool[c := s][d] == Head(lists'[d], 0) && Distinct(lists'[d]) {
      if d == c { PushDistinct(ns, free, pool, lists, holder, c, s); }
    }
  }

  // The pool block a held node lies in.
  lemma PoolBlockAt(ns: seq<PageNode>, free: seq<bool>, pool: seq<int>, lists: seq<seq<int>>, holder: seq<Holder>, i: nat)
    requires Pools(ns, free, pool, lists, holder) && i < |ns| && holder[i].ByPool?
    ensures var c, b := holder[i].cpu, holder[i].block;
            && c < |lists| && 0 <= b <= i && i < b + Len(ns[b])
            && (exists k: nat :: k < |lists[c]| && lists[c][k] == b && PoolBlock(ns, holder, c, lists[c], k))
            && b < |ns| && holder[b] == holder[i]
  {
    assert Placed(ns, free, lists, holder, i);
    var c, b := holder[i].cpu, holder[i].block;
    var k :| 0 <= k < |lists[c]| && lists[c][k] == b;
    assert PoolBlock(ns, holder, c, lists[c], k);
  }

  lemma PushedBlock(ns: seq<PageNode>, ns': seq<PageNode>, free: seq<bool>, pool: seq<int>, lists: seq<seq<int>>, holder: seq<Holder>,
                    c: nat, s: int, n: int, combpage: int, d: nat, k: nat)
    requires Pools(ns, free, pool, lists, holder) && c < |lists| && |ns'| == |ns|
    requires n == Max(1, combpage) && combpage >= 0
    requires Fronted(ns', s, n, combpage, pool[c])
    requires forall i :: s <= i < s + n ==> free[i]
    requires forall i :: 0 <= i < |ns| && !free[i] ==> ns'[i] == ns[i]
    requires d < |lists| && k < |lists[c := [s] + lists[c]][d]|
    ensures PoolBlock(ns', Mark(holder, s, n, ByPool(c, s)), d, lists[c := [s] + lists[c]][d], k)
  {
    if d == c && k == 0 {
      FrontBlock(ns', Mark(holder, s, n, ByPool(c, s)), c, lists[c], s, n, combpage) by {
        assert pool[c] == Head(lists[c], 0);
      }
    } else {
      var j := if d == c then k - 1 else k;
      assert PoolBlock(ns, holder, d, lists[d], j) by { assert lists[d][j] == lists[d][j]; }
      OldBlockKept(ns, ns', free, pool, lists, holder, c, s, n, d, j);
      if d == c { ShiftedBlock(ns', Mark(holder, s, n, ByPool(c, s)), d, lists[d], j, s); }
    }
  }

  lemma FrontBlock(ns: seq<PageNode>, holder: seq<Holder>, c: nat, list: seq<int>, s: int, n: int, combpage: int)
    requires n == Max(1, combpage) && combpage >= 0 && |holder| == |ns|
    requires Fronted(ns, s, n, combpage, Head(list, 0))
    requires forall i :: s <= i < s + n ==> holder[i] == ByPool(c, s)
    ensures PoolBlock(ns, holder, c, [s] + list, 0)
  {
    assert ns[s].combpage == if combpage == 0 then 0 else n;
    assert Head([s] + list, 1) == Head(list, 0);
  }

  lemma ShiftedBlock(ns: seq<PageNode>, holder: seq<Holder>, c: nat, list: seq<int>, k: nat, s: int)
    requires PoolBlock(ns, holder, c, list, k)
    ensures PoolBlock(ns, holder, c, [s] + list, k + 1)
  {
    assert ([s] + list)[k + 1] == list[k];
    assert Head([s] + list, k + 2) == Head(list, k + 1);
  }

  lemma OldBlockKept(ns: seq<PageNode>, ns': seq<PageNode>, free: seq<bool>, pool: seq<int>, lists: seq<seq<int>>, holder: seq<Holder>,
                     c: nat, s: int, n: int, d: nat, j: nat)
    requires Pools(ns, free, pool, lists, holder) && |ns'| == |ns|
    requires 0 <= s && 1 <= n && s + n <= |ns|
    requires forall i :: s <= i < s + n ==> free[i]
    requires forall i :: 0 <= i < |ns| && !free[i] ==> ns'[i] == ns[i]
    requires d < |lists| && j < |lists[d]| && PoolBlock(ns, holder, d, lists[d], j)
    ensures PoolBlock(ns', Mark(holder, s, n, ByPool(c, s)), d, lists[d], j)
  {
    var b := lists[d][j];
    forall i | b <= i < b + Len(ns[b])
      ensures ns'[i] == ns[i] && Mark(holder, s, n, ByPool(c, s))[i] == holder[i]
    {
      assert Placed(ns, free, lists, holder, i) by { assert holder[i] == ByPool(d, b); }
    }
    BlockKept(ns, ns', holder, Mark(holder, s, n, ByPool(c, s)), d, lists[d], j);
  }

  lemma PushDistinct(ns: seq<PageNode>, free: seq<bool>, pool: seq<int>, lists: seq<seq<int>>, holder: seq<Holder>, c: nat, s: int)
    requires Pools(ns, free, pool, lists, holder) && c < |lists|
    requires 0 <= s < |free| && free[s]
    ensures Distinct([s] + lists[c])
  {
    assert Placed(ns, free, lists, holder, s) by { assert holder[s] == holder[s]; }
    assert Distinct(lists[c]);
    forall k | 0 <= k < |lists[c]| ensures lists[c][k] != s {
      assert PoolBlock(ns, holder, c, lists[c], k);
    }
  }

  // The node array after the k-th block of a list was picked out and disowned.
  ghost predicate PickedOut(ns: seq<PageNode>, ns': seq<PageNode>, list: seq<int>, k: nat) {
    && k < |list| && |ns'| == |ns|
    && 0 <= list[k] < |ns| && (k > 0 ==> 0 <= list[k - 1] < |ns|)
    && var b := list[k]; var last := b + Len(ns[b]) - 1;
    && last < |ns|
    && forall i {:trigger ns'[i]} :: 0 <= i < |ns| ==>
         ns'[i] == if b <= i <= last then PageNode(0, ns[i].combpage, if i == last then NULL else i + 1)
                   else if k > 0 && i == list[k - 1] + Len(ns[list[k - 1]]) - 1 then ns[i].(next := ns[last].next)
                   else ns[i]
  }

  // Two blocks of the pools do not share a node.
  lemma BlocksApart(ns: seq<PageNode>, holder: seq<Holder>, c: nat, list: seq<int>, k: nat, d: nat, list': seq<int>, j: nat, i: int)
    requires PoolBlock(ns, holder, c, list, k) && PoolBlock(ns, holder, d, list', j)
    requires c != d || list[k] != list'[j]
    requires list[k] <= i < list[k] + Len(ns[list[k]])
    ensures !(list'[j] <= i < list'[j] + Len(ns[list'[j]]))
  {
    assert holder[i] == ByPool(c, list[k]);
  }

  lemma OtherBlockPicked(ns: seq<PageNode>, ns': seq<PageNode>, free: seq<bool>, pool: seq<int>, lists: seq<seq<int>>, holder: seq<Holder>,
                         c: nat, k: nat, d: nat, j: nat)
    requires Pools(ns, free, pool, lists, holder) && c < |lists| && k < |lists[c]| && PickedOut(ns, ns', lists[c], k)
    requires d < |lists| && j < |lists[d]| && (d == c ==> j != k)
    ensures var b := lists[c][k]; 0 <= b && b + Len(ns[b]) <= |ns| && |holder| == |ns|
    ensures var b := lists[c][k]; var holder' := Mark(holder, b, Len(ns[b]), Dropped(b));
            var list' := if d == c then RemoveAt(lists[c], k) else lists[d];
            PoolBlock(ns', holder', d, list', if d == c && j > k then j - 1 else j)
  {
    hide Block, Distinct, Pools, PoolBlock;
    var list := lists[c];
    var b := list[k];
    BlockIn(ns, free, pool, lists, holder, c, k);
    BlockIn(ns, free, pool, lists, holder, d, j);
    if d == c { DistinctAt(ns, free, pool, lists, holder, c, j, k); }
    var a := lists[d][j];
    var holder' := Mark(holder, b, Len(ns[b]), Dropped(b));
    var list' := if d == c then RemoveAt(list, k) else lists[d];
    var j' := if d == c && j > k then j - 1 else j;
    forall i | a <= i < a + Len(ns[a])
      ensures ns'[i] == if d == c && j + 1 == k && i == a + Len(ns[a]) - 1 then ns[i].(next := Head(list, k + 1)) else ns[i]
      ensures holder'[i] == holder[i]
    {
      BlocksApart(ns, holder, d, lists[d], j, c, list, k, i);
      if k > 0 && (d != c || j != k - 1) {
        BlockIn(ns, free, pool, lists, holder, c, k - 1);
        if d == c { DistinctAt(ns, free, pool, lists, holder, c, j, k - 1); }
        BlocksApart(ns, holder, d, lists[d], j, c, list, k - 1, i);
      }
    }
    if d == c { RemovedLinks(list, k, j); }
    PickedBlock(ns, ns', holder, holder', d, lists[d], j, list', j');
  }

  lemma RemovedLinks(list: seq<int>, k: nat, j: nat)
    requires k < |list| && j < |list| && j != k
    ensures var j' := if j > k then j - 1 else j;
            RemoveAt(list, k)[j'] == list[j]
            && Head(RemoveAt(list, k), j' + 1) == if j + 1 == k then Head(list, k + 1) else Head(list, j + 1)
  {}

  lemma BlockIn(ns: seq<PageNode>, free: seq<bool>, pool: seq<int>, lists: seq<seq<int>>, holder: seq<Holder>, c: nat, k: nat)
    requires Pools(ns, free, pool, lists, holder) && c < |lists| && k < |lists[c]|
    ensures |ns| == |holder| == |free|
    ensures PoolBlock(ns, holder, c, lists[c], k)
    ensures var b := lists[c][k];
            && 0 <= b && b + Len(ns[b]) <= |ns| && 1 <= Len(ns[b])
            && ns[b + Len(ns[b]) - 1].next == Head(lists[c], k + 1)
  {
    assert lists[c][k] == lists[c][k];
  }

  lemma DistinctAt(ns: seq<PageNode>, free: seq<bool>, pool: seq<int>, lists: seq<seq<int>>, holder: seq<Holder>, c: nat, i: nat, j: nat)
    requires Pools(ns, free, pool, lists, holder) && c < |lists| && i < |lists[c]| && j < |lists[c]| && i != j
    ensures lists[c][i] != lists[c][j]
  {
    assert Distinct(lists[c]);
  }

  // A block whose nodes are unchanged except possibly the link of its last node.
  lemma PickedBlock(ns: seq<PageNode>, ns': seq<PageNode>, holder: seq<Holder>, holder': seq<Holder>, d: nat,
                    list: seq<int>, j: nat, list': seq<int>, j': nat)
    requires PoolBlock(ns, holder, d, list, j) && |ns'| == |ns| == |holder'|
    requires j' < |list'| && list'[j'] == list[j]
    requires var a := list[j]; var last := a + Len(ns[a]) - 1;
             && (forall i :: a <= i < last ==> ns'[i] == ns[i])
             && ns'[last] == ns[last].(next := Head(list', j' + 1))
             && forall i :: a <= i <= last ==> holder'[i] == holder[i]
    ensures PoolBlock(ns', holder', d, list', j')
  {
    var a := list[j];
    assert ns'[a].combpage == ns[a].combpage;
  }

  ghost function Picked(ns: seq<PageNode>, lists: seq<seq<int>>, holder: seq<Holder>, c: nat, k: nat): seq<Holder>
    requires c < |lists| && k < |lists[c]|
    requires var b := lists[c][k]; 0 <= b < |ns| && b + Len(ns[b]) <= |holder|
  {
    var b := lists[c][k];
    Mark(holder, b, Len(ns[b]), Dropped(b))
  }

  // A block picked out of its list is held by nobody, and the lists stay well formed.
  lemma PickPools(ns: seq<PageNode>, ns': seq<PageNode>, free: seq<bool>, pool: seq<int>, lists: seq<seq<int>>, holder: seq<Holder>,
                  c: nat, k: nat)
    requires Pools(ns, free, pool, lists, holder) && c < |lists| && k < |lists[c]| && PickedOut(ns, ns', lists[c], k)
    ensures var b := lists[c][k]; 0 <= b && b + Len(ns[b]) <= |ns| && |holder| == |ns| && |pool| == |lists|
    ensures var b := lists[c][k]; var last := b + Len(ns[b]) - 1;
            Pools(ns', free, if k == 0 then pool[c := ns[last].next] else pool, lists[c := RemoveAt(lists[c], k)],
                  Picked(ns, lists, holder, c, k))
  {
    hide PoolBlock, Placed;
    BlockIn(ns, free, pool, lists, holder, c, k);
    var b := lists[c][k];
    var last := b + Len(ns[b]) - 1;
    var holder', lists' := Picked(ns, lists, holder, c, k), lists[c := RemoveAt(lists[c], k)];
    forall i: nat | i < |ns| ensures Placed(ns', free, lists', holder', i) {
      PickPlaced(ns, ns', free, pool, lists, holder, c, k, i);
    }
    forall d: nat, j: nat | d < |lists'| && j < |lists'[d]| ensures PoolBlock(ns', holder', d, lists'[d], j) {
      var j0 := if d == c && j >= k then j + 1 else j;
      OtherBlockPicked(ns, ns', free, pool, lists, holder, c, k, d, j0);
    }
    forall d | 0 <= d < |lists'|
      ensures (if k == 0 then pool[c := ns[last].next] else pool)[d] == Head(lists'[d], 0) && Distinct(lists'[d])
    {
      assert pool[d] == Head(lists[d], 0) && Distinct(lists[d]);
      if d == c { RemovedKeeps(lists[c], k); }
    }
  }

  lemma RemovedKeeps(list: seq<int>, k: nat)
    requires k < |list| && Distinct(list)
    ensures Distinct(RemoveAt(list, k))
    ensures Head(RemoveAt(list, k), 0) == if k == 0 then Head(list, 1) else Head(list, 0)
    ensures forall b :: b in list && b != list[k] ==> b in RemoveAt(list, k)
  {
    RemoveAtDistinct(list, k);
  }

  lemma PlacedAt(ns: seq<PageNode>, free: seq<bool>, pool: seq<int>, lists: seq<seq<int>>, holder: seq<Holder>, i: nat)
    requires Pools(ns, free, pool, lists, holder) && i < |ns|
    ensures Placed(ns, free, lists, holder, i)
  {
    assert holder[i] == holder[i];
  }

  lemma PickPlaced(ns: seq<PageNode>, ns': seq<PageNode>, free: seq<bool>, pool: seq<int>, lists: seq<seq<int>>, holder: seq<Holder>,
                   c: nat, k: nat, i: nat)
    requires Pools(ns, free, pool, lists, holder) && c < |lists| && k < |lists[c]| && PickedOut(ns, ns', lists[c], k)
    requires i < |ns|
    requires var b := lists[c][k]; b + Len(ns[b]) <= |ns| && |holder| == |ns| == |free|
    ensures Placed(ns', free, lists[c := RemoveAt(lists[c], k)], Picked(ns, lists, holder, c, k), i)
  {
    hide Pools, Distinct, Block, RemoveAt;
    var b := lists[c][k];
    var holder', lists' := Picked(ns, lists, holder, c, k), lists[c := RemoveAt(lists[c], k)];
    BlockIn(ns, free, pool, lists, holder, c, k);
    PlacedAt(ns, free, pool, lists, holder, i);
    if b <= i < b + Len(ns[b]) {
      assert holder[i] == ByPool(c, b);
    } else if holder[i].ByPool? {
      var d, a := holder[i].cpu, holder[i].block;
      PoolBlockAt(ns, free, pool, lists, holder, i);
      PlacedAt(ns, free, pool, lists, holder, a);
      assert holder[i] != ByPool(c, b);
      if d == c { ListDistinct(ns, free, pool, lists, holder, c); RemovedKeeps(lists[c], k); }
      assert ns'[a].combpage == ns[a].combpage;
    } else if holder[i].Dropped? {
      assert holder[b] == ByPool(c, b);
      UntouchedDropped(ns, ns', free, pool, lists, holder, c, k, i);
      assert ns'[i] == ns[i];
    }
  }

  lemma ListDistinct(ns: seq<PageNode>, free: seq<bool>, pool: seq<int>, lists: seq<seq<int>>, holder: seq<Holder>, c: nat)
    requires Pools(ns, free, pool, lists, holder) && c < |lists|
    ensures Distinct(lists[c])
  {
    assert lists[c] == lists[c];
  }

  lemma UntouchedDropped(ns: seq<PageNode>, ns': seq<PageNode>, free: seq<bool>, pool: seq<int>, lists: seq<seq<int>>, holder: seq<Holder>,
                         c: nat, k: nat, i: nat)
    requires Pools(ns, free, pool, lists, holder) && c < |lists| && k < |lists[c]| && PickedOut(ns, ns', lists[c], k)
    requires i < |ns| == |holder| && !holder[i].ByPool?
    ensures ns'[i] == ns[i]
  {
    BlockIn(ns, free, pool, lists, holder, c, k);
    if k > 0 { BlockIn(ns, free, pool, lists, holder, c, k - 1); }
  }

  lemma PoolsSizes(ns: seq<PageNode>, free: seq<bool>, pool: seq<int>, lists: seq<seq<int>>, holder: seq<Holder>)
    requires Pools(ns, free, pool, lists, holder)
    ensures |ns| == |free| == |holder| && |pool| == |lists|
  {}

  // Held and dropped nodes never link to a free node.
  lemma PoolsDetached(ns: seq<PageNode>, free: seq<bool>, pool: seq<int>, lists: seq<seq<int>>, holder: seq<Holder>)
    requires Pools(ns, free, pool, lists, holder)
    ensures Detached(ns, free)
  {
    hide Pools, Distinct;
    PoolsSizes(ns, free, pool, lists, holder);
    forall i | 0 <= i < |ns| && !free[i]
      ensures ns[i].next == NULL || (0 <= ns[i].next < |ns| && !free[ns[i].next])
    {
      PlacedAt(ns, free, pool, lists, holder, i);
      if holder[i].ByPool? { PoolNext(ns, free, pool, lists, holder, i); }
      if ns[i].next != NULL { PlacedAt(ns, free, pool, lists, holder, ns[i].next); }
    }
  }

  // Writing nodes the server does not hold leaves its structure alone.
  lemma HeldWrites(ns: seq<PageNode>, ns': seq<PageNode>, pages: int, free: seq<bool>)
    requires Canonical(ns, pages, free) && |ns'| == |ns|
    requires forall i :: 0 <= i < |ns| && free[i] ==> ns'[i] == ns[i]
    ensures Canonical(ns', pages, free)
  {
    forall i | 0 <= i < |ns| && free[i]
      ensures ns'[i] == PageNode(0, RunLen(free, i), NextFree(free, i + 1))
    {
      assert ns'[i] == ns[i];
    }
  }

  // Only its own chain points into a block that was picked out.
  lemma DroppedReturnable(ns: seq<PageNode>, free: seq<bool>, pool: seq<int>, lists: seq<seq<int>>, holder: seq<Holder>, b: int, len: int)
    requires Pools(ns, free, pool, lists, holder)
    requires Block(ns, b, len) && ns[b + len - 1].next == NULL
    requires forall i :: 0 <= i < |ns| ==> (holder[i] == Dropped(b) <==> b <= i < b + len)
    ensures Returnable(ns, free, b, len)
  {
    hide Pools, Distinct;
    PoolsSizes(ns, free, pool, lists, holder);
    forall i | b <= i < b + len ensures !free[i] {
      PlacedAt(ns, free, pool, lists, holder, i);
    }
    forall i | 0 <= i < |ns| && !free[i] && b <= ns[i].next < b + len ensures b <= i < b + len - 1 {
      PlacedAt(ns, free, pool, lists, holder, i);
      var n := ns[i].next;
      assert holder[n] == Dropped(b);
      if holder[i].ByPool? {
        PoolNext(ns, free, pool, lists, holder, i);
        assert false;
      }
    }
  }

  // The successor of a held node is held by a pool, if there is one.
  lemma PoolNext(ns: seq<PageNode>, free: seq<bool>, pool: seq<int>, lists: seq<seq<int>>, holder: seq<Holder>, i: nat)
    requires Pools(ns, free, pool, lists, holder) && i < |ns| == |holder| && holder[i].ByPool?
    ensures ns[i].next == NULL || (0 <= ns[i].next < |ns| && holder[ns[i].next].ByPool?)
  {
    hide Pools, Distinct;
    var c, b := holder[i].cpu, holder[i].block;
    PoolBlockAt(ns, free, pool, lists, holder, i);
    var k: nat :| k < |lists[c]| && lists[c][k] == b && PoolBlock(ns, holder, c, lists[c], k);
    if i == b + Len(ns[b]) - 1 {
      if k + 1 < |lists[c]| { BlockIn(ns, free, pool, lists, holder, c, k + 1); }
    } else {
      assert holder[i + 1] == ByPool(c, b);
    }
  }

  // The server took a dropped block back.
  lemma ReceivedPools(ns: seq<PageNode>, ns': seq<PageNode>, free: seq<bool>, pool: seq<int>, lists: seq<seq<int>>, holder: seq<Holder>,
                      b: int, len: int)
    requires Pools(ns, free, pool, lists, holder) && |ns'| == |ns|
    requires 0 <= b && 1 <= len && b + len <= |ns|
    requires forall i :: 0 <= i < |ns| ==> (holder[i] == Dropped(b) <==> b <= i < b + len)
    requires forall i :: 0 <= i < |ns| && !free[i] && !(b <= i < b + len) ==> ns'[i] == ns[i]
    ensures Pools(ns', Mark(free, b, len, true), pool, lists, Mark(holder, b, len, ByServer))
  {
    hide Distinct, Block;
    var free', holder' := Mark(free, b, len, true), Mark(holder, b, len, ByServer);
    forall i: nat | i < |ns| ensures Placed(ns', free', lists, holder', i) {
      PlacedAt(ns, free, pool, lists, holder, i);
      if holder[i].ByPool? {
        PoolBlockAt(ns, free, pool, lists, holder, i);
        PlacedAt(ns, free, pool, lists, holder, holder[i].block);
        assert ns'[holder[i].block] == ns[holder[i].block];
      } else if holder[i].Dropped? && holder[i] != Dropped(b) {
        assert ns'[i] == ns[i];
      }
    }
    forall c: nat, k: nat | c < |lists| && k < |lists[c]| ensures PoolBlock(ns', holder', c, lists[c], k) {
      BlockIn(ns, free, pool, lists, holder, c, k);
      var a := lists[c][k];
      forall i | a <= i < a + Len(ns[a]) ensures ns'[i] == ns[i] && holder'[i] == holder[i] {
        assert holder[i] == ByPool(c, a);
        PlacedAt(ns, free, pool, lists, holder, i);
      }
      BlockKept(ns, ns', holder, holder', c, lists[c], k);
    }
  }

  // The block stays dropped; its first count was normalised.
  lemma StillDroppedPools(ns: seq<PageNode>, ns': seq<PageNode>, free: seq<bool>, pool: seq<int>, lists: seq<seq<int>>, holder: seq<Holder>,
                          b: int, count: int)
    requires Pools(ns, free, pool, lists, holder)
    requires 0 <= b < |ns| && holder[b].Dropped?
    requires ns' == ns[b := ns[b].(combpage := count)]
    ensures Pools(ns', free, pool, lists, holder)
  {
    hide Distinct, Block;
    forall i: nat | i < |ns| ensures Placed(ns', free, lists, holder, i) {
      PlacedAt(ns, free, pool, lists, holder, i);
      if holder[i].ByPool? { PoolBlockAt(ns, free, pool, lists, holder, i); }
    }
    forall c: nat, k: nat | c < |lists| && k < |lists[c]| ensures PoolBlock(ns', holder, c, lists[c], k) {
      BlockIn(ns, free, pool, lists, holder, c, k);
      BlockKept(ns, ns', holder, holder, c, lists[c], k);
    }
  }
}
