// What a run of the allocator did, request by request, and what became of every page.
module AllocTrace {
  import opened Arith
  import opened FreeSet
  import opened MemServer
  import opened PageAlloc
  import opened PoolLists
  import opened AllocState

  const MAX_REQUEST: int := 16 * 1024 * 1024

  // A request to the allocator: kalloc on some CPU, or kfree.
  datatype Op = Alloc(cpu: nat, size: nat) | Free(ptr: int)

  ghost predicate LiveAt(st: State, p: int) {
    exists s :: Live(st, p, s)
  }

  // kalloc's answer for a size it takes: an object of the rounded size in the CPU's own pool,
  // at the place the search order determines, or NULL exactly when there is no room for one.
  ghost predicate Answered(st: State, c: nat, realsize: int, ret: int, st': State) {
    if NoRoom(st, c, realsize) then ret == NULLPTR && st' == st
    else && ret != NULLPTR && Gains(st, st', ret, realsize) && 0 < realsize && ret % realsize == 0
         && Holds(st', c, ret) && Chosen(st, c, realsize, ret, st')
  }

  ghost predicate Allocated(st: State, c: nat, size: nat, ret: int, st': State) {
    if 0 < size <= MAX_REQUEST then
      exists realsize :: IsPow2(realsize) && size <= realsize < 2 * size && Answered(st, c, realsize, ret, st')
    else ret == NULLPTR && st' == st
  }

  // kfree's effect: a live object dies and its page is accounted for, or nothing changes.
  ghost predicate Freed(st: State, p: int, st': State) {
    if LiveAt(st, p) then Loses(st, st', p) && Accounted(st, st', p) else st' == st
  }

  ghost predicate Served(st: State, op: Op, ret: int, st': State) {
    && st'.base == st.base && |st'.ns| == |st.ns|
    && match op
       case Alloc(c, size) => Allocated(st, c, size, ret, st') && SameDropped(st, st')
       case Free(p) => Freed(st, p, st')
  }

  // trace holds the state before each request and the one after the last.
  ghost predicate Traced(ops: seq<Op>, rets: seq<int>, trace: seq<State>) {
    && |trace| == |ops| + 1 && |rets| == |ops|
    && (forall k {:trigger Good(trace[k])} :: 0 <= k < |trace| ==> Good(trace[k]))
    && forall k {:trigger ops[k]} :: 0 <= k < |ops| ==> Served(trace[k], ops[k], rets[k], trace[k + 1])
  }

  lemma TracedStep(ops: seq<Op>, rets: seq<int>, trace: seq<State>, op: Op, ret: int, st: State)
    requires Traced(ops, rets, trace) && Good(st) && Served(trace[|ops|], op, ret, st)
    ensures Traced(ops + [op], rets + [ret], trace + [st])
  {
    hide Served, Good;
  }

  // Freeing the live pointer p in this state loses page i: p's block is given back while some
  // page is free and none above the block is.
  ghost predicate LosesPage(st: State, p: int, i: int) {
    var b := Index(st.base, p);
    LiveAt(st, p) && EmptiesBlock(st, b) && !Relinks(st.free, b, 0) && b <= i < b + Len(st.ns[b])
  }

  // One of the first n requests lost page i.
  ghost predicate LostBy(ops: seq<Op>, trace: seq<State>, n: nat, i: int)
    requires n <= |ops| < |trace|
  {
    exists k :: 0 <= k < n && ops[k].Free? && LosesPage(trace[k], ops[k].ptr, i)
  }

  lemma ServedDropped(st: State, op: Op, ret: int, st': State, i: nat)
    requires Served(st, op, ret, st') && i < |st.holder|
    ensures |st'.holder| == |st.holder|
    ensures st'.holder[i].Dropped? <==> st.holder[i].Dropped? || (op.Free? && LosesPage(st, op.ptr, i))
  {
    hide Allocated, Relinks, Loses, LiveAt;
    match op
    case Alloc(_, _) =>
    case Free(p) =>
      if LiveAt(st, p) && EmptiesBlock(st, Index(st.base, p)) {
        assert Returned(st, st', Index(st.base, p), Len(st.ns[Index(st.base, p)]));
      }
  }

  // A page is dropped after n requests exactly when it was at first or one of them lost it.
  lemma {:induction false} DroppedOverRun(ops: seq<Op>, rets: seq<int>, trace: seq<State>, n: nat, i: nat)
    requires Traced(ops, rets, trace) && n <= |ops| && i < |trace[0].holder|
    ensures |trace[n].holder| == |trace[0].holder|
    ensures trace[n].holder[i].Dropped? <==> trace[0].holder[i].Dropped? || LostBy(ops, trace, n, i)
  {
    hide Served, LosesPage, Good;
    if n > 0 {
      DroppedOverRun(ops, rets, trace, n - 1, i);
      assert Served(trace[n - 1], ops[n - 1], rets[n - 1], trace[n]);
      ServedDropped(trace[n - 1], ops[n - 1], rets[n - 1], trace[n], i);
    }
  }
}
