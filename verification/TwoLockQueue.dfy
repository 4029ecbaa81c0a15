// The ready queue: a linked list with a dummy node and one lock at each end.  One thread
// at a time runs tasks_enqueue under the tail lock and one runs tasks_dequeue under the
// head lock; their single steps interleave freely.
module TwoLockQueue {

  const NULL: int := 0

  datatype QNode = QNode(task: int, next: int)

  // Where the holder of the tail lock is, between two of its steps.
  datatype Enqueuer =
    | EnqIdle
    | EnqLocked(task: int)
    | EnqAllocated(task: int, node: int)
    | EnqTaskSet(task: int, node: int)
    | EnqNextCleared(task: int, node: int)
    | EnqLinked(node: int)
    | EnqTailMoved

  // Where the holder of the head lock is.
  datatype Dequeuer =
    | DeqIdle
    | DeqLocked
    | DeqRead(newhead: int)
    | DeqGot(newhead: int, ret: int)
    | DeqFreed(newhead: int, ret: int)
    | DeqHeadMoved(ret: int)
    | DeqCleared(ret: int)

  // heap holds the nodes that are allocated.  chain is history the code does not keep: the
  // addresses of the nodes from the dummy to the last one linked in.
  datatype State = State(
    heap: map<int, QNode>, head: int, tail: int, enq: Enqueuer, deq: Dequeuer, chain: seq<int>)

  // A step of either thread.  arg is the task to queue or the address the allocator returns,
  // and junk what the memory at that address held.
  datatype Action = EnqStep(arg: int, junk: QNode) | DeqStep

  // NotNow: the step cannot be taken with this argument.  Fault: the step touched memory
  // that is not allocated, or an assertion of the code failed.
  datatype Outcome = Next(s: State) | NotNow | Fault

  function EnqNext(s: State, arg: int, junk: QNode): Outcome {
    match s.enq
    case EnqIdle =>
      if arg == NULL then NotNow else if s.tail == NULL then Fault else Next(s.(enq := EnqLocked(arg)))
    case EnqLocked(task) =>
      if arg == NULL || arg in s.heap then NotNow
      else Next(s.(heap := s.heap[arg := junk], enq := EnqAllocated(task, arg)))
    case EnqAllocated(task, n) =>
      if n !in s.heap then Fault
      else Next(s.(heap := s.heap[n := s.heap[n].(task := task)], enq := EnqTaskSet(task, n)))
    case EnqTaskSet(task, n) =>
      if n !in s.heap then Fault
      else Next(s.(heap := s.heap[n := s.heap[n].(next := NULL)], enq := EnqNextCleared(task, n)))
    case EnqNextCleared(task, n) =>
      if s.tail !in s.heap then Fault
      else Next(s.(heap := s.heap[s.tail := s.heap[s.tail].(next := n)], enq := EnqLinked(n),
                   chain := s.chain + [n]))
    case EnqLinked(n) =>
      Next(s.(tail := n, enq := EnqTailMoved))
    case EnqTailMoved =>
      if s.tail == NULL then Fault else Next(s.(enq := EnqIdle))
  }

  function DeqNext(s: State): Outcome {
    match s.deq
    case DeqIdle =>
      if s.head == NULL then Fault else Next(s.(deq := DeqLocked))
    case DeqLocked =>
      if s.head !in s.heap then Fault else Next(s.(deq := DeqRead(s.heap[s.head].next)))
    case DeqRead(n) =>
      if n == NULL then Next(s.(deq := DeqCleared(NULL)))
      else if n !in s.heap || s.heap[n].task == NULL then Fault
      else Next(s.(deq := DeqGot(n, s.heap[n].task)))
    case DeqGot(n, ret) =>
      if s.head !in s.heap then Fault
      else Next(s.(heap := s.heap - {s.head}, deq := DeqFreed(n, ret),
                   chain := if s.chain == [] then [] else s.chain[1..]))
    case DeqFreed(n, ret) =>
      Next(s.(head := n, deq := DeqHeadMoved(ret)))
    case DeqHeadMoved(ret) =>
      if s.head !in s.heap then Fault
      else Next(s.(heap := s.heap[s.head := s.heap[s.head].(task := NULL)], deq := DeqCleared(ret)))
    case DeqCleared(_) =>
      if s.head == NULL then Fault else Next(s.(deq := DeqIdle))
  }

  function Step(s: State, a: Action): Outcome {
    match a
    case EnqStep(arg, junk) => EnqNext(s, arg, junk)
    case DeqStep => DeqNext(s)
  }

  // tasks_init: one dummy node.
  function Init(dummy: int): State {
    State(map[dummy := QNode(NULL, NULL)], dummy, dummy, EnqIdle, DeqIdle, [dummy])
  }

  // What a step is to the queue's users.  Asked is the first step of tasks_enqueue, with its
  // argument, and Answered the last one of tasks_dequeue, with its result.  An enqueue takes
  // effect when the old tail is linked to the new node; a dequeue when the head moves, or,
  // when it finds nothing, when it reads the null link.
  datatype Event =
    | Silent
    | Asked(task: int)
    | Enqueued(task: int)
    | EnqDone
    | DeqAsked
    | Dequeued(task: int)
    | FoundEmpty
    | Answered(ret: int)

  function Effect(s: State, a: Action): Event {
    if !Step(s, a).Next? then Silent
    else match a
      case EnqStep(arg, _) =>
        if s.enq.EnqIdle? then Asked(arg)
        else if s.enq.EnqNextCleared? then Enqueued(TaskAt(s.heap, s.enq.node))
        else if s.enq.EnqTailMoved? then EnqDone
        else Silent
      case DeqStep =>
        if s.deq.DeqIdle? then DeqAsked
        else if s.deq.DeqFreed? then Dequeued(s.deq.ret)
        else if s.deq.DeqLocked? && s.heap[s.head].next == NULL then FoundEmpty
        else if s.deq.DeqCleared? then Answered(s.deq.ret)
        else Silent
  }

  // An atomic first-in first-out queue.
  datatype Queue = Queue(items: seq<int>) | Impossible

  function Atomic(q: seq<int>, e: Event): Queue {
    match e
    case Enqueued(t) => Queue(q + [t])
    case Dequeued(t) => if q != [] && q[0] == t then Queue(q[1..]) else Impossible
    case FoundEmpty => if q == [] then Queue(q) else Impossible
    case _ => Queue(q)
  }

  function Replay(q: seq<int>, es: seq<Event>): Queue
    decreases |es|
  {
    if es == [] then Queue(q)
    else match Atomic(q, es[0])
      case Queue(q') => Replay(q', es[1..])
      case Impossible => Impossible
  }

  // ---- Calls ------------------------------------------------------------------------------

  // The calls under way: an enqueue asked for and not yet in effect, or in effect and not yet
  // back; a dequeue with no outcome yet, or with the answer it must give.
  datatype EnqCall = NoEnq | EnqAsking(task: int) | EnqIn
  datatype DeqCall = NoDeq | DeqAsking | DeqOut(answer: int)
  datatype Calls = Calls(enq: EnqCall, deq: DeqCall) | Broken

  // The order of events in a call.  An enqueue takes effect once, with its argument; a dequeue
  // once, and it answers the task it took, or NULL if it found the queue empty.
  function Follow(c: Calls, e: Event): Calls
    requires c.Calls?
  {
    match e
    case Silent => c
    case Asked(t) => if c.enq == NoEnq && t != NULL then c.(enq := EnqAsking(t)) else Broken
    case Enqueued(t) => if c.enq == EnqAsking(t) then c.(enq := EnqIn) else Broken
    case EnqDone => if c.enq == EnqIn then c.(enq := NoEnq) else Broken
    case DeqAsked => if c.deq == NoDeq then c.(deq := DeqAsking) else Broken
    case Dequeued(t) => if c.deq == DeqAsking && t != NULL then c.(deq := DeqOut(t)) else Broken
    case FoundEmpty => if c.deq == DeqAsking then c.(deq := DeqOut(NULL)) else Broken
    case Answered(r) => if c.deq == DeqOut(r) then c.(deq := NoDeq) else Broken
  }

  function FollowAll(c: Calls, es: seq<Event>): Calls
    requires c.Calls?
    decreases |es|
  {
    if es == [] then c
    else if Follow(c, es[0]).Calls? then FollowAll(Follow(c, es[0]), es[1..])
    else Broken
  }

  // The calls under way in a state.
  function CallsOf(s: State): Calls {
    Calls(
      match s.enq
      case EnqIdle => NoEnq
      case EnqLocked(t) => EnqAsking(t)
      case EnqAllocated(t, _) => EnqAsking(t)
      case EnqTaskSet(t, _) => EnqAsking(t)
      case EnqNextCleared(t, _) => EnqAsking(t)
      case _ => EnqIn,
      match s.deq
      case DeqIdle => NoDeq
      case DeqRead(n) => if n == NULL then DeqOut(NULL) else DeqAsking
      case DeqHeadMoved(ret) => DeqOut(ret)
      case DeqCleared(ret) => DeqOut(ret)
      case _ => DeqAsking)
  }

  // ---- The invariant -------------------------------------------------------------------

  // The node the enqueuer has allocated and not yet linked in.
  function Pending(e: Enqueuer): set<int> {
    match e
    case EnqAllocated(_, n) => {n}
    case EnqTaskSet(_, n) => {n}
    case EnqNextCleared(_, n) => {n}
    case _ => {}
  }

  function Members(chain: seq<int>): (r: set<int>)
    ensures forall x :: x in r <==> x in chain
  {
    set x | x in chain
  }

  function Last(chain: seq<int>): int
    requires chain != []
  {
    chain[|chain| - 1]
  }

  // Each chain node links to the next one and, past the dummy, carries a task.
  ghost predicate Linked(heap: map<int, QNode>, chain: seq<int>, i: nat)
    requires i < |chain|
  {
    && chain[i] != NULL && chain[i] in heap
    && heap[chain[i]].next == (if i + 1 < |chain| then chain[i + 1] else NULL)
    && (i > 0 ==> heap[chain[i]].task != NULL)
  }

  ghost predicate Chained(heap: map<int, QNode>, chain: seq<int>) {
    && chain != []
    && (forall i, j :: 0 <= i < j < |chain| ==> chain[i] != chain[j])
    && (forall i: nat {:trigger chain[i]} :: i < |chain| ==> Linked(heap, chain, i))
  }

  // A node that is not part of the queue yet.
  ghost predicate Fresh(s: State, n: int) {
    n != NULL && n in s.heap && n !in s.chain
  }

  ghost predicate EnqOk(s: State) {
    && s.chain != []
    && (if s.enq.EnqLinked? then s.enq.node == Last(s.chain) else s.tail == Last(s.chain))
    && match s.enq
       case EnqLocked(task) => task != NULL
       case EnqAllocated(task, n) => task != NULL && Fresh(s, n)
       case EnqTaskSet(task, n) => task != NULL && Fresh(s, n) && s.heap[n].task == task
       case EnqNextCleared(task, n) => task != NULL && Fresh(s, n) && s.heap[n] == QNode(task, NULL)
       case _ => true
  }

  ghost predicate DeqOk(s: State) {
    && s.chain != []
    && (if s.deq.DeqFreed? then s.deq.newhead == s.chain[0] else s.head == s.chain[0])
    && (s.deq.DeqFreed? || s.deq.DeqHeadMoved? || TaskAt(s.heap, s.chain[0]) == NULL)
    && match s.deq
       case DeqRead(n) => n != NULL ==> |s.chain| >= 2 && s.chain[1] == n
       case DeqGot(n, ret) => ret != NULL && |s.chain| >= 2 && s.chain[1] == n && n in s.heap && s.heap[n].task == ret
       case DeqFreed(n, ret) => ret != NULL
       case DeqHeadMoved(ret) => ret != NULL
       case _ => true
  }

  // Memory holds the chain and the pending node, and nothing else: no node leaks and none is
  // freed twice.
  ghost predicate Inv(s: State) {
    && Chained(s.heap, s.chain) && EnqOk(s) && DeqOk(s)
    && s.heap.Keys == Members(s.chain) + Pending(s.enq)
  }

  function TaskAt(heap: map<int, QNode>, n: int): int {
    if n in heap then heap[n].task else NULL
  }

  // The tasks of the nodes past the dummy.
  function Tasks(heap: map<int, QNode>, chain: seq<int>): (r: seq<int>)
    requires chain != []
    ensures |r| == |chain| - 1
    ensures forall i :: 0 <= i < |r| ==> r[i] == TaskAt(heap, chain[i + 1])
  {
    seq(|chain| - 1, i requires 0 <= i < |chain| - 1 => TaskAt(heap, chain[i + 1]))
  }

  // The abstract queue.  A task is still in it after its old dummy is freed, until the head
  // has moved.
  function Contents(s: State): seq<int>
    requires s.chain != []
  {
    (if s.deq.DeqFreed? then [s.deq.ret] else []) + Tasks(s.heap, s.chain)
  }

  lemma InitInv(dummy: int)
    requires dummy != NULL
    ensures Inv(Init(dummy)) && Contents(Init(dummy)) == []
  {
    assert Linked(Init(dummy).heap, Init(dummy).chain, 0);
  }

  // ---- Single steps --------------------------------------------------------------------

  // One step refines the atomic queue: it cannot fault, it keeps the invariant, what it does to
  // the contents is what its event does to an atomic queue, and its event is in turn.
  ghost predicate Refines(s: State, o: Outcome, e: Event)
    requires s.chain != []
  {
    match o
    case Fault => false
    case NotNow => e == Silent
    case Next(s') =>
      && Inv(s') && Atomic(Contents(s), e) == Queue(Contents(s'))
      && Follow(CallsOf(s), e) == CallsOf(s')
  }

  // Writing to a node that is not in the chain leaves the chain and its tasks alone.
  lemma OutsideWrite(heap: map<int, QNode>, chain: seq<int>, n: int, v: QNode)
    requires Chained(heap, chain) && n !in chain
    ensures Chained(heap[n := v], chain) && Tasks(heap[n := v], chain) == Tasks(heap, chain)
  {
    var heap' := heap[n := v];
    forall i: nat {:trigger Linked(heap', chain, i)} | i < |chain| ensures Linked(heap', chain, i) {
      assert Linked(heap, chain, i) && chain[i] in chain;
    }
    forall k: nat {:trigger chain[k]} | k < |chain| ensures TaskAt(heap', chain[k]) == TaskAt(heap, chain[k]) {
      assert chain[k] in chain;
    }
  }

  // Linking the old tail to a prepared node adds its task at the end.
  lemma LinkLast(heap: map<int, QNode>, chain: seq<int>, n: int)
    requires Chained(heap, chain) && n != NULL && n in heap && n !in chain
    requires heap[n].next == NULL && heap[n].task != NULL
    ensures Last(chain) in heap
    ensures var heap' := heap[Last(chain) := heap[Last(chain)].(next := n)];
      && Chained(heap', chain + [n])
      && Tasks(heap', chain + [n]) == Tasks(heap, chain) + [heap[n].task]
  {
    var k := |chain| - 1;
    assert Linked(heap, chain, k);
    var heap' := heap[chain[k] := heap[chain[k]].(next := n)];
    forall i: nat | i < |chain| + 1 ensures Linked(heap', chain + [n], i) {
      if i < |chain| { assert Linked(heap, chain, i); }
      assert n != chain[k];
    }
    forall i | 0 <= i < |chain| ensures TaskAt(heap', (chain + [n])[i + 1]) == (Tasks(heap, chain) + [heap[n].task])[i] {
      assert n != chain[k];
    }
  }

  // Freeing the dummy makes the next node the dummy.
  lemma FreeFirst(heap: map<int, QNode>, chain: seq<int>)
    requires Chained(heap, chain) && |chain| >= 2
    ensures Chained(heap - {chain[0]}, chain[1..])
    ensures Tasks(heap, chain) == [TaskAt(heap, chain[1])] + Tasks(heap - {chain[0]}, chain[1..])
  {
    forall i: nat | i < |chain| - 1 ensures Linked(heap - {chain[0]}, chain[1..], i) {
      assert Linked(heap, chain, i + 1);
    }
  }

  // The dummy's own task field is not part of the queue.
  lemma ClearFirst(heap: map<int, QNode>, chain: seq<int>)
    requires Chained(heap, chain)
    ensures chain[0] in heap
    ensures var heap' := heap[chain[0] := heap[chain[0]].(task := NULL)];
      Chained(heap', chain) && Tasks(heap', chain) == Tasks(heap, chain)
  {
    assert Linked(heap, chain, 0);
    var heap' := heap[chain[0] := heap[chain[0]].(task := NULL)];
    forall i: nat | i < |chain| ensures Linked(heap', chain, i) {
      assert Linked(heap, chain, i);
    }
  }

  lemma EnqRefines(s: State, arg: int, junk: QNode)
    requires Inv(s)
    ensures Refines(s, EnqNext(s, arg, junk), Effect(s, EnqStep(arg, junk)))
  {
    hide Chained, Tasks, Members;
    LastIn(s.chain);
    LinkedAt(s.heap, s.chain, |s.chain| - 1);
    match s.enq
    case EnqIdle =>
    case EnqLocked(task) =>
      if arg != NULL && arg !in s.heap { OutsideWrite(s.heap, s.chain, arg, junk); }
    case EnqAllocated(task, n) => OutsideWrite(s.heap, s.chain, n, s.heap[n].(task := task));
    case EnqTaskSet(task, n) => OutsideWrite(s.heap, s.chain, n, s.heap[n].(next := NULL));
    case EnqNextCleared(task, n) => LinkRefines(s);
    case EnqLinked(n) =>
    case EnqTailMoved =>
  }

  lemma LinkRefines(s: State)
    requires Inv(s) && s.enq.EnqNextCleared?
    ensures Refines(s, EnqNext(s, 0, QNode(0, 0)), Enqueued(TaskAt(s.heap, s.enq.node)))
  {
    hide Chained, Tasks, Members;
    var n := s.enq.node;
    LinkLast(s.heap, s.chain, n);
    AddMember(s.chain, n);
    var s' := EnqNext(s, 0, QNode(0, 0)).s;
    assert s'.chain[0] == s.chain[0] && (|s.chain| >= 2 ==> s'.chain[1] == s.chain[1]);
    assert Contents(s) + [s.enq.task] == Contents(s');
    assert n in s.heap.Keys && Last(s.chain) in s.heap.Keys;
    assert s'.heap.Keys == s.heap.Keys;
  }

  lemma AddMember(chain: seq<int>, n: int)
    ensures Members(chain + [n]) == Members(chain) + {n}
  {}

  lemma LastIn(chain: seq<int>)
    requires chain != []
    ensures Last(chain) in chain && chain[0] in chain
  {}

  lemma LinkedAt(heap: map<int, QNode>, chain: seq<int>, i: nat)
    requires Chained(heap, chain) && i < |chain|
    ensures Linked(heap, chain, i)
  {}

  lemma DeqRefines(s: State)
    requires Inv(s)
    ensures Refines(s, DeqNext(s), Effect(s, DeqStep))
  {
    hide Chained, Tasks, Members;
    LinkedAt(s.heap, s.chain, 0);
    if |s.chain| >= 2 { LinkedAt(s.heap, s.chain, 1); }
    match s.deq
    case DeqIdle =>
    case DeqLocked =>
    case DeqRead(n) =>
    case DeqGot(n, ret) => FreeRefines(s);
    case DeqFreed(n, ret) =>
      assert Contents(s)[1..] == Contents(DeqNext(s).s);
    case DeqHeadMoved(ret) => ClearFirst(s.heap, s.chain);
    case DeqCleared(_) =>
  }

  lemma FreeRefines(s: State)
    requires Inv(s) && s.deq.DeqGot?
    ensures Refines(s, DeqNext(s), Silent)
  {
    hide Chained, Tasks, Members, EnqOk, Pending;
    LinkedAt(s.heap, s.chain, 0);
    FreeFirst(s.heap, s.chain);
    FreedMembers(s);
  }

  // Freeing the dummy frees a chain node, neither the pending node nor any later one.
  lemma FreedMembers(s: State)
    requires Inv(s) && s.deq.DeqGot?
    ensures var s' := DeqNext(s).s;
      && s'.heap.Keys == Members(s'.chain) + Pending(s'.enq)
      && EnqOk(s')
  {
    hide Tasks, Chained, Members;
    LinkedAt(s.heap, s.chain, 0);
    DropMember(s.heap, s.chain);
    var s' := DeqNext(s).s;
    assert Last(s'.chain) == Last(s.chain);
    assert s.chain[0] in s.chain;
    assert s'.heap.Keys == s.heap.Keys - {s.chain[0]};
    assert forall x :: x in s'.chain <==> x in Members(s'.chain);
    assert forall x :: x in s.chain <==> x in Members(s.chain);
  }

  lemma DropMember(heap: map<int, QNode>, chain: seq<int>)
    requires Chained(heap, chain)
    ensures Members(chain[1..]) == Members(chain) - {chain[0]}
  {
    assert chain == [chain[0]] + chain[1..];
  }

  // ---- Runs ----------------------------------------------------------------------------

  lemma StepRefines(s: State, a: Action)
    requires Inv(s)
    ensures Refines(s, Step(s, a), Effect(s, a))
  {
    hide Inv, Refines, EnqNext, DeqNext;
    match a
    case EnqStep(arg, junk) => EnqRefines(s, arg, junk);
    case DeqStep => DeqRefines(s);
  }

  // A run of any interleaving; a step that cannot be taken is skipped.
  function Run(s: State, acts: seq<Action>): Outcome
    decreases |acts|
  {
    if acts == [] then Next(s)
    else match Step(s, acts[0])
      case Fault => Fault
      case NotNow => Run(s, acts[1..])
      case Next(s') => Run(s', acts[1..])
  }

  function Events(s: State, acts: seq<Action>): seq<Event>
    decreases |acts|
  {
    if acts == [] then []
    else match Step(s, acts[0])
      case Fault => []
      case NotNow => Events(s, acts[1..])
      case Next(s') => [Effect(s, acts[0])] + Events(s', acts[1..])
  }

  // Every interleaving behaves as an atomic first-in first-out queue, each call takes effect
  // once between its first and last step, with its own argument or answer, and no step
  // touches freed memory or fails an assertion.
  lemma {:induction false} Linearizable(s: State, acts: seq<Action>)
    requires Inv(s)
    ensures Run(s, acts).Next? && Inv(Run(s, acts).s)
    ensures Replay(Contents(s), Events(s, acts)) == Queue(Contents(Run(s, acts).s))
    ensures FollowAll(CallsOf(s), Events(s, acts)) == CallsOf(Run(s, acts).s)
    decreases |acts|
  {
    hide Inv, Step, Effect, Atomic, Contents, Follow;
    if acts != [] {
      StepRefines(s, acts[0]);
      match Step(s, acts[0])
      case NotNow => Linearizable(s, acts[1..]);
      case Next(s') =>
        Linearizable(s', acts[1..]);
        assert ([Effect(s, acts[0])] + Events(s', acts[1..]))[1..] == Events(s', acts[1..]);
      case Fault =>
    }
  }

  function AllEnqueued(es: seq<Event>): seq<int> {
    if es == [] then [] else (if es[0].Enqueued? then [es[0].task] else []) + AllEnqueued(es[1..])
  }

  function AllDequeued(es: seq<Event>): seq<int> {
    if es == [] then [] else (if es[0].Dequeued? then [es[0].task] else []) + AllDequeued(es[1..])
  }

  lemma {:induction false} ReplayConserves(q: seq<int>, es: seq<Event>)
    requires Replay(q, es).Queue?
    ensures q + AllEnqueued(es) == AllDequeued(es) + Replay(q, es).items
    decreases |es|
  {
    if es != [] {
      var q' := Atomic(q, es[0]).items;
      ReplayConserves(q', es[1..]);
      Regroup(q, es[0], AllEnqueued(es[1..]), AllDequeued(es[1..]), Replay(q', es[1..]).items);
    }
  }

  lemma Regroup(q: seq<int>, e: Event, ins: seq<int>, outs: seq<int>, rest: seq<int>)
    requires Atomic(q, e).Queue? && Atomic(q, e).items + ins == outs + rest
    ensures q + ((if e.Enqueued? then [e.task] else []) + ins)
         == ((if e.Dequeued? then [e.task] else []) + outs) + rest
  {
    var q' := Atomic(q, e).items;
    match e
    case Enqueued(t) => assert q + ([t] + ins) == q' + ins;
    case Dequeued(t) =>
      assert [] + ins == ins;
      assert q == [t] + q';
      assert q + ins == [t] + (q' + ins);
      assert ([t] + outs) + rest == [t] + (outs + rest);
    case _ =>
      assert [] + ins == ins && [] + outs == outs;
  }

  // The arguments tasks_enqueue was called with, and the tasks tasks_dequeue answered.
  function Arguments(es: seq<Event>): seq<int> {
    if es == [] then [] else (if es[0].Asked? then [es[0].task] else []) + Arguments(es[1..])
  }

  function Answers(es: seq<Event>): seq<int> {
    if es == [] then [] else (if es[0].Answered? && es[0].ret != NULL then [es[0].ret] else []) + Answers(es[1..])
  }

  // A task asked for and not yet in the queue, and one taken out and not yet answered.
  function Asking(c: Calls): seq<int>
    requires c.Calls?
  {
    if c.enq.EnqAsking? then [c.enq.task] else []
  }

  function Owed(c: Calls): seq<int>
    requires c.Calls?
  {
    if c.deq.DeqOut? && c.deq.answer != NULL then [c.deq.answer] else []
  }

  lemma {:induction false} ArgumentsEnqueued(c: Calls, es: seq<Event>)
    requires c.Calls? && FollowAll(c, es).Calls?
    ensures Asking(c) + Arguments(es) == AllEnqueued(es) + Asking(FollowAll(c, es))
    decreases |es|
  {
    if es != [] {
      var c', e, rest := Follow(c, es[0]), es[0], es[1..];
      ArgumentsEnqueued(c', rest);
      var ins, done := Arguments(rest), AllEnqueued(rest);
      assert [] + ins == ins && [] + done == done;
      assert e.Asked? ==> Asking(c) + ([e.task] + ins) == [e.task] + ins;
      assert e.Enqueued? ==> ([e.task] + done) + Asking(FollowAll(c, es)) == [e.task] + (done + Asking(FollowAll(c, es)));
    }
  }

  lemma {:induction false} DequeuedAnswered(c: Calls, es: seq<Event>)
    requires c.Calls? && FollowAll(c, es).Calls?
    ensures Owed(c) + AllDequeued(es) == Answers(es) + Owed(FollowAll(c, es))
    decreases |es|
  {
    if es != [] {
      var c', e, rest := Follow(c, es[0]), es[0], es[1..];
      DequeuedAnswered(c', rest);
      var outs, done := AllDequeued(rest), Answers(rest);
      assert [] + outs == outs && [] + done == done;
      assert e.Dequeued? ==> Owed(c) + ([e.task] + outs) == [e.task] + outs;
      assert e.Answered? && e.ret != NULL ==> ([e.ret] + done) + Owed(FollowAll(c, es)) == [e.ret] + (done + Owed(FollowAll(c, es)));
    }
  }

  // From tasks_init on: the answers given, a task taken out but not yet answered, the tasks
  // still queued, and one asked for but not yet linked in are, in this order, the arguments of
  // the calls of tasks_enqueue.  None is lost, repeated, changed or overtaken.
  lemma InOrder(dummy: int, acts: seq<Action>)
    requires dummy != NULL
    ensures Run(Init(dummy), acts).Next? && Inv(Run(Init(dummy), acts).s)
    ensures var es, s' := Events(Init(dummy), acts), Run(Init(dummy), acts).s;
      && FollowAll(Calls(NoEnq, NoDeq), es) == CallsOf(s')
      && Arguments(es) == Answers(es) + Owed(CallsOf(s')) + Contents(s') + Asking(CallsOf(s'))
  {
    hide Inv, Contents, Run, Events, Replay, FollowAll;
    InitInv(dummy);
    Linearizable(Init(dummy), acts);
    var es, s' := Events(Init(dummy), acts), Run(Init(dummy), acts).s;
    ReplayConserves([], es);
    ArgumentsEnqueued(Calls(NoEnq, NoDeq), es);
    DequeuedAnswered(Calls(NoEnq, NoDeq), es);
    assert [] + AllEnqueued(es) == AllEnqueued(es);
    assert [] + AllDequeued(es) == AllDequeued(es);
    assert [] + Arguments(es) == Arguments(es);
  }

  // ---- Calls come back --------------------------------------------------------------------

  // The dequeuer can always take a step, and the enqueuer too, but for an argument that is not
  // a task or an address that is not free memory.
  lemma Progress(s: State, a: Action)
    requires Inv(s)
    ensures a.DeqStep? ==> Step(s, a).Next?
    ensures a.EnqStep? ==> (Step(s, a).Next? <==>
      (s.enq.EnqIdle? ==> a.arg != NULL) && (s.enq.EnqLocked? ==> a.arg != NULL && a.arg !in s.heap))
  {
    hide Inv;
    NoFault(s, a);
  }

  lemma NoFault(s: State, a: Action)
    requires Inv(s)
    ensures Step(s, a) != Fault
  {
    hide Inv, Step, Effect;
    StepRefines(s, a);
  }

  // The steps a call has left.
  function EnqLeft(e: Enqueuer): nat {
    match e
    case EnqIdle => 0
    case EnqLocked(_) => 6
    case EnqAllocated(_, _) => 5
    case EnqTaskSet(_, _) => 4
    case EnqNextCleared(_, _) => 3
    case EnqLinked(_) => 2
    case EnqTailMoved => 1
  }

  function DeqLeft(d: Dequeuer): nat {
    match d
    case DeqIdle => 0
    case DeqLocked => 6
    case DeqRead(_) => 5
    case DeqGot(_, _) => 4
    case DeqFreed(_, _) => 3
    case DeqHeadMoved(_) => 2
    case DeqCleared(_) => 1
  }

  // Every step of a call under way brings it nearer its end, and no step of the other thread
  // delays it: both kinds of call are wait-free once the lock is held.
  lemma CallsEnd(s: State, a: Action)
    requires Step(s, a).Next?
    ensures a.EnqStep? && !s.enq.EnqIdle? ==> EnqLeft(Step(s, a).s.enq) < EnqLeft(s.enq)
    ensures a.DeqStep? && !s.deq.DeqIdle? ==> DeqLeft(Step(s, a).s.deq) < DeqLeft(s.deq)
    ensures a.EnqStep? ==> Step(s, a).s.deq == s.deq
    ensures a.DeqStep? ==> Step(s, a).s.enq == s.enq
  {}
}
