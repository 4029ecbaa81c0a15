// The life of a kernel thread: kmt_create, kmt_teardown and kmt_schedule on any number of
// CPUs, as interleaved steps.  A step is one access to memory shared between CPUs: one
// lock-protected list operation, or one read or write of a task's fields.
module Scheduler {

  const NULL: int := 0

  // The idle task of a CPU; tasks made by kmt_create are positive.
  function Spin(cpu: nat): int { -1 - cpu }

  datatype TaskState = Running | Ready | Blocked

  // Where kmt_schedule is on one CPU.
  datatype Pc =
    | Outside                  // not in the handler: the current task runs
    | Entered
    | Saw(st: TaskState)       // the state of the current task was read
    | Unrecorded               // the current task was deleted from quitTasks
    | Freed                    // ... and its memory given back
    | Keep                     // the current task was not in quitTasks
    | ToReady                  // the current task is to go to readyTasks
    | ToBlocked                // the current task is to go to blockedTasks
    | Queued                   // ... and has gone there
    | Scan                     // looking for woken tasks
    | Pick                     // looking for the next task
    | Picked                   // the next task was dequeued

  datatype Cpu = Cpu(pc: Pc, current: int)

  // mem holds the state field of every task whose memory is allocated.  creating holds the
  // tasks some thread is in kmt_create with, and whether their fields are set; tearing those
  // that some thread in kmt_teardown has deleted from aliveTasks and not yet put in quitTasks.
  datatype State = State(
    cpus: seq<Cpu>, mem: map<int, TaskState>, ready: seq<int>, blocked: seq<int>,
    alive: set<int>, quit: set<int>, creating: map<int, bool>, tearing: set<int>)

  datatype Action =
    | Create(task: int, junk: TaskState)   // recordTasks_add, on memory just allocated
    | Prepare(task: int)                   // set the fields
    | Publish(task: int)                   // tasks_enqueue
    | Teardown(task: int)                  // recordTasks_delete
    | Quit(task: int)                      // recordTasks_add
    | CpuStep(cpu: nat)

  datatype Outcome = Next(s: State) | NotNow | Fault

  function Moved(s: State, c: nat, pc: Pc, current: int): State
    requires c < |s.cpus|
  {
    s.(cpus := s.cpus[c := Cpu(pc, current)])
  }

  function CpuNext(s: State, c: nat): Outcome
    requires c < |s.cpus|
  {
    var t := s.cpus[c].current;
    match s.cpus[c].pc
    case Outside => Next(Moved(s, c, Entered, t))
    case Entered =>
      if t != NULL && t != Spin(c) then
        if t !in s.mem then Fault else Next(Moved(s, c, Saw(s.mem[t]), t))
      else Next(Moved(s, c, Scan, NULL))
    case Saw(st) =>
      (match st
       case Running =>
         if t in s.quit then Next(Moved(s.(quit := s.quit - {t}), c, Unrecorded, t))
         else Next(Moved(s, c, Keep, t))
       case Blocked => Next(Moved(s, c, ToBlocked, t))
       case Ready => Next(Moved(s, c, ToReady, t)))
    case Unrecorded =>
      if t !in s.mem then Fault else Next(Moved(s.(mem := s.mem - {t}), c, Freed, t))
    case Freed => Next(Moved(s, c, Scan, NULL))
    case Keep =>
      if t !in s.mem then Fault else Next(Moved(s.(mem := s.mem[t := Ready]), c, ToReady, t))
    case ToReady =>
      if t == NULL then Fault else Next(Moved(s.(ready := s.ready + [t]), c, Queued, t))
    case ToBlocked =>
      if t == NULL then Fault else Next(Moved(s.(blocked := s.blocked + [t]), c, Queued, t))
    case Queued => Next(Moved(s, c, Scan, NULL))
    case Scan =>
      if s.blocked != [] then Fault else Next(Moved(s, c, Pick, t))
    case Pick =>
      if s.ready == [] then Next(Moved(s, c, Outside, Spin(c)))
      else if s.ready[0] == NULL then Fault
      else Next(Moved(s.(ready := s.ready[1..]), c, Picked, s.ready[0]))
    case Picked =>
      if t !in s.mem then Fault else Next(Moved(s.(mem := s.mem[t := Running]), c, Outside, t))
  }

  function Step(s: State, a: Action): Outcome {
    match a
    case Create(t, junk) =>
      if t <= 0 || t in s.mem then NotNow
      else if t in s.alive then Fault
      else Next(s.(mem := s.mem[t := junk], alive := s.alive + {t}, creating := s.creating[t := false]))
    case Prepare(t) =>
      if t !in s.creating || s.creating[t] then NotNow
      else if t !in s.mem then Fault
      else Next(s.(mem := s.mem[t := Ready], creating := s.creating[t := true]))
    case Publish(t) =>
      if t !in s.creating || !s.creating[t] then NotNow
      else Next(s.(ready := s.ready + [t], creating := s.creating - {t}))
    case Teardown(t) =>
      if t !in s.alive then NotNow
      else Next(s.(alive := s.alive - {t}, tearing := s.tearing + {t}))
    case Quit(t) =>
      if t !in s.tearing then NotNow
      else Next(s.(quit := s.quit + {t}, tearing := s.tearing - {t}))
    case CpuStep(c) =>
      if c < |s.cpus| then CpuNext(s, c) else NotNow
  }

  function Init(n: nat): State {
    State(seq(n, i => Cpu(Outside, NULL)), map[], [], [], {}, {}, map[], {})
  }

  // ---- Who owns a task -------------------------------------------------------------------

  datatype Owner = Creator | Slot(index: nat) | OnCpu(cpu: nat)

  // A CPU has passed on the task it still names once that task is queued or freed.
  predicate Holds(cpu: Cpu, t: int) {
    cpu.current == t && t > 0 && cpu.pc != Freed && cpu.pc != Queued
  }

  predicate Owns(s: State, o: Owner, t: int) {
    match o
    case Creator => t in s.creating
    case Slot(i) => i < |s.ready| && s.ready[i] == t
    case OnCpu(c) => c < |s.cpus| && Holds(s.cpus[c], t)
  }

  // Each allocated task has exactly one owner, and nothing else is owned.
  ghost predicate OneOwner(s: State) {
    && (forall o, p, t :: Owns(s, o, t) && Owns(s, p, t) ==> o == p)
    && (forall t :: t in s.mem <==> exists o :: Owns(s, o, t))
    && (forall t :: t in s.mem ==> t > 0)
  }

  // A task whose record was just deleted from quitTasks, about to be freed.
  predicate Doomed(s: State, t: int) {
    exists c :: 0 <= c < |s.cpus| && s.cpus[c].pc == Unrecorded && s.cpus[c].current == t
  }

  // Each allocated task is in exactly one of aliveTasks, the hands of a kmt_teardown,
  // quitTasks, and the hands of the CPU that frees it.
  ghost predicate OneRecord(s: State) {
    && s.alive !! s.tearing && s.alive !! s.quit && s.tearing !! s.quit
    && (forall t :: t in s.mem <==> t in s.alive + s.tearing + s.quit || Doomed(s, t))
    && (forall t :: Doomed(s, t) ==> t !in s.alive + s.tearing + s.quit)
  }

  ghost predicate StateIs(s: State, t: int, st: TaskState) {
    t in s.mem && s.mem[t] == st
  }

  ghost predicate CpuOk(s: State, c: nat)
    requires c < |s.cpus|
  {
    var t := s.cpus[c].current;
    match s.cpus[c].pc
    case Outside => t == NULL || t == Spin(c) || (t > 0 && StateIs(s, t, Running))
    case Entered => t == NULL || t == Spin(c) || (t > 0 && StateIs(s, t, Running))
    case Saw(st) => t > 0 && StateIs(s, t, Running) && st == Running
    case Unrecorded => t > 0 && StateIs(s, t, Running)
    case Keep => t > 0 && StateIs(s, t, Running)
    case ToReady => t > 0 && StateIs(s, t, Ready)
    case Picked => t > 0 && StateIs(s, t, Ready)
    case ToBlocked => false
    case Freed => t > 0
    case Queued => t > 0
    case Scan => t == NULL
    case Pick => t == NULL
  }

  ghost predicate Consistent(s: State) {
    && (forall c: nat :: c < |s.cpus| ==> CpuOk(s, c))
    && (forall t :: t in s.ready ==> StateIs(s, t, Ready))
    && (forall t :: t in s.creating && s.creating[t] ==> StateIs(s, t, Ready))
    && s.blocked == []
  }

  ghost predicate Inv(s: State) {
    OneOwner(s) && OneRecord(s) && Consistent(s)
  }

  lemma InitInv(n: nat)
    ensures Inv(Init(n))
  {
    forall o, t ensures !Owns(Init(n), o, t) {}
  }

  // What a step does to readyTasks, and which task it frees.
  datatype Event = Silent | Queue(task: int) | Dispatch(task: int, cpu: nat) | Free(task: int)

  function Effect(s: State, a: Action): Event {
    match a
    case Publish(t) => if Step(s, a).Next? then Queue(t) else Silent
    case CpuStep(c) =>
      if c < |s.cpus| && s.cpus[c].pc == ToReady then Queue(s.cpus[c].current)
      else if c < |s.cpus| && s.cpus[c].pc == Pick && s.ready != [] then Dispatch(s.ready[0], c)
      else if c < |s.cpus| && s.cpus[c].pc == Unrecorded then Free(s.cpus[c].current)
      else Silent
    case _ => Silent
  }

  ghost predicate ReadyMoves(s: State, e: Event, s': State) {
    match e
    case Silent => s'.ready == s.ready
    case Queue(t) => s'.ready == s.ready + [t]
    case Free(t) => s'.ready == s.ready && t in s.mem && t !in s'.mem
    case Dispatch(t, c) => s.ready == [t] + s'.ready && c < |s'.cpus| && Holds(s'.cpus[c], t)
  }

  // ---- Steps that move no task between owners ----------------------------------------------

  ghost predicate SameOwner(s: State, s': State) {
    forall o, t :: Owns(s', o, t) <==> Owns(s, o, t)
  }

  lemma SameOwners(s: State, s': State)
    requires OneOwner(s) && s'.mem.Keys == s.mem.Keys && SameOwner(s, s')
    ensures OneOwner(s')
  {
    forall t ensures t in s'.mem <==> exists o :: Owns(s', o, t) {
      assert t in s'.mem <==> t in s.mem.Keys;
      if o :| Owns(s', o, t) { assert Owns(s, o, t); }
      if o :| Owns(s, o, t) { assert Owns(s', o, t); }
    }
    forall t | t in s'.mem ensures t > 0 {
      assert t in s.mem.Keys;
    }
  }

  lemma SameRecords(s: State, s': State)
    requires OneRecord(s) && s'.mem.Keys == s.mem.Keys
    requires s'.alive == s.alive && s'.tearing == s.tearing && s'.quit == s.quit
    requires forall t :: Doomed(s', t) <==> Doomed(s, t)
    ensures OneRecord(s')
  {
    forall t ensures t in s'.mem <==> t in s'.alive + s'.tearing + s'.quit || Doomed(s', t) {
      assert t in s'.mem <==> t in s.mem.Keys;
    }
  }

  ghost predicate OnlyCpu(s: State, s': State, c: nat) {
    && c < |s.cpus| == |s'.cpus|
    && (forall d :: 0 <= d < |s.cpus| && d != c ==> s'.cpus[d] == s.cpus[d])
  }

  // A CPU that stays or goes idle, or goes on with the task it holds.
  lemma CpuKeeps(s: State, s': State, c: nat)
    requires OnlyCpu(s, s', c) && s'.ready == s.ready && s'.creating == s.creating
    requires forall t :: Holds(s'.cpus[c], t) <==> Holds(s.cpus[c], t)
    ensures forall o, t :: Owns(s', o, t) <==> Owns(s, o, t)
  {}

  lemma CpuNotDoomed(s: State, s': State, c: nat)
    requires OnlyCpu(s, s', c)
    requires s.cpus[c].pc != Unrecorded && s'.cpus[c].pc != Unrecorded
    ensures forall t :: Doomed(s', t) <==> Doomed(s, t)
  {
    forall t ensures Doomed(s', t) <==> Doomed(s, t) {
      if Doomed(s', t) {
        var d :| 0 <= d < |s'.cpus| && s'.cpus[d].pc == Unrecorded && s'.cpus[d].current == t;
        assert s.cpus[d] == s'.cpus[d];
      }
      if Doomed(s, t) {
        var d :| 0 <= d < |s.cpus| && s.cpus[d].pc == Unrecorded && s.cpus[d].current == t;
        assert s'.cpus[d] == s.cpus[d];
      }
    }
  }

  // The step of a CPU writes only to the task it holds, so all else stays consistent.
  lemma CpuConsistent(s: State, s': State, c: nat)
    requires OneOwner(s) && Consistent(s) && OnlyCpu(s, s', c) && CpuOk(s', c)
    requires forall t :: t in s.mem && !Owns(s, OnCpu(c), t) ==> t in s'.mem && s'.mem[t] == s.mem[t]
    requires s'.creating == s.creating && s'.blocked == []
    requires forall t :: t in s'.ready ==> t in s.ready || StateIs(s', t, Ready)
    ensures Consistent(s')
  {
    forall d: nat | d < |s'.cpus| ensures CpuOk(s', d) {
      assert CpuOk(s, d);
      var t := s.cpus[d].current;
      if d != c && Holds(s.cpus[d], t) {
        assert Owns(s, OnCpu(d), t);
        assert !Owns(s, OnCpu(c), t);
      }
    }
    forall t | t in s'.ready ensures StateIs(s', t, Ready) {
      if t in s.ready {
        var i :| 0 <= i < |s.ready| && s.ready[i] == t;
        assert Owns(s, Slot(i), t);
        assert !Owns(s, OnCpu(c), t);
      }
    }
    forall t | t in s'.creating && s'.creating[t] ensures StateIs(s', t, Ready) {
      assert Owns(s, Creator, t);
      assert !Owns(s, OnCpu(c), t);
    }
  }

  // The steps that neither queue, dequeue nor free.
  lemma CpuLocal(s: State, c: nat)
    requires Inv(s) && c < |s.cpus|
    requires s.cpus[c].pc in {Outside, Entered, Freed, Keep, Queued, Scan, Picked}
    ensures CpuNext(s, c).Next? && Inv(CpuNext(s, c).s) && CpuNext(s, c).s.ready == s.ready
  {
    hide OneOwner, OneRecord, Doomed, Owns;
    assert CpuOk(s, c);
    var t := s.cpus[c].current;
    assert CpuNext(s, c).Next?;
    var s' := CpuNext(s, c).s;
    if Holds(s.cpus[c], t) { Held(s, c); }
    assert s'.mem.Keys == s.mem.Keys;
    CpuKeeps(s, s', c);
    SameOwners(s, s');
    CpuNotDoomed(s, s', c);
    SameRecords(s, s');
    CpuConsistent(s, s', c);
  }

  // A CPU that holds a task owns it.
  lemma Held(s: State, c: nat)
    requires c < |s.cpus| && Holds(s.cpus[c], s.cpus[c].current)
    ensures Owns(s, OnCpu(c), s.cpus[c].current)
  {}

  // ---- Steps that move a task --------------------------------------------------------------

  // Deleting the current task from quitTasks, or finding it absent.
  lemma CpuLooksUp(s: State, c: nat)
    requires Inv(s) && c < |s.cpus| && s.cpus[c].pc.Saw?
    ensures CpuNext(s, c).Next? && Inv(CpuNext(s, c).s) && CpuNext(s, c).s.ready == s.ready
    ensures var t, s' := s.cpus[c].current, CpuNext(s, c).s;
      && s'.mem == s.mem && s'.alive == s.alive && s'.tearing == s.tearing && s'.quit == s.quit - {t}
      && s'.cpus[c] == Cpu(if t in s.quit then Unrecorded else Keep, t)
      && forall d :: 0 <= d < |s'.cpus| && d != c && s'.cpus[d].pc == Unrecorded ==> s'.cpus[d].current != t
  {
    hide OneOwner, Owns, OneRecord;
    assert CpuOk(s, c);
    var t := s.cpus[c].current;
    var s' := CpuNext(s, c).s;
    Held(s, c);
    CpuKeeps(s, s', c);
    SameOwners(s, s');
    CpuConsistent(s, s', c);
    forall d | 0 <= d < |s'.cpus| && d != c && s'.cpus[d].pc == Unrecorded ensures s'.cpus[d].current != t {
      OneHolder(s, c, d);
    }
    if t in s.quit {
      Dooms(s, s', c, t);
    } else {
      CpuNotDoomed(s, s', c);
      SameRecords(s, s');
    }
  }

  lemma OneHolder(s: State, c: nat, d: nat)
    requires OneOwner(s) && c < |s.cpus| && d < |s.cpus| && c != d
    requires Holds(s.cpus[c], s.cpus[c].current) && s.cpus[d].pc == Unrecorded
    ensures s.cpus[d].current != s.cpus[c].current
  {
    Held(s, c);
    if s.cpus[d].current == s.cpus[c].current {
      Held(s, d);
    }
  }

  lemma Dooms(s: State, s': State, c: nat, t: int)
    requires OneRecord(s) && OnlyCpu(s, s', c) && t in s.quit
    requires s.cpus[c].pc != Unrecorded && s'.cpus[c] == Cpu(Unrecorded, t)
    requires s'.mem == s.mem && s'.alive == s.alive && s'.tearing == s.tearing && s'.quit == s.quit - {t}
    ensures OneRecord(s')
  {
    assert !Doomed(s, t);
    forall u ensures Doomed(s', u) <==> Doomed(s, u) || u == t {
      if Doomed(s', u) && u != t {
        var d :| 0 <= d < |s'.cpus| && s'.cpus[d].pc == Unrecorded && s'.cpus[d].current == u;
        assert s.cpus[d] == s'.cpus[d];
      }
      if Doomed(s, u) {
        var d :| 0 <= d < |s.cpus| && s.cpus[d].pc == Unrecorded && s.cpus[d].current == u;
        assert s'.cpus[d] == s.cpus[d];
      }
      assert s'.cpus[c].pc == Unrecorded && s'.cpus[c].current == t;
    }
  }

  // Freeing a task: it has no owner and no record any more, and every other task is as it was.
  lemma CpuFrees(s: State, c: nat)
    requires Inv(s) && c < |s.cpus| && s.cpus[c].pc == Unrecorded
    ensures CpuNext(s, c).Next? && Inv(CpuNext(s, c).s) && CpuNext(s, c).s.ready == s.ready
    ensures var t, s' := s.cpus[c].current, CpuNext(s, c).s;
      && t in s.mem && s'.mem == s.mem - {t}
      && t !in s.alive + s.tearing + s.quit
      && s'.alive == s.alive && s'.tearing == s.tearing && s'.quit == s.quit
      && forall o, u :: Owns(s', o, u) <==> Owns(s, o, u) && u != t
  {
    hide OneOwner, Owns, OneRecord;
    assert CpuOk(s, c);
    var t := s.cpus[c].current;
    var s' := CpuNext(s, c).s;
    Held(s, c);
    CpuConsistent(s, s', c);
    FreeOwner(s, s', c);
    FreeRecord(s, s', c);
  }

  lemma FreeOwner(s: State, s': State, c: nat)
    requires OneOwner(s) && OnlyCpu(s, s', c) && Owns(s, OnCpu(c), s.cpus[c].current)
    requires s'.mem == s.mem - {s.cpus[c].current} && s'.cpus[c].pc == Freed
    requires s'.ready == s.ready && s'.creating == s.creating
    ensures OneOwner(s')
    ensures forall o, u :: Owns(s', o, u) <==> Owns(s, o, u) && u != s.cpus[c].current
  {
    var t := s.cpus[c].current;
    forall o, u ensures Owns(s', o, u) <==> Owns(s, o, u) && u != t {
      if Owns(s', o, u) { assert Owns(s, o, u) && o != OnCpu(c); }
      if Owns(s, o, u) && u != t { assert o != OnCpu(c); }
    }
    Subtract(s, s', t);
  }

  lemma Subtract(s: State, s': State, t: int)
    requires OneOwner(s) && s'.mem.Keys == s.mem.Keys - {t}
    requires forall o, u :: Owns(s', o, u) <==> Owns(s, o, u) && u != t
    ensures OneOwner(s')
  {
    hide Owns;
    forall u ensures u in s'.mem <==> exists o :: Owns(s', o, u) {
      assert u in s'.mem <==> u in s.mem.Keys && u != t;
      if o :| Owns(s', o, u) { assert Owns(s, o, u); }
      if o :| Owns(s, o, u) { assert u != t ==> Owns(s', o, u); }
    }
    forall u | u in s'.mem ensures u > 0 { assert u in s.mem.Keys; }
  }

  lemma FreeRecord(s: State, s': State, c: nat)
    requires OneOwner(s) && OneRecord(s) && Consistent(s) && OnlyCpu(s, s', c)
    requires s.cpus[c].pc == Unrecorded && s'.cpus[c].pc == Freed
    requires s'.mem == s.mem - {s.cpus[c].current}
    requires s'.alive == s.alive && s'.tearing == s.tearing && s'.quit == s.quit
    ensures OneRecord(s')
  {
    var t := s.cpus[c].current;
    assert Doomed(s, t);
    assert CpuOk(s, c);
    forall u ensures Doomed(s', u) <==> Doomed(s, u) && u != t {
      if Doomed(s', u) {
        var d :| 0 <= d < |s'.cpus| && s'.cpus[d].pc == Unrecorded && s'.cpus[d].current == u;
        assert s.cpus[d] == s'.cpus[d];
        assert CpuOk(s, d);
        assert Owns(s, OnCpu(d), u) && Owns(s, OnCpu(c), t);
      }
      if Doomed(s, u) && u != t {
        var d :| 0 <= d < |s.cpus| && s.cpus[d].pc == Unrecorded && s.cpus[d].current == u;
        assert s'.cpus[d] == s.cpus[d];
      }
    }
  }

  // Task t has one owner before and another after; every other task keeps its owner.
  ghost predicate PassedOn(s: State, s': State, t: int, from: Owner, to: Owner) {
    && (forall o :: Owns(s, o, t) <==> o == from)
    && forall o, u :: Owns(s', o, u) <==> (if u == t then o == to else Owns(s, o, u))
  }

  lemma PassOn(s: State, s': State, t: int, from: Owner, to: Owner)
    requires OneOwner(s) && s'.mem.Keys == s.mem.Keys && PassedOn(s, s', t, from, to)
    ensures OneOwner(s')
  {
    hide Owns;
    forall u ensures u in s'.mem <==> exists o :: Owns(s', o, u) {
      assert u in s'.mem <==> u in s.mem.Keys;
      if u == t {
        assert Owns(s, from, u) && Owns(s', to, u);
      } else {
        if o :| Owns(s', o, u) { assert Owns(s, o, u); }
        if o :| Owns(s, o, u) { assert Owns(s', o, u); }
      }
    }
    forall u | u in s'.mem ensures u > 0 { assert u in s.mem.Keys; }
  }

  lemma CpuQueues(s: State, c: nat)
    requires Inv(s) && c < |s.cpus| && s.cpus[c].pc == ToReady
    ensures CpuNext(s, c).Next? && Inv(CpuNext(s, c).s)
    ensures CpuNext(s, c).s.ready == s.ready + [s.cpus[c].current]
    ensures PassedOn(s, CpuNext(s, c).s, s.cpus[c].current, OnCpu(c), Slot(|s.ready|))
  {
    hide OneOwner, OneRecord;
    assert CpuOk(s, c);
    var t := s.cpus[c].current;
    var s' := CpuNext(s, c).s;
    Held(s, c);
    forall o, u ensures Owns(s', o, u) <==> (if u == t then o == Slot(|s.ready|) else Owns(s, o, u)) {
      OnlyOwner(s, o, OnCpu(c), t);
    }
    PassOn(s, s', t, OnCpu(c), Slot(|s.ready|));
    CpuNotDoomed(s, s', c);
    SameRecords(s, s');
    CpuConsistent(s, s', c);
  }

  lemma OnlyOwner(s: State, o: Owner, p: Owner, t: int)
    requires OneOwner(s) && Owns(s, p, t)
    ensures Owns(s, o, t) ==> o == p
  {}

  lemma Publishes(s: State, t: int)
    requires Inv(s) && t in s.creating && s.creating[t]
    ensures Step(s, Publish(t)).Next? && Inv(Step(s, Publish(t)).s)
    ensures PassedOn(s, Step(s, Publish(t)).s, t, Creator, Slot(|s.ready|))
  {
    hide OneOwner, OneRecord;
    var s' := Step(s, Publish(t)).s;
    assert Owns(s, Creator, t);
    forall o, u ensures Owns(s', o, u) <==> (if u == t then o == Slot(|s.ready|) else Owns(s, o, u)) {
      OnlyOwner(s, o, Creator, t);
    }
    PassOn(s, s', t, Creator, Slot(|s.ready|));
    assert forall u :: Doomed(s', u) <==> Doomed(s, u);
    SameRecords(s, s');
    forall c: nat | c < |s.cpus| ensures CpuOk(s', c) { assert CpuOk(s, c); }
  }

  // Taking the first of several slots moves every other one down.
  lemma CpuPicks(s: State, c: nat)
    requires Inv(s) && c < |s.cpus| && s.cpus[c].pc == Pick
    ensures CpuNext(s, c).Next? && Inv(CpuNext(s, c).s)
    ensures ReadyMoves(s, Effect(s, CpuStep(c)), CpuNext(s, c).s)
    ensures s.ready == [] ==> CpuNext(s, c).s.cpus[c] == Cpu(Outside, Spin(c)) && SameOwner(s, CpuNext(s, c).s)
    ensures s.ready != [] ==> forall o, u :: Owns(CpuNext(s, c).s, o, u) <==> Owns(s, Before(o, c), u)
  {
    hide OneOwner, OneRecord, Owns;
    assert CpuOk(s, c);
    var t := if s.ready == [] then NULL else s.ready[0];
    if t != NULL { assert t in s.ready; }
    PickOwner(s, c);
    var s' := CpuNext(s, c).s;
    CpuNotDoomed(s, s', c);
    SameRecords(s, s');
    CpuConsistent(s, s', c);
  }

  lemma PickOwner(s: State, c: nat)
    requires Inv(s) && c < |s.cpus| && s.cpus[c].pc == Pick
    ensures CpuNext(s, c).Next? && OneOwner(CpuNext(s, c).s)
    ensures s.ready != [] ==> s.ready[0] > 0
    ensures s.ready == [] ==> SameOwner(s, CpuNext(s, c).s)
    ensures s.ready != [] ==> forall o, u :: Owns(CpuNext(s, c).s, o, u) <==> Owns(s, Before(o, c), u)
  {
    hide OneRecord, Doomed;
    assert CpuOk(s, c);
    if s.ready == [] {
      var s' := CpuNext(s, c).s;
      CpuKeeps(s, s', c);
      SameOwners(s, s');
    } else {
      var t := s.ready[0];
      assert Owns(s, Slot(0), t);
      assert t in s.mem;
      var s' := CpuNext(s, c).s;
      forall o, u ensures Owns(s', o, u) <==> Owns(s, Before(o, c), u) {
        Shifted(s, s', c, o, u);
      }
      forall u ensures u in s'.mem <==> exists o :: Owns(s', o, u) {
        if o :| Owns(s', o, u) { assert Owns(s, Before(o, c), u); }
        if o :| Owns(s, o, u) { assert Before(After(o, c), c) == o || o == OnCpu(c); assert Owns(s', After(o, c), u); }
      }
    }
  }

  // Who owned before the dispatch what o owns after it, and the other way.
  function Before(o: Owner, c: nat): Owner {
    match o
    case Creator => Creator
    case Slot(i) => Slot(i + 1)
    case OnCpu(d) => if d == c then Slot(0) else OnCpu(d)
  }

  function After(o: Owner, c: nat): Owner {
    match o
    case Creator => Creator
    case Slot(i) => if i == 0 then OnCpu(c) else Slot(i - 1)
    case OnCpu(d) => OnCpu(d)
  }

  lemma Shifted(s: State, s': State, c: nat, o: Owner, u: int)
    requires OnlyCpu(s, s', c) && s.ready != [] && s.ready[0] > 0
    requires s'.ready == s.ready[1..] && s'.creating == s.creating && s'.cpus[c] == Cpu(Picked, s.ready[0])
    ensures Owns(s', o, u) <==> Owns(s, Before(o, c), u)
  {}

  // ---- Threads in kmt_create and kmt_teardown ----------------------------------------------

  lemma Creates(s: State, t: int, junk: TaskState)
    requires Inv(s) && t > 0 && t !in s.mem
    ensures Step(s, Create(t, junk)).Next? && Inv(Step(s, Create(t, junk)).s)
    ensures t !in s.alive + s.tearing + s.quit && t !in s.ready && t !in s.creating
    ensures var s' := Step(s, Create(t, junk)).s;
      && s'.alive == s.alive + {t} && s'.ready == s.ready
      && forall o, u :: Owns(s', o, u) <==> Owns(s, o, u) || (o == Creator && u == t)
  {
    var s' := Step(s, Create(t, junk)).s;
    CreateOwner(s, s', t, junk);
    CreateRecord(s, s', t, junk);
    CreateConsistent(s, s', t, junk);
  }

  lemma CreateOwner(s: State, s': State, t: int, junk: TaskState)
    requires Inv(s) && t > 0 && t !in s.mem
    requires s' == s.(mem := s.mem[t := junk], alive := s.alive + {t}, creating := s.creating[t := false])
    ensures OneOwner(s') && t !in s.ready && t !in s.creating
    ensures forall o, u :: Owns(s', o, u) <==> Owns(s, o, u) || (o == Creator && u == t)
  {
    hide OneRecord;
    forall o, u ensures Owns(s', o, u) <==> Owns(s, o, u) || (o == Creator && u == t) {}
    forall o ensures !Owns(s, o, t) {}
    assert !Owns(s, Creator, t) && forall i: nat :: i < |s.ready| ==> !Owns(s, Slot(i), t);
    forall u ensures u in s'.mem <==> exists o :: Owns(s', o, u) {
      if u == t { assert Owns(s', Creator, u); }
      if o :| Owns(s', o, u) { assert Owns(s, o, u) || u == t; }
      if o :| Owns(s, o, u) { assert Owns(s', o, u); }
    }
  }

  lemma CreateRecord(s: State, s': State, t: int, junk: TaskState)
    requires OneRecord(s) && t !in s.mem
    requires s' == s.(mem := s.mem[t := junk], alive := s.alive + {t}, creating := s.creating[t := false])
    ensures OneRecord(s')
  {
    assert t !in s.alive + s.tearing + s.quit;
    forall u ensures Doomed(s', u) <==> Doomed(s, u) {}
  }

  lemma CreateConsistent(s: State, s': State, t: int, junk: TaskState)
    requires Consistent(s) && t !in s.mem
    requires s' == s.(mem := s.mem[t := junk], alive := s.alive + {t}, creating := s.creating[t := false])
    ensures Consistent(s')
  {
    forall c: nat | c < |s.cpus| ensures CpuOk(s', c) { assert CpuOk(s, c); }
  }

  lemma Prepares(s: State, t: int)
    requires Inv(s) && t in s.creating && !s.creating[t]
    ensures Step(s, Prepare(t)).Next? && Inv(Step(s, Prepare(t)).s)
  {
    hide OneRecord;
    assert Owns(s, Creator, t);
    var s' := Step(s, Prepare(t)).s;
    forall o, u ensures Owns(s', o, u) <==> Owns(s, o, u) {}
    assert s'.mem.Keys == s.mem.Keys;
    SameOwners(s, s');
    forall u ensures Doomed(s', u) <==> Doomed(s, u) {}
    SameRecords(s, s');
    forall c: nat | c < |s.cpus| ensures CpuOk(s', c) {
      assert CpuOk(s, c);
      OnlyOwner(s, OnCpu(c), Creator, t);
    }
  }

  lemma TearsDown(s: State, a: Action)
    requires Inv(s) && Step(s, a).Next? && (a.Teardown? || a.Quit?)
    ensures Inv(Step(s, a).s) && SameOwner(s, Step(s, a).s)
    ensures var t, s' := a.task, Step(s, a).s;
      && s'.mem == s.mem && s'.ready == s.ready
      && (a.Teardown? ==> t in s.alive && s'.alive == s.alive - {t} && s'.tearing == s.tearing + {t} && s'.quit == s.quit)
      && (a.Quit? ==> t in s.tearing && s'.alive == s.alive && s'.tearing == s.tearing - {t} && s'.quit == s.quit + {t})
  {
    hide OneOwner;
    var s' := Step(s, a).s;
    forall o, u ensures Owns(s', o, u) <==> Owns(s, o, u) {}
    SameOwners(s, s');
    forall u ensures Doomed(s', u) <==> Doomed(s, u) {}
    forall c: nat | c < |s.cpus| ensures CpuOk(s', c) { assert CpuOk(s, c); }
  }

  // ---- Every step, and every run -------------------------------------------------------------

  // No step uses freed memory, reaches an assertion that fails, or breaks the invariant.
  lemma StepKeeps(s: State, a: Action)
    requires Inv(s)
    ensures Step(s, a) != Fault
    ensures Step(s, a).Next? ==> Inv(Step(s, a).s) && ReadyMoves(s, Effect(s, a), Step(s, a).s)
    ensures Step(s, a) == NotNow ==> Effect(s, a) == Silent
  {
    hide OneOwner, Consistent;
    match a
    case Create(t, junk) => if t > 0 && t !in s.mem { Creates(s, t, junk); }
    case Prepare(t) => if t in s.creating && !s.creating[t] { Prepares(s, t); }
    case Publish(t) => if t in s.creating && s.creating[t] { Publishes(s, t); }
    case Teardown(t) => if t in s.alive { TearsDown(s, a); }
    case Quit(t) => if t in s.tearing { TearsDown(s, a); }
    case CpuStep(c) => if c < |s.cpus| { CpuKeepsAll(s, c); }
  }

  lemma CpuKeepsAll(s: State, c: nat)
    requires Inv(s) && c < |s.cpus|
    ensures CpuNext(s, c).Next? && Inv(CpuNext(s, c).s)
    ensures ReadyMoves(s, Effect(s, CpuStep(c)), CpuNext(s, c).s)
  {
    hide OneOwner, OneRecord, CpuNext;
    assert CpuOk(s, c);
    match s.cpus[c].pc
    case Saw(_) => CpuLooksUp(s, c);
    case Unrecorded => CpuFrees(s, c); Owned(s, c);
    case ToReady => CpuQueues(s, c);
    case Pick => CpuPicks(s, c);
    case _ => CpuLocal(s, c);
  }

  lemma Owned(s: State, c: nat)
    requires Consistent(s) && c < |s.cpus| && s.cpus[c].pc == Unrecorded
    ensures s.cpus[c].current in s.mem
  {
    assert CpuOk(s, c);
  }

  function Run(s: State, acts: seq<Action>): Outcome
    decreases |acts|
  {
    if acts == [] then Next(s)
    else match Step(s, acts[0])
      case Fault => Fault
      case NotNow => Run(s, acts[1..])
      case Next(s') => Run(s', acts[1..])
  }

  function Events(s: State, acts: seq<Action>): seq<Event>
    decreases |acts|
  {
    if acts == [] then []
    else match Step(s, acts[0])
      case Fault => []
      case NotNow => Events(s, acts[1..])
      case Next(s') => [Effect(s, acts[0])] + Events(s', acts[1..])
  }

  function Enqueued(es: seq<Event>): seq<int> {
    if es == [] then [] else (if es[0].Queue? then [es[0].task] else []) + Enqueued(es[1..])
  }

  function Dispatched(es: seq<Event>): seq<int> {
    if es == [] then [] else (if es[0].Dispatch? then [es[0].task] else []) + Dispatched(es[1..])
  }

  // Any interleaving on any number of CPUs keeps the invariant, and readyTasks is served in
  // order: the tasks dispatched and then those still waiting are those that waited at first
  // and then those queued since.
  lemma {:induction false} RunKeeps(s: State, acts: seq<Action>)
    requires Inv(s)
    ensures Run(s, acts).Next? && Inv(Run(s, acts).s)
    ensures s.ready + Enqueued(Events(s, acts)) == Dispatched(Events(s, acts)) + Run(s, acts).s.ready
    decreases |acts|
  {
    hide Inv, Step, Effect;
    if acts != [] {
      StepKeeps(s, acts[0]);
      match Step(s, acts[0])
      case NotNow => RunKeeps(s, acts[1..]);
      case Fault =>
      case Next(s') =>
        RunKeeps(s', acts[1..]);
        var es := Events(s', acts[1..]);
        assert ([Effect(s, acts[0])] + es)[1..] == es;
        Regroup(s, Effect(s, acts[0]), s', Enqueued(es), Dispatched(es), Run(s', acts[1..]).s.ready);
    }
  }

  lemma Regroup(s: State, e: Event, s': State, ins: seq<int>, outs: seq<int>, rest: seq<int>)
    requires ReadyMoves(s, e, s') && s'.ready + ins == outs + rest
    ensures s.ready + ((if e.Queue? then [e.task] else []) + ins)
         == ((if e.Dispatch? then [e.task] else []) + outs) + rest
  {
    match e
    case Queue(t) =>
      assert [] + outs == outs;
      assert s.ready + ([t] + ins) == s'.ready + ins;
    case Dispatch(t, c) =>
      assert [] + ins == ins;
      assert s.ready + ins == [t] + (s'.ready + ins);
      assert ([t] + outs) + rest == [t] + (outs + rest);
    case _ =>
      assert [] + ins == ins && [] + outs == outs;
  }

  // A task at position p is dispatched by the (p+1)-th dequeue, and until then waits in line.
  lemma ServedInOrder(s: State, acts: seq<Action>, p: nat)
    requires Inv(s) && p < |s.ready|
    ensures Run(s, acts).Next?
    ensures var out := Dispatched(Events(s, acts));
      if p < |out| then out[p] == s.ready[p]
      else p - |out| < |Run(s, acts).s.ready| && Run(s, acts).s.ready[p - |out|] == s.ready[p]
  {
    hide Inv, Run, Events;
    RunKeeps(s, acts);
    var out, s' := Dispatched(Events(s, acts)), Run(s, acts).s;
    assert (s.ready + Enqueued(Events(s, acts)))[p] == (out + s'.ready)[p];
  }

  // From kmt_init on: no fault, one owner and one record for every task.
  lemma Safe(n: nat, acts: seq<Action>)
    ensures Run(Init(n), acts).Next? && Inv(Run(Init(n), acts).s)
  {
    hide Inv;
    InitInv(n);
    RunKeeps(Init(n), acts);
  }

  function Named(e: Event): set<int> {
    match e
    case Silent => {}
    case Queue(t) => {t}
    case Dispatch(t, _) => {t}
    case Free(t) => {t}
  }

  // A step names only allocated tasks, and memory is only allocated by kmt_create's caller.
  lemma StepNames(s: State, a: Action, t: int)
    requires Inv(s) && Step(s, a).Next? && t !in s.mem && !(a.Create? && a.task == t)
    ensures t !in Step(s, a).s.mem && t !in Named(Effect(s, a))
  {
    hide OneRecord;
    match a
    case Publish(u) => assert Owns(s, Creator, u);
    case CpuStep(c) =>
      assert CpuOk(s, c);
      if s.ready != [] { assert s.ready[0] in s.ready; }
    case _ =>
  }

  // Once freed, a task is not queued, dispatched or freed again unless its memory is
  // allocated anew.
  lemma {:induction false} GoneForGood(s: State, acts: seq<Action>, t: int)
    requires Inv(s) && t !in s.mem
    requires forall a :: a in acts ==> !(a.Create? && a.task == t)
    ensures Run(s, acts).Next? && t !in Run(s, acts).s.mem
    ensures forall e :: e in Events(s, acts) ==> t !in Named(e)
    decreases |acts|
  {
    hide Inv, Step, Effect, Named;
    if acts != [] {
      StepKeeps(s, acts[0]);
      match Step(s, acts[0])
      case NotNow => GoneForGood(s, acts[1..], t);
      case Fault =>
      case Next(s') =>
        StepNames(s, acts[0], t);
        GoneForGood(s', acts[1..], t);
    }
  }

  // A task that nobody tears down is never freed.
  lemma {:induction false} AliveStays(s: State, acts: seq<Action>, t: int)
    requires Inv(s) && t in s.alive && Teardown(t) !in acts
    ensures Run(s, acts).Next? && t in Run(s, acts).s.alive && t in Run(s, acts).s.mem
    ensures Free(t) !in Events(s, acts)
    decreases |acts|
  {
    hide Inv, Step, Effect;
    AliveOwned(s, t);
    if acts != [] {
      StepKeeps(s, acts[0]);
      match Step(s, acts[0])
      case NotNow => AliveStays(s, acts[1..], t);
      case Fault =>
      case Next(s') =>
        AliveStep(s, acts[0], t);
        AliveStays(s', acts[1..], t);
    }
  }

  lemma AliveOwned(s: State, t: int)
    requires Inv(s) && t in s.alive
    ensures t in s.mem
  {}

  lemma AliveStep(s: State, a: Action, t: int)
    requires Inv(s) && t in s.alive && Step(s, a).Next? && a != Teardown(t)
    ensures t in Step(s, a).s.alive && Effect(s, a) != Free(t)
  {
    hide OneOwner, Consistent;
    if a.CpuStep? && s.cpus[a.cpu].pc == Unrecorded {
      assert Doomed(s, s.cpus[a.cpu].current);
    }
  }
}
