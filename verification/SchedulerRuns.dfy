// Whole passes through kmt_schedule and whole calls of kmt_create and kmt_teardown: what a
// CPU does between two times it runs a task, alone or with any other steps in between.
module SchedulerRuns {
  import opened Scheduler

  // ---- A pass, among any other steps ---------------------------------------------------------

  // What CPU c's own steps did to readyTasks and which tasks they freed.
  function Own(s: State, acts: seq<Action>, c: nat): seq<Event>
    decreases |acts|
  {
    if acts == [] then []
    else match Step(s, acts[0])
      case Fault => []
      case NotNow => Own(s, acts[1..], c)
      case Next(s') =>
        (if acts[0] == CpuStep(c) && Effect(s, acts[0]) != Silent then [Effect(s, acts[0])] else [])
        + Own(s', acts[1..], c)
  }

  // CPU c is in the handler all along acts and leaves it with the last of them.
  predicate Inside(s: State, acts: seq<Action>, c: nat)
    decreases |acts|
  {
    c < |s.cpus| &&
    if acts == [] then s.cpus[c].pc == Outside
    else
      s.cpus[c].pc != Outside &&
      match Step(s, acts[0])
      case Fault => false
      case NotNow => Inside(s, acts[1..], c)
      case Next(s') => Inside(s', acts[1..], c)
  }

  // One pass of CPU c: it enters the handler with the first step and leaves it with the last.
  predicate Pass(s: State, acts: seq<Action>, c: nat) {
    && c < |s.cpus| && s.cpus[c].pc == Outside
    && acts != [] && acts[0] == CpuStep(c) && Step(s, acts[0]).Next?
    && Inside(Step(s, acts[0]).s, acts[1..], c)
  }

  // How a pass disposes of the task it found: not at all when that was none, or the spin task.
  predicate Disposed(t: int, freed: bool, own: seq<Event>) {
    own == if t <= 0 then [] else if freed then [Free(t)] else [Queue(t)]
  }

  // How far the pass has come; freed says that the task was in quitTasks when it began.
  ghost predicate SoFar(s: State, c: nat, t: int, freed: bool, own: seq<Event>)
    requires c < |s.cpus|
  {
    var cur := s.cpus[c].current;
    match s.cpus[c].pc
    case Entered => own == [] && cur == t && (freed && t > 0 ==> t in s.quit)
    case Saw(_) => own == [] && cur == t && t > 0 && (freed ==> t in s.quit)
    case Unrecorded => own == [] && cur == t && t > 0
    case Keep => own == [] && cur == t && t > 0 && !freed
    case ToReady => own == [] && cur == t && t > 0 && !freed
    case ToBlocked => false
    case Freed => t > 0 && own == [Free(t)]
    case Queued => t > 0 && own == [Queue(t)] && !freed
    case Scan => Disposed(t, true, own) || (Disposed(t, false, own) && !freed)
    case Pick => Disposed(t, true, own) || (Disposed(t, false, own) && !freed)
    case Picked => cur > 0 && Finished(c, t, freed, own, cur)
    case Outside => Finished(c, t, freed, own, cur)
  }

  // A pass ends with a task it dispatched, or with the spin task, after disposing of the task
  // it found.
  ghost predicate Finished(c: nat, t: int, freed: bool, own: seq<Event>, cur: int) {
    exists left ::
      && (Disposed(t, true, left) || (Disposed(t, false, left) && !freed))
      && if cur > 0 then own == left + [Dispatch(cur, c)] else own == left && cur == Spin(c)
  }

  lemma OwnStep(s: State, c: nat, t: int, freed: bool, own: seq<Event>)
    requires Inv(s) && c < |s.cpus| && s.cpus[c].pc != Outside && SoFar(s, c, t, freed, own)
    ensures CpuNext(s, c).Next? && |CpuNext(s, c).s.cpus| == |s.cpus|
    ensures var e := Effect(s, CpuStep(c));
      SoFar(CpuNext(s, c).s, c, t, freed, own + if e != Silent then [e] else [])
  {
    hide OneOwner, OneRecord;
    assert CpuOk(s, c);
    CpuKeepsAll(s, c);
    assert own + [] == own;
    var s' := CpuNext(s, c).s;
    if s.cpus[c].pc == Pick && s.ready != [] {
      assert s'.cpus[c].current == s.ready[0] && s.ready[0] > 0;
      assert own + [Dispatch(s.ready[0], c)] == own + [Effect(s, CpuStep(c))];
      assert Finished(c, t, freed, own + [Dispatch(s.ready[0], c)], s.ready[0]);
    } else if s.cpus[c].pc == Pick {
      assert Finished(c, t, freed, own, Spin(c));
    }
  }

  // The steps of others leave the pass where it is.
  lemma OtherStep(s: State, a: Action, c: nat, t: int, freed: bool, own: seq<Event>)
    requires Inv(s) && c < |s.cpus| && s.cpus[c].pc != Outside && SoFar(s, c, t, freed, own)
    requires a != CpuStep(c) && Step(s, a).Next?
    ensures |Step(s, a).s.cpus| == |s.cpus| && Step(s, a).s.cpus[c] == s.cpus[c]
    ensures SoFar(Step(s, a).s, c, t, freed, own)
  {
    hide OneOwner, OneRecord, Finished;
    assert CpuOk(s, c);
    if a.CpuStep? && s.cpus[a.cpu].pc.Saw? && (s.cpus[c].pc == Entered || s.cpus[c].pc.Saw?) && t > 0 {
      assert CpuOk(s, a.cpu);
      OneTask(s, c, a.cpu);
    }
  }

  // No two CPUs hold the same task.
  lemma OneTask(s: State, c: nat, d: nat)
    requires Inv(s) && c < |s.cpus| && d < |s.cpus| && c != d
    requires Holds(s.cpus[c], s.cpus[c].current) && Holds(s.cpus[d], s.cpus[d].current)
    ensures s.cpus[d].current != s.cpus[c].current
  {
    hide OneOwner, OneRecord, Consistent;
    Held(s, c);
    Held(s, d);
    if s.cpus[d].current == s.cpus[c].current {
      OnlyOwner(s, OnCpu(d), OnCpu(c), s.cpus[c].current);
    }
  }

  lemma {:induction false} PassFrom(s: State, acts: seq<Action>, c: nat, t: int, freed: bool, own: seq<Event>)
    requires Inv(s) && Inside(s, acts, c) && SoFar(s, c, t, freed, own)
    ensures Run(s, acts).Next? && c < |Run(s, acts).s.cpus| && Run(s, acts).s.cpus[c].pc == Outside
    ensures Finished(c, t, freed, own + Own(s, acts, c), Run(s, acts).s.cpus[c].current)
    decreases |acts|
  {
    hide Inv, SoFar, Finished, Step, Effect;
    if acts == [] {
      assert own + [] == own;
      AtEnd(s, c, t, freed, own);
    } else {
      StepKeeps(s, acts[0]);
      match Step(s, acts[0])
      case Fault =>
      case NotNow => PassFrom(s, acts[1..], c, t, freed, own);
      case Next(s') =>
        var e := Effect(s, acts[0]);
        if acts[0] == CpuStep(c) {
          ItsStep(s, c);
          OwnStep(s, c, t, freed, own);
          var own' := own + if e != Silent then [e] else [];
          PassFrom(s', acts[1..], c, t, freed, own');
          assert own' + Own(s', acts[1..], c) == own + Own(s, acts, c);
        } else {
          OtherStep(s, acts[0], c, t, freed, own);
          PassFrom(s', acts[1..], c, t, freed, own);
          assert own + Own(s', acts[1..], c) == own + Own(s, acts, c);
        }
    }
  }

  lemma ItsStep(s: State, c: nat)
    requires c < |s.cpus|
    ensures Step(s, CpuStep(c)) == CpuNext(s, c)
  {}

  lemma AtEnd(s: State, c: nat, t: int, freed: bool, own: seq<Event>)
    requires c < |s.cpus| && s.cpus[c].pc == Outside && SoFar(s, c, t, freed, own)
    ensures Finished(c, t, freed, own, s.cpus[c].current)
  {}

  // Every pass of a CPU, whatever the other CPUs and threads do meanwhile: the task it found is
  // queued or freed, exactly once, and freed for certain if it was in quitTasks when the pass
  // began; then exactly one task is dispatched to this CPU and runs, or readyTasks was found
  // empty and the spin task runs.
  lemma PassLaw(s: State, acts: seq<Action>, c: nat)
    requires Inv(s) && Pass(s, acts, c)
    ensures Run(s, acts).Next? && c < |Run(s, acts).s.cpus| && Run(s, acts).s.cpus[c].pc == Outside
    ensures var t, cur, own := s.cpus[c].current, Run(s, acts).s.cpus[c].current, Own(s, acts, c);
      Finished(c, t, t in s.quit, own, cur) && (cur > 0 ==> StateIs(Run(s, acts).s, cur, Running))
    ensures Run(s, acts).s.cpus[c].current <= 0 ==>
      Run(s, acts[..|acts| - 1]).Next? && Run(s, acts[..|acts| - 1]).s.ready == []
  {
    hide Finished, OneOwner, OneRecord;
    assert CpuOk(s, c);
    var s1 := Step(s, acts[0]).s;
    StepKeeps(s, acts[0]);
    PassFrom(s1, acts[1..], c, s.cpus[c].current, s.cpus[c].current in s.quit, []);
    assert [] + Own(s1, acts[1..], c) == Own(s1, acts[1..], c);
    assert Own(s, acts, c) == Own(s1, acts[1..], c);
    RunKeeps(s, acts);
    assert CpuOk(Run(s, acts).s, c);
    LeftFromSpin(s1, acts[1..], c);
    assert acts[1..][..|acts| - 2] == acts[..|acts| - 1][1..];
  }

  // The last step of a pass that ends with no task found readyTasks empty.
  lemma {:induction false} LeftFromSpin(s: State, acts: seq<Action>, c: nat)
    requires Inv(s) && Inside(s, acts, c) && s.cpus[c].pc != Outside
    ensures Run(s, acts).Next? && c < |Run(s, acts).s.cpus| && acts != []
    ensures Run(s, acts).s.cpus[c].current <= 0 ==>
      Run(s, acts[..|acts| - 1]).Next? && Run(s, acts[..|acts| - 1]).s.ready == []
    decreases |acts|
  {
    hide Inv, Step, Effect;
    RunKeeps(s, acts);
    StepKeeps(s, acts[0]);
    assert acts[..0] == [];
    match Step(s, acts[0])
    case Fault =>
    case NotNow =>
      LeftFromSpin(s, acts[1..], c);
      assert acts[1..][..|acts| - 2] == acts[..|acts| - 1][1..];
    case Next(s') =>
      if s'.cpus[c].pc != Outside {
        LeftFromSpin(s', acts[1..], c);
        assert acts[1..][..|acts| - 2] == acts[..|acts| - 1][1..];
      } else {
        assert acts == [acts[0]];
        FoundEmpty(s, acts[0], c);
      }
  }

  lemma FoundEmpty(s: State, a: Action, c: nat)
    requires Inv(s) && c < |s.cpus| && s.cpus[c].pc != Outside && Step(s, a).Next?
    requires c < |Step(s, a).s.cpus| && Step(s, a).s.cpus[c].pc == Outside
    ensures Step(s, a).s.cpus[c].current <= 0 ==> s.ready == []
  {
    hide OneOwner, OneRecord;
    assert CpuOk(s, c);
  }

  // ---- A pass ends -----------------------------------------------------------------------------

  function StepsLeft(pc: Pc): nat {
    match pc
    case Outside => 0
    case Entered => 10
    case Saw(_) => 9
    case Unrecorded => 8
    case Keep => 8
    case ToReady => 7
    case ToBlocked => 7
    case Freed => 6
    case Queued => 6
    case Scan => 5
    case Pick => 4
    case Picked => 3
  }

  // Each step of a CPU in the handler brings it nearer the end, and no step of another delays
  // it.
  lemma PassEnds(s: State, a: Action, c: nat)
    requires Inv(s) && c < |s.cpus| && Step(s, a).Next?
    ensures |Step(s, a).s.cpus| == |s.cpus|
    ensures a != CpuStep(c) ==> Step(s, a).s.cpus[c] == s.cpus[c]
    ensures a == CpuStep(c) && s.cpus[c].pc != Outside ==>
      StepsLeft(Step(s, a).s.cpus[c].pc) < StepsLeft(s.cpus[c].pc)
    ensures a == CpuStep(c) && s.cpus[c].pc == Outside ==> Step(s, a).s.cpus[c].pc != Outside
  {
    hide OneOwner, OneRecord;
    assert CpuOk(s, c);
  }

  // ---- A pass alone ----------------------------------------------------------------------------

  function Alone(c: nat, n: nat): seq<Action> {
    seq(n, _ => CpuStep(c))
  }

  lemma AloneStep(s: State, c: nat, n: nat)
    requires c < |s.cpus| && CpuNext(s, c).Next?
    ensures Run(s, Alone(c, n + 1)) == Run(CpuNext(s, c).s, Alone(c, n))
    ensures s.cpus[c].pc != Outside && Inside(CpuNext(s, c).s, Alone(c, n), c) ==> Inside(s, Alone(c, n + 1), c)
    ensures s.cpus[c].pc == Outside && Inside(CpuNext(s, c).s, Alone(c, n), c) ==> Pass(s, Alone(c, n + 1), c)
  {
    hide CpuNext;
    assert Alone(c, n + 1)[0] == CpuStep(c);
    assert Alone(c, n + 1)[1..] == Alone(c, n);
  }

  // The queue once the task found is disposed of.
  function Waiting(s: State, t: int): seq<int> {
    if t > 0 && t !in s.quit then s.ready + [t] else s.ready
  }

  // What is left in memory once the task found is disposed of.
  function MemoryAfter(s: State, t: int): map<int, TaskState> {
    if t <= 0 then s.mem else if t in s.quit then s.mem - {t} else s.mem[t := Ready]
  }

  // The round robin: the CPU now runs the first of the waiting tasks, or its spin task when
  // there is none, and nothing else has changed.
  ghost predicate Switched(s: State, s': State, c: nat)
    requires c < |s.cpus|
  {
    var t := s.cpus[c].current;
    var waiting := Waiting(s, t);
    && |s'.cpus| == |s.cpus| && (forall d :: 0 <= d < |s.cpus| && d != c ==> s'.cpus[d] == s.cpus[d])
    && s'.cpus[c].pc == Outside
    && s'.alive == s.alive && s'.tearing == s.tearing && s'.creating == s.creating && s'.blocked == s.blocked
    && s'.quit == s.quit - {t}
    && if waiting == [] then
         s'.cpus[c].current == Spin(c) && s'.ready == [] && s'.mem == MemoryAfter(s, t)
       else
         && [s'.cpus[c].current] + s'.ready == waiting
         && s'.mem == MemoryAfter(s, t)[waiting[0] := Running]
  }

  // From the scan of the blocked queue on.
  lemma ArriveAlone(s: State, c: nat) returns (n: nat)
    requires Inv(s) && c < |s.cpus| && s.cpus[c].pc == Scan
    ensures Inside(s, Alone(c, n), c) && Run(s, Alone(c, n)).Next?
    ensures Run(s, Alone(c, n)).s ==
      if s.ready == [] then s.(cpus := s.cpus[c := Cpu(Outside, Spin(c))])
      else s.(cpus := s.cpus[c := Cpu(Outside, s.ready[0])], ready := s.ready[1..], mem := s.mem[s.ready[0] := Running])
  {
    hide OneOwner, OneRecord;
    assert CpuOk(s, c);
    var s1 := CpuNext(s, c).s;
    CpuKeepsAll(s, c);
    CpuKeepsAll(s1, c);
    var s2 := CpuNext(s1, c).s;
    if s.ready == [] {
      AloneStep(s1, c, 0);
      AloneStep(s, c, 1);
      n := 2;
    } else {
      assert CpuOk(s2, c);
      AloneStep(s2, c, 0);
      AloneStep(s1, c, 1);
      AloneStep(s, c, 2);
      n := 3;
    }
  }

  // The state of the pass when it comes to the scan.
  ghost predicate Left(s: State, s': State, c: nat)
    requires c < |s.cpus|
  {
    var t := s.cpus[c].current;
    s' == s.(cpus := s.cpus[c := Cpu(Scan, NULL)], quit := s.quit - {t}, ready := Waiting(s, t), mem := MemoryAfter(s, t))
  }

  // From the state read to the scan.
  lemma LeaveAlone(s: State, c: nat) returns (n: nat, s': State)
    requires Inv(s) && c < |s.cpus| && s.cpus[c].pc.Saw?
    ensures Inv(s') && Left(s, s', c)
    ensures forall m: nat :: Inside(s', Alone(c, m), c) ==> Inside(s, Alone(c, n + m), c)
    ensures forall m: nat :: Run(s, Alone(c, n + m)) == Run(s', Alone(c, m))
  {
    hide OneOwner, OneRecord, Run, Inside, Alone;
    assert CpuOk(s, c);
    CpuKeepsAll(s, c);
    var s1 := CpuNext(s, c).s;
    CpuKeepsAll(s1, c);
    var s2 := CpuNext(s1, c).s;
    CpuKeepsAll(s2, c);
    var s3 := CpuNext(s2, c).s;
    if s.cpus[c].current in s.quit {
      n, s' := 3, s3;
      forall m: nat
        ensures Inside(s', Alone(c, m), c) ==> Inside(s, Alone(c, n + m), c)
        ensures Run(s, Alone(c, n + m)) == Run(s', Alone(c, m))
      {
        AloneStep(s2, c, m);
        AloneStep(s1, c, m + 1);
        AloneStep(s, c, m + 2);
      }
    } else {
      CpuKeepsAll(s3, c);
      n, s' := 4, CpuNext(s3, c).s;
      forall m: nat
        ensures Inside(s', Alone(c, m), c) ==> Inside(s, Alone(c, n + m), c)
        ensures Run(s, Alone(c, n + m)) == Run(s', Alone(c, m))
      {
        AloneStep(s3, c, m);
        AloneStep(s2, c, m + 1);
        AloneStep(s1, c, m + 2);
        AloneStep(s, c, m + 3);
      }
    }
  }

  // A CPU stepped alone from a task, or from none, through the handler: the task goes to the
  // end of readyTasks, or is freed if it was torn down, and the CPU runs the first task.
  lemma HandlerAlone(s: State, c: nat) returns (n: nat)
    requires Inv(s) && c < |s.cpus| && s.cpus[c].pc == Outside
    ensures Pass(s, Alone(c, n), c)
    ensures Run(s, Alone(c, n)).Next? && Inv(Run(s, Alone(c, n)).s) && Switched(s, Run(s, Alone(c, n)).s, c)
  {
    hide OneOwner, OneRecord, Run, Inside, Alone, Pass;
    assert CpuOk(s, c);
    var t := s.cpus[c].current;
    CpuKeepsAll(s, c);
    var s1 := CpuNext(s, c).s;
    CpuKeepsAll(s1, c);
    var s2 := CpuNext(s1, c).s;
    if t > 0 {
      var k, s3 := LeaveAlone(s2, c);
      var m := ArriveAlone(s3, c);
      AloneStep(s1, c, k + m);
      AloneStep(s, c, k + m + 1);
      n := k + m + 2;
    } else {
      QuitPositive(s);
      var m := ArriveAlone(s2, c);
      AloneStep(s1, c, m);
      AloneStep(s, c, m + 1);
      n := m + 2;
    }
    RunKeeps(s, Alone(c, n));
  }

  lemma QuitPositive(s: State)
    requires Inv(s)
    ensures forall t :: t in s.quit ==> t > 0
  {}

  // ---- Creating and tearing down ---------------------------------------------------------------

  // kmt_create alone: the task is alive, READY, and last in line.
  lemma CreateAlone(s: State, t: int, junk: TaskState)
    requires Inv(s) && t > 0 && t !in s.mem
    ensures Run(s, [Create(t, junk), Prepare(t), Publish(t)]) ==
      Next(s.(mem := s.mem[t := Ready], ready := s.ready + [t], alive := s.alive + {t}))
  {
    hide OneOwner, Run;
    Creates(s, t, junk);
    var s1 := Step(s, Create(t, junk)).s;
    var s2 := Step(s1, Prepare(t)).s;
    assert t !in s.creating;
    RunThree(s, Create(t, junk), Prepare(t), Publish(t));
    assert Step(s2, Publish(t)).s.creating == s.creating;
  }

  lemma RunThree(s: State, a: Action, b: Action, d: Action)
    requires Step(s, a).Next? && Step(Step(s, a).s, b).Next? && Step(Step(Step(s, a).s, b).s, d).Next?
    ensures Run(s, [a, b, d]) == Step(Step(Step(s, a).s, b).s, d)
  {
    hide Step, Run;
    assert [a, b, d] == [a] + [b, d] && [b, d] == [b] + [d] && [d] == [d] + [];
    RunFirst(s, a, [b, d]);
    RunFirst(Step(s, a).s, b, [d]);
    RunFirst(Step(Step(s, a).s, b).s, d, []);
    RunNothing(Step(Step(Step(s, a).s, b).s, d).s);
  }

  lemma RunFirst(s: State, a: Action, rest: seq<Action>)
    requires Step(s, a).Next?
    ensures Run(s, [a] + rest) == Run(Step(s, a).s, rest)
  {
    hide Step;
    assert ([a] + rest)[1..] == rest;
  }

  lemma RunNothing(s: State)
    ensures Run(s, []) == Next(s)
  {}

  // kmt_teardown takes its first step exactly when the task is alive, and its second one then.
  lemma TeardownTaken(s: State, t: int)
    ensures Step(s, Teardown(t)).Next? <==> t in s.alive
    ensures Step(s, Quit(t)).Next? <==> t in s.tearing
    ensures t in s.alive ==>
      Run(s, [Teardown(t), Quit(t)]) == Next(s.(alive := s.alive - {t}, tearing := s.tearing - {t}, quit := s.quit + {t}))
  {
    if t in s.alive {
      assert [Teardown(t), Quit(t)] == [Teardown(t)] + [Quit(t)] && [Quit(t)] == [Quit(t)] + [];
      RunFirst(s, Teardown(t), [Quit(t)]);
      RunFirst(Step(s, Teardown(t)).s, Quit(t), []);
      RunNothing(Step(Step(s, Teardown(t)).s, Quit(t)).s);
      assert s.tearing + {t} - {t} == s.tearing - {t};
    }
  }

  lemma {:induction false} RunAppend(s: State, xs: seq<Action>, ys: seq<Action>)
    requires Run(s, xs).Next?
    ensures Run(s, xs + ys) == Run(Run(s, xs).s, ys)
    ensures forall e :: e in Events(Run(s, xs).s, ys) ==> e in Events(s, xs + ys)
    decreases |xs|
  {
    hide Step, Effect;
    if xs == [] {
      assert xs + ys == ys;
    } else {
      assert (xs + ys)[1..] == xs[1..] + ys && (xs + ys)[0] == xs[0];
      match Step(s, xs[0])
      case Fault =>
      case NotNow => RunAppend(s, xs[1..], ys);
      case Next(s') => RunAppend(s', xs[1..], ys);
    }
  }

  lemma {:induction false} OwnAmongEvents(s: State, acts: seq<Action>, c: nat)
    ensures forall e :: e in Own(s, acts, c) ==> e in Events(s, acts)
    decreases |acts|
  {
    hide Step, Effect;
    if acts != [] {
      match Step(s, acts[0])
      case Fault =>
      case NotNow => OwnAmongEvents(s, acts[1..], c);
      case Next(s') => OwnAmongEvents(s', acts[1..], c);
    }
  }

  // Any pass of the CPU that runs a task of quitTasks frees it, whatever others do meanwhile.
  lemma QuitIsFreed(s: State, acts: seq<Action>, c: nat)
    requires Inv(s) && Pass(s, acts, c) && s.cpus[c].current in s.quit
    ensures Run(s, acts).Next? && Free(s.cpus[c].current) in Events(s, acts)
  {
    hide Inv, Run, Events, Own;
    QuitPositive(s);
    PassLaw(s, acts, c);
    OwnAmongEvents(s, acts, c);
    var own, cur, t := Own(s, acts, c), Run(s, acts).s.cpus[c].current, s.cpus[c].current;
    var left :| Disposed(t, true, left) && (if cur > 0 then own == left + [Dispatch(cur, c)] else own == left && cur == Spin(c));
    assert left[0] == Free(t) && own[0] == left[0];
  }

  // A running task that is torn down is freed at its CPU's next pass and is then nowhere.
  lemma TornDownIsFreed(s: State, t: int, c: nat) returns (n: nat)
    requires Inv(s) && t in s.alive && c < |s.cpus| && s.cpus[c] == Cpu(Outside, t)
    ensures var acts := [Teardown(t), Quit(t)] + Alone(c, n);
      && Run(s, acts).Next? && Free(t) in Events(s, acts)
      && var s' := Run(s, acts).s;
         Inv(s') && t !in s'.mem && t !in s'.alive + s'.tearing + s'.quit && t !in s'.ready && t !in s'.creating
  {
    hide OneOwner, Run, Events, Pass, Alone;
    TeardownTaken(s, t);
    RunKeeps(s, [Teardown(t), Quit(t)]);
    var s2 := Run(s, [Teardown(t), Quit(t)]).s;
    n := HandlerAlone(s2, c);
    QuitIsFreed(s2, Alone(c, n), c);
    RunAppend(s, [Teardown(t), Quit(t)], Alone(c, n));
    RunKeeps(s, [Teardown(t), Quit(t)] + Alone(c, n));
    var s' := Run(s2, Alone(c, n)).s;
    HeldNotReady(s2, c);
    assert t !in s'.mem;
    Nowhere(s', t);
  }

  lemma HeldNotReady(s: State, c: nat)
    requires Inv(s) && c < |s.cpus| && Holds(s.cpus[c], s.cpus[c].current)
    ensures s.cpus[c].current !in s.ready
  {
    hide OneRecord, Consistent, OneOwner;
    Held(s, c);
    var t := s.cpus[c].current;
    forall i: nat | i < |s.ready| ensures s.ready[i] != t {
      if s.ready[i] == t { OnlyOwner(s, Slot(i), OnCpu(c), t); }
    }
  }

  lemma Nowhere(s: State, t: int)
    requires Inv(s) && t !in s.mem
    ensures t !in s.alive + s.tearing + s.quit && t !in s.ready && t !in s.creating
  {
    assert !Owns(s, Creator, t);
    assert forall i: nat :: i < |s.ready| ==> !Owns(s, Slot(i), t);
  }
}
