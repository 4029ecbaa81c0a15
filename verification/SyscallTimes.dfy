// The profile of a traced program: the time spent in each system call, kept in a doubly
// linked list behind a head node, most expensive call first.
module SyscallTimes {

  // A node's command; the head node has none.
  datatype Name = NoName | Name(text: string)
  datatype Entry = Entry(time: real, cmd: Name)

  const LIMIT: real := 1000000000.0
  const HEAD := Entry(LIMIT, NoName)

  // ---- The list as a sequence, head first --------------------------------------------------

  // The place of a command past the head, or the length when it has none.
  function Find(es: seq<Entry>, cmd: Name, from: nat): (k: nat)
    requires from <= |es|
    ensures from <= k <= |es| && (k < |es| ==> es[k].cmd == cmd)
    ensures forall j :: from <= j < k ==> es[j].cmd != cmd
    decreases |es| - from
  {
    if from == |es| || es[from].cmd == cmd then from else Find(es, cmd, from + 1)
  }

  // Entry k moves towards the head past every entry with less time.
  function BubbleUp(es: seq<Entry>, k: nat): (r: seq<Entry>)
    requires k < |es|
    ensures |r| == |es|
    decreases k
  {
    if k > 0 && es[k].time > es[k - 1].time
    then BubbleUp(es[k := es[k - 1]][k - 1 := es[k]], k - 1)
    else es
  }

  function Recorded(es: seq<Entry>, e: Entry): (r: seq<Entry>)
    requires |es| > 0
    ensures |r| > 0
  {
    var k := Find(es, e.cmd, 1);
    if k < |es| then BubbleUp(es[k := Entry(es[k].time + e.time, e.cmd)], k)
    else BubbleUp(es + [e], k)
  }

  function RecordedAll(inputs: seq<Entry>): (r: seq<Entry>)
    ensures |r| > 0
  {
    if inputs == [] then [HEAD]
    else Recorded(RecordedAll(inputs[..|inputs| - 1]), inputs[|inputs| - 1])
  }

  ghost predicate NonIncreasing(es: seq<Entry>) {
    forall i, j :: 0 <= i <= j < |es| ==> es[i].time >= es[j].time
  }

  ghost predicate DistinctCommands(es: seq<Entry>) {
    forall i, j :: 0 <= i < j < |es| ==> es[i].cmd != es[j].cmd
  }

  // What record relies on: the head is in place, and each command has one entry.
  ghost predicate Profile(es: seq<Entry>) {
    |es| > 0 && es[0] == HEAD && DistinctCommands(es) && NonIncreasing(es)
  }

  // ---- Sums ----------------------------------------------------------------------------------

  datatype Which = All | Only(cmd: Name)

  function Weight(e: Entry, w: Which): real {
    if w.All? || e.cmd == w.cmd then e.time else 0.0
  }

  function Sum(es: seq<Entry>, w: Which): real {
    if es == [] then 0.0 else Sum(es[..|es| - 1], w) + Weight(es[|es| - 1], w)
  }

  lemma {:induction false} SumUpdate(es: seq<Entry>, k: nat, e: Entry, w: Which)
    requires k < |es|
    ensures Sum(es[k := e], w) == Sum(es, w) - Weight(es[k], w) + Weight(e, w)
  {
    var n := |es| - 1;
    if k == n {
      assert es[k := e][..n] == es[..n];
    } else {
      SumUpdate(es[..n], k, e, w);
      assert es[k := e][..n] == es[..n][k := e];
    }
  }

  lemma SumAppend(es: seq<Entry>, e: Entry, w: Which)
    ensures Sum(es + [e], w) == Sum(es, w) + Weight(e, w)
  {
    assert (es + [e])[..|es|] == es;
  }

  lemma {:induction false} SumSplitHead(es: seq<Entry>, w: Which)
    requires |es| > 0
    ensures Sum(es, w) == Weight(es[0], w) + Sum(es[1..], w)
  {
    var n := |es| - 1;
    if n > 0 {
      SumSplitHead(es[..n], w);
      assert es[..n][1..] == es[1..][..n - 1];
    } else {
      assert es[..0] == [] && es[1..] == [];
      assert Sum(es[..0], w) == 0.0;
    }
  }

  // A command's entries past those of other commands add nothing.
  lemma {:induction false} SumOfOne(es: seq<Entry>, k: nat)
    requires k < |es| && DistinctCommands(es)
    ensures Sum(es, Only(es[k].cmd)) == es[k].time
  {
    var n := |es| - 1;
    if k == n { SumOfNone(es[..n], es[k].cmd); } else { SumOfOne(es[..n], k); }
  }

  lemma {:induction false} SumOfNone(es: seq<Entry>, cmd: Name)
    requires forall i :: 0 <= i < |es| ==> es[i].cmd != cmd
    ensures Sum(es, Only(cmd)) == 0.0
  {
    if es != [] { SumOfNone(es[..|es| - 1], cmd); }
  }

  // ---- What moving an entry up keeps -----------------------------------------------------------

  lemma {:induction false} BubbleUpSums(es: seq<Entry>, k: nat, w: Which)
    requires k < |es|
    ensures Sum(BubbleUp(es, k), w) == Sum(es, w)
    decreases k
  {
    if k > 0 && es[k].time > es[k - 1].time {
      SumUpdate(es, k, es[k - 1], w);
      SumUpdate(es[k := es[k - 1]], k - 1, es[k], w);
      BubbleUpSums(es[k := es[k - 1]][k - 1 := es[k]], k - 1, w);
    }
  }

  lemma {:induction false} BubbleUpContents(es: seq<Entry>, k: nat)
    requires k < |es|
    ensures forall e :: e in BubbleUp(es, k) <==> e in es
    ensures DistinctCommands(es) ==> DistinctCommands(BubbleUp(es, k))
    decreases k
  {
    if k > 0 && es[k].time > es[k - 1].time {
      var s := es[k := es[k - 1]][k - 1 := es[k]];
      assert s[k] == es[k - 1] && s[k - 1] == es[k];
      assert forall i :: 0 <= i < |es| && i != k && i != k - 1 ==> s[i] == es[i];
      assert forall e :: e in s <==> e in es;
      BubbleUpContents(s, k - 1);
    }
  }

  // All is in order but entry k, which may be too far from the head.
  ghost predicate OrderedBut(es: seq<Entry>, k: nat) {
    && (forall i, j :: 0 <= i <= j < |es| && i != k && j != k ==> es[i].time >= es[j].time)
    && (forall j :: k < j < |es| ==> es[k].time >= es[j].time)
  }

  lemma {:induction false} BubbleUpSorts(es: seq<Entry>, k: nat)
    requires k < |es| && OrderedBut(es, k)
    ensures NonIncreasing(BubbleUp(es, k))
    decreases k
  {
    if k > 0 && es[k].time > es[k - 1].time {
      BubbleUpSorts(es[k := es[k - 1]][k - 1 := es[k]], k - 1);
    }
  }

  // The head keeps its place exactly when the moving entry has no more time than it.
  lemma {:induction false} BubbleUpHead(es: seq<Entry>, k: nat)
    requires 0 < k < |es| && OrderedBut(es, k)
    ensures es[k].time <= es[0].time ==> BubbleUp(es, k)[0] == es[0]
    ensures es[k].time > es[0].time ==> BubbleUp(es, k)[0] == es[k] && BubbleUp(es, k)[1] == es[0]
    decreases k
  {
    if es[k].time > es[k - 1].time {
      var s := es[k := es[k - 1]][k - 1 := es[k]];
      if k > 1 { BubbleUpHead(s, k - 1); } else { assert BubbleUp(s, 0) == s; }
    }
  }

  lemma BubbleUpOnce(es: seq<Entry>, k: nat)
    requires k < |es|
    ensures k > 0 && es[k].time > es[k - 1].time ==> BubbleUp(es, k) == BubbleUp(es[k := es[k - 1]][k - 1 := es[k]], k - 1)
    ensures !(k > 0 && es[k].time > es[k - 1].time) ==> BubbleUp(es, k) == es
  {}

  // The list with entry k moved to place j and those in between one place down.
  function MoveUp(es: seq<Entry>, k: nat, j: nat): (r: seq<Entry>)
    requires j <= k < |es|
    ensures |r| == |es| && r[j] == es[k]
    ensures forall i :: 0 <= i < j ==> r[i] == es[i]
    ensures forall i :: j < i <= k ==> r[i] == es[i - 1]
    ensures forall i :: k < i < |es| ==> r[i] == es[i]
  {
    es[..j] + [es[k]] + es[j..k] + es[k + 1..]
  }

  // The moving entry ends behind every entry that has no less time and before those that have
  // less, and all others stay in their order.
  lemma {:induction false} BubbleUpPlace(es: seq<Entry>, k: nat) returns (j: nat)
    requires k < |es| && OrderedBut(es, k)
    ensures j <= k && BubbleUp(es, k) == MoveUp(es, k, j)
    ensures forall i :: 0 <= i < j ==> es[i].time >= es[k].time
    ensures forall i :: j <= i < k ==> es[i].time < es[k].time
    decreases k
  {
    hide BubbleUp, MoveUp;
    BubbleUpOnce(es, k);
    if k > 0 && es[k].time > es[k - 1].time {
      var s := es[k := es[k - 1]][k - 1 := es[k]];
      assert forall i :: 0 <= i < |es| ==> s[i] == if i == k then es[k - 1] else if i == k - 1 then es[k] else es[i];
      j := BubbleUpPlace(s, k - 1);
      forall i | 0 <= i < |es| ensures MoveUp(s, k - 1, j)[i] == MoveUp(es, k, j)[i] {}
      assert MoveUp(s, k - 1, j) == MoveUp(es, k, j);
      forall i | j <= i < k ensures es[i].time < es[k].time {
        assert i < k - 1 ==> s[i].time < s[k - 1].time;
      }
      forall i | 0 <= i < j ensures es[i].time >= es[k].time {
        assert s[i].time >= s[k - 1].time;
      }
    } else {
      j := k;
      forall i | 0 <= i < |es| ensures MoveUp(es, k, k)[i] == es[i] {}
      assert MoveUp(es, k, k) == es;
      forall i | 0 <= i < k ensures es[i].time >= es[k].time {
        assert es[i].time >= es[k - 1].time;
      }
    }
  }

  // ---- One call of record ----------------------------------------------------------------------

  // Recording adds the time to the command's total and to no other.
  lemma RecordedSums(es: seq<Entry>, e: Entry, w: Which)
    requires |es| > 0
    ensures Sum(Recorded(es, e), w) == Sum(es, w) + Weight(e, w)
  {
    hide BubbleUp, Sum;
    var k := Find(es, e.cmd, 1);
    if k < |es| {
      var up := Entry(es[k].time + e.time, e.cmd);
      SumUpdate(es, k, up, w);
      BubbleUpSums(es[k := up], k, w);
    } else {
      SumAppend(es, e, w);
      BubbleUpSums(es + [e], k, w);
    }
  }

  function Commands(es: seq<Entry>): set<Name> {
    set e | e in es :: e.cmd
  }

  lemma RecordedCommands(es: seq<Entry>, e: Entry)
    requires |es| > 0 && DistinctCommands(es) && es[0].cmd != e.cmd
    ensures DistinctCommands(Recorded(es, e))
    ensures Commands(Recorded(es, e)) == Commands(es) + {e.cmd}
  {
    hide BubbleUp;
    var k := Find(es, e.cmd, 1);
    var s := if k < |es| then es[k := Entry(es[k].time + e.time, e.cmd)] else es + [e];
    assert s[k].cmd == e.cmd;
    assert forall i :: 0 <= i < |es| ==> s[i].cmd == es[i].cmd;
    BubbleUpContents(s, k);
    SameCommands(es, s, e.cmd);
    assert Commands(Recorded(es, e)) == Commands(s);
  }

  lemma SameCommands(es: seq<Entry>, s: seq<Entry>, cmd: Name)
    requires |es| <= |s| <= |es| + 1
    requires forall i :: 0 <= i < |es| ==> s[i].cmd == es[i].cmd
    requires exists i :: 0 <= i < |s| && s[i].cmd == cmd
    requires |s| > |es| ==> s[|es|].cmd == cmd
    ensures Commands(s) == Commands(es) + {cmd}
  {
    forall c ensures c in Commands(s) <==> c in Commands(es) || c == cmd {
      if c in Commands(s) {
        var i :| 0 <= i < |s| && s[i].cmd == c;
        if i < |es| { assert es[i] in es; }
      }
      if c in Commands(es) {
        var i :| 0 <= i < |es| && es[i].cmd == c;
        assert s[i] in s;
      }
      if c == cmd {
        var i :| 0 <= i < |s| && s[i].cmd == cmd;
        assert s[i] in s;
      }
    }
  }

  // The list stays a profile exactly when the command's total is within the head's time.
  // Past it the command and the head change places, and the next call meets a node without
  // a command.
  lemma RecordedProfile(es: seq<Entry>, e: Entry)
    requires Profile(es) && e.cmd != NoName && e.time >= 0.0
    ensures Profile(Recorded(es, e)) <==> Sum(es, Only(e.cmd)) + e.time <= LIMIT
    ensures !Profile(Recorded(es, e)) ==>
      |Recorded(es, e)| > 1 && Recorded(es, e)[0].cmd == e.cmd && Recorded(es, e)[1] == HEAD
    ensures NonIncreasing(Recorded(es, e)) && DistinctCommands(Recorded(es, e))
  {
    hide BubbleUp, Sum;
    RecordedCommands(es, e);
    var k := Find(es, e.cmd, 1);
    var s := if k < |es| then es[k := Entry(es[k].time + e.time, e.cmd)] else es + [e];
    if k < |es| { SumOfOne(es, k); } else { SumOfNone(es, e.cmd); }
    BubbleUpSorts(s, k);
    BubbleUpHead(s, k);
  }

  // ---- Any sequence of calls ----------------------------------------------------------------------

  ghost predicate WithinLimit(inputs: seq<Entry>) {
    && (forall e :: e in inputs ==> e.time >= 0.0 && e.cmd != NoName)
    && (forall e :: e in inputs ==> Sum(inputs, Only(e.cmd)) <= LIMIT)
  }

  lemma PrefixWithinLimit(inputs: seq<Entry>)
    requires WithinLimit(inputs) && inputs != []
    ensures WithinLimit(inputs[..|inputs| - 1])
  {
    var before, last := inputs[..|inputs| - 1], inputs[|inputs| - 1];
    assert last in inputs;
    forall e | e in before ensures e in inputs && Sum(before, Only(e.cmd)) <= LIMIT {
      assert e in inputs;
    }
  }

  // The list holds the head and one entry for each command recorded.
  lemma {:induction false} AllSums(inputs: seq<Entry>, w: Which)
    ensures Sum(RecordedAll(inputs), w) == Weight(HEAD, w) + Sum(inputs, w)
  {
    if inputs == [] {
      assert [HEAD][..0] == [];
      assert Sum([HEAD], w) == Sum([], w) + Weight(HEAD, w);
    } else {
      AllSums(inputs[..|inputs| - 1], w);
      RecordedSums(RecordedAll(inputs[..|inputs| - 1]), inputs[|inputs| - 1], w);
    }
  }

  lemma {:induction false} AllProfile(inputs: seq<Entry>)
    requires WithinLimit(inputs)
    ensures Profile(RecordedAll(inputs))
    ensures Commands(RecordedAll(inputs)) == Commands(inputs) + {NoName}
  {
    hide Sum, Recorded;
    if inputs == [] {
      assert Commands([HEAD]) == {NoName};
    } else {
      var before, last := inputs[..|inputs| - 1], inputs[|inputs| - 1];
      assert last in inputs && inputs == before + [last];
      PrefixWithinLimit(inputs);
      AllProfile(before);
      AllSums(before, Only(last.cmd));
      SumAppend(before, last, Only(last.cmd));
      RecordedProfile(RecordedAll(before), last);
      RecordedCommands(RecordedAll(before), last);
      SameCommands(before, inputs, last.cmd);
    }
  }

  // After any calls whose totals stay within the head's time: one entry per command, holding
  // the sum of its times, most expensive first, and together they are the total time.
  lemma ProfileOfRun(inputs: seq<Entry>)
    requires WithinLimit(inputs)
    ensures Profile(RecordedAll(inputs))
    ensures forall i :: 1 <= i < |RecordedAll(inputs)| ==>
      RecordedAll(inputs)[i].time == Sum(inputs, Only(RecordedAll(inputs)[i].cmd))
    ensures Commands(RecordedAll(inputs)[1..]) == Commands(inputs)
    ensures Sum(RecordedAll(inputs)[1..], All) == Sum(inputs, All)
  {
    hide Sum, RecordedAll;
    var es := RecordedAll(inputs);
    AllProfile(inputs);
    forall i | 1 <= i < |es| ensures es[i].time == Sum(inputs, Only(es[i].cmd)) {
      SumOfOne(es, i);
      AllSums(inputs, Only(es[i].cmd));
      assert es[0].cmd != es[i].cmd;
    }
    AllSums(inputs, All);
    SumSplitHead(es, All);
    TailCommands(es);
    assert NoName !in Commands(inputs);
  }

  lemma TailCommands(es: seq<Entry>)
    requires |es| > 0 && DistinctCommands(es)
    ensures Commands(es[1..]) == Commands(es) - {es[0].cmd}
  {
    forall c ensures c in Commands(es[1..]) <==> c in Commands(es) && c != es[0].cmd {
      if c in Commands(es) && c != es[0].cmd {
        var i :| 0 <= i < |es| && es[i].cmd == c;
        assert es[1..][i - 1] in es[1..];
      }
      if c in Commands(es[1..]) {
        var i :| 0 <= i < |es[1..]| && es[1..][i].cmd == c;
        assert es[i + 1].cmd == c && es[i + 1] in es;
      }
    }
  }

  // The head stays in place through a whole run exactly when no command's total exceeds its
  // time; otherwise the call that exceeds it is the last one that can be made.
  lemma {:induction false} HeadStaysIff(inputs: seq<Entry>)
    requires forall e :: e in inputs ==> e.time >= 0.0 && e.cmd != NoName
    ensures (forall n :: 0 <= n <= |inputs| ==> Profile(RecordedAll(inputs[..n]))) <==> WithinLimit(inputs)
  {
    hide Sum, Recorded, RecordedAll, Profile;
    if inputs == [] {
      AllProfile(inputs);
      assert forall n :: 0 <= n <= |inputs| ==> inputs[..n] == inputs;
    } else {
      var before, last := inputs[..|inputs| - 1], inputs[|inputs| - 1];
      assert last in inputs && inputs == before + [last] && inputs[..|inputs|] == inputs;
      HeadStaysIff(before);
      assert forall n :: 0 <= n <= |before| ==> inputs[..n] == before[..n];
      if WithinLimit(inputs) {
        PrefixWithinLimit(inputs);
        AllProfile(inputs);
      } else if WithinLimit(before) {
        LastExceeds(before, last);
      }
    }
  }

  // If the last input is the one that breaks the limit, its call loses the head.
  lemma LastExceeds(before: seq<Entry>, last: Entry)
    requires WithinLimit(before) && !WithinLimit(before + [last])
    requires last.time >= 0.0 && last.cmd != NoName
    ensures !Profile(RecordedAll(before + [last]))
  {
    hide Sum, Recorded;
    var inputs := before + [last];
    assert inputs[..|inputs| - 1] == before;
    AllProfile(before);
    AllSums(before, Only(last.cmd));
    SumAppend(before, last, Only(last.cmd));
    RecordedProfile(RecordedAll(before), last);
    var e :| e in inputs && Sum(inputs, Only(e.cmd)) > LIMIT;
    SumAppend(before, last, Only(e.cmd));
    assert e in before ==> Sum(before, Only(e.cmd)) <= LIMIT;
  }

  // One call of more than 1e9: the command is now where the head was.
  lemma HeadLostExample()
    ensures var slow := Entry(LIMIT + 1.0, Name("read")); RecordedAll([slow]) == [slow, HEAD]
  {
    var slow := Entry(LIMIT + 1.0, Name("read"));
    assert [slow][..0] == [] && RecordedAll([]) == [HEAD];
    assert Find([HEAD], slow.cmd, 1) == 1;
    var s := [HEAD] + [slow];
    assert s[1 := s[0]][0 := s[1]] == [slow, HEAD];
  }

  // ---- The list itself ---------------------------------------------------------------------------

  class Rcrd {
    var time: real
    var cmd: Name
    var prior: Rcrd?
    var next: Rcrd?

    constructor (time: real, cmd: Name)
      ensures this.time == time && this.cmd == cmd && prior == null && next == null
    {
      this.time, this.cmd, prior, next := time, cmd, null, null;
    }
  }

  class Profiler {
    const headNode: Rcrd
    var totaltime: real
    ghost var nodes: seq<Rcrd>
    ghost var entries: seq<Entry>

    ghost predicate Linked()
      reads this, nodes
    {
      && |nodes| > 0 && nodes[0] == headNode
      && (forall i {:trigger nodes[i].next} :: 0 <= i < |nodes| ==>
            nodes[i].next == (if i + 1 < |nodes| then nodes[i + 1] else null))
      && (forall i {:trigger nodes[i].prior} :: 0 <= i < |nodes| ==>
            nodes[i].prior == (if i > 0 then nodes[i - 1] else null))
      && (forall i, j :: 0 <= i < j < |nodes| ==> nodes[i] != nodes[j])
    }

    ghost predicate Valid()
      reads this, nodes
    {
      && Linked() && |entries| == |nodes|
      && (forall i {:trigger nodes[i].time} {:trigger nodes[i].cmd} :: 0 <= i < |nodes| ==>
            nodes[i].time == entries[i].time && nodes[i].cmd == entries[i].cmd)
    }

    constructor ()
      ensures Valid() && entries == [HEAD] && totaltime == 0.0 && fresh(nodes)
    {
      headNode := new Rcrd(LIMIT, NoName);
      totaltime := 0.0;
      nodes := [headNode];
      entries := [HEAD];
    }

    method SwapWithPrior(asist: Rcrd, above: Rcrd, ghost i: nat)
      requires Valid() && 0 < i < |nodes| && asist == nodes[i] && above == nodes[i - 1]
      modifies asist`cmd, asist`time, above`cmd, above`time, `entries
      ensures Valid() && entries == old(entries)[i := old(entries)[i - 1]][i - 1 := old(entries)[i]]
    {
      var cmda, timea := asist.cmd, asist.time;
      asist.cmd, asist.time := above.cmd, above.time;
      above.cmd, above.time := cmda, timea;
      entries := entries[i := entries[i - 1]][i - 1 := entries[i]];
    }

    // Moves the contents of a node towards the head; the nodes themselves stay.
    method Raise(start: Rcrd, ghost k: nat)
      requires Valid() && k < |nodes| && start == nodes[k]
      modifies nodes, `entries
      ensures Valid() && entries == BubbleUp(old(entries), k)
    {
      var asist := start;
      ghost var i := k;
      while asist.prior != null && asist.time > asist.prior.time
        invariant 0 <= i < |nodes| && Valid() && asist == nodes[i]
        invariant BubbleUp(entries, i) == BubbleUp(old(entries), k)
        decreases i
      {
        var above := asist.prior;
        assert asist.prior == nodes[i - 1];
        SwapWithPrior(asist, above, i);
        asist, i := above, i - 1;
      }
    }

    // The node of a command, and the one before it.
    method Search(cmd: Name) returns (prior: Rcrd, asist: Rcrd?)
      requires Valid() && forall i :: 1 <= i < |entries| ==> entries[i].cmd != NoName
      ensures var k := Find(entries, cmd, 1);
        && prior == nodes[k - 1]
        && asist == (if k < |nodes| then nodes[k] else null)
    {
      prior, asist := headNode, headNode.next;
      ghost var k := 1;
      while asist != null && asist.cmd != cmd
        invariant 1 <= k <= |nodes| && prior == nodes[k - 1]
        invariant asist == (if k < |nodes| then nodes[k] else null)
        invariant forall j :: 1 <= j < k ==> entries[j].cmd != cmd
        decreases |nodes| - k
      {
        assert asist == nodes[k] && asist.cmd != NoName;
        prior, asist, k := asist, asist.next, k + 1;
      }
      assert k == Find(entries, cmd, 1);
    }

    // record, once the call's name and time are parsed.
    method Record(cmd: string, time: real)
      requires Valid() && forall i :: 1 <= i < |entries| ==> entries[i].cmd != NoName
      modifies this, nodes
      ensures Valid() && entries == Recorded(old(entries), Entry(time, Name(cmd)))
      ensures totaltime == old(totaltime) + time
      ensures nodes == old(nodes) || (|nodes| == |old(nodes)| + 1 && nodes[..|old(nodes)|] == old(nodes) && fresh(nodes[|nodes| - 1]))
    {
      hide BubbleUp, Find;
      totaltime := totaltime + time;
      var rc := new Rcrd(time, Name(cmd));
      var prior, asist := Search(rc.cmd);
      ghost var k := Find(entries, Name(cmd), 1);
      if asist != null {
        asist.time := asist.time + rc.time;
        entries := entries[k := Entry(entries[k].time + time, Name(cmd))];
        Raise(asist, k);
      } else {
        Append(prior, rc);
        Raise(rc, k);
      }
    }

    // Links a new node behind the last one.
    method Append(prior: Rcrd, rc: Rcrd)
      requires Valid() && prior == nodes[|nodes| - 1] && rc !in nodes
      requires rc.prior == null && rc.next == null
      modifies prior`next, rc`prior, `nodes, `entries
      ensures Valid() && nodes == old(nodes) + [rc] && entries == old(entries) + [Entry(rc.time, rc.cmd)]
    {
      prior.next := rc;
      rc.prior := prior;
      nodes, entries := nodes + [rc], entries + [Entry(rc.time, rc.cmd)];
    }

    // cleanmap: every node but the head is freed once, in list order.
    method Clean() returns (ghost freed: seq<Rcrd>)
      requires Valid()
      modifies this, nodes
      ensures Valid() && entries == old(entries)[..1] && nodes == old(nodes)[..1]
      ensures freed == old(nodes)[1..]
    {
      var asist := headNode.next;
      headNode.next := null;
      freed := [];
      ghost var k := 1;
      while asist != null
        invariant 1 <= k <= |old(nodes)| && freed == old(nodes)[1..k]
        invariant asist == (if k < |old(nodes)| then old(nodes)[k] else null)
        invariant forall j :: k <= j < |old(nodes)| ==> old(nodes)[j].next == old(nodes[j].next)
        decreases |old(nodes)| - k
      {
        assert asist != headNode;
        var next := asist.next;
        freed := freed + [asist];
        asist, k := next, k + 1;
      }
      nodes, entries := nodes[..1], entries[..1];
    }

    // What parent does with the lines of one round: the total starts at zero and each line is
    // recorded into an empty list.
    method RecordRun(inputs: seq<Entry>)
      requires Valid() && entries == [HEAD]
      requires WithinLimit(inputs)
      modifies this, nodes
      ensures Valid() && entries == RecordedAll(inputs) && Profile(entries)
      ensures totaltime == Sum(inputs, All) == Sum(entries[1..], All)
      ensures Commands(entries[1..]) == Commands(inputs)
      ensures forall i :: 1 <= i < |entries| ==> entries[i].time == Sum(inputs, Only(entries[i].cmd))
    {
      hide Sum, Recorded, WithinLimit, Find, BubbleUp;
      StartOfRun(inputs);
      totaltime := 0.0;
      var k := 0;
      while k < |inputs|
        invariant 0 <= k <= |inputs| && Valid()
        invariant fresh(set n | n in nodes && n !in old(nodes))
        invariant entries == RecordedAll(inputs[..k]) && totaltime == Sum(inputs[..k], All)
      {
        RunStep(inputs, k);
        Record(inputs[k].cmd.text, inputs[k].time);
        k := k + 1;
      }
      assert inputs[..k] == inputs;
      ProfileOfRun(inputs);
    }
  }

  lemma StartOfRun(inputs: seq<Entry>)
    ensures inputs[..0] == [] && RecordedAll([]) == [HEAD] && Sum([], All) == 0.0
  {}

  lemma {:induction false} PrefixesWithinLimit(inputs: seq<Entry>, k: nat)
    requires WithinLimit(inputs) && k <= |inputs|
    ensures WithinLimit(inputs[..k])
  {
    if k < |inputs| {
      PrefixWithinLimit(inputs);
      PrefixesWithinLimit(inputs[..|inputs| - 1], k);
      assert inputs[..|inputs| - 1][..k] == inputs[..k];
    } else {
      assert inputs[..k] == inputs;
    }
  }

  // The call with input k finds a list it can search, and its effect is the next fold.
  lemma RunStep(inputs: seq<Entry>, k: nat)
    requires WithinLimit(inputs) && k < |inputs|
    ensures inputs[k].cmd.Name?
    ensures forall i :: 1 <= i < |RecordedAll(inputs[..k])| ==> RecordedAll(inputs[..k])[i].cmd != NoName
    ensures RecordedAll(inputs[..k + 1]) == Recorded(RecordedAll(inputs[..k]), inputs[k])
    ensures Sum(inputs[..k + 1], All) == Sum(inputs[..k], All) + inputs[k].time
  {
    hide Sum, Recorded;
    assert inputs[k] in inputs;
    PrefixesWithinLimit(inputs, k);
    AllProfile(inputs[..k]);
    assert inputs[..k + 1] == inputs[..k] + [inputs[k]];
    assert inputs[..k + 1][..k] == inputs[..k];
    SumAppend(inputs[..k], inputs[k], All);
  }
}
