// aliveTasks and quitTasks: a singly linked list of task records.
module RecordTasks {
  import opened Lists

  const NULL: int := 0

  class RecordNode {
    var task: int
    var next: RecordNode?

    constructor (task: int, next: RecordNode?)
      ensures this.task == task && this.next == next
    {
      this.task, this.next := task, next;
    }
  }

  // The place of the first record of a task, or the length when it has none.
  function Find(ts: seq<int>, t: int): (k: nat)
    ensures k <= |ts| && (k < |ts| ==> ts[k] == t)
    ensures forall j :: 0 <= j < k ==> ts[j] != t
  {
    if ts == [] || ts[0] == t then 0 else Find(ts[1..], t) + 1
  }

  function Without(ts: seq<int>, t: int): seq<int> {
    var k := Find(ts, t);
    if k < |ts| then RemoveAt(ts, k) else ts
  }

  // Deleting a task from a list without repetition removes it and nothing else.
  lemma WithoutIsRemoval(ts: seq<int>, t: int)
    requires Distinct(ts)
    ensures Distinct(Without(ts, t))
    ensures forall u :: u in Without(ts, t) <==> u in ts && u != t
  {
    hide RemoveAt, Distinct;
    var k := Find(ts, t);
    if k < |ts| { RemoveAtDistinct(ts, k); }
  }

  // Adding a new task and deleting it gives the same list back.
  lemma AddThenDelete(ts: seq<int>, t: int)
    requires t !in ts
    ensures Without([t] + ts, t) == ts
  {
    assert Find([t] + ts, t) == 0;
  }

  class Records {
    var head: RecordNode?
    ghost var nodes: seq<RecordNode>
    ghost var tasks: seq<int>

    // The nodes are chained from head in order, each with the record of its task.
    ghost predicate Linked()
      reads this, nodes
    {
      && |nodes| == |tasks|
      && head == (if nodes == [] then null else nodes[0])
      && (forall i {:trigger nodes[i].next} {:trigger nodes[i].task} :: 0 <= i < |nodes| ==>
            && nodes[i].task == tasks[i]
            && nodes[i].next == (if i + 1 < |nodes| then nodes[i + 1] else null))
    }

    ghost predicate Valid()
      reads this, nodes
    {
      && Linked()
      && Distinct(nodes) && Distinct(tasks) && NULL !in tasks
    }

    constructor ()
      ensures Valid() && tasks == [] && nodes == []
    {
      head, nodes, tasks := null, [], [];
    }

    // The record of a task, and the one before it.
    method Locate(task: int) returns (prior: RecordNode?, node: RecordNode?)
      requires Valid()
      ensures var k := Find(tasks, task);
        && node == (if k < |nodes| then nodes[k] else null)
        && prior == (if k > 0 then nodes[k - 1] else null)
    {
      prior, node := null, head;
      ghost var i := 0;
      while node != null && node.task != task
        invariant 0 <= i <= |nodes| && forall j :: 0 <= j < i ==> tasks[j] != task
        invariant node == (if i < |nodes| then nodes[i] else null)
        invariant prior == (if i > 0 then nodes[i - 1] else null)
        decreases |nodes| - i
      {
        assert node == nodes[i];
        prior, node, i := node, node.next, i + 1;
      }
      assert Find(tasks, task) == i;
    }

    // recordTasks_add: 0 when the task was added, 2 when it was there already.
    method Add(task: int) returns (code: int)
      requires Valid() && task != NULL
      modifies this
      ensures Valid()
      ensures code == if task in old(tasks) then 2 else 0
      ensures tasks == if task in old(tasks) then old(tasks) else [task] + old(tasks)
      ensures task in old(tasks) ==> nodes == old(nodes)
      ensures task !in old(tasks) ==> |nodes| > 0 && fresh(nodes[0]) && nodes[1..] == old(nodes)
    {
      var _, found := Locate(task);
      if found != null {
        return 2;
      }
      var newNode := new RecordNode(task, head);
      head := newNode;
      nodes, tasks := [newNode] + nodes, [task] + tasks;
      return 0;
    }

    // recordTasks_delete: unlinks the record and gives it back, or NULL when there is none.
    method Delete(task: int) returns (ret: int)
      requires Valid() && task != NULL
      modifies this, nodes
      ensures Valid()
      ensures ret == if task in old(tasks) then task else NULL
      ensures tasks == Without(old(tasks), task)
      ensures var k := Find(old(tasks), task);
        nodes == if k < |old(nodes)| then RemoveAt(old(nodes), k) else old(nodes)
    {
      var prior, node := Locate(task);
      if node == null {
        return NULL;
      }
      ghost var k := Find(tasks, task);
      assert node == nodes[k];
      ret := node.task;
      Unlink(prior, node, k);
    }

    method Unlink(prior: RecordNode?, node: RecordNode, ghost k: nat)
      requires Valid() && k < |nodes| && node == nodes[k]
      requires prior == if k > 0 then nodes[k - 1] else null
      modifies this, nodes
      ensures Valid() && tasks == RemoveAt(old(tasks), k) && nodes == RemoveAt(old(nodes), k)
    {
      hide RemoveAt, Distinct;
      ghost var ns, rest := nodes, RemoveAt(nodes, k);
      RemovedAt(tasks, k);
      RemovedAt(ns, k);
      RemoveAtDistinct(tasks, k);
      RemoveAtDistinct(ns, k);
      if k > 0 { Others(ns, k - 1); }
      if prior != null {
        prior.next := node.next;
      } else {
        head := head.next;
      }
      nodes, tasks := rest, RemoveAt(tasks, k);
      forall i | 0 <= i < |rest|
        ensures rest[i].task == tasks[i]
        ensures rest[i].next == if i + 1 < |rest| then rest[i + 1] else null
      {
        var j := if i < k then i else i + 1;
        assert rest[i] == ns[j];
        assert i + 1 < |rest| ==> rest[i + 1] == ns[if i + 1 < k then i + 1 else i + 2];
        assert ns[j].next == if j == k - 1 then old(ns[k].next) else old(ns[j].next);
      }
    }

    // recordTasks_query.
    method Query(task: int) returns (ret: int)
      requires Valid() && task != NULL
      ensures ret == if task in tasks then task else NULL
    {
      var _, node := Locate(task);
      ret := if node != null then node.task else NULL;
    }
  }
}
