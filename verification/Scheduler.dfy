/** The round-robin scheduler of scheduler.c: a linked ready queue of task control blocks with
    create, kill and yield. */
module SchedulerSpec {
  import opened Wrappers
  import opened Sequences

  /** The queue of pids in link order, the running task if any, and how many tasks were ever
      created. Task slots are never reused, so at most `max` tasks are created. */
  datatype Sched = Sched(queue: seq<nat>, current: Option<nat>, created: nat, max: nat)

  /** Position of x in s. */
  ghost function Index(s: seq<nat>, x: nat): (i: nat)
    requires x in s
    ensures i < |s| && s[i] == x
  {
    if s[0] == x then 0 else 1 + Index(s[1..], x)
  }

  lemma IndexIs(s: seq<nat>, i: nat)
    requires Distinct(s) && i < |s|
    ensures Index(s, s[i]) == i
  {
  }

  // ---------------------------------------------------------------- operations

  ghost function Create(s: Sched): Sched {
    if s.created >= s.max then s
    else
      var pid := s.created + 1;
      Sched(s.queue + [pid], if s.queue == [] then Some(pid) else s.current, s.created + 1, s.max)
  }

  ghost function Kill(s: Sched, pid: nat): Sched {
    if pid !in s.queue then s
    else s.(queue := Remove(s.queue, Index(s.queue, pid)),
            current := if s.current == Some(pid) then None else s.current)
  }

  /** Index after i, round the queue. */
  function After(i: nat, n: nat): nat {
    if i + 1 < n then i + 1 else 0
  }

  ghost function Yield(s: Sched): Sched
    requires Inv(s)
  {
    if s.current.None? then s
    else s.(current := Some(s.queue[After(Index(s.queue, s.current.value), |s.queue|)]))
  }

  ghost predicate Inv(s: Sched) {
    && Distinct(s.queue)
    && (forall p :: p in s.queue ==> 0 < p <= s.created)
    && (s.current.Some? ==> s.current.value in s.queue)
    && s.created <= s.max
  }

  datatype Op = DoCreate | DoKill(pid: nat) | DoYield

  ghost function Apply(s: Sched, op: Op): Sched
    requires Inv(s)
  {
    match op
    case DoCreate => Create(s)
    case DoKill(pid) => Kill(s, pid)
    case DoYield => Yield(s)
  }

  lemma RemoveKeeps(q: seq<nat>, pid: nat)
    requires pid in q && Distinct(q)
    ensures var r := Remove(q, Index(q, pid));
            Distinct(r) && forall p :: p in r <==> p in q && p != pid
  {
    var i := Index(q, pid);
    var r := Remove(q, i);
    forall p | p in q && p != pid ensures p in r {
      var j :| 0 <= j < |q| && q[j] == p;
      assert j < i ==> r[j] == p;
      assert j > i ==> r[j - 1] == p;
    }
  }

  /** Every operation keeps the queue free of duplicates and the current task queued. */
  lemma ApplyInv(s: Sched, op: Op)
    requires Inv(s)
    ensures Inv(Apply(s, op))
    ensures Apply(s, op).created >= s.created && Apply(s, op).max == s.max
    ensures forall p :: p in Apply(s, op).queue ==> p in s.queue || p > s.created
    ensures match op
            case DoKill(pid) => pid !in Apply(s, op).queue
            case _ => forall p :: p in s.queue ==> p in Apply(s, op).queue
  {
    match op
    case DoKill(pid) =>
      if pid in s.queue { RemoveKeeps(s.queue, pid); }
    case DoCreate =>
      forall i | 0 <= i < |s.queue| ensures s.queue[i] <= s.created { assert s.queue[i] in s.queue; }
      forall p | p in s.queue ensures p in s.queue + [s.created + 1] {}
    case DoYield =>
  }

  // ---------------------------------------------------------------- runs

  ghost function Run(s: Sched, ops: seq<Op>): Sched
    requires Inv(s)
    ensures Inv(Run(s, ops))
    decreases |ops|
  {
    if ops == [] then s
    else
      var before := Run(s, ops[..|ops| - 1]);
      ApplyInv(before, ops[|ops| - 1]);
      Apply(before, ops[|ops| - 1])
  }

  lemma {:induction false} RunGrows(s: Sched, ops: seq<Op>)
    requires Inv(s)
    ensures Run(s, ops).created >= s.created
    ensures forall p :: p in Run(s, ops).queue ==> p in s.queue || p > s.created
    decreases |ops|
  {
    if ops == [] {
    } else {
      RunGrows(s, ops[..|ops| - 1]);
      ApplyInv(Run(s, ops[..|ops| - 1]), ops[|ops| - 1]);
    }
  }

  /** A killed task never comes back. */
  lemma KilledStaysDead(s: Sched, pid: nat, ops: seq<Op>)
    requires Inv(s) && pid in s.queue
    ensures Inv(Kill(s, pid)) && pid !in Run(Kill(s, pid), ops).queue
  {
    ApplyInv(s, DoKill(pid));
    RunGrows(Kill(s, pid), ops);
  }

  /** With no current task, exactly the creation of a task in an empty queue makes one current.
      Killing the current task therefore stalls all others that are queued. */
  lemma StalledStep(s: Sched, op: Op)
    requires Inv(s) && s.current.None?
    ensures Apply(s, op).current.Some? <==> op.DoCreate? && s.queue == [] && s.created < s.max
  {
  }

  /** After the current task was killed, no task is current as long as some task that was queued then
      has not been killed. */
  lemma {:induction false} StallsUntilDrained(s: Sched, ops: seq<Op>, pid: nat)
    requires Inv(s) && s.current.None? && pid in s.queue && DoKill(pid) !in ops
    ensures Run(s, ops).current.None? && pid in Run(s, ops).queue
    decreases |ops|
  {
    if ops == [] {
    } else {
      var n := |ops| - 1;
      StallsUntilDrained(s, ops[..n], pid);
      StalledStep(Run(s, ops[..n]), ops[n]);
      StillQueued(Run(s, ops[..n]), ops[n], pid);
    }
  }

  lemma StillQueued(s: Sched, op: Op, pid: nat)
    requires Inv(s) && pid in s.queue && op != DoKill(pid)
    ensures pid in Apply(s, op).queue
  {
    ApplyInv(s, op);
    if op.DoKill? && op.pid in s.queue { RemoveKeeps(s.queue, op.pid); }
  }

  // ---------------------------------------------------------------- fairness

  /** How many yields away the task is. */
  ghost function Distance(s: Sched, pid: nat): nat
    requires Inv(s) && s.current.Some? && pid in s.queue
  {
    var i, c := Index(s.queue, pid), Index(s.queue, s.current.value);
    if i >= c then i - c else i + |s.queue| - c
  }

  /** A waiting task moves one place closer with each yield. */
  lemma YieldDistance(s: Sched, pid: nat)
    requires Inv(s) && s.current.Some? && pid in s.queue && s.current != Some(pid)
    ensures Inv(Yield(s)) && Yield(s).current.Some? && Distance(Yield(s), pid) == Distance(s, pid) - 1
  {
    ApplyInv(s, DoYield);
    IndexIs(s.queue, After(Index(s.queue, s.current.value), |s.queue|));
  }

  /** A creation pushes it back by at most one place. */
  lemma CreateDistance(s: Sched, pid: nat)
    requires Inv(s) && s.current.Some? && pid in s.queue
    ensures Inv(Create(s)) && Create(s).current == s.current && pid in Create(s).queue
    ensures Distance(s, pid) <= Distance(Create(s), pid) <= Distance(s, pid) + 1
  {
    ApplyInv(s, DoCreate);
    var q := Create(s).queue;
    assert q[Index(s.queue, pid)] == pid && q[Index(s.queue, s.current.value)] == s.current.value;
    IndexIs(q, Index(s.queue, pid));
    IndexIs(q, Index(s.queue, s.current.value));
  }

  lemma IndexRemove(q: seq<nat>, k: nat, x: nat)
    requires Distinct(q) && k < |q| && x in q && x != q[k]
    ensures x in Remove(q, k) && Index(Remove(q, k), x) == Index(q, x) - if Index(q, x) > k then 1 else 0
  {
    var r, i := Remove(q, k), Index(q, x);
    var j := if i > k then i - 1 else i;
    assert r[j] == x;
    assert q[k] in q;
    RemoveKeeps(q, q[k]);
    IndexIs(q, k);
    IndexIs(r, j);
  }

  /** Killing some other task that is not running never pushes it back. */
  lemma KillDistance(s: Sched, pid: nat, other: nat)
    requires Inv(s) && s.current.Some? && pid in s.queue && other != pid && s.current != Some(other)
    ensures Inv(Kill(s, other)) && Kill(s, other).current == s.current && pid in Kill(s, other).queue
    ensures Distance(Kill(s, other), pid) <= Distance(s, pid)
  {
    ApplyInv(s, DoKill(other));
    if other in s.queue {
      var k := Index(s.queue, other);
      IndexRemove(s.queue, k, pid);
      IndexRemove(s.queue, k, s.current.value);
    }
  }

  ghost function Count(ops: seq<Op>, op: Op): nat {
    if ops == [] then 0 else Count(ops[..|ops| - 1], op) + if ops[|ops| - 1] == op then 1 else 0
  }

  ghost predicate KillsRunning(s: Sched, op: Op) {
    op.DoKill? && s.current == Some(op.pid)
  }

  /** Operation i of the run kills neither the waiting task nor the one that runs. */
  ghost predicate Harmless(s: Sched, ops: seq<Op>, i: nat, pid: nat)
    requires Inv(s) && i < |ops|
  {
    ops[i] != DoKill(pid) && !KillsRunning(Run(s, ops[..i]), ops[i])
  }

  /** No operation of the run kills the waiting task or a task while it is running. */
  ghost predicate Undisturbed(s: Sched, ops: seq<Op>, pid: nat)
    requires Inv(s)
  {
    forall i: nat :: i < |ops| ==> Harmless(s, ops, i, pid)
  }

  ghost predicate RunsAfter(s: Sched, ops: seq<Op>, k: nat, pid: nat)
    requires Inv(s) && k <= |ops|
  {
    Run(s, ops[..k]).current == Some(pid)
  }

  ghost predicate EverRuns(s: Sched, ops: seq<Op>, pid: nat)
    requires Inv(s)
  {
    exists k: nat :: k <= |ops| && RunsAfter(s, ops, k, pid)
  }

  lemma WaitsBefore(s: Sched, ops: seq<Op>, pid: nat)
    requires Inv(s) && ops != [] && Undisturbed(s, ops, pid) && !EverRuns(s, ops, pid)
    ensures var before, op := ops[..|ops| - 1], ops[|ops| - 1];
            && Undisturbed(s, before, pid) && !EverRuns(s, before, pid)
            && op != DoKill(pid) && !KillsRunning(Run(s, before), op) && Run(s, ops).current != Some(pid)
  {
    var n := |ops| - 1;
    var before := ops[..n];
    forall i: nat | i < n ensures Harmless(s, before, i, pid) {
      assert Harmless(s, ops, i, pid) && before[..i] == ops[..i];
    }
    forall k: nat | k <= n ensures !RunsAfter(s, before, k, pid) {
      assert !RunsAfter(s, ops, k, pid) && before[..k] == ops[..k];
    }
    assert Harmless(s, ops, n, pid);
    assert !RunsAfter(s, ops, |ops|, pid) && ops[..|ops|] == ops;
  }

  /** One operation while the task waits. */
  lemma WaitStep(s: Sched, op: Op, pid: nat)
    requires Inv(s) && s.current.Some? && s.current != Some(pid) && pid in s.queue
    requires op != DoKill(pid) && !KillsRunning(s, op)
    ensures var s' := Apply(s, op);
            && Inv(s') && s'.current.Some? && pid in s'.queue
            && (s'.current != Some(pid) ==> Distance(s', pid) > 0)
            && Distance(s', pid) + (if op == DoYield then 1 else 0) <= Distance(s, pid) + if op == DoCreate then 1 else 0
  {
    match op
    case DoYield => YieldDistance(s, pid);
    case DoCreate => CreateDistance(s, pid);
    case DoKill(other) => KillDistance(s, pid, other);
  }

  /** While the task waits, its distance is bounded by the yields and creations so far. */
  lemma {:induction false} WaitBound(s: Sched, ops: seq<Op>, pid: nat)
    requires Inv(s) && s.current.Some? && pid in s.queue
    requires Undisturbed(s, ops, pid) && !EverRuns(s, ops, pid)
    ensures var r := Run(s, ops);
            && r.current.Some? && r.current != Some(pid) && pid in r.queue
            && 0 < Distance(r, pid)
            && Distance(r, pid) + Count(ops, DoYield) <= Distance(s, pid) + Count(ops, DoCreate)
    decreases |ops|
  {
    if ops == [] {
      assert !RunsAfter(s, ops, 0, pid);
    } else {
      var before, op := ops[..|ops| - 1], ops[|ops| - 1];
      WaitsBefore(s, ops, pid);
      WaitBound(s, before, pid);
      var r := Run(s, before);
      WaitStep(r, op, pid);
      assert Run(s, ops) == Apply(r, op);
      assert Count(ops, DoYield) == Count(before, DoYield) + if op == DoYield then 1 else 0;
      assert Count(ops, DoCreate) == Count(before, DoCreate) + if op == DoCreate then 1 else 0;
    }
  }

  /** Round-robin fairness: a queued task runs as soon as there were as many yields as its
      distance plus the number of creations. */
  lemma Fairness(s: Sched, ops: seq<Op>, pid: nat)
    requires Inv(s) && s.current.Some? && pid in s.queue && Undisturbed(s, ops, pid)
    requires Count(ops, DoYield) >= Distance(s, pid) + Count(ops, DoCreate)
    ensures EverRuns(s, ops, pid)
  {
    if !EverRuns(s, ops, pid) {
      WaitBound(s, ops, pid);
    }
  }

  /** With n tasks queued and no creation, n - 1 yields are enough. */
  lemma FairnessWithoutCreation(s: Sched, ops: seq<Op>, pid: nat)
    requires Inv(s) && s.current.Some? && pid in s.queue && Undisturbed(s, ops, pid)
    requires Count(ops, DoCreate) == 0 && Count(ops, DoYield) >= |s.queue| - 1
    ensures EverRuns(s, ops, pid)
  {
    Fairness(s, ops, pid);
  }
}

/** The task table of scheduler.c with the queue linked through it. A pointer into the table is
    modelled by its slot number, the null pointer by NULL. */
module Scheduler {
  import opened Wrappers
  import opened Sequences
  import opened SchedulerSpec

  datatype TaskState = Running | Ready | Sleeping | Zombie
  datatype Tcb = Tcb(pid: nat, state: TaskState, timeslice: nat, next: int)

  const NULL: int := -1
  const TIMESLICE: nat := 20

  // ---------------------------------------------------------------- linked lists in the table

  ghost function Node(queue: seq<nat>, i: nat): int {
    if i < |queue| then queue[i] else NULL
  }

  /** Node i of the queue is linked to the next one. */
  ghost predicate LinksOn(tasks: seq<Tcb>, queue: seq<nat>, i: int) {
    0 <= i < |queue| && queue[i] < |tasks| && tasks[queue[i]].next == Node(queue, i + 1)
  }

  /** The links from head on run through exactly the slots of the queue and end there, so the list
      is finite and without cycles. */
  ghost predicate Linked(tasks: seq<Tcb>, head: int, queue: seq<nat>) {
    && Distinct(queue) && (forall i :: 0 <= i < |queue| ==> queue[i] < |tasks|)
    && head == Node(queue, 0)
    && (forall i :: 0 <= i < |queue| ==> LinksOn(tasks, queue, i))
  }

  /** Appending a node at the tail. */
  lemma LinkLast(tasks: seq<Tcb>, head: int, queue: seq<nat>, t: nat)
    requires Linked(tasks, head, queue) && t < |tasks| && t !in queue && tasks[t].next == NULL
    ensures queue == [] ==> Linked(tasks, t, [t])
    ensures queue != [] ==>
              var last := queue[|queue| - 1];
              Linked(tasks[last := tasks[last].(next := t)], head, queue + [t])
  {
    if queue != [] {
      var q, last := queue + [t], queue[|queue| - 1];
      var tasks' := tasks[last := tasks[last].(next := t)];
      forall i | 0 <= i < |q| ensures LinksOn(tasks', q, i) {
        assert i < |queue| ==> q[i] == queue[i] && LinksOn(tasks, queue, i);
      }
    }
  }

  /** Unlinking node i. */
  lemma Unlink(tasks: seq<Tcb>, head: int, queue: seq<nat>, i: nat)
    requires Linked(tasks, head, queue) && i < |queue|
    ensures var next := tasks[queue[i]].next;
            if i == 0 then Linked(tasks, next, Remove(queue, 0))
            else Linked(tasks[queue[i - 1] := tasks[queue[i - 1]].(next := next)], head, Remove(queue, i))
  {
    var q, next := Remove(queue, i), tasks[queue[i]].next;
    var tasks' := if i == 0 then tasks else tasks[queue[i - 1] := tasks[queue[i - 1]].(next := next)];
    RemoveAt(queue, i);
    assert LinksOn(tasks, queue, i);
    forall j | 0 <= j < |q| ensures LinksOn(tasks', q, j) {
      var l := if j < i then j else j + 1;
      assert q[j] == queue[l];
      assert LinksOn(tasks, queue, l);
    }
  }

  lemma RemoveAt(s: seq<nat>, i: nat)
    requires i < |s| && Distinct(s)
    ensures var r := Remove(s, i);
            && |r| == |s| - 1 && Distinct(r)
            && (forall j :: 0 <= j < |r| ==> r[j] == s[if j < i then j else j + 1])
  {
  }

  /** Changes that leave the links alone. */
  lemma SameLinks(tasks: seq<Tcb>, tasks': seq<Tcb>, head: int, queue: seq<nat>)
    requires Linked(tasks, head, queue) && |tasks'| == |tasks|
    requires forall t :: t in queue ==> t < |tasks| && tasks'[t].next == tasks[t].next
    ensures Linked(tasks', head, queue)
  {
    forall i | 0 <= i < |queue| ensures LinksOn(tasks', queue, i) {
      assert queue[i] in queue && LinksOn(tasks, queue, i);
    }
  }

  // ---------------------------------------------------------------- the scheduler state

  ghost function Pids(tasks: seq<Tcb>, queue: seq<nat>): (r: seq<nat>)
    requires forall i :: 0 <= i < |queue| ==> queue[i] < |tasks|
    ensures |r| == |queue| && forall i :: 0 <= i < |queue| ==> r[i] == tasks[queue[i]].pid
  {
    seq(|queue|, i requires 0 <= i < |queue| => tasks[queue[i]].pid)
  }

  /** Queued tasks are created ones with pids of their own; the current task is queued. */
  ghost predicate Queued(tasks: seq<Tcb>, head: int, queue: seq<nat>, current: int, count: nat) {
    && Linked(tasks, head, queue)
    && (forall i :: 0 <= i < |queue| ==> queue[i] < count && 0 < tasks[queue[i]].pid <= count)
    && Distinct(Pids(tasks, queue))
    && (current != NULL ==> current in queue) && count <= |tasks|
  }

  /** The current task, if any, is the only RUNNING one; all other queued tasks are READY. */
  ghost predicate States(tasks: seq<Tcb>, queue: seq<nat>, current: int)
    requires forall i :: 0 <= i < |queue| ==> queue[i] < |tasks|
  {
    forall i :: 0 <= i < |queue| ==> tasks[queue[i]].state == if queue[i] == current then Running else Ready
  }

  ghost function View(tasks: seq<Tcb>, head: int, queue: seq<nat>, current: int, count: nat): Sched
    requires Queued(tasks, head, queue, current, count)
  {
    Sched(Pids(tasks, queue), if current == NULL then None else Some(tasks[current].pid), count, |tasks|)
  }

  lemma ViewInv(tasks: seq<Tcb>, head: int, queue: seq<nat>, current: int, count: nat)
    requires Queued(tasks, head, queue, current, count)
    ensures Inv(View(tasks, head, queue, current, count))
  {
    if current != NULL {
      var i :| 0 <= i < |queue| && queue[i] == current;
      assert Pids(tasks, queue)[i] == tasks[current].pid;
    }
  }

  /** A queued slot and its place in the list of pids. */
  lemma PidIndex(tasks: seq<Tcb>, head: int, queue: seq<nat>, current: int, count: nat, i: nat)
    requires Queued(tasks, head, queue, current, count) && i < |queue|
    ensures tasks[queue[i]].pid in Pids(tasks, queue) && Index(Pids(tasks, queue), tasks[queue[i]].pid) == i
  {
    assert Pids(tasks, queue)[i] == tasks[queue[i]].pid;
    IndexIs(Pids(tasks, queue), i);
  }

  // ---------------------------------------------------------------- what each operation does to it

  /** The table after create_task. */
  ghost function Added(tasks: seq<Tcb>, queue: seq<nat>, t: nat, tcb: Tcb): seq<Tcb>
    requires t < |tasks| && forall i :: 0 <= i < |queue| ==> queue[i] < |tasks|
  {
    var tasks1 := tasks[t := tcb];
    if queue == [] then tasks1
    else var last := queue[|queue| - 1]; tasks1[last := tasks1[last].(next := t)]
  }

  lemma AddedLinks(tasks: seq<Tcb>, head: int, queue: seq<nat>, t: nat, tcb: Tcb)
    requires Linked(tasks, head, queue) && t < |tasks| && t !in queue && tcb.next == NULL
    ensures Linked(Added(tasks, queue, t, tcb), if queue == [] then t else head, queue + [t])
  {
    SameLinks(tasks, tasks[t := tcb], head, queue);
    LinkLast(tasks[t := tcb], head, queue, t);
    assert queue == [] ==> queue + [t] == [t];
  }

  lemma AddedData(tasks: seq<Tcb>, queue: seq<nat>, t: nat, tcb: Tcb, i: nat)
    requires (forall j :: 0 <= j < |queue| ==> queue[j] < |tasks|) && t < |tasks| && t !in queue
    requires i < |queue| + 1
    ensures var x, q := Added(tasks, queue, t, tcb), (queue + [t])[i];
            && |x| == |tasks| && q < |x|
            && x[q].pid == (if i < |queue| then tasks[queue[i]].pid else tcb.pid)
            && x[q].state == (if i < |queue| then tasks[queue[i]].state else tcb.state)
  {
    assert i < |queue| ==> queue[i] in queue;
  }

  lemma AddedPids(tasks: seq<Tcb>, queue: seq<nat>, t: nat, tcb: Tcb)
    requires (forall j :: 0 <= j < |queue| ==> queue[j] < |tasks|) && t < |tasks| && t !in queue
    ensures forall j :: 0 <= j < |queue| + 1 ==> (queue + [t])[j] < |Added(tasks, queue, t, tcb)|
    ensures Pids(Added(tasks, queue, t, tcb), queue + [t]) == Pids(tasks, queue) + [tcb.pid]
  {
    forall i: nat | i < |queue| + 1 { AddedData(tasks, queue, t, tcb, i); }
  }

  lemma AddedStates(tasks: seq<Tcb>, queue: seq<nat>, current: int, t: nat, tcb: Tcb)
    requires (forall j :: 0 <= j < |queue| ==> queue[j] < |tasks|) && t < |tasks| && t !in queue
    requires States(tasks, queue, current) && current != t && tcb.state == if queue == [] then Running else Ready
    ensures forall j :: 0 <= j < |queue| + 1 ==> (queue + [t])[j] < |Added(tasks, queue, t, tcb)|
    ensures States(Added(tasks, queue, t, tcb), queue + [t], if queue == [] then t else current)
  {
    forall i: nat | i < |queue| + 1 { AddedData(tasks, queue, t, tcb, i); }
  }

  lemma AddedQueued(tasks: seq<Tcb>, head: int, queue: seq<nat>, current: int, count: nat, tcb: Tcb)
    requires Queued(tasks, head, queue, current, count) && count < |tasks| && tcb.pid == count + 1 && tcb.next == NULL
    ensures var head', current' := if queue == [] then count else head, if queue == [] then count else current;
            Queued(Added(tasks, queue, count, tcb), head', queue + [count], current', count + 1)
  {
    assert count !in queue;
    AddedLinks(tasks, head, queue, count, tcb);
    AddedPids(tasks, queue, count, tcb);
    DistinctAppend(Pids(tasks, queue), tcb.pid);
    forall i: nat | i < |queue| + 1 { AddedData(tasks, queue, count, tcb, i); }
    if current != NULL {
      var c :| 0 <= c < |queue| && queue[c] == current;
      assert (queue + [count])[c] == current;
    }
  }

  lemma DistinctAppend(s: seq<nat>, x: nat)
    requires Distinct(s) && forall i :: 0 <= i < |s| ==> s[i] != x
    ensures Distinct(s + [x])
  {
  }

  lemma AddedCurrent(tasks: seq<Tcb>, queue: seq<nat>, current: int, t: nat, tcb: Tcb)
    requires (forall j :: 0 <= j < |queue| ==> queue[j] < |tasks|) && t < |tasks| && t !in queue
    requires current != NULL ==> current in queue
    ensures queue == [] ==> Added(tasks, queue, t, tcb)[t].pid == tcb.pid
    ensures current != NULL ==> Added(tasks, queue, t, tcb)[current].pid == tasks[current].pid
  {
  }

  lemma AddedIs(tasks: seq<Tcb>, head: int, queue: seq<nat>, current: int, count: nat, tcb: Tcb)
    requires Queued(tasks, head, queue, current, count) && States(tasks, queue, current) && count < |tasks|
    requires tcb == Tcb(count + 1, if queue == [] then Running else Ready, TIMESLICE, NULL)
    ensures var tasks', queue' := Added(tasks, queue, count, tcb), queue + [count];
            var head', current' := if queue == [] then count else head, if queue == [] then count else current;
            && Queued(tasks', head', queue', current', count + 1) && States(tasks', queue', current')
            && View(tasks', head', queue', current', count + 1) == Create(View(tasks, head, queue, current, count))
  {
    assert count !in queue;
    AddedStates(tasks, queue, current, count, tcb);
    AddedView(tasks, head, queue, current, count, tcb);
  }

  lemma AddedView(tasks: seq<Tcb>, head: int, queue: seq<nat>, current: int, count: nat, tcb: Tcb)
    requires Queued(tasks, head, queue, current, count) && count < |tasks| && tcb.pid == count + 1 && tcb.next == NULL
    ensures var tasks', queue' := Added(tasks, queue, count, tcb), queue + [count];
            var head', current' := if queue == [] then count else head, if queue == [] then count else current;
            && Queued(tasks', head', queue', current', count + 1)
            && View(tasks', head', queue', current', count + 1) == Create(View(tasks, head, queue, current, count))
  {
    assert count !in queue;
    AddedQueued(tasks, head, queue, current, count, tcb);
    AddedPids(tasks, queue, count, tcb);
    AddedCurrent(tasks, queue, current, count, tcb);
    assert |Pids(tasks, queue)| == |queue|;
  }

  /** The table after kill_task unlinked node i. */
  ghost function Dropped(tasks: seq<Tcb>, queue: seq<nat>, i: nat): seq<Tcb>
    requires i < |queue| && forall j :: 0 <= j < |queue| ==> queue[j] < |tasks|
  {
    var tasks1 := tasks[queue[i] := tasks[queue[i]].(state := Zombie)];
    if i == 0 then tasks1 else tasks1[queue[i - 1] := tasks1[queue[i - 1]].(next := tasks[queue[i]].next)]
  }

  lemma DroppedLinks(tasks: seq<Tcb>, head: int, queue: seq<nat>, i: nat)
    requires Linked(tasks, head, queue) && i < |queue|
    ensures Linked(Dropped(tasks, queue, i), if i == 0 then tasks[queue[i]].next else head, Remove(queue, i))
  {
    var tasks1 := tasks[queue[i] := tasks[queue[i]].(state := Zombie)];
    SameLinks(tasks, tasks1, head, queue);
    Unlink(tasks1, head, queue, i);
  }

  lemma DroppedData(tasks: seq<Tcb>, queue: seq<nat>, i: nat, j: nat)
    requires (forall l :: 0 <= l < |queue| ==> queue[l] < |tasks|) && Distinct(queue) && i < |queue| && j < |queue| - 1
    ensures var x, q, l := Dropped(tasks, queue, i), Remove(queue, i)[j], if j < i then j else j + 1;
            && |x| == |tasks| && q == queue[l] && q != queue[i] && q < |x|
            && x[q].pid == tasks[q].pid && x[q].state == tasks[q].state
  {
  }

  lemma DroppedPids(tasks: seq<Tcb>, queue: seq<nat>, i: nat)
    requires (forall l :: 0 <= l < |queue| ==> queue[l] < |tasks|) && Distinct(queue) && i < |queue|
    ensures forall j :: 0 <= j < |queue| - 1 ==> Remove(queue, i)[j] < |Dropped(tasks, queue, i)|
    ensures Pids(Dropped(tasks, queue, i), Remove(queue, i)) == Remove(Pids(tasks, queue), i)
  {
    forall j: nat | j < |queue| - 1 { DroppedData(tasks, queue, i, j); }
  }

  lemma DroppedStates(tasks: seq<Tcb>, queue: seq<nat>, current: int, i: nat)
    requires (forall l :: 0 <= l < |queue| ==> queue[l] < |tasks|) && Distinct(queue) && i < |queue|
    requires forall j :: 0 <= j < |queue| && j != i ==> tasks[queue[j]].state == if queue[j] == current then Running else Ready
    ensures forall j :: 0 <= j < |queue| - 1 ==> Remove(queue, i)[j] < |Dropped(tasks, queue, i)|
    ensures States(Dropped(tasks, queue, i), Remove(queue, i), if current == queue[i] then NULL else current)
  {
    forall j: nat | j < |queue| - 1 { DroppedData(tasks, queue, i, j); }
  }

  lemma DroppedCurrent(tasks: seq<Tcb>, queue: seq<nat>, current: int, i: nat)
    requires current in queue && i < |queue| && Distinct(queue) && current != queue[i]
    requires (forall j :: 0 <= j < |queue| ==> queue[j] < |tasks|) && Distinct(Pids(tasks, queue))
    ensures current in Remove(queue, i) && Dropped(tasks, queue, i)[current].pid == tasks[current].pid != tasks[queue[i]].pid
  {
    var j :| 0 <= j < |queue| && queue[j] == current;
    var q, pids := Remove(queue, i), Pids(tasks, queue);
    assert pids[j] == tasks[current].pid && pids[i] == tasks[queue[i]].pid;
    assert q[if j < i then j else j - 1] == current;
  }

  lemma DroppedIs(tasks: seq<Tcb>, head: int, queue: seq<nat>, current: int, count: nat, i: nat)
    requires Queued(tasks, head, queue, current, count) && i < |queue|
    ensures var tasks', queue' := Dropped(tasks, queue, i), Remove(queue, i);
            var head', current' := if i == 0 then tasks[queue[i]].next else head, if current == queue[i] then NULL else current;
            && Queued(tasks', head', queue', current', count)
            && View(tasks', head', queue', current', count) == Kill(View(tasks, head, queue, current, count), tasks[queue[i]].pid)
  {
    var pids := Pids(tasks, queue);
    DroppedLinks(tasks, head, queue, i);
    DroppedPids(tasks, queue, i);
    PidIndex(tasks, head, queue, current, count, i);
    RemoveKeeps(pids, pids[i]);
    forall j: nat | j < |queue| - 1 { DroppedData(tasks, queue, i, j); }
    if current != NULL && current != queue[i] {
      DroppedCurrent(tasks, queue, current, i);
    }
  }

  /** Every queued task but the one to kill is in the state it should be in. */
  ghost predicate OthersSettled(tasks: seq<Tcb>, queue: seq<nat>, current: int, pid: nat)
    requires forall i :: 0 <= i < |queue| ==> queue[i] < |tasks|
  {
    forall i :: 0 <= i < |queue| && tasks[queue[i]].pid != pid ==>
      tasks[queue[i]].state == if queue[i] == current then Running else Ready
  }

  lemma KillStates(tasks: seq<Tcb>, queue: seq<nat>, current: int, i: nat)
    requires (forall l :: 0 <= l < |queue| ==> queue[l] < |tasks|) && Distinct(queue) && Distinct(Pids(tasks, queue))
    requires i < |queue| && OthersSettled(tasks, queue, current, tasks[queue[i]].pid)
    ensures forall j :: 0 <= j < |queue| - 1 ==> Remove(queue, i)[j] < |Dropped(tasks, queue, i)|
    ensures States(Dropped(tasks, queue, i), Remove(queue, i), if current == queue[i] then NULL else current)
  {
    var pids := Pids(tasks, queue);
    forall j | 0 <= j < |queue| && j != i ensures tasks[queue[j]].pid != tasks[queue[i]].pid {
      assert pids[j] == tasks[queue[j]].pid && pids[i] == tasks[queue[i]].pid;
    }
    DroppedStates(tasks, queue, current, i);
  }

  /** kill_task on the table. */
  lemma KilledIs(tasks: seq<Tcb>, head: int, queue: seq<nat>, current: int, count: nat, i: nat)
    requires Queued(tasks, head, queue, current, count) && i < |queue|
    requires OthersSettled(tasks, queue, current, tasks[queue[i]].pid)
    ensures var tasks', queue' := Dropped(tasks, queue, i), Remove(queue, i);
            var head', current' := if i == 0 then tasks[queue[i]].next else head, if current == queue[i] then NULL else current;
            && Queued(tasks', head', queue', current', count) && States(tasks', queue', current')
            && View(tasks', head', queue', current', count) == Kill(View(tasks, head, queue, current, count), tasks[queue[i]].pid)
  {
    DroppedIs(tasks, head, queue, current, count, i);
    KillStates(tasks, queue, current, i);
  }

  lemma NotQueued(tasks: seq<Tcb>, queue: seq<nat>, current: int, pid: nat)
    requires (forall l :: 0 <= l < |queue| ==> queue[l] < |tasks|) && OthersSettled(tasks, queue, current, pid)
    requires forall j :: 0 <= j < |queue| ==> tasks[queue[j]].pid != pid
    ensures States(tasks, queue, current) && pid !in Pids(tasks, queue)
  {
    var pids := Pids(tasks, queue);
    forall j | 0 <= j < |pids| ensures pids[j] != pid {}
  }

  /** Marking the current task keeps the queue as it is. */
  lemma StateChange(tasks: seq<Tcb>, head: int, queue: seq<nat>, current: int, count: nat, st: TaskState)
    requires Queued(tasks, head, queue, current, count) && current != NULL && States(tasks, queue, current)
    ensures current < |tasks|
    ensures var tasks' := tasks[current := tasks[current].(state := st)];
            && Queued(tasks', head, queue, current, count)
            && View(tasks', head, queue, current, count) == View(tasks, head, queue, current, count)
            && OthersSettled(tasks', queue, current, tasks[current].pid)
            && tasks[current].pid in Pids(tasks, queue)
  {
    var c :| 0 <= c < |queue| && queue[c] == current;
    var tasks' := tasks[current := tasks[current].(state := st)];
    SameLinks(tasks, tasks', head, queue);
    assert Pids(tasks', queue) == Pids(tasks, queue);
    PidIndex(tasks, head, queue, current, count, c);
  }

  class TaskQueue {
    const tasks: array<Tcb>
    var taskCount: nat
    var nextPid: nat
    var current: int
    var head: int
    var scheduleRequested: bool
    ghost var queue: seq<nat>

    /** scheduler_initialize. */
    constructor (maxTasks: nat)
      ensures Valid() && fresh(tasks) && State() == Sched([], None, 0, maxTasks)
    {
      tasks := new Tcb[maxTasks](_ => Tcb(0, Zombie, 0, NULL));
      taskCount, nextPid, current, head, scheduleRequested, queue := 0, 1, NULL, NULL, false, [];
    }

    ghost predicate Consistent()
      reads this, tasks
    {
      Queued(tasks[..], head, queue, current, taskCount) && nextPid == taskCount + 1
    }

    ghost predicate Valid()
      reads this, tasks
    {
      Consistent() && States(tasks[..], queue, current)
    }

    ghost function State(): Sched
      reads this, tasks
      requires Consistent()
    {
      View(tasks[..], head, queue, current, taskCount)
    }

    /** The search loop of task_yield: the first READY task from node i on. */
    method FirstReady(start: int, ghost i: nat) returns (t: int, ghost j: nat)
      requires Linked(tasks[..], head, queue) && i <= |queue| && start == Node(queue, i)
      ensures i <= j <= |queue| && t == Node(queue, j)
      ensures j < |queue| ==> tasks[queue[j]].state == Ready
      ensures forall l :: i <= l < j ==> tasks[queue[l]].state != Ready
    {
      t, j := start, i;
      while t != NULL && tasks[t].state != Ready
        invariant i <= j <= |queue| && t == Node(queue, j)
        invariant forall l :: i <= l < j ==> tasks[queue[l]].state != Ready
        decreases |queue| - j
      {
        assert LinksOn(tasks[..], queue, j);
        t := tasks[t].next;
        j := j + 1;
      }
    }

    /** create_task. */
    method CreateTask() returns (t: int)
      requires Valid()
      modifies this`head, this`current, this`nextPid, this`taskCount, this`queue, tasks
      ensures Valid() && State() == Create(old(State()))
      ensures t == if old(taskCount) < tasks.Length then old(taskCount) else NULL
      ensures t != NULL ==> tasks[t].pid == old(nextPid) && tasks[t].timeslice == 20
    {
      if taskCount >= tasks.Length {
        return NULL;
      }
      t := taskCount;
      AddedIs(tasks[..], head, queue, current, t, Tcb(nextPid, if queue == [] then Running else Ready, TIMESLICE, NULL));
      Enqueue(t, nextPid);
      nextPid := nextPid + 1;
      taskCount := taskCount + 1;
      queue := queue + [t];
    }

    /** The part of create_task that fills the slot and links it. */
    method Enqueue(t: nat, pid: nat)
      requires Linked(tasks[..], head, queue) && t < tasks.Length && t !in queue
      modifies this`head, this`current, tasks
      ensures tasks[..] == Added(old(tasks[..]), queue, t, Tcb(pid, if queue == [] then Running else Ready, TIMESLICE, NULL))
      ensures head == if queue == [] then t else old(head)
      ensures current == if queue == [] then t else old(current)
    {
      tasks[t] := Tcb(pid, Ready, TIMESLICE, NULL);
      if head == NULL {
        head := t;
        current := t;
        tasks[t] := tasks[t].(state := Running);
      } else {
        SameLinks(old(tasks[..]), tasks[..], head, queue);
        var iter := LastNode();
        tasks[iter] := tasks[iter].(next := t);
      }
    }

    /** The loop of create_task to the end of the queue. */
    method LastNode() returns (iter: nat)
      requires Linked(tasks[..], head, queue) && queue != []
      ensures iter == queue[|queue| - 1]
    {
      iter := head;
      ghost var i := 0;
      assert LinksOn(tasks[..], queue, 0);
      while tasks[iter].next != NULL
        invariant LinksOn(tasks[..], queue, i) && iter == queue[i]
        decreases |queue| - i
      {
        iter := tasks[iter].next;
        i := i + 1;
      }
    }

    /** kill_task. It also serves a task that has marked itself a zombie before (the exit path of
        task_entry_wrapper): the state of the task to kill does not matter. */
    method KillTask(pid: nat)
      requires Consistent() && OthersSettled(tasks[..], queue, current, pid)
      modifies this`head, this`current, this`queue, tasks
      ensures Valid() && State() == Kill(old(State()), pid)
    {
      var tcb, prev, i := FindTask(pid);
      if tcb == NULL {
        NotQueued(tasks[..], queue, current, pid);
        return;
      }
      KillFound(tcb, prev, i);
    }

    /** kill_task once the task is found at node i. */
    method KillFound(tcb: nat, prev: int, ghost i: nat)
      requires Consistent() && i < |queue| && tcb == queue[i] && prev == if i > 0 then queue[i - 1] else NULL
      requires OthersSettled(tasks[..], queue, current, tasks[tcb].pid)
      modifies this`head, this`current, this`queue, tasks
      ensures Valid() && State() == Kill(old(State()), old(tasks[tcb].pid))
    {
      KilledIs(tasks[..], head, queue, current, taskCount, i);
      Dequeue(tcb, prev, i);
    }

    /** The loop of kill_task: the task with this pid and its predecessor. */
    method FindTask(pid: nat) returns (tcb: int, prev: int, ghost i: nat)
      requires Linked(tasks[..], head, queue)
      ensures i <= |queue| && tcb == Node(queue, i) && prev == if i > 0 then queue[i - 1] else NULL
      ensures i < |queue| ==> tasks[queue[i]].pid == pid
      ensures forall j :: 0 <= j < i ==> tasks[queue[j]].pid != pid
    {
      tcb, prev, i := head, NULL, 0;
      while tcb != NULL
        invariant 0 <= i <= |queue| && tcb == Node(queue, i)
        invariant prev == if i > 0 then queue[i - 1] else NULL
        invariant forall j :: 0 <= j < i ==> tasks[queue[j]].pid != pid
        decreases |queue| - i
      {
        if tasks[tcb].pid == pid {
          return;
        }
        assert LinksOn(tasks[..], queue, i);
        prev := tcb;
        tcb := tasks[tcb].next;
        i := i + 1;
      }
    }

    /** The part of kill_task that marks the task and unlinks it. */
    method Dequeue(tcb: nat, prev: int, ghost i: nat)
      requires Linked(tasks[..], head, queue) && i < |queue| && tcb == queue[i]
      requires prev == if i > 0 then queue[i - 1] else NULL
      modifies this`head, this`current, this`queue, tasks
      ensures tasks[..] == Dropped(old(tasks[..]), old(queue), i) && queue == Remove(old(queue), i)
      ensures head == if i == 0 then old(tasks[..])[old(queue)[i]].next else old(head)
      ensures current == if old(current) == old(queue)[i] then NULL else old(current)
    {
      tasks[tcb] := tasks[tcb].(state := Zombie);
      if prev == NULL {
        head := tasks[tcb].next;
      } else {
        tasks[prev] := tasks[prev].(next := tasks[tcb].next);
      }
      if current == tcb {
        current := NULL;
      }
      queue := Remove(queue, i);
    }

    /** The two searches of task_yield. */
    method PickNext(oldTask: nat, ghost c: nat) returns (nextTask: int, ghost k: nat)
      requires Linked(tasks[..], head, queue) && c < |queue| && oldTask == queue[c]
      ensures nextTask != NULL ==> k < |queue| && nextTask == queue[k]
      ensures IsNextReady(tasks[..], queue, c, if nextTask == NULL then c else k)
    {
      assert LinksOn(tasks[..], queue, c);
      nextTask, k := FirstReady(tasks[oldTask].next, c + 1);
      if nextTask == NULL {
        nextTask, k := FirstReady(head, 0);
      }
    }

    /** task_yield, up to the call of switch_task_context, for tasks in any states. Node k is
        chosen: the first READY one behind the current node c, else the first READY one before it,
        else the current one itself. */
    method TaskYield(ghost c: nat) returns (ghost k: nat)
      requires Linked(tasks[..], head, queue)
      requires current != NULL ==> c < |queue| && current == queue[c]
      modifies this`current, this`scheduleRequested, tasks
      ensures old(current) == NULL ==>
                current == NULL && tasks[..] == old(tasks[..]) && scheduleRequested == old(scheduleRequested)
      ensures old(current) != NULL ==>
                && k < |queue| && current == queue[k] && !scheduleRequested
                && IsNextReady(old(tasks[..]), queue, c, k)
                && tasks[..] == Switched(old(tasks[..]), queue, c, k)
                && (k != c ==> tasks[current].timeslice == 20)
    {
      k := c;
      if current == NULL || head == NULL {
        return;
      }
      if scheduleRequested {
        scheduleRequested := false;
      }
      var oldTask := current;
      if tasks[oldTask].state == Running {
        tasks[oldTask] := tasks[oldTask].(state := Ready);
      }
      ghost var ready := Paused(old(tasks[..]), oldTask);
      assert tasks[..] == ready;
      SameLinks(old(tasks[..]), ready, head, queue);
      var nextTask;
      nextTask, k := PickNext(oldTask, c);
      if nextTask == NULL {
        k := c;
      }
      NextReadySame(old(tasks[..]), queue, c, k);
      if nextTask == NULL || nextTask == oldTask {
        tasks[oldTask] := tasks[oldTask].(state := Running);
        return;
      }
      current := nextTask;
      tasks[current] := tasks[current].(state := Running, timeslice := TIMESLICE);
    }

    /** What task_entry_wrapper does when the task function returns: mark, kill, yield. The yield
        finds no current task, so the result is the kill alone and no other task becomes current. */
    method ExitCurrent()
      requires Valid() && current != NULL
      modifies this`head, this`current, this`queue, this`scheduleRequested, tasks
      ensures Valid() && State() == Kill(old(State()), old(tasks[current]).pid) && current == NULL
    {
      StateChange(tasks[..], head, queue, current, taskCount, Zombie);
      tasks[current] := tasks[current].(state := Zombie);
      assert tasks[..] == old(tasks[..])[current := old(tasks[current]).(state := Zombie)];
      KillTask(tasks[current].pid);
      YieldRoundRobin();
    }

    /** In a valid queue the yield is one step of the round robin. */
    method YieldRoundRobin()
      requires Valid()
      modifies this`current, this`scheduleRequested, tasks
      ensures Valid() && Inv(old(State())) && State() == Yield(old(State()))
    {
      ghost var before, c := tasks[..], 0;
      ViewInv(before, head, queue, current, taskCount);
      if current != NULL {
        c :| 0 <= c < |queue| && queue[c] == current;
      }
      ghost var k := TaskYield(c);
      if queue != [] && current != NULL {
        SwitchedIs(before, head, queue, taskCount, c, k);
      }
    }
  }

  /** Node k is the first READY one round the queue behind node c, which comes last. */
  ghost predicate IsNextReady(tasks: seq<Tcb>, queue: seq<nat>, c: nat, k: nat)
    requires c < |queue| && k < |queue| && forall i :: 0 <= i < |queue| ==> queue[i] < |tasks|
  {
    && (k == c || tasks[queue[k]].state == Ready)
    && (k > c ==> forall i :: c < i < k ==> tasks[queue[i]].state != Ready)
    && (k <= c ==> forall i :: c < i < |queue| || 0 <= i < k ==> tasks[queue[i]].state != Ready)
  }

  /** The table with a running task t made READY. */
  ghost function Paused(tasks: seq<Tcb>, t: nat): (r: seq<Tcb>)
    requires t < |tasks|
    ensures |r| == |tasks|
  {
    if tasks[t].state == Running then tasks[t := tasks[t].(state := Ready)] else tasks
  }

  /** The table after a switch from node c to node k. */
  ghost function Switched(tasks: seq<Tcb>, queue: seq<nat>, c: nat, k: nat): seq<Tcb>
    requires c < |queue| && k < |queue| && forall i :: 0 <= i < |queue| ==> queue[i] < |tasks|
  {
    if k == c then tasks[queue[c] := tasks[queue[c]].(state := Running)]
    else
      var tasks1 := Paused(tasks, queue[c]);
      tasks1[queue[k] := tasks1[queue[k]].(state := Running, timeslice := TIMESLICE)]
  }

  lemma NextReadySame(tasks: seq<Tcb>, queue: seq<nat>, c: nat, k: nat)
    requires c < |queue| && k < |queue| && (forall i :: 0 <= i < |queue| ==> queue[i] < |tasks|) && Distinct(queue)
    requires IsNextReady(Paused(tasks, queue[c]), queue, c, k)
    ensures IsNextReady(tasks, queue, c, k)
  {
  }

  lemma SwitchedData(tasks: seq<Tcb>, queue: seq<nat>, c: nat, k: nat, i: nat)
    requires c < |queue| && k < |queue| && (forall j :: 0 <= j < |queue| ==> queue[j] < |tasks|) && Distinct(queue)
    requires i < |queue| && tasks[queue[c]].state == Running
    ensures var x, q := Switched(tasks, queue, c, k), queue[i];
            && |x| == |tasks| && x[q].pid == tasks[q].pid && x[q].next == tasks[q].next
            && x[q].state == if i == k then Running else if i == c then Ready else tasks[q].state
  {
  }

  /** When all other queued tasks are READY, the switch is to the next node round the queue. */
  lemma SwitchedIs(tasks: seq<Tcb>, head: int, queue: seq<nat>, count: nat, c: nat, k: nat)
    requires c < |queue| && k < |queue| && Queued(tasks, head, queue, queue[c], count) && States(tasks, queue, queue[c])
    requires IsNextReady(tasks, queue, c, k)
    ensures k == After(c, |queue|)
    ensures var tasks' := Switched(tasks, queue, c, k);
            && Queued(tasks', head, queue, queue[k], count) && States(tasks', queue, queue[k])
            && Inv(View(tasks, head, queue, queue[c], count))
            && View(tasks', head, queue, queue[k], count) == Yield(View(tasks, head, queue, queue[c], count))
  {
    var tasks' := Switched(tasks, queue, c, k);
    ViewInv(tasks, head, queue, queue[c], count);
    assert k == After(c, |queue|) by {
      assert c + 1 < |queue| ==> tasks[queue[c + 1]].state == Ready;
      assert c > 0 ==> tasks[queue[0]].state == Ready;
    }
    forall i: nat | i < |queue| { SwitchedData(tasks, queue, c, k, i); }
    SameLinks(tasks, tasks', head, queue);
    assert Pids(tasks', queue) == Pids(tasks, queue);
    PidIndex(tasks, head, queue, queue[c], count, c);
  }
}
