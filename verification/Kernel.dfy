/** The scheduler and the context switch together: runs of create_task, kill_task and task_yield
    on the machine of ContextSwitch, with the queue of SchedulerSpec deciding what each call does.
    The task with pid p has slot p - 1 of the task table. */
module Kernel {
  import opened Wrappers
  import opened ContextSwitch
  import S = SchedulerSpec

  datatype Kernel = Kernel(sched: S.Sched, machine: Machine, threads: Coroutines)

  /** What the running thread does next: a call of the scheduler, or anything else. */
  datatype Call = Create | Kill(pid: nat) | Yield(ret: nat) | Compute(mem: seq<nat>, ctx: Context)

  /** The queue after the call. */
  ghost function Scheduled(s: S.Sched, call: Call): S.Sched
    requires S.Inv(s)
  {
    match call
    case Create => S.Create(s)
    case Kill(pid) => S.Kill(s, pid)
    case Yield(_) => S.Yield(s)
    case Compute(_, _) => s
  }

  /** The slot of a pid. */
  function Slot(pid: nat): nat {
    if pid == 0 then 0 else pid - 1
  }

  /** The step of the machine that the call makes in this state of the queue. */
  ghost function MachineStep(s: S.Sched, call: Call): Step
    requires S.Inv(s)
  {
    match call
    case Create =>
      if s.created >= s.max then Idle else if s.queue == [] then Adopt(s.created) else Spawn(s.created)
    case Kill(pid) =>
      if pid !in s.queue then Idle else if s.current == Some(pid) then Stop else Discard(Slot(pid))
    case Yield(ret) =>
      var next := S.Yield(s).current;
      if next == s.current || next.None? then Idle else Switch(Slot(next.value), ret)
    case Compute(mem, ctx) => Work(mem, ctx)
  }

  /** Task t is queued and not current. */
  ghost predicate Waiting(s: S.Sched, t: nat) {
    t + 1 in s.queue && s.current != Some(t + 1)
  }

  /** The area belongs to a task created so far or to the boot stacks. */
  ghost predicate Taken(l: Layout, s: S.Sched, area: nat) {
    area < s.created || area >= |l.slot|
  }

  /** Queue and threads agree: the current tasks are the same, and exactly the queued tasks that
      are not current are suspended. */
  ghost predicate Agree(l: Layout, s: S.Sched, c: Coroutines) {
    && S.Inv(s) && s.max == |l.slot|
    && c.current == (if s.current.None? then None else Some(Slot(s.current.value)))
    && (forall t: nat :: t in c.suspended <==> Waiting(s, t))
    && Taken(l, s, c.running.area)
    && (forall t :: t in c.suspended ==> Taken(l, s, c.suspended[t].area))
  }

  /** The machine implements the threads, which agree with the queue. So every queued task that is
      not current has a saved frame. */
  ghost predicate Valid(l: Layout, k: Kernel) {
    Agree(l, k.sched, k.threads) && Simulates(l, k.machine, k.threads)
  }

  /** What the code relies on: a thread computes on its own stack, and has room on it to yield. */
  ghost predicate Enabled(l: Layout, k: Kernel, call: Call)
    requires Valid(l, k)
  {
    match call
    case Compute(mem, _) => LeavesAlone(l, k.threads, k.machine.mem, mem)
    case Yield(_) => RoomToSwitch(l, k.threads)
    case _ => true
  }

  ghost function Next(l: Layout, k: Kernel, call: Call): Kernel
    requires Valid(l, k) && Enabled(l, k, call)
  {
    StepAllowed(l, k, call);
    var step := MachineStep(k.sched, call);
    Kernel(Scheduled(k.sched, call), Execute(l, k.machine, step), Resume(l, k.threads, step))
  }

  /** The task that a yield switches to is suspended. */
  lemma YieldTarget(l: Layout, s: S.Sched, c: Coroutines)
    requires Agree(l, s, c) && S.Yield(s).current != s.current
    ensures s.current.Some? && S.Yield(s).current.Some?
    ensures var next := S.Yield(s).current.value;
            next > 0 && next in s.queue && Slot(next) in c.suspended && Slot(next) != c.current.value
  {
    var next := S.Yield(s).current.value;
    assert next in s.queue;
    assert Waiting(s, next - 1);
  }

  /** Every call is a step the machine can take. In particular the task that a yield picks has a
      saved frame, and the area of a new task is free. */
  lemma StepAllowed(l: Layout, k: Kernel, call: Call)
    requires Valid(l, k) && Enabled(l, k, call)
    ensures Allowed(l, k.machine, k.threads, MachineStep(k.sched, call))
  {
    match call
    case Create =>
      var t := k.sched.created;
      assert t + 1 !in k.sched.queue;
      assert !Waiting(k.sched, t);
    case Kill(pid) =>
      assert pid in k.sched.queue && k.sched.current != Some(pid) ==> Waiting(k.sched, Slot(pid));
    case Yield(_) =>
      if S.Yield(k.sched).current != k.sched.current { YieldTarget(l, k.sched, k.threads); }
    case Compute(_, _) =>
  }

  lemma CreateAgrees(l: Layout, s: S.Sched, c: Coroutines)
    requires Agree(l, s, c) && |l.slot| <= |l.hi|
    ensures Agree(l, S.Create(s), Resume(l, c, MachineStep(s, Create)))
  {
    S.ApplyInv(s, S.DoCreate);
    var c' := Resume(l, c, MachineStep(s, Create));
    forall t: nat ensures t in c'.suspended <==> Waiting(S.Create(s), t) {
      assert t in c.suspended <==> Waiting(s, t);
    }
  }

  lemma KillWaiting(s: S.Sched, pid: nat, t: nat)
    requires S.Inv(s)
    ensures Waiting(S.Kill(s, pid), t) <==> Waiting(s, t) && t + 1 != pid
  {
    KillQueued(s, pid, t + 1);
  }

  lemma KillAgrees(l: Layout, s: S.Sched, c: Coroutines, pid: nat)
    requires Agree(l, s, c)
    ensures Agree(l, S.Kill(s, pid), Resume(l, c, MachineStep(s, Kill(pid))))
  {
    S.ApplyInv(s, S.DoKill(pid));
    var c' := Resume(l, c, MachineStep(s, Kill(pid)));
    forall t: nat ensures t in c'.suspended <==> Waiting(S.Kill(s, pid), t) {
      KillWaiting(s, pid, t);
      assert t in c.suspended <==> Waiting(s, t);
    }
  }

  lemma YieldAgrees(l: Layout, s: S.Sched, c: Coroutines, ret: nat)
    requires Agree(l, s, c)
    requires S.Yield(s).current != s.current ==> MachineStep(s, Yield(ret)).Switch? && MachineStep(s, Yield(ret)).task in c.suspended && c.current.Some?
    ensures Agree(l, S.Yield(s), Resume(l, c, MachineStep(s, Yield(ret))))
  {
    S.ApplyInv(s, S.DoYield);
    if S.Yield(s).current != s.current {
      YieldTarget(l, s, c);
      var c' := Resume(l, c, MachineStep(s, Yield(ret)));
      forall t: nat ensures t in c'.suspended <==> Waiting(S.Yield(s), t) {
        assert t in c.suspended <==> Waiting(s, t);
      }
    }
  }

  /** Every call keeps queue and machine together. */
  lemma NextValid(l: Layout, k: Kernel, call: Call)
    requires Valid(l, k) && Enabled(l, k, call)
    ensures Valid(l, Next(l, k, call))
  {
    StepAllowed(l, k, call);
    StepSimulates(l, k.machine, k.threads, MachineStep(k.sched, call));
    match call
    case Create => CreateAgrees(l, k.sched, k.threads);
    case Kill(pid) => KillAgrees(l, k.sched, k.threads, pid);
    case Yield(ret) => YieldAgrees(l, k.sched, k.threads, ret);
    case Compute(_, _) =>
  }

  // ---------------------------------------------------------------- runs

  /** The kernel after each prefix of a run of calls. */
  ghost predicate Run(l: Layout, ks: seq<Kernel>, calls: seq<Call>) {
    && |ks| == |calls| + 1 && Valid(l, ks[0])
    && forall i :: 0 <= i < |calls| ==> Goes(l, ks[i], calls[i], ks[i + 1])
  }

  /** In a valid state the call is enabled and leads to k'. */
  ghost predicate Goes(l: Layout, k: Kernel, call: Call, k': Kernel) {
    Valid(l, k) ==> Enabled(l, k, call) && k' == Next(l, k, call)
  }

  /** The kernel at boot: no task yet, and the boot thread runs on a stack of its own. */
  ghost predicate Booting(l: Layout, k: Kernel) {
    && Separate(l, |k.machine.mem|) && k.machine.current.None?
    && k.sched == S.Sched([], None, 0, |l.slot|)
    && |l.slot| <= k.threads.running.area < |l.lo|
    && k.threads == Coroutines(map[], Thread(k.machine.ctx, k.threads.running.area), None)
  }

  lemma BootValid(l: Layout, k: Kernel)
    requires Booting(l, k)
    ensures Valid(l, k)
  {
  }

  /** In every run queue, threads and machine stay together: every queued task that is not current
      has a saved frame, and every switch of the queue is one the machine can take. */
  lemma {:induction false} RunValid(l: Layout, ks: seq<Kernel>, calls: seq<Call>, i: nat)
    requires Run(l, ks, calls) && i <= |calls|
    ensures Valid(l, ks[i])
  {
    if i == 0 {
    } else {
      RunValid(l, ks, calls, i - 1);
      assert Goes(l, ks[i - 1], calls[i - 1], ks[i]);
      NextValid(l, ks[i - 1], calls[i - 1]);
    }
  }

  lemma RunStep(l: Layout, ks: seq<Kernel>, calls: seq<Call>, i: nat)
    requires Run(l, ks, calls) && i < |calls|
    ensures Valid(l, ks[i]) && Enabled(l, ks[i], calls[i]) && ks[i + 1] == Next(l, ks[i], calls[i]) && Valid(l, ks[i + 1])
  {
    RunValid(l, ks, calls, i);
    RunValid(l, ks, calls, i + 1);
    assert Goes(l, ks[i], calls[i], ks[i + 1]);
  }

  /** The call switches to another task. */
  ghost predicate Switches(k: Kernel, call: Call) {
    call.Yield? && S.Inv(k.sched) && S.Yield(k.sched).current != k.sched.current
  }

  ghost predicate SwitchesTo(k: Kernel, call: Call, pid: nat) {
    Switches(k, call) && S.Yield(k.sched).current == Some(pid)
  }

  /** Task pid was created, and as long as it is queued it waits as this thread. */
  ghost predicate WaitsIn(s: S.Sched, c: Coroutines, pid: nat, thread: Thread) {
    && 0 < pid <= s.created
    && (pid in s.queue ==> Slot(pid) in c.suspended && c.suspended[Slot(pid)] == thread)
  }

  ghost predicate WaitsAs(k: Kernel, pid: nat, thread: Thread) {
    WaitsIn(k.sched, k.threads, pid, thread)
  }

  lemma WaitsOverCreate(l: Layout, s: S.Sched, c: Coroutines, pid: nat, thread: Thread)
    requires Agree(l, s, c) && |l.slot| <= |l.hi| && WaitsIn(s, c, pid, thread)
    ensures WaitsIn(S.Create(s), Resume(l, c, MachineStep(s, Create)), pid, thread)
  {
  }

  lemma KillQueued(s: S.Sched, other: nat, pid: nat)
    requires S.Inv(s)
    ensures pid in S.Kill(s, other).queue <==> pid in s.queue && pid != other
    ensures S.Kill(s, other).created == s.created
  {
    if other in s.queue { S.RemoveKeeps(s.queue, other); }
  }

  lemma WaitsOverKill(l: Layout, s: S.Sched, c: Coroutines, pid: nat, thread: Thread, other: nat)
    requires Agree(l, s, c) && WaitsIn(s, c, pid, thread)
    ensures WaitsIn(S.Kill(s, other), Resume(l, c, MachineStep(s, Kill(other))), pid, thread)
  {
    KillQueued(s, other, pid);
  }

  lemma WaitsOverYield(l: Layout, s: S.Sched, c: Coroutines, pid: nat, thread: Thread, ret: nat)
    requires Agree(l, s, c) && WaitsIn(s, c, pid, thread)
    requires S.Yield(s).current == s.current || S.Yield(s).current != Some(pid)
    ensures var step := MachineStep(s, Yield(ret));
            && (step.Switch? ==> step.task in c.suspended && c.current.Some?)
            && WaitsIn(S.Yield(s), Resume(l, c, step), pid, thread)
  {
    if S.Yield(s).current != s.current {
      YieldTarget(l, s, c);
      assert pid in s.queue ==> Waiting(s, Slot(pid));
    }
  }

  lemma StillWaits(l: Layout, k: Kernel, call: Call, pid: nat, thread: Thread)
    requires Valid(l, k) && Enabled(l, k, call) && WaitsAs(k, pid, thread) && !SwitchesTo(k, call, pid)
    ensures WaitsAs(Next(l, k, call), pid, thread)
  {
    var s, c := k.sched, k.threads;
    match call
    case Create => WaitsOverCreate(l, s, c, pid, thread);
    case Kill(other) => WaitsOverKill(l, s, c, pid, thread, other);
    case Yield(ret) => WaitsOverYield(l, s, c, pid, thread, ret);
    case Compute(_, _) =>
  }

  lemma {:induction false} Waits(l: Layout, ks: seq<Kernel>, calls: seq<Call>, i: nat, j: nat, pid: nat, thread: Thread)
    requires Run(l, ks, calls) && i <= j <= |calls| && WaitsAs(ks[i], pid, thread)
    requires forall k :: i <= k < j ==> !SwitchesTo(ks[k], calls[k], pid)
    ensures WaitsAs(ks[j], pid, thread)
  {
    if i == j {
    } else {
      Waits(l, ks, calls, i, j - 1, pid, thread);
      RunStep(l, ks, calls, j - 1);
      StillWaits(l, ks[j - 1], calls[j - 1], pid, thread);
    }
  }

  /** A switch to a waiting task continues its thread. */
  lemma Wakes(l: Layout, k: Kernel, call: Call, pid: nat, thread: Thread)
    requires Valid(l, k) && Enabled(l, k, call) && WaitsAs(k, pid, thread) && SwitchesTo(k, call, pid)
    ensures Next(l, k, call).threads.running == thread
  {
    YieldTarget(l, k.sched, k.threads);
  }

  /** A switch leaves the current task waiting as the thread that ran. */
  lemma Leaves(l: Layout, k: Kernel, call: Call, pid: nat)
    requires Valid(l, k) && Enabled(l, k, call) && Switches(k, call) && k.sched.current == Some(pid)
    ensures WaitsAs(Next(l, k, call), pid, Paused(k.threads.running, call.ret))
  {
    YieldTarget(l, k.sched, k.threads);
  }

  /** A task that call i switches away from and call j switches back to, for the first time after
      that, continues with the stack pointer and registers it called with, at its return address. */
  lemma ResumesWhereSuspended(l: Layout, ks: seq<Kernel>, calls: seq<Call>, i: nat, j: nat, pid: nat)
    requires Run(l, ks, calls) && i < j < |calls|
    requires Switches(ks[i], calls[i]) && ks[i].sched.current == Some(pid)
    requires forall k :: i < k < j ==> !SwitchesTo(ks[k], calls[k], pid)
    requires SwitchesTo(ks[j], calls[j], pid)
    ensures var ctx := ks[i].machine.ctx;
            ks[j + 1].machine.ctx == Context(ctx.rsp, calls[i].ret, ctx.regs)
  {
    RunStep(l, ks, calls, i);
    Leaves(l, ks[i], calls[i], pid);
    var thread := Paused(ks[i].threads.running, calls[i].ret);
    Waits(l, ks, calls, i + 1, j, pid, thread);
    RunStep(l, ks, calls, j);
    Wakes(l, ks[j], calls[j], pid, thread);
  }

  // ---------------------------------------------------------------- how a new task starts

  /** Call i creates task pid. */
  ghost predicate Creates(k: Kernel, call: Call, pid: nat) {
    call.Create? && k.sched.created < k.sched.max && pid == k.sched.created + 1
  }

  /** A task created while others are queued waits as a new thread. */
  lemma CreatedWaits(l: Layout, k: Kernel, pid: nat)
    requires Valid(l, k) && Creates(k, Create, pid) && k.sched.queue != []
    ensures WaitsAs(Next(l, k, Create), pid, NewThread(l, Slot(pid)))
  {
  }

  /** One call of the thread that runs as the current task pid: it goes on as that task, or it
      switches away, or the task is killed and never queued again. */
  lemma RunsOn(l: Layout, k: Kernel, call: Call, pid: nat)
    requires Valid(l, k) && Enabled(l, k, call) && k.sched.current == Some(pid)
    ensures var k' := Next(l, k, call);
            || Switches(k, call)
            || (k'.sched.current == Some(pid) && k'.threads.running.area == k.threads.running.area)
            || (pid !in k'.sched.queue && pid <= k'.sched.created)
  {
    assert pid in k.sched.queue;
    match call
    case Create =>
    case Kill(other) => KillQueued(k.sched, other, pid);
    case Yield(_) =>
    case Compute(_, _) =>
  }

  /** A created task that is not queued is never queued again. */
  lemma {:induction false} NeverBack(l: Layout, ks: seq<Kernel>, calls: seq<Call>, i: nat, j: nat, pid: nat)
    requires Run(l, ks, calls) && i <= j <= |calls| && pid !in ks[i].sched.queue && 0 < pid <= ks[i].sched.created
    ensures pid !in ks[j].sched.queue && pid <= ks[j].sched.created
  {
    if i == j {
    } else {
      NeverBack(l, ks, calls, i, j - 1, pid);
      RunStep(l, ks, calls, j - 1);
      var s := ks[j - 1].sched;
      match calls[j - 1]
      case Create => S.ApplyInv(s, S.DoCreate);
      case Kill(other) => KillQueued(s, other, pid);
      case Yield(_) => S.ApplyInv(s, S.DoYield);
      case Compute(_, _) =>
    }
  }

  /** The thread that runs as task pid from call i on leaves it by a switch before call j, which
      finds the task waiting. */
  lemma {:induction false} FirstSwitchAway(l: Layout, ks: seq<Kernel>, calls: seq<Call>, i: nat, j: nat, pid: nat) returns (e: nat)
    requires Run(l, ks, calls) && i <= j <= |calls| && ks[i].sched.current == Some(pid)
    requires pid in ks[j].sched.queue && ks[j].sched.current != Some(pid)
    ensures i <= e < j && Switches(ks[e], calls[e])
    ensures forall k :: i <= k <= e ==> RunsAs(ks[k], pid, ks[i].threads.running.area)
    decreases j - i
  {
    RunStep(l, ks, calls, i);
    RunsOn(l, ks[i], calls[i], pid);
    if Switches(ks[i], calls[i]) {
      e := i;
    } else {
      if pid !in ks[i + 1].sched.queue {
        NeverBack(l, ks, calls, i + 1, j, pid);
      }
      e := FirstSwitchAway(l, ks, calls, i + 1, j, pid);
    }
  }

  /** Task pid is current and stands for the thread on this area. */
  ghost predicate RunsAs(k: Kernel, pid: nat, area: nat) {
    k.sched.current == Some(pid) && k.threads.running.area == area
  }

  /** Call j is the first switch to the task that call i created. */
  ghost predicate FirstSwitchTo(l: Layout, ks: seq<Kernel>, calls: seq<Call>, i: nat, j: nat, pid: nat) {
    && Run(l, ks, calls) && i < j < |calls| && Creates(ks[i], calls[i], pid)
    && SwitchesTo(ks[j], calls[j], pid)
    && forall k :: i < k < j ==> !SwitchesTo(ks[k], calls[k], pid)
  }

  lemma StartsNew(l: Layout, ks: seq<Kernel>, calls: seq<Call>, i: nat, j: nat, pid: nat)
    requires FirstSwitchTo(l, ks, calls, i, j, pid) && ks[i].sched.queue != []
    ensures pid - 1 < |l.hi| && ks[j + 1].machine.ctx == Context(l.hi[pid - 1], l.entry, ZERO_REGS)
  {
    RunStep(l, ks, calls, i);
    CreatedWaits(l, ks[i], pid);
    Waits(l, ks, calls, i + 1, j, pid, NewThread(l, Slot(pid)));
    RunStep(l, ks, calls, j);
    Wakes(l, ks[j], calls[j], pid, NewThread(l, Slot(pid)));
  }

  /** A task created in an empty queue becomes current, and the thread that created it runs on as
      that task until call e, which switches away. The first switch to the task resumes that
      thread where call e left it. */
  lemma ResumesCreator(l: Layout, ks: seq<Kernel>, calls: seq<Call>, i: nat, j: nat, pid: nat) returns (e: nat)
    requires FirstSwitchTo(l, ks, calls, i, j, pid) && ks[i].sched.queue == []
    ensures i < e < j && Switches(ks[e], calls[e])
    ensures forall k :: i < k <= e ==> RunsAs(ks[k], pid, ks[i].threads.running.area)
    ensures var ctx := ks[e].machine.ctx;
            ks[j + 1].machine.ctx == Context(ctx.rsp, calls[e].ret, ctx.regs)
  {
    RunStep(l, ks, calls, i);
    RunStep(l, ks, calls, j);
    YieldTarget(l, ks[j].sched, ks[j].threads);
    e := FirstSwitchAway(l, ks, calls, i + 1, j, pid);
    assert RunsAs(ks[e], pid, ks[i + 1].threads.running.area);
    ResumesWhereSuspended(l, ks, calls, e, j, pid);
  }

  /** A new task starts at the entry point with an empty stack and zero registers if and only if
      the queue was not empty when it was created. */
  lemma StartsAtEntry(l: Layout, ks: seq<Kernel>, calls: seq<Call>, i: nat, j: nat, pid: nat)
    requires FirstSwitchTo(l, ks, calls, i, j, pid)
    ensures pid - 1 < |l.hi|
    ensures ks[j + 1].machine.ctx == Context(l.hi[pid - 1], l.entry, ZERO_REGS) <==> ks[i].sched.queue != []
  {
    RunValid(l, ks, calls, i);
    if ks[i].sched.queue != [] {
      StartsNew(l, ks, calls, i, j, pid);
    } else {
      var e := ResumesCreator(l, ks, calls, i, j, pid);
      assert RunsAs(ks[e], pid, ks[i].threads.running.area);
      RunStep(l, ks, calls, e);
      OtherStack(l, ks[e], pid - 1, ks[i].threads.running.area);
    }
  }

  /** A thread with room to yield on its area is not at the top of another one. */
  lemma OtherStack(l: Layout, k: Kernel, t: nat, area: nat)
    requires Valid(l, k) && RoomToSwitch(l, k.threads) && k.threads.running.area == area != t < |l.hi|
    ensures k.machine.ctx.rsp != l.hi[t]
  {
  }

  // ---------------------------------------------------------------- which thread a task stands for

  /** Task pid was created and, while it is queued, stands for the thread on this area. */
  ghost predicate StandsFor(s: S.Sched, c: Coroutines, pid: nat, area: nat) {
    && 0 < pid <= s.created
    && (s.current == Some(pid) ==> c.running.area == area)
    && (Waiting(s, Slot(pid)) && Slot(pid) in c.suspended ==> c.suspended[Slot(pid)].area == area)
  }

  lemma StandsOverYield(l: Layout, s: S.Sched, c: Coroutines, pid: nat, area: nat, ret: nat)
    requires Agree(l, s, c) && StandsFor(s, c, pid, area)
    ensures var step := MachineStep(s, Yield(ret));
            && (step.Switch? ==> step.task in c.suspended && c.current.Some?)
            && StandsFor(S.Yield(s), Resume(l, c, step), pid, area)
  {
    if S.Yield(s).current != s.current { YieldTarget(l, s, c); }
  }

  lemma StillStandsFor(l: Layout, k: Kernel, call: Call, pid: nat, area: nat)
    requires Valid(l, k) && Enabled(l, k, call) && StandsFor(k.sched, k.threads, pid, area)
    ensures StandsFor(Next(l, k, call).sched, Next(l, k, call).threads, pid, area)
  {
    match call
    case Create =>
    case Kill(other) => KillWaiting(k.sched, other, Slot(pid));
    case Yield(ret) => StandsOverYield(l, k.sched, k.threads, pid, area, ret);
    case Compute(_, _) =>
  }

  lemma {:induction false} StandsForAlways(l: Layout, ks: seq<Kernel>, calls: seq<Call>, i: nat, j: nat, pid: nat, area: nat)
    requires Run(l, ks, calls) && i <= j <= |calls| && StandsFor(ks[i].sched, ks[i].threads, pid, area)
    ensures StandsFor(ks[j].sched, ks[j].threads, pid, area)
  {
    if i == j {
    } else {
      StandsForAlways(l, ks, calls, i, j - 1, pid, area);
      RunStep(l, ks, calls, j - 1);
      StillStandsFor(l, ks[j - 1], calls[j - 1], pid, area);
    }
  }

  /** Whenever a task runs, it is on one and the same stack: its own if the queue was not empty at
      its creation, and the stack of the thread that created it otherwise. */
  lemma RunsOnOneStack(l: Layout, ks: seq<Kernel>, calls: seq<Call>, i: nat, j: nat, pid: nat)
    requires Run(l, ks, calls) && i < j <= |calls| && Creates(ks[i], calls[i], pid) && ks[j].sched.current == Some(pid)
    ensures ks[j].threads.running.area == if ks[i].sched.queue != [] then pid - 1 else ks[i].threads.running.area
    ensures ks[i].threads.running.area != pid - 1
  {
    RunStep(l, ks, calls, i);
    var area := if ks[i].sched.queue != [] then Slot(pid) else ks[i].threads.running.area;
    StandsForAlways(l, ks, calls, i + 1, j, pid, area);
  }

  /** Two tasks, one current and one waiting as this thread. */
  ghost predicate TwoTasks(l: Layout, k: Kernel, current: nat, running: Thread, waiting: Thread) {
    && Valid(l, k) && 1 <= current <= 2
    && k.sched == S.Sched([1, 2], Some(current), 2, |l.slot|)
    && k.threads == Coroutines(map[2 - current := waiting], running, Some(current - 1))
  }

  lemma SwapOfTwo(l: Layout, s: S.Sched, c: Coroutines, current: nat, running: Thread, waiting: Thread, ret: nat)
    requires S.Inv(s) && 1 <= current <= 2 && s == S.Sched([1, 2], Some(current), 2, |l.slot|)
    requires c == Coroutines(map[2 - current := waiting], running, Some(current - 1))
    ensures S.Yield(s) == s.(current := Some(3 - current)) && MachineStep(s, Yield(ret)) == Switch(2 - current, ret)
    ensures Resume(l, c, Switch(2 - current, ret)) ==
            Coroutines(map[current - 1 := Paused(running, ret)], waiting, Some(2 - current))
  {
    S.IndexIs(s.queue, 0);
    S.IndexIs(s.queue, 1);
  }

  /** A yield between two tasks swaps them. */
  lemma YieldSwaps(l: Layout, k: Kernel, current: nat, running: Thread, waiting: Thread, ret: nat) returns (k': Kernel)
    requires TwoTasks(l, k, current, running, waiting) && RoomToSwitch(l, k.threads)
    ensures Goes(l, k, Yield(ret), k') && TwoTasks(l, k', 3 - current, waiting, Paused(running, ret))
    ensures k'.machine.ctx == waiting.ctx && k'.threads.running == waiting
  {
    NextValid(l, k, Yield(ret));
    SwapOfTwo(l, k.sched, k.threads, current, running, waiting, ret);
    k' := Next(l, k, Yield(ret));
  }

  /** The first creation at boot makes its task current. */
  lemma BootCreates(l: Layout, boot: Kernel) returns (k1: Kernel)
    requires Booting(l, boot) && |l.slot| >= 2
    ensures Goes(l, boot, Create, k1) && Valid(l, k1)
    ensures k1.sched == S.Sched([1], Some(1), 1, |l.slot|)
    ensures k1.threads == Coroutines(map[], boot.threads.running, Some(0))
  {
    BootValid(l, boot);
    NextValid(l, boot, Create);
    k1 := Next(l, boot, Create);
  }

  /** The second one finds a queue that is not empty. */
  lemma BootCreatesSecond(l: Layout, k1: Kernel, running: Thread) returns (k2: Kernel)
    requires Valid(l, k1) && |l.slot| >= 2 && k1.sched == S.Sched([1], Some(1), 1, |l.slot|)
    requires k1.threads == Coroutines(map[], running, Some(0))
    ensures Goes(l, k1, Create, k2) && TwoTasks(l, k2, 1, running, NewThread(l, 1))
  {
    NextValid(l, k1, Create);
    k2 := Next(l, k1, Create);
    assert k2.threads.suspended == map[1 := NewThread(l, 1)];
  }

  lemma RunExtends(l: Layout, ks: seq<Kernel>, calls: seq<Call>, call: Call, k': Kernel)
    requires Run(l, ks, calls) && Goes(l, ks[|calls|], call, k')
    ensures Run(l, ks + [k'], calls + [call])
  {
    var ks', calls' := ks + [k'], calls + [call];
    forall i | 0 <= i < |calls'| ensures Goes(l, ks'[i], calls'[i], ks'[i + 1]) {
      assert i < |calls| ==> Goes(l, ks[i], calls[i], ks[i + 1]);
    }
  }

  lemma TwoCreations(l: Layout, boot: Kernel) returns (ks: seq<Kernel>)
    requires Booting(l, boot) && |l.slot| >= 2
    ensures Run(l, ks, [Create, Create]) && ks[0] == boot
    ensures TwoTasks(l, ks[2], 1, boot.threads.running, NewThread(l, 1))
  {
    BootValid(l, boot);
    var k1 := BootCreates(l, boot);
    RunExtends(l, [boot], [], Create, k1);
    var k2 := BootCreatesSecond(l, k1, boot.threads.running);
    RunExtends(l, [boot] + [k1], [] + [Create], Create, k2);
    ks := [boot] + [k1] + [k2];
    assert [] + [Create] + [Create] == [Create, Create];
  }

  lemma YieldExtends(l: Layout, ks: seq<Kernel>, calls: seq<Call>, current: nat, running: Thread, waiting: Thread, ret: nat)
    returns (k': Kernel)
    requires Run(l, ks, calls) && TwoTasks(l, ks[|calls|], current, running, waiting) && RoomToSwitch(l, ks[|calls|].threads)
    ensures Run(l, ks + [k'], calls + [Yield(ret)])
    ensures TwoTasks(l, k', 3 - current, waiting, Paused(running, ret)) && k'.machine.ctx == waiting.ctx
  {
    k' := YieldSwaps(l, ks[|calls|], current, running, waiting, ret);
    RunExtends(l, ks, calls, Yield(ret), k');
  }

  /** The boot sequence of kernel_main: two creations, the yield of the boot thread and the yield
      of the second task. The first task then resumes the boot thread behind its own yield. */
  lemma BootResumesItself(l: Layout, boot: Kernel, ret: nat, ret': nat) returns (ks: seq<Kernel>)
    requires Booting(l, boot) && |l.slot| >= 2 && RoomToSwitch(l, boot.threads)
    ensures Run(l, ks, [Create, Create] + [Yield(ret)] + [Yield(ret')]) && ks[0] == boot
    ensures ks[3].machine.ctx == Context(l.hi[1], l.entry, ZERO_REGS)
    ensures ks[4].sched.current == Some(1)
    ensures ks[4].machine.ctx == Context(boot.machine.ctx.rsp, ret, boot.machine.ctx.regs)
  {
    var running := boot.threads.running;
    ks := TwoCreations(l, boot);
    var k3 := YieldExtends(l, ks, [Create, Create], 1, running, NewThread(l, 1), ret);
    ks := ks + [k3];
    var k4 := YieldExtends(l, ks, [Create, Create] + [Yield(ret)], 2, NewThread(l, 1), Paused(running, ret), ret');
    ks := ks + [k4];
  }
}
