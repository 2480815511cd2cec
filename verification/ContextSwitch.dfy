/** The context switch of context_switch.asm and the initial stack frame of scheduler.c on a
    register and memory machine. Memory is an array of 64-bit words and addresses count words;
    stacks grow downwards. The six registers are the callee-saved ones of section 3.2.1 of the
    System V AMD64 ABI. */
module ContextSwitch {
  import opened Wrappers

  datatype Regs = Regs(rbx: nat, rbp: nat, r12: nat, r13: nat, r14: nat, r15: nat)

  /** What a suspended task continues with. */
  datatype Context = Context(rsp: nat, rip: nat, regs: Regs)

  const FRAME: nat := 7

  /** The context that popping six registers and returning yields at stack pointer sp. */
  function FrameAt(mem: seq<nat>, sp: nat): Context
    requires sp + FRAME <= |mem|
  {
    Context(sp + FRAME, mem[sp + 6],
            Regs(mem[sp + 5], mem[sp + 4], mem[sp + 3], mem[sp + 2], mem[sp + 1], mem[sp]))
  }

  /** Memory after pushing the six registers on a stack whose pointer is sp, where the return
      address lies, and storing the new stack pointer at `slot`. */
  function Pushed(mem: seq<nat>, sp: nat, slot: nat, r: Regs): (mem': seq<nat>)
    requires 6 <= sp <= |mem| && slot < |mem|
    ensures |mem'| == |mem|
  {
    mem[sp - 1 := r.rbx][sp - 2 := r.rbp][sp - 3 := r.r12][sp - 4 := r.r13][sp - 5 := r.r14][sp - 6 := r.r15][slot := sp - 6]
  }

  class Cpu {
    const mem: array<nat>
    var rsp: nat
    var rip: nat
    var rdi: nat
    var rsi: nat
    var rbx: nat
    var rbp: nat
    var r12: nat
    var r13: nat
    var r14: nat
    var r15: nat

    constructor (size: nat)
      ensures fresh(mem) && mem.Length == size
    {
      mem := new nat[size];
      rsp, rip, rdi, rsi, rbx, rbp, r12, r13, r14, r15 := 0, 0, 0, 0, 0, 0, 0, 0, 0, 0;
    }

    function CalleeSaved(): Regs
      reads this
    {
      Regs(rbx, rbp, r12, r13, r14, r15)
    }

    method Push(value: nat)
      requires 0 < rsp <= mem.Length
      modifies this`rsp, mem
      ensures rsp == old(rsp) - 1 && mem[..] == old(mem[..])[rsp := value]
    {
      rsp := rsp - 1;
      mem[rsp] := value;
    }

    method Pop() returns (value: nat)
      requires rsp < mem.Length
      modifies this`rsp
      ensures rsp == old(rsp) + 1 && value == mem[old(rsp)]
    {
      value := mem[rsp];
      rsp := rsp + 1;
    }

    /** The first half of switch_task_context: six pushes and the store of the stack pointer. */
    method SaveContext()
      requires 6 <= rsp <= mem.Length && rdi < mem.Length
      modifies this`rsp, mem
      ensures mem[..] == Pushed(old(mem[..]), old(rsp), rdi, CalleeSaved())
    {
      Push(rbx);
      Push(rbp);
      Push(r12);
      Push(r13);
      Push(r14);
      Push(r15);
      mem[rdi] := rsp;
    }

    /** The second half: load the new stack pointer, six pops and the return. */
    method LoadContext()
      requires rsi + FRAME <= mem.Length
      modifies this`rsp, this`rip, this`rbx, this`rbp, this`r12, this`r13, this`r14, this`r15
      ensures Context(rsp, rip, CalleeSaved()) == FrameAt(mem[..], old(rsi))
    {
      rsp := rsi;
      r15 := Pop();
      r14 := Pop();
      r13 := Pop();
      r12 := Pop();
      rbp := Pop();
      rbx := Pop();
      rip := Pop();
    }

    /** switch_task_context(rdi, rsi), entered with the return address on top of the stack. */
    method SwitchTaskContext()
      requires 6 <= rsp <= mem.Length && rdi < mem.Length && rsi + FRAME <= mem.Length
      modifies this`rsp, this`rip, this`rbx, this`rbp, this`r12, this`r13, this`r14, this`r15, mem
      ensures mem[..] == Pushed(old(mem[..]), old(rsp), old(rdi), old(CalleeSaved()))
      ensures Context(rsp, rip, CalleeSaved()) == FrameAt(mem[..], old(rsi))
    {
      SaveContext();
      LoadContext();
    }

    function Running(): Context
      reads this
    {
      Context(rsp, rip, CalleeSaved())
    }

    /** The call of switch_task_context with these two arguments. */
    method Call(oldSlot: nat, newRsp: nat, ret: nat)
      requires FRAME <= rsp <= mem.Length && oldSlot < mem.Length && newRsp + FRAME <= mem.Length
      modifies this, mem
      ensures mem[..] == Pushed(old(mem[..])[old(rsp) - 1 := ret], old(rsp) - 1, oldSlot, old(CalleeSaved()))
      ensures Running() == FrameAt(mem[..], newRsp)
    {
      rdi := oldSlot;
      rsi := newRsp;
      Push(ret);
      SwitchTaskContext();
    }

    /** The end of task_yield: pass the slot of the old task and the saved stack pointer of the new
        one, push the return address, and run switch_task_context. This is a Switch step. */
    method CallSwitch(l: Layout, current: nat, task: nat, ret: nat)
      requires Separate(l, mem.Length) && current < |l.slot| && task < |l.slot|
      requires FRAME <= rsp <= mem.Length && mem[l.slot[task]] + FRAME <= mem.Length
      modifies this, mem
      ensures Machine(mem[..], Running(), Some(task)) ==
              Execute(l, old(Machine(mem[..], Running(), Some(current))), Switch(task, ret))
    {
      ghost var m := Machine(mem[..], Running(), Some(current));
      Call(l.slot[current], mem[l.slot[task]], ret);
      SwitchIsCall(l, m, task, ret);
    }

    /** The frame create_task builds below the end of a new stack, and the saved stack pointer. */
    method BuildFrame(stackEnd: nat, slot: nat, entry: nat)
      requires FRAME <= stackEnd <= mem.Length && slot < mem.Length
      requires !(stackEnd - FRAME <= slot < stackEnd)
      modifies mem
      ensures mem[..] == WithFrame(old(mem[..]), stackEnd, slot, entry)
    {
      var stackTop := stackEnd - FRAME;
      mem[stackTop + 0] := 0;
      mem[stackTop + 1] := 0;
      mem[stackTop + 2] := 0;
      mem[stackTop + 3] := 0;
      mem[stackTop + 4] := 0;
      mem[stackTop + 5] := 0;
      mem[stackTop + 6] := entry;
      assert mem[stackTop..stackEnd] == [0, 0, 0, 0, 0, 0, entry];
      assert mem[..] == mem[..stackTop] + mem[stackTop..stackEnd] + mem[stackEnd..];
      mem[slot] := stackTop;
    }
  }

  const ZERO_REGS := Regs(0, 0, 0, 0, 0, 0)

  function WithFrame(mem: seq<nat>, stackEnd: nat, slot: nat, entry: nat): (mem': seq<nat>)
    requires FRAME <= stackEnd <= |mem| && slot < |mem|
    ensures |mem'| == |mem|
  {
    (mem[..stackEnd - FRAME] + [0, 0, 0, 0, 0, 0, entry] + mem[stackEnd..])[slot := stackEnd - FRAME]
  }

  /** The frame built in C matches the pop order: the new task starts at its entry with all six
      registers zero and an empty stack. */
  lemma NewFrame(mem: seq<nat>, stackEnd: nat, slot: nat, entry: nat)
    requires FRAME <= stackEnd <= |mem| && slot < |mem| && !(stackEnd - FRAME <= slot < stackEnd)
    ensures var mem' := WithFrame(mem, stackEnd, slot, entry);
            mem'[slot] == stackEnd - FRAME && FrameAt(mem', stackEnd - FRAME) == Context(stackEnd, entry, ZERO_REGS)
  {
  }

  /** The frame of a suspended task holds its registers, its return address and its stack pointer
      behind the return address. */
  lemma SavedFrame(mem: seq<nat>, sp: nat, slot: nat, r: Regs)
    requires 6 <= sp < |mem| && slot < |mem| && !(sp - 6 <= slot <= sp)
    ensures var mem' := Pushed(mem, sp, slot, r);
            mem'[slot] == sp - 6 && FrameAt(mem', sp - 6) == Context(sp + 1, mem[sp], r)
  {
  }

  // ---------------------------------------------------------------- threads and tasks

  /** Stack areas lo..hi, the addresses of the saved stack pointers of the tasks, and the entry
      point. Task t has area t; the areas from |slot| on are the stacks the kernel boots on. */
  datatype Layout = Layout(lo: seq<nat>, hi: seq<nat>, slot: seq<nat>, entry: nat)

  ghost predicate InArea(l: Layout, r: nat, a: nat)
    requires r < |l.lo| == |l.hi|
  {
    l.lo[r] <= a < l.hi[r]
  }

  /** Areas and slots are pairwise disjoint and an area holds at least one frame. */
  ghost predicate Separate(l: Layout, size: nat) {
    && |l.slot| < |l.lo| == |l.hi|
    && (forall r :: 0 <= r < |l.lo| ==> l.lo[r] + FRAME <= l.hi[r] <= size)
    && (forall t :: 0 <= t < |l.slot| ==> l.slot[t] < size)
    && (forall r, q :: 0 <= r < |l.lo| && 0 <= q < |l.lo| && r != q ==> l.hi[r] <= l.lo[q] || l.hi[q] <= l.lo[r])
    && (forall r, t :: 0 <= r < |l.lo| && 0 <= t < |l.slot| ==> !InArea(l, r, l.slot[t]))
    && (forall t, u :: 0 <= t < |l.slot| && 0 <= u < |l.slot| && t != u ==> l.slot[t] != l.slot[u])
  }

  /** The machine: memory, the running context and the task that counts as current. */
  datatype Machine = Machine(mem: seq<nat>, ctx: Context, current: Option<nat>)

  /** A thread of control and the stack area it runs on. The area of a task need not be its own:
      a task created in an empty queue stands for the thread that created it. */
  datatype Thread = Thread(ctx: Context, area: nat)

  /** The coroutine semantics: suspended tasks with what they continue with, and the running thread. */
  datatype Coroutines = Coroutines(suspended: map<nat, Thread>, running: Thread, current: Option<nat>)

  /** One step of the kernel.
      Work: the running thread computes; it leaves the stacks and slots of suspended tasks alone.
      Spawn: create_task builds the frame of a task that waits in the queue.
      Adopt: create_task on an empty queue builds the frame and makes the task current, while the
             creator goes on running.
      Stop: kill_task on the current task; the thread goes on running.
      Discard: kill_task on a waiting task.
      Switch: the running thread calls switch_task_context with return address `ret`.
      Idle: a call that changes nothing here. */
  datatype Step = Work(mem: seq<nat>, ctx: Context) | Spawn(task: nat) | Adopt(task: nat) | Stop
                | Discard(task: nat) | Switch(task: nat, ret: nat) | Idle

  ghost predicate Private(l: Layout, t: nat, area: nat, a: nat)
    requires |l.lo| == |l.hi| && t < |l.slot| && area < |l.lo|
  {
    InArea(l, area, a) || a == l.slot[t]
  }

  /** No thread uses the own area of task t. */
  ghost predicate Unused(c: Coroutines, t: nat) {
    && t !in c.suspended && c.current != Some(t) && c.running.area != t
    && (forall u :: u in c.suspended ==> c.suspended[u].area != t)
  }

  /** The running thread has room for a frame on its stack. */
  ghost predicate RoomToSwitch(l: Layout, c: Coroutines) {
    && c.running.area < |l.lo| == |l.hi|
    && l.lo[c.running.area] + FRAME <= c.running.ctx.rsp <= l.hi[c.running.area]
  }

  /** The new memory keeps what belongs to suspended tasks. */
  ghost predicate LeavesAlone(l: Layout, c: Coroutines, mem: seq<nat>, mem': seq<nat>)
    requires |l.lo| == |l.hi| && forall t :: t in c.suspended ==> t < |l.slot| && c.suspended[t].area < |l.lo|
  {
    && |mem'| == |mem|
    && (forall t, a :: t in c.suspended && 0 <= a < |mem| && Private(l, t, c.suspended[t].area, a) ==> mem'[a] == mem[a])
  }

  /** The step is one the machine can take. */
  ghost predicate Allowed(l: Layout, m: Machine, c: Coroutines, s: Step)
    requires Simulates(l, m, c)
  {
    match s
    case Work(mem, ctx) => LeavesAlone(l, c, m.mem, mem)
    case Spawn(t) => t < |l.slot| && Unused(c, t)
    case Adopt(t) => t < |l.slot| && Unused(c, t) && c.current.None?
    case Stop => c.current.Some?
    case Discard(t) => t in c.suspended
    case Switch(t, _) => t in c.suspended && c.current.Some? && RoomToSwitch(l, c)
    case Idle => true
  }

  /** The machine's side of a step. For a switch: the call pushes the return address, then
      switch_task_context runs with the address of the old task's slot and the new task's saved
      stack pointer. */
  ghost function Execute(l: Layout, m: Machine, s: Step): Machine
    requires Separate(l, |m.mem|)
    requires s.Spawn? || s.Adopt? ==> s.task < |l.slot|
    requires s.Switch? ==> s.task < |l.slot| && m.current.Some? && m.current.value < |l.slot|
                           && FRAME <= m.ctx.rsp <= |m.mem| && m.mem[l.slot[s.task]] + FRAME <= |m.mem|
  {
    match s
    case Work(mem, ctx) => Machine(mem, ctx, m.current)
    case Spawn(t) => m.(mem := WithFrame(m.mem, l.hi[t], l.slot[t], l.entry))
    case Adopt(t) => Machine(WithFrame(m.mem, l.hi[t], l.slot[t], l.entry), m.ctx, Some(t))
    case Stop => m.(current := None)
    case Discard(_) => m
    case Switch(t, ret) =>
      var mem := Left(l, m.mem, m.current.value, m.ctx, ret);
      Machine(mem, FrameAt(mem, m.mem[l.slot[t]]), Some(t))
    case Idle => m
  }

  lemma SwitchIsCall(l: Layout, m: Machine, task: nat, ret: nat)
    requires Separate(l, |m.mem|) && m.current.Some? && m.current.value < |l.slot| && task < |l.slot|
    requires FRAME <= m.ctx.rsp <= |m.mem| && m.mem[l.slot[task]] + FRAME <= |m.mem|
    ensures var rsp := m.ctx.rsp;
            var mem := Pushed(m.mem[rsp - 1 := ret], rsp - 1, l.slot[m.current.value], m.ctx.regs);
            Execute(l, m, Switch(task, ret)) == Machine(mem, FrameAt(mem, m.mem[l.slot[task]]), Some(task))
  {
  }

  /** The specification's side of a step. */
  ghost function Resume(l: Layout, c: Coroutines, s: Step): Coroutines
    requires s.Spawn? ==> s.task < |l.hi|
    requires s.Switch? ==> s.task in c.suspended && c.current.Some?
  {
    match s
    case Work(_, ctx) => c.(running := c.running.(ctx := ctx))
    case Spawn(t) => c.(suspended := c.suspended[t := NewThread(l, t)])
    case Adopt(t) => c.(current := Some(t))
    case Stop => c.(current := None)
    case Discard(t) => c.(suspended := c.suspended - {t})
    case Switch(t, ret) =>
      Coroutines((c.suspended - {t})[c.current.value := Paused(c.running, ret)], c.suspended[t], Some(t))
    case Idle => c
  }

  /** A task that was never run: its entry point, zero registers and its own, empty stack. */
  ghost function NewThread(l: Layout, t: nat): Thread
    requires t < |l.hi|
  {
    Thread(Context(l.hi[t], l.entry, ZERO_REGS), t)
  }

  /** What a thread that calls switch_task_context continues with. */
  ghost function Paused(thread: Thread, ret: nat): Thread {
    thread.(ctx := Context(thread.ctx.rsp, ret, thread.ctx.regs))
  }

  /** The slot of task t and the area of the thread hold its context. */
  ghost predicate Holds(l: Layout, mem: seq<nat>, t: nat, thread: Thread)
    requires Separate(l, |mem|) && t < |l.slot| && thread.area < |l.lo|
  {
    var sp := mem[l.slot[t]];
    l.lo[thread.area] <= sp && sp + FRAME <= l.hi[thread.area] && FrameAt(mem, sp) == thread.ctx
  }

  /** The threads are suspended on areas of their own, and none of them is current. */
  ghost predicate WellFormed(l: Layout, c: Coroutines) {
    && c.running.area < |l.lo|
    && (c.current.Some? ==> c.current.value < |l.slot| && c.current.value !in c.suspended)
    && (forall t :: t in c.suspended ==> t < |l.slot| && c.suspended[t].area < |l.lo| && c.suspended[t].area != c.running.area)
    && (forall t, u :: t in c.suspended && u in c.suspended && t != u ==> c.suspended[t].area != c.suspended[u].area)
  }

  /** The machine implements the coroutines. */
  ghost predicate Simulates(l: Layout, m: Machine, c: Coroutines) {
    && Separate(l, |m.mem|) && WellFormed(l, c)
    && m.ctx == c.running.ctx && m.current == c.current
    && (forall t :: t in c.suspended ==> Holds(l, m.mem, t, c.suspended[t]))
  }

  // ---------------------------------------------------------------- every step simulates

  /** A task's context survives every change outside its area and slot. */
  lemma HoldsFrame(l: Layout, mem: seq<nat>, mem': seq<nat>, t: nat, thread: Thread)
    requires Separate(l, |mem|) && |mem'| == |mem| && t < |l.slot| && thread.area < |l.lo| && Holds(l, mem, t, thread)
    requires forall a :: 0 <= a < |mem| && Private(l, t, thread.area, a) ==> mem'[a] == mem[a]
    ensures Holds(l, mem', t, thread)
  {
    var sp, r := mem[l.slot[t]], thread.area;
    assert Private(l, t, r, l.slot[t]);
    assert Private(l, t, r, sp) && Private(l, t, r, sp + 1) && Private(l, t, r, sp + 2) && Private(l, t, r, sp + 3);
    assert Private(l, t, r, sp + 4) && Private(l, t, r, sp + 5) && Private(l, t, r, sp + 6);
  }

  lemma WorkStep(l: Layout, m: Machine, c: Coroutines, mem: seq<nat>, ctx: Context)
    requires Simulates(l, m, c) && Allowed(l, m, c, Work(mem, ctx))
    ensures Simulates(l, Execute(l, m, Work(mem, ctx)), Resume(l, c, Work(mem, ctx)))
  {
    forall t | t in c.suspended ensures Holds(l, mem, t, c.suspended[t]) {
      HoldsFrame(l, m.mem, mem, t, c.suspended[t]);
    }
  }

  /** Building a frame leaves tasks on other areas alone. */
  lemma FrameOther(l: Layout, mem: seq<nat>, t: nat, u: nat, thread: Thread)
    requires Separate(l, |mem|) && t < |l.slot| && u < |l.slot| && t != u
    requires thread.area < |l.lo| && thread.area != t && Holds(l, mem, u, thread)
    ensures Holds(l, WithFrame(mem, l.hi[t], l.slot[t], l.entry), u, thread)
  {
    var mem' := WithFrame(mem, l.hi[t], l.slot[t], l.entry);
    forall a: nat | a < |mem| && Private(l, u, thread.area, a) ensures mem'[a] == mem[a] {
      assert !InArea(l, t, l.slot[u]) && !InArea(l, thread.area, l.slot[t]);
    }
    HoldsFrame(l, mem, mem', u, thread);
  }

  lemma FrameOthers(l: Layout, m: Machine, c: Coroutines, t: nat)
    requires Simulates(l, m, c) && t < |l.slot| && Unused(c, t)
    ensures var mem := WithFrame(m.mem, l.hi[t], l.slot[t], l.entry);
            && (forall u :: u in c.suspended ==> Holds(l, mem, u, c.suspended[u]))
            && Holds(l, mem, t, NewThread(l, t))
  {
    var mem := WithFrame(m.mem, l.hi[t], l.slot[t], l.entry);
    assert !InArea(l, t, l.slot[t]);
    NewFrame(m.mem, l.hi[t], l.slot[t], l.entry);
    forall u | u in c.suspended ensures Holds(l, mem, u, c.suspended[u]) {
      FrameOther(l, m.mem, t, u, c.suspended[u]);
    }
  }

  lemma SpawnStep(l: Layout, m: Machine, c: Coroutines, t: nat)
    requires Simulates(l, m, c) && Allowed(l, m, c, Spawn(t))
    ensures Simulates(l, Execute(l, m, Spawn(t)), Resume(l, c, Spawn(t)))
  {
    FrameOthers(l, m, c, t);
    SpawnWellFormed(l, c, t);
  }

  lemma SpawnWellFormed(l: Layout, c: Coroutines, t: nat)
    requires WellFormed(l, c) && t < |l.slot| < |l.lo| == |l.hi| && Unused(c, t)
    ensures WellFormed(l, Resume(l, c, Spawn(t)))
  {
  }

  lemma AdoptStep(l: Layout, m: Machine, c: Coroutines, t: nat)
    requires Simulates(l, m, c) && Allowed(l, m, c, Adopt(t))
    ensures Simulates(l, Execute(l, m, Adopt(t)), Resume(l, c, Adopt(t)))
  {
    FrameOthers(l, m, c, t);
  }

  /** Memory after the call and the pushes of a switch away from task t. */
  ghost function Left(l: Layout, mem: seq<nat>, t: nat, ctx: Context, ret: nat): (mem': seq<nat>)
    requires Separate(l, |mem|) && t < |l.slot| && FRAME <= ctx.rsp <= |mem|
    ensures |mem'| == |mem|
  {
    Pushed(mem[ctx.rsp - 1 := ret], ctx.rsp - 1, l.slot[t], ctx.regs)
  }

  /** The thread that is left runs on its area and has room for a frame. */
  ghost predicate CanLeave(l: Layout, mem: seq<nat>, t: nat, thread: Thread) {
    && Separate(l, |mem|) && t < |l.slot| && thread.area < |l.lo|
    && l.lo[thread.area] + FRAME <= thread.ctx.rsp <= l.hi[thread.area]
  }

  /** What a switch writes lies on the area of the thread or in the slot of the task that is left. */
  lemma SwitchWrites(l: Layout, mem: seq<nat>, t: nat, thread: Thread, ret: nat, a: nat)
    requires CanLeave(l, mem, t, thread) && a < |mem|
    ensures !Private(l, t, thread.area, a) ==> Left(l, mem, t, thread.ctx, ret)[a] == mem[a]
  {
  }

  lemma LeftHolds(l: Layout, mem: seq<nat>, t: nat, thread: Thread, ret: nat)
    requires CanLeave(l, mem, t, thread)
    ensures Holds(l, Left(l, mem, t, thread.ctx, ret), t, Paused(thread, ret))
  {
    var ctx := thread.ctx;
    assert !InArea(l, thread.area, l.slot[t]);
    SavedFrame(mem[ctx.rsp - 1 := ret], ctx.rsp - 1, l.slot[t], ctx.regs);
  }

  lemma LeftOther(l: Layout, mem: seq<nat>, t: nat, thread: Thread, ret: nat, u: nat, other: Thread)
    requires CanLeave(l, mem, t, thread)
    requires u < |l.slot| && u != t && other.area < |l.lo| && other.area != thread.area && Holds(l, mem, u, other)
    ensures Holds(l, Left(l, mem, t, thread.ctx, ret), u, other)
    ensures Left(l, mem, t, thread.ctx, ret)[l.slot[u]] == mem[l.slot[u]]
  {
    var mem' := Left(l, mem, t, thread.ctx, ret);
    forall a: nat | a < |mem| && Private(l, u, other.area, a) ensures mem'[a] == mem[a] {
      assert !InArea(l, thread.area, l.slot[u]) && !InArea(l, other.area, l.slot[t]);
      SwitchWrites(l, mem, t, thread, ret, a);
    }
    HoldsFrame(l, mem, mem', u, other);
    assert Private(l, u, other.area, l.slot[u]);
  }

  lemma SwitchHolds(l: Layout, m: Machine, c: Coroutines, t: nat, ret: nat, u: nat)
    requires Simulates(l, m, c) && Allowed(l, m, c, Switch(t, ret)) && u in Resume(l, c, Switch(t, ret)).suspended
    ensures var thread := Resume(l, c, Switch(t, ret)).suspended[u];
            && u < |l.slot| && thread.area < |l.lo|
            && Holds(l, Left(l, m.mem, m.current.value, m.ctx, ret), u, thread)
  {
    if u == m.current.value {
      LeftHolds(l, m.mem, u, c.running, ret);
    } else {
      LeftOther(l, m.mem, m.current.value, c.running, ret, u, c.suspended[u]);
    }
  }

  lemma SwitchStep(l: Layout, m: Machine, c: Coroutines, t: nat, ret: nat)
    requires Simulates(l, m, c) && Allowed(l, m, c, Switch(t, ret))
    ensures Simulates(l, Execute(l, m, Switch(t, ret)), Resume(l, c, Switch(t, ret)))
  {
    var m', c' := Execute(l, m, Switch(t, ret)), Resume(l, c, Switch(t, ret));
    LeftOther(l, m.mem, m.current.value, c.running, ret, t, c.suspended[t]);
    assert m'.ctx == c'.running.ctx;
    forall u | u in c'.suspended ensures Holds(l, m'.mem, u, c'.suspended[u]) {
      SwitchHolds(l, m, c, t, ret, u);
    }
  }

  /** Every allowed step keeps machine and coroutines together. */
  lemma StepSimulates(l: Layout, m: Machine, c: Coroutines, s: Step)
    requires Simulates(l, m, c) && Allowed(l, m, c, s)
    ensures Simulates(l, Execute(l, m, s), Resume(l, c, s))
  {
    match s
    case Work(mem, ctx) => WorkStep(l, m, c, mem, ctx);
    case Spawn(t) => SpawnStep(l, m, c, t);
    case Adopt(t) => AdoptStep(l, m, c, t);
    case Switch(t, ret) => SwitchStep(l, m, c, t, ret);
    case Stop =>
    case Discard(t) =>
    case Idle =>
  }
}
