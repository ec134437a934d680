/**
 task.c, x86/task.c and x86/task_asm.S on memory words and registers. The ghost field `sched` is the abstract state of
 module Scheduler that the memory represents; every method takes it through the matching transition.
 */
module Tasks {
  import opened Lists
  import opened Scheduler

  /** Offsets in struct task; the list node is at offset 0. */
  const STATE := 8
  const COUNT := 12
  const ENTRY := 16
  const ARG := 20
  const STACK := 24
  const STACK_SIZE := 28
  const SAVED_SP := 32
  const TASK_SIZE := 36

  /** sizeof(struct context_switch_frame): edi, esi, ebp, ebx and the return address. */
  const FRAME := 20

  function Code(state: State): int {
    match state
    case INITIAL => 0
    case READY => 1
    case RUNNING => 2
    case DEAD => 3
  }

  // ------------------------------------------------------------------ the processor

  /** At `sp` lies the frame that brings back context `c`. */
  ghost predicate FrameAt(w: seq<int>, sp: int, c: Context)
    requires 0 <= sp && sp + FRAME <= |w|
  {
    && w[sp] == c.edi && w[sp + 4] == c.esi && w[sp + 8] == c.ebp && w[sp + 12] == c.ebx && w[sp + 16] == c.eip
    && c.esp == sp + FRAME
  }

  class Cpu {
    const ram: array<int>
    var ebx: int
    var ebp: int
    var esi: int
    var edi: int
    var esp: int
    /** Where the current function continues after the call it is making. */
    var eip: int

    constructor (memory: array<int>, c: Context)
      ensures ram == memory && Registers() == c
    {
      ram := memory;
      ebx, ebp, esi, edi, esp, eip := c.ebx, c.ebp, c.esi, c.edi, c.esp, c.eip;
    }

    function Registers(): Context
      reads this
    {
      Context(ebx, ebp, esi, edi, esp, eip)
    }

    method Load(c: Context)
      modifies this
      ensures Registers() == c
    {
      ebx, ebp, esi, edi, esp, eip := c.ebx, c.ebp, c.esi, c.edi, c.esp, c.eip;
    }

    method Push(v: int)
      requires 4 <= esp <= ram.Length
      modifies this`esp, ram
      ensures esp == old(esp) - 4 && ram[..] == old(ram[..])[esp := v]
    {
      esp := esp - 4;
      ram[esp] := v;
    }

    method Pop() returns (v: int)
      requires 0 <= esp && esp + 4 <= ram.Length
      modifies this`esp
      ensures esp == old(esp) + 4 && v == old(ram[esp])
    {
      v := ram[esp];
      esp := esp + 4;
    }

    /** The call and the pushes: the caller's context goes on its stack. */
    method SaveFrame()
      requires FRAME <= esp <= ram.Length
      modifies this`esp, ram
      ensures esp == old(esp) - FRAME && FrameAt(ram[..], esp, old(Registers()))
      ensures forall a :: 0 <= a < ram.Length && !(esp <= a < old(esp)) ==> ram[a] == old(ram[a])
    {
      Push(eip);
      Push(ebx);
      Push(ebp);
      Push(esi);
      Push(edi);
    }

    /** The pops and the return: the frame at `esp` becomes the context. */
    method RestoreFrame(ghost next: Context)
      requires 0 <= esp && esp + FRAME <= ram.Length && FrameAt(ram[..], esp, next)
      modifies this
      ensures Registers() == next
    {
      edi := Pop();
      esi := Pop();
      ebp := Pop();
      ebx := Pop();
      eip := Pop();
    }

    /** x86_asm_switch(oldSp, newSp), called and returned from: the caller's frame is saved, the other one is consumed. */
    method AsmSwitch(oldSp: int, newSp: int, ghost next: Context)
      requires FRAME <= esp <= ram.Length && 0 <= oldSp && oldSp + 4 <= ram.Length
      requires oldSp + 4 <= esp - FRAME || esp <= oldSp
      requires 0 <= newSp && newSp + FRAME <= ram.Length && FrameAt(ram[..], newSp, next)
      requires newSp + FRAME <= esp - FRAME || esp <= newSp
      requires newSp + FRAME <= oldSp || oldSp + 4 <= newSp
      modifies this, ram
      ensures Registers() == next
      ensures FrameAt(ram[..], old(esp) - FRAME, old(Registers())) && ram[oldSp] == old(esp) - FRAME
      ensures forall a :: 0 <= a < ram.Length && a != oldSp && !(old(esp) - FRAME <= a < old(esp)) ==> ram[a] == old(ram[a])
    {
      SaveFrame();
      ram[oldSp] := esp;
      esp := newSp;
      RestoreFrame(next);
    }
  }

  // ------------------------------------------------------------------ tasks in memory

  /** The stack of a task, and what the task was created to call. */
  datatype Home = Home(lo: int, hi: int, entry: int, arg: int)

  predicate Away(a: int, b: int, c: int, d: int) {
    b <= c || d <= a
  }

  /** Two tasks share no byte of their structures and stacks. */
  predicate Separate(t: int, h: Home, u: int, g: Home) {
    && Away(t, t + TASK_SIZE, u, u + TASK_SIZE) && Away(t, t + TASK_SIZE, g.lo, g.hi)
    && Away(h.lo, h.hi, u, u + TASK_SIZE) && Away(h.lo, h.hi, g.lo, g.hi)
  }

  /** A task's structure and stack are in memory, apart from each other and from the run queue's sentinel. */
  predicate Settled(limit: int, list: int, t: int, h: Home) {
    && 0 < t && t + TASK_SIZE <= limit && 0 < h.lo && h.lo + FRAME <= h.hi <= limit
    && Away(t, t + TASK_SIZE, list, list + NODE_SIZE) && Away(h.lo, h.hi, list, list + NODE_SIZE)
    && Away(t, t + TASK_SIZE, h.lo, h.hi)
  }

  ghost predicate Layout(limit: int, list: int, homes: map<int, Home>) {
    && 0 < list && list + NODE_SIZE <= limit
    && (forall t :: t in homes ==> Settled(limit, list, t, homes[t]))
    && (forall t, u :: t in homes && u in homes && t != u ==> Separate(t, homes[t], u, homes[u]))
  }

  /** The fields of every task structure. */
  ghost predicate Fields(w: seq<int>, tasks: map<int, Task>) {
    forall t :: t in tasks ==>
      0 <= t && t + TASK_SIZE <= |w| && w[t + STATE] == Code(tasks[t].state) && w[t + COUNT] == tasks[t].count
  }

  /** Every parked context lies on its task's own stack, where `saved_sp` points. */
  ghost predicate Frames(w: seq<int>, parked: map<int, Context>, homes: map<int, Home>) {
    forall t :: t in parked ==>
      && t in homes && 0 <= t && t + TASK_SIZE <= |w|
      && homes[t].lo <= w[t + SAVED_SP] && w[t + SAVED_SP] + FRAME <= homes[t].hi <= |w| && 0 <= homes[t].lo
      && FrameAt(w, w[t + SAVED_SP], parked[t])
  }

  /** `a` is one of the task's field words or lies on its stack. */
  predicate Own(t: int, h: Home, a: int) {
    t + NODE_SIZE <= a < t + TASK_SIZE || h.lo <= a < h.hi
  }

  ghost predicate OwnKept(w: seq<int>, w': seq<int>, t: int, h: Home) {
    |w'| == |w| && forall a :: 0 <= a < |w| && Own(t, h, a) ==> w'[a] == w[a]
  }

  /** Memory holds the run queue, the task structures and the parked contexts of `s`. */
  ghost predicate Image(w: seq<int>, list: int, s: Sched, homes: map<int, Home>) {
    && Layout(|w|, list, homes) && s.tasks.Keys <= homes.Keys && s.parked.Keys <= homes.Keys
    && Ring(w, list, s.queue) && Fields(w, s.tasks) && Frames(w, s.parked, homes)
  }

  /** Every task structure still names the function and the argument the task was created with. */
  ghost predicate Entries(w: seq<int>, homes: map<int, Home>) {
    forall t :: t in homes ==>
      0 <= t && t + TASK_SIZE <= |w| && w[t + ENTRY] == homes[t].entry && w[t + ARG] == homes[t].arg
  }

  /** A word the scheduler may write: list links, states, counts, saved stack pointers, and the bytes `lo` to `hi`. */
  ghost predicate Kernels(list: int, homes: map<int, Home>, lo: int, hi: int, a: int) {
    || lo <= a < hi || list <= a < list + NODE_SIZE
    || exists t :: t in homes && (t <= a < t + ENTRY || a == t + SAVED_SP)
  }

  ghost predicate OnlyKernels(w: seq<int>, w': seq<int>, list: int, homes: map<int, Home>, lo: int, hi: int) {
    |w'| == |w| && forall a :: 0 <= a < |w| && !Kernels(list, homes, lo, hi, a) ==> w'[a] == w[a]
  }

  lemma KernelsThen(w: seq<int>, w1: seq<int>, w2: seq<int>, list: int, homes: map<int, Home>, lo: int, hi: int)
    requires OnlyKernels(w, w1, list, homes, lo, hi) && OnlyKernels(w1, w2, list, homes, lo, hi)
    ensures OnlyKernels(w, w2, list, homes, lo, hi)
  {
    hide Kernels;
  }

  lemma KernelsMore(w: seq<int>, w': seq<int>, list: int, homes: map<int, Home>, lo: int, hi: int)
    requires OnlyKernels(w, w', list, homes, 0, 0)
    ensures OnlyKernels(w, w', list, homes, lo, hi)
  {
    forall a | 0 <= a < |w| && !Kernels(list, homes, lo, hi, a) ensures !Kernels(list, homes, 0, 0, a) {
    }
  }

  /** `a` belongs to task `t` alone: its stack, or what task_create stored and nobody changes. */
  predicate Private(t: int, h: Home, a: int) {
    t + ENTRY <= a < t + SAVED_SP || h.lo <= a < h.hi
  }

  /** The scheduler leaves every private word of every task alone, but for the frame it pushes on the caller's stack. */
  lemma PrivateKept(w: seq<int>, w': seq<int>, list: int, homes: map<int, Home>, lo: int, hi: int, u: int)
    requires Layout(|w|, list, homes) && OnlyKernels(w, w', list, homes, lo, hi) && u in homes
    ensures forall a :: 0 <= a < |w| && Private(u, homes[u], a) && !(lo <= a < hi) ==> w'[a] == w[a]
  {
    hide Private;
    forall a | 0 <= a < |w| && Private(u, homes[u], a) && !(lo <= a < hi) ensures !Kernels(list, homes, lo, hi, a) {
      PrivateIsNoKernels(|w|, list, homes, u, a, lo, hi);
    }
  }

  lemma PrivateIsNoKernels(limit: int, list: int, homes: map<int, Home>, u: int, a: int, lo: int, hi: int)
    requires Layout(limit, list, homes) && u in homes && Private(u, homes[u], a) && !(lo <= a < hi)
    ensures !Kernels(list, homes, lo, hi, a)
  {
    assert Settled(limit, list, u, homes[u]);
    forall t | t in homes ensures !(t <= a < t + ENTRY || a == t + SAVED_SP) {
      assert t != u ==> Separate(t, homes[t], u, homes[u]);
    }
  }

  lemma EntriesKept(w: seq<int>, w': seq<int>, list: int, homes: map<int, Home>, lo: int, hi: int, t: int)
    requires Layout(|w|, list, homes) && OnlyKernels(w, w', list, homes, lo, hi) && Entries(w, homes)
    requires lo < hi ==> t in homes && homes[t].lo <= lo && hi <= homes[t].hi
    ensures Entries(w', homes)
  {
    hide Layout, OnlyKernels;
    forall u | u in homes
      ensures 0 <= u && u + TASK_SIZE <= |w'| && w'[u + ENTRY] == w[u + ENTRY] && w'[u + ARG] == w[u + ARG]
    {
      NoStack(|w|, list, homes, u, t, lo, hi);
      PrivateKept(w, w', list, homes, lo, hi, u);
      SameLength(w, w', list, homes, lo, hi);
      assert Private(u, homes[u], u + ENTRY) && Private(u, homes[u], u + ARG);
    }
  }

  lemma SameLength(w: seq<int>, w': seq<int>, list: int, homes: map<int, Home>, lo: int, hi: int)
    requires OnlyKernels(w, w', list, homes, lo, hi)
    ensures |w'| == |w|
  {
  }

  lemma NoStack(limit: int, list: int, homes: map<int, Home>, u: int, t: int, lo: int, hi: int)
    requires Layout(limit, list, homes) && u in homes
    requires lo < hi ==> t in homes && homes[t].lo <= lo && hi <= homes[t].hi
    ensures 0 < u && u + TASK_SIZE <= limit
    ensures !(lo <= u + ENTRY < hi) && !(lo <= u + ARG < hi)
  {
    assert Settled(limit, list, u, homes[u]);
    assert lo < hi && t != u ==> Separate(t, homes[t], u, homes[u]);
  }

  /** Writing the state or the count of task `t`. */
  lemma FieldKeeps(w: seq<int>, w': seq<int>, list: int, homes: map<int, Home>, t: int)
    requires Layout(|w|, list, homes) && Entries(w, homes) && t in homes && |w'| == |w|
    requires forall a :: 0 <= a < |w| && a != t + STATE && a != t + COUNT ==> w'[a] == w[a]
    ensures OnlyKernels(w, w', list, homes, 0, 0) && Entries(w', homes)
  {
    hide Layout, Entries;
    EntriesKept(w, w', list, homes, 0, 0, t);
  }

  /** Linking and unlinking tasks. */
  lemma LinkKeeps(w: seq<int>, w': seq<int>, list: int, homes: map<int, Home>, item: int, p: int, n: int)
    requires Layout(|w|, list, homes) && Entries(w, homes)
    requires OnlyLinks(w, w', item, p, n) && item in homes && (p == list || p in homes) && (n == list || n in homes)
    ensures OnlyKernels(w, w', list, homes, 0, 0) && Entries(w', homes)
  {
    hide Layout, Entries;
    forall a | 0 <= a < |w| && !Kernels(list, homes, 0, 0, a) ensures Untouched(a, item, p, n) {
    }
    EntriesKept(w, w', list, homes, 0, 0, item);
  }

  /** Saving a context on the stack of `t`. */
  lemma SaveKeeps(w: seq<int>, w': seq<int>, list: int, homes: map<int, Home>, t: int, lo: int, hi: int)
    requires Layout(|w|, list, homes) && Entries(w, homes) && t in homes && |w'| == |w| && homes[t].lo <= lo && hi <= homes[t].hi
    requires forall a :: 0 <= a < |w| && a != t + SAVED_SP && !(lo <= a < hi) ==> w'[a] == w[a]
    ensures OnlyKernels(w, w', list, homes, lo, hi) && Entries(w', homes)
  {
    hide Layout, Entries;
    EntriesKept(w, w', list, homes, lo, hi, t);
  }

  /** A new task's structure and frame are none of the other tasks'. */
  lemma CreateKeeps(w: seq<int>, w': seq<int>, list: int, homes: map<int, Home>, t: int, h: Home)
    requires Layout(|w|, list, homes[t := h]) && Entries(w, homes) && |w'| == |w|
    requires 0 <= t && t + TASK_SIZE <= |w| && w'[t + ENTRY] == h.entry && w'[t + ARG] == h.arg
    requires forall a :: 0 <= a < |w| && !(t <= a < t + TASK_SIZE) && !(h.hi - FRAME <= a < h.hi) ==> w'[a] == w[a]
    ensures Entries(w', homes[t := h])
  {
    hide Layout;
    var hs := homes[t := h];
    forall u | u in homes && u != t ensures w'[u + ENTRY] == w[u + ENTRY] && w'[u + ARG] == w[u + ARG] {
      ElsewhereEntry(|w|, list, hs, t, u);
    }
  }

  lemma ElsewhereEntry(limit: int, list: int, homes: map<int, Home>, t: int, u: int)
    requires Layout(limit, list, homes) && t in homes && u in homes && u != t
    ensures var h := homes[t];
      && (u + ENTRY < t || t + TASK_SIZE <= u + ENTRY) && (u + ARG < t || t + TASK_SIZE <= u + ARG)
      && (u + ENTRY < h.hi - FRAME || h.hi <= u + ENTRY) && (u + ARG < h.hi - FRAME || h.hi <= u + ARG)
  {
    assert Settled(limit, list, t, homes[t]) && Settled(limit, list, u, homes[u]);
    assert Separate(t, homes[t], u, homes[u]);
  }

  /** Without a task that is neither queued nor current, the rest stays. */
  lemma ReleaseImage(w: seq<int>, list: int, s: Sched, homes: map<int, Home>, t: int)
    requires Image(w, list, s, homes) && Entries(w, homes)
    ensures Image(w, list, Release(s, t), homes - {t}) && Entries(w, homes - {t})
  {
    hide Ring, FrameAt, Settled, Separate;
  }

  lemma QueuePlaced(limit: int, list: int, homes: map<int, Home>, q: seq<int>)
    requires Layout(limit, list, homes) && Distinct(q) && forall i :: 0 <= i < |q| ==> q[i] in homes
    ensures Placed(limit, Cycle(list, q))
  {
    var c := Cycle(list, q);
    forall i | 0 <= i < |c| ensures c[i] == if 1 <= i <= |q| then q[i - 1] else list {
      CycleAt(list, q, i);
    }
    forall i, j | 0 <= i < j < |c| ensures Apart(c[i], c[j]) || (i == 0 && j == |c| - 1) {
      if 1 <= i <= |q| && 1 <= j <= |q| {
        assert q[i - 1] != q[j - 1];
        assert Separate(q[i - 1], homes[q[i - 1]], q[j - 1], homes[q[j - 1]]);
      } else if 1 <= i <= |q| {
        assert Settled(limit, list, q[i - 1], homes[q[i - 1]]);
      } else if 1 <= j <= |q| {
        assert Settled(limit, list, q[j - 1], homes[q[j - 1]]);
      }
    }
  }

  /** What a task owns holds no word of a list node. */
  lemma OwnIsNoNode(limit: int, list: int, homes: map<int, Home>, t: int, a: int, x: int)
    requires Layout(limit, list, homes) && t in homes && Own(t, homes[t], a) && (x == list || x in homes)
    ensures a != x && a != x + NEXT
  {
    assert Settled(limit, list, t, homes[t]);
    assert x in homes && x != t ==> Separate(t, homes[t], x, homes[x]);
  }

  /** Linking and unlinking tasks writes no field and no stack. */
  lemma LinksKeepOwn(w: seq<int>, w': seq<int>, list: int, homes: map<int, Home>, item: int, p: int, n: int, t: int)
    requires Layout(|w|, list, homes) && OnlyLinks(w, w', item, p, n) && t in homes
    requires item in homes && (p == list || p in homes) && (n == list || n in homes)
    ensures OwnKept(w, w', t, homes[t])
  {
    hide Layout, Own;
    forall a | 0 <= a < |w| && Own(t, homes[t], a) ensures w'[a] == w[a] {
      OwnIsNoNode(|w|, list, homes, t, a, item);
      OwnIsNoNode(|w|, list, homes, t, a, p);
      OwnIsNoNode(|w|, list, homes, t, a, n);
    }
  }

  lemma OwnFrame(w: seq<int>, w': seq<int>, t: int, h: Home, sp: int, c: Context)
    requires OwnKept(w, w', t, h) && 0 <= h.lo <= sp && sp + FRAME <= h.hi <= |w| && FrameAt(w, sp, c)
    ensures FrameAt(w', sp, c)
  {
    assert Own(t, h, sp) && Own(t, h, sp + 4) && Own(t, h, sp + 8) && Own(t, h, sp + 12) && Own(t, h, sp + 16);
  }

  /** A task whose own words are kept keeps its fields and its parked context. */
  lemma KeptFields(w: seq<int>, w': seq<int>, homes: map<int, Home>, tasks: map<int, Task>, parked: map<int, Context>)
    requires tasks.Keys <= homes.Keys && parked.Keys <= homes.Keys
    requires forall t :: t in homes && (t in tasks || t in parked) ==> OwnKept(w, w', t, homes[t])
    requires Fields(w, tasks) && Frames(w, parked, homes)
    ensures Fields(w', tasks) && Frames(w', parked, homes)
  {
    hide FrameAt;
    forall t | t in tasks ensures 0 <= t && t + TASK_SIZE <= |w'| && w'[t + STATE] == w[t + STATE] && w'[t + COUNT] == w[t + COUNT] {
      assert Own(t, homes[t], t + STATE) && Own(t, homes[t], t + COUNT);
    }
    forall t | t in parked
      ensures 0 <= t && t + TASK_SIZE <= |w'| && w'[t + SAVED_SP] == w[t + SAVED_SP] && FrameAt(w', w[t + SAVED_SP], parked[t])
    {
      assert Own(t, homes[t], t + SAVED_SP);
      OwnFrame(w, w', t, homes[t], w[t + SAVED_SP], parked[t]);
    }
  }

  lemma NodeIsForeign(limit: int, list: int, homes: map<int, Home>, t: int, x: int)
    requires Layout(limit, list, homes) && t in homes && (x == list || x in homes)
    ensures 0 <= x && x + NODE_SIZE <= limit && !Own(t, homes[t], x) && !Own(t, homes[t], x + NEXT)
  {
    assert Settled(limit, list, t, homes[t]);
    assert x in homes && x != t ==> Separate(t, homes[t], x, homes[x]);
    assert x in homes ==> Settled(limit, list, x, homes[x]);
  }

  lemma ForeignOwn(limit: int, list: int, homes: map<int, Home>, t: int, u: int, a: int)
    requires Layout(limit, list, homes) && t in homes && u in homes && u != t && Own(u, homes[u], a)
    ensures !Own(t, homes[t], a)
  {
    assert Separate(t, homes[t], u, homes[u]);
  }

  /** Writes to what task `t` owns leave the run queue and what every other task owns. */
  lemma TerritoryWrite(w: seq<int>, w': seq<int>, list: int, homes: map<int, Home>, t: int, q: seq<int>)
    requires Layout(|w|, list, homes) && t in homes && |w'| == |w| && Ring(w, list, q)
    requires forall i :: 0 <= i < |q| ==> q[i] in homes
    requires forall a :: 0 <= a < |w| && !Own(t, homes[t], a) ==> w'[a] == w[a]
    ensures Ring(w', list, q) && forall u :: u in homes && u != t ==> OwnKept(w, w', u, homes[u])
  {
    hide Ring, Own;
    forall i | 0 <= i < |q| + 2 ensures var a := Cycle(list, q)[i]; 0 <= a && a + NEXT < |w| && w'[a] == w[a] && w'[a + NEXT] == w[a + NEXT] {
      CycleAt(list, q, i);
      NodeIsForeign(|w|, list, homes, t, Cycle(list, q)[i]);
    }
    RingFrame(w, w', list, q);
    forall u | u in homes && u != t ensures OwnKept(w, w', u, homes[u]) {
      forall a | 0 <= a < |w| && Own(u, homes[u], a) ensures !Own(t, homes[t], a) {
        ForeignOwn(|w|, list, homes, t, u, a);
      }
    }
  }

  /** Writing the state or the count of task `t`. */
  lemma FieldImage(w: seq<int>, w': seq<int>, list: int, s: Sched, homes: map<int, Home>, t: int, x: Task)
    requires Image(w, list, s, homes) && Queued(s) && t in s.tasks && |w'| == |w|
    requires forall a :: 0 <= a < |w| && a != t + STATE && a != t + COUNT ==> w'[a] == w[a]
    requires 0 <= t && t + TASK_SIZE <= |w| && w'[t + STATE] == Code(x.state) && w'[t + COUNT] == x.count
    ensures Image(w', list, s.(tasks := s.tasks[t := x]), homes)
  {
    hide Ring, Layout, FrameAt, Own;
    var tasks, parked := s.tasks - {t}, s.parked - {t};
    assert Settled(|w|, list, t, homes[t]) by {
      SettledAt(|w|, list, homes, t);
    }
    FieldTerritory(w, w', t, homes[t]);
    TerritoryWrite(w, w', list, homes, t, s.queue);
    KeptFields(w, w', homes, tasks, parked);
    if t in s.parked {
      SameFrame(w, w', t, homes[t], s.parked[t]);
    }
    FieldsAdd(w', s.tasks, t, x);
    FramesAdd(w', s.parked, homes, t);
  }

  lemma SettledAt(limit: int, list: int, homes: map<int, Home>, t: int)
    requires Layout(limit, list, homes) && t in homes
    ensures Settled(limit, list, t, homes[t])
  {
  }

  lemma FieldTerritory(w: seq<int>, w': seq<int>, t: int, h: Home)
    requires |w'| == |w| && forall a :: 0 <= a < |w| && a != t + STATE && a != t + COUNT ==> w'[a] == w[a]
    ensures forall a :: 0 <= a < |w| && !Own(t, h, a) ==> w'[a] == w[a]
  {
  }

  lemma FieldsAdd(w: seq<int>, tasks: map<int, Task>, t: int, x: Task)
    requires Fields(w, tasks - {t}) && 0 <= t && t + TASK_SIZE <= |w|
    requires w[t + STATE] == Code(x.state) && w[t + COUNT] == x.count
    ensures Fields(w, tasks[t := x])
  {
    var rest := tasks - {t};
    forall u | u in tasks[t := x] && u != t ensures u in rest && rest[u] == tasks[u] {
    }
  }

  lemma FramesAdd(w: seq<int>, parked: map<int, Context>, homes: map<int, Home>, t: int)
    requires Frames(w, parked - {t}, homes)
    requires t in parked ==> t in homes && 0 <= t && t + TASK_SIZE <= |w| && homes[t].lo <= w[t + SAVED_SP]
                             && w[t + SAVED_SP] + FRAME <= homes[t].hi <= |w| && 0 <= homes[t].lo
                             && FrameAt(w, w[t + SAVED_SP], parked[t])
    ensures Frames(w, parked, homes)
  {
    hide FrameAt;
    var rest := parked - {t};
    forall u | u in parked && u != t ensures u in rest && rest[u] == parked[u] {
    }
  }

  lemma SameFrame(w: seq<int>, w': seq<int>, t: int, h: Home, c: Context)
    requires 0 <= t && t + TASK_SIZE <= |w| && |w'| == |w| && Away(t, t + TASK_SIZE, h.lo, h.hi) && 0 <= h.lo
    requires forall a :: 0 <= a < |w| && a != t + STATE && a != t + COUNT ==> w'[a] == w[a]
    requires h.lo <= w[t + SAVED_SP] && w[t + SAVED_SP] + FRAME <= h.hi <= |w| && FrameAt(w, w[t + SAVED_SP], c)
    ensures w'[t + SAVED_SP] == w[t + SAVED_SP] && FrameAt(w', w[t + SAVED_SP], c)
  {
  }

  /** The run queue after linking or unlinking task `item` between `p` and `n`. */
  lemma QueueImage(w: seq<int>, w': seq<int>, list: int, s: Sched, homes: map<int, Home>, q: seq<int>, item: int, p: int, n: int)
    requires Image(w, list, s, homes) && OnlyLinks(w, w', item, p, n) && Ring(w', list, q)
    requires item in homes && (p == list || p in homes) && (n == list || n in homes)
    ensures Image(w', list, s.(queue := q), homes)
  {
    hide Ring, OnlyLinks, Layout;
    assert Layout(|w|, list, homes) && |w'| == |w| by {
      LinkLength(w, w', item, p, n);
    }
    forall t | t in homes ensures OwnKept(w, w', t, homes[t]) {
      LinksKeepOwn(w, w', list, homes, item, p, n, t);
    }
    KeptFields(w, w', homes, s.tasks, s.parked);
  }

  lemma LinkLength(w: seq<int>, w': seq<int>, item: int, p: int, n: int)
    requires OnlyLinks(w, w', item, p, n)
    ensures |w'| == |w|
  {
  }

  /** Position `i` around the run queue. */
  lemma CycleTask(list: int, q: seq<int>, homes: map<int, Home>, i: nat)
    requires i <= |q| + 1 && forall j :: 0 <= j < |q| ==> q[j] in homes
    ensures Cycle(list, q)[i] == list || Cycle(list, q)[i] in homes
  {
  }

  /** task_create and x86_init_task on memory: a cleared structure, and the frame of a fresh context at the stack's top. */
  method InitTask(ram: array<int>, t: int, entry: int, arg: int, stack: int, size: int, trampoline: int)
    requires 0 < t && t + TASK_SIZE <= ram.Length && 0 < stack && stack + size <= ram.Length && FRAME <= size
    requires Away(t, t + TASK_SIZE, stack, stack + size)
    modifies ram
    ensures Fields(ram[..], map[t := Task(INITIAL, 1)])
    ensures ram[t] == ram[t + NEXT] == NULL && ram[t + ENTRY] == entry && ram[t + ARG] == arg
    ensures ram[t + STACK] == stack && ram[t + STACK_SIZE] == size
    ensures ram[t + SAVED_SP] == stack + size - FRAME
    ensures FrameAt(ram[..], stack + size - FRAME, Context(0, 0, 0, 0, stack + size, trampoline))
    ensures forall a :: 0 <= a < ram.Length && !(t <= a < t + TASK_SIZE) && !(stack + size - FRAME <= a < stack + size) ==>
      ram[a] == old(ram[a])
  {
    ClearStruct(ram, t);
    ram[t + STATE] := Code(INITIAL);
    ram[t + COUNT] := 1;
    ram[t + ENTRY] := entry;
    ram[t + ARG] := arg;
    ram[t + STACK] := stack;
    ram[t + STACK_SIZE] := size;
    InitFrame(ram, t, ram[t + STACK] + ram[t + STACK_SIZE], trampoline);
  }

  /** `*t = (task_t) { 0 }`. */
  method ClearStruct(ram: array<int>, t: int)
    requires 0 < t && t + TASK_SIZE <= ram.Length
    modifies ram
    ensures forall a :: t <= a < t + TASK_SIZE && (a - t) % 4 == 0 ==> ram[a] == 0
    ensures forall a :: 0 <= a < ram.Length && !(t <= a < t + TASK_SIZE) ==> ram[a] == old(ram[a])
  {
    var off := 0;
    while off < TASK_SIZE
      invariant off % 4 == 0 && off <= TASK_SIZE
      invariant forall a :: t <= a < t + off && (a - t) % 4 == 0 ==> ram[a] == 0
      invariant forall a :: 0 <= a < ram.Length && !(t <= a < t + TASK_SIZE) ==> ram[a] == old(ram[a])
    {
      ram[t + off] := 0;
      off := off + 4;
    }
  }

  /** x86_init_task. */
  method InitFrame(ram: array<int>, t: int, sp: int, entryPoint: int)
    requires 0 < t && t + TASK_SIZE <= ram.Length && FRAME <= sp <= ram.Length && Away(t, t + TASK_SIZE, sp - FRAME, sp)
    modifies ram
    ensures ram[t + SAVED_SP] == sp - FRAME && FrameAt(ram[..], sp - FRAME, Context(0, 0, 0, 0, sp, entryPoint))
    ensures forall a :: 0 <= a < ram.Length && a != t + SAVED_SP && !(sp - FRAME <= a < sp) ==> ram[a] == old(ram[a])
  {
    var frame := sp - FRAME;
    ram[frame] := 0;
    ram[frame + 4] := 0;
    ram[frame + 8] := 0;
    ram[frame + 12] := 0;
    ram[frame + 16] := entryPoint;
    ram[t + SAVED_SP] := frame;
  }

  /** A task created in a structure and a stack that nobody uses. */
  lemma CreateImage(w: seq<int>, w': seq<int>, list: int, s: Sched, homes: map<int, Home>, t: int, h: Home, trampoline: int)
    requires Image(w, list, s, homes) && Queued(s) && t !in s.queue && |w'| == |w|
    requires Layout(|w|, list, homes[t := h])
    requires Fields(w', map[t := Task(INITIAL, 1)]) && 0 <= t && t + TASK_SIZE <= |w| && w'[t + SAVED_SP] == h.hi - FRAME
    requires FRAME <= h.hi <= |w| && FrameAt(w', h.hi - FRAME, Context(0, 0, 0, 0, h.hi, trampoline))
    requires forall a :: 0 <= a < |w| && !(t <= a < t + TASK_SIZE) && !(h.lo <= a < h.hi) ==> w'[a] == w[a]
    ensures Image(w', list, Create(s, t, trampoline, h.hi), homes[t := h])
  {
    hide Ring, Own, Layout, FrameAt;
    var homes' := homes[t := h];
    var tasks, parked := s.tasks - {t}, s.parked - {t};
    SettledAt(|w|, list, homes', t);
    QueueElsewhere(w, w', list, s.queue, homes', t);
    forall u | u in homes' && u != t ensures OwnKept(w, w', u, homes'[u]) {
      OwnElsewhere(w, w', list, homes', t, u);
    }
    FramesHomes(w, parked, homes, t, h);
    KeptFields(w, w', homes', tasks, parked);
    NewFields(w', t);
    FieldsAdd(w', s.tasks, t, Task(INITIAL, 1));
    var c := Context(0, 0, 0, 0, h.hi, trampoline);
    assert s.parked[t := c] - {t} == parked;
    FramesAdd(w', s.parked[t := c], homes', t);
  }

  lemma NewFields(w: seq<int>, t: int)
    requires Fields(w, map[t := Task(INITIAL, 1)])
    ensures 0 <= t && t + TASK_SIZE <= |w| && w[t + STATE] == Code(INITIAL) && w[t + COUNT] == 1
  {
    assert t in map[t := Task(INITIAL, 1)];
  }

  lemma FramesHomes(w: seq<int>, parked: map<int, Context>, homes: map<int, Home>, t: int, h: Home)
    requires Frames(w, parked, homes) && t !in parked
    ensures Frames(w, parked, homes[t := h])
  {
  }

  lemma QueueElsewhere(w: seq<int>, w': seq<int>, list: int, q: seq<int>, homes: map<int, Home>, t: int)
    requires Layout(|w|, list, homes) && t in homes && t !in q && |w'| == |w| && Ring(w, list, q)
    requires forall i :: 0 <= i < |q| ==> q[i] in homes
    requires forall a :: 0 <= a < |w| && !(t <= a < t + TASK_SIZE) && !(homes[t].lo <= a < homes[t].hi) ==> w'[a] == w[a]
    ensures Ring(w', list, q)
  {
    hide Ring;
    forall i | 0 <= i < |q| + 2 ensures var a := Cycle(list, q)[i]; 0 <= a && a + NEXT < |w| && w'[a] == w[a] && w'[a + NEXT] == w[a + NEXT] {
      CycleAt(list, q, i);
      var x := Cycle(list, q)[i];
      assert Settled(|w|, list, t, homes[t]);
      if x in homes && x != t {
        assert Separate(t, homes[t], x, homes[x]) && Settled(|w|, list, x, homes[x]);
      }
      assert x == t ==> x == list;
    }
    RingFrame(w, w', list, q);
  }

  lemma OwnElsewhere(w: seq<int>, w': seq<int>, list: int, homes: map<int, Home>, t: int, u: int)
    requires Layout(|w|, list, homes) && t in homes && u in homes && u != t && |w'| == |w|
    requires forall a :: 0 <= a < |w| && !(t <= a < t + TASK_SIZE) && !(homes[t].lo <= a < homes[t].hi) ==> w'[a] == w[a]
    ensures OwnKept(w, w', u, homes[u])
  {
  }

  /** The stack swap: the old task's context is saved on its stack, the new one's frame was consumed. */
  lemma SwitchImage(w: seq<int>, w': seq<int>, list: int, s: Sched, homes: map<int, Home>, from: int, sp: int)
    requires Image(w, list, s, homes) && Queued(s) && from in homes && s.current != from && s.current in s.parked && |w'| == |w|
    requires homes[from].lo <= sp && sp + FRAME <= homes[from].hi && s.cpu.esp == sp + FRAME
    requires Settled(|w|, list, from, homes[from])
    requires FrameAt(w', sp, s.cpu) && w'[from + SAVED_SP] == sp
    requires forall a :: 0 <= a < |w| && a != from + SAVED_SP && !(sp <= a < sp + FRAME) ==> w'[a] == w[a]
    ensures Image(w', list, Switch(s, from), homes)
  {
    hide Ring, Layout, FrameAt, Own;
    var n := s.current;
    SwitchTerritory(w, w', from, homes[from], sp);
    TerritoryWrite(w, w', list, homes, from, s.queue);
    KeptFields(w, w', homes, s.tasks - {from}, s.parked - {from});
    if from in s.tasks {
      FieldsAdd(w', s.tasks, from, s.tasks[from]);
      assert s.tasks[from := s.tasks[from]] == s.tasks;
    } else {
      assert s.tasks - {from} == s.tasks;
    }
    assert s.parked[from := s.cpu] - {from} == s.parked - {from};
    FramesAdd(w', s.parked[from := s.cpu], homes, from);
    FramesLess(w', s.parked[from := s.cpu], homes, n);
  }

  lemma SwitchTerritory(w: seq<int>, w': seq<int>, t: int, h: Home, sp: int)
    requires |w'| == |w| && h.lo <= sp && sp + FRAME <= h.hi
    requires forall a :: 0 <= a < |w| && a != t + SAVED_SP && !(sp <= a < sp + FRAME) ==> w'[a] == w[a]
    ensures forall a :: 0 <= a < |w| && !Own(t, h, a) ==> w'[a] == w[a]
  {
  }

  lemma FramesLess(w: seq<int>, parked: map<int, Context>, homes: map<int, Home>, n: int)
    requires Frames(w, parked, homes)
    ensures Frames(w, parked - {n}, homes)
  {
  }

  lemma KernelsNone(w: seq<int>, list: int, homes: map<int, Home>)
    ensures OnlyKernels(w, w, list, homes, 0, 0)
  {
  }

  lemma InvQueued(s: Sched)
    requires Inv(s)
    ensures Queued(s)
  {
  }

  lemma FieldPlace(w: seq<int>, list: int, s: Sched, homes: map<int, Home>, t: int)
    requires Image(w, list, s, homes) && t in s.tasks
    ensures t in homes && 0 <= t && t + TASK_SIZE <= |w| && w[t + STATE] == Code(s.tasks[t].state) && w[t + COUNT] == s.tasks[t].count
  {
    hide Ring, Layout, Frames;
  }

  /** The two stacks and structures of a switch are apart. */
  lemma SwitchPlaces(w: seq<int>, list: int, s: Sched, homes: map<int, Home>, from: int, sp: int)
    requires Image(w, list, s, homes) && from in homes && s.current in s.parked && s.current != from
    requires homes[from].lo <= sp && sp + FRAME <= homes[from].hi
    ensures Settled(|w|, list, from, homes[from]) && 0 <= from && from + TASK_SIZE <= |w| && 0 < sp && sp + FRAME <= |w|
    ensures from + TASK_SIZE <= sp || sp + FRAME <= from
    ensures s.current in homes && 0 <= s.current && s.current + TASK_SIZE <= |w|
    ensures var newSp := w[s.current + SAVED_SP];
      && 0 <= newSp && newSp + FRAME <= |w| && FrameAt(w, newSp, s.parked[s.current])
      && (newSp + FRAME <= sp || sp + FRAME <= newSp)
      && (newSp + FRAME <= from + SAVED_SP || from + TASK_SIZE <= newSp)
  {
    hide Ring, Fields, FrameAt;
    assert Settled(|w|, list, from, homes[from]);
    assert Separate(from, homes[from], s.current, homes[s.current]);
  }

  class Kernel {
    const ram: array<int>
    const cpu: Cpu
    const runQueue: int
    const idleTask: int
    const trampoline: int
    var currentTask: int
    var interrupts: bool
    ghost var sched: Sched
    ghost var homes: map<int, Home>

    /** Memory, registers and variables are those of `sched`. */
    ghost predicate Shows()
      reads this, ram, cpu
    {
      && cpu.ram == ram && Image(ram[..], runQueue, sched, homes) && Entries(ram[..], homes) && Queued(sched)
      && sched.current == currentTask && sched.idle == idleTask && sched.irq == interrupts && sched.cpu == cpu.Registers()
    }

    /** The caller's stack has room for a frame. */
    ghost predicate HasRoom()
      reads this, cpu
    {
      currentTask in homes && homes[currentTask].lo + FRAME <= cpu.esp <= homes[currentTask].hi
    }

    ghost predicate Valid()
      reads this, ram, cpu
    {
      Shows() && Inv(sched)
    }

    /** task_init: an empty run queue, and the idle task as the current one on the stack the boot code runs on. */
    constructor Init(memory: array<int>, processor: Cpu, list: int, idle: int, stack: int, size: int, entryPoint: int)
      requires processor.ram == memory && Layout(memory.Length, list, map[idle := Home(stack, stack + size, NULL, 0)])
      modifies memory
      ensures Valid() && sched == Initial(idle, processor.Registers()) && ram == memory && cpu == processor
      ensures homes == map[idle := Home(stack, stack + size, NULL, 0)] && runQueue == list && trampoline == entryPoint
      ensures 0 < idle && idle + 36 <= ram.Length && ram[idle + 8] == 0 && ram[idle + 12] == 1
      ensures ram[idle + 16] == NULL && ram[idle + 20] == 0 && ram[idle + 32] == stack + size - 20
    {
      ram, cpu, runQueue, idleTask, trampoline := memory, processor, list, idle, entryPoint;
      currentTask, interrupts := idle, false;
      homes := map[idle := Home(stack, stack + size, NULL, 0)];
      sched := Initial(idle, processor.Registers());
      new;
      assert Settled(ram.Length, list, idle, homes[idle]);
      ListInitialize(ram, runQueue);
      ghost var w := ram[..];
      InitTask(ram, idle, NULL, 0, stack, size, trampoline);
      QueueElsewhere(w, ram[..], list, [], homes, idle);
      assert Entries(ram[..], homes);
    }

    method EnterCritical()
      requires Shows()
      modifies this`interrupts, this`sched, ram
      ensures Shows() && sched == Scheduler.EnterCritical(old(sched))
      ensures forall a :: 0 <= a < ram.Length && a != currentTask + COUNT ==> ram[a] == old(ram[a])
      ensures OnlyKernels(old(ram[..]), ram[..], runQueue, homes, 0, 0)
    {
      hide Layout, Ring, Frames, Entries, Fields, OnlyKernels;
      FieldPlace(ram[..], runQueue, sched, homes, currentTask);
      ram[currentTask + COUNT] := ram[currentTask + COUNT] + 1;
      if ram[currentTask + COUNT] == 1 {
        interrupts := false;
      }
      FieldImage(old(ram[..]), ram[..], runQueue, sched, homes, currentTask,
                 sched.tasks[currentTask].(count := sched.tasks[currentTask].count + 1));
      FieldKeeps(old(ram[..]), ram[..], runQueue, homes, currentTask);
      sched := Scheduler.EnterCritical(sched);
    }

    method ExitCritical()
      requires Shows()
      modifies this`interrupts, this`sched, ram
      ensures Shows() && sched == Scheduler.ExitCritical(old(sched))
      ensures forall a :: 0 <= a < ram.Length && a != currentTask + COUNT ==> ram[a] == old(ram[a])
      ensures OnlyKernels(old(ram[..]), ram[..], runQueue, homes, 0, 0)
    {
      hide Layout, Ring, Frames, Entries, Fields, OnlyKernels;
      FieldPlace(ram[..], runQueue, sched, homes, currentTask);
      ram[currentTask + COUNT] := ram[currentTask + COUNT] - 1;
      if ram[currentTask + COUNT] == 0 {
        interrupts := true;
      }
      FieldImage(old(ram[..]), ram[..], runQueue, sched, homes, currentTask,
                 sched.tasks[currentTask].(count := sched.tasks[currentTask].count - 1));
      FieldKeeps(old(ram[..]), ram[..], runQueue, homes, currentTask);
      sched := Scheduler.ExitCritical(sched);
    }

    /** `t->state = state`. */
    method SetState(t: int, state: State)
      requires Shows() && t in sched.tasks
      modifies this`sched, ram
      ensures Shows() && sched == Scheduler.SetState(old(sched), t, state)
      ensures OnlyKernels(old(ram[..]), ram[..], runQueue, homes, 0, 0)
    {
      hide Layout, Ring, Frames, Entries, Fields, OnlyKernels;
      FieldPlace(ram[..], runQueue, sched, homes, t);
      ram[t + STATE] := Code(state);
      FieldImage(old(ram[..]), ram[..], runQueue, sched, homes, t, sched.tasks[t].(state := state));
      FieldKeeps(old(ram[..]), ram[..], runQueue, homes, t);
      sched := Scheduler.SetState(sched, t, state);
    }

    /** Links task `t` in at the tail of the run queue. */
    method AddTail(t: int)
      requires Shows() && t in sched.tasks && t !in sched.queue && Distinct(sched.queue)
      modifies this`sched, ram
      ensures Shows() && sched == old(sched).(queue := old(sched).queue + [t])
      ensures OnlyKernels(old(ram[..]), ram[..], runQueue, homes, 0, 0)
    {
      hide Ring, Frames, Fields, OnlyLinks, Entries, OnlyKernels, Layout, Placed;
      ghost var q := sched.queue;
      assert Insert(q, |q|, t) == q + [t];
      CycleTask(runQueue, q, homes, |q|);
      CycleAt(runQueue, q, |q| + 1);
      QueuePlaced(ram.Length, runQueue, homes, q + [t]);
      ListAddTail(ram, runQueue, t, runQueue, q, |q|);
      QueueImage(old(ram[..]), ram[..], runQueue, sched, homes, q + [t], t, Cycle(runQueue, q)[|q|], runQueue);
      LinkKeeps(old(ram[..]), ram[..], runQueue, homes, t, Cycle(runQueue, q)[|q|], runQueue);
      sched := sched.(queue := q + [t]);
    }

    /** Links task `t` in at the head of the run queue. */
    method AddHead(t: int)
      requires Shows() && t in sched.tasks && t !in sched.queue && Distinct(sched.queue)
      modifies this`sched, ram
      ensures Shows() && sched == old(sched).(queue := [t] + old(sched).queue)
      ensures OnlyKernels(old(ram[..]), ram[..], runQueue, homes, 0, 0)
    {
      hide Ring, Frames, Fields, OnlyLinks, Entries, OnlyKernels, Layout, Placed;
      ghost var q := sched.queue;
      assert Insert(q, 0, t) == [t] + q;
      CycleTask(runQueue, q, homes, 1);
      CycleAt(runQueue, q, 0);
      QueuePlaced(ram.Length, runQueue, homes, [t] + q);
      ListAddHead(ram, runQueue, t, runQueue, q, 0);
      QueueImage(old(ram[..]), ram[..], runQueue, sched, homes, [t] + q, t, runQueue, Cycle(runQueue, q)[1]);
      LinkKeeps(old(ram[..]), ram[..], runQueue, homes, t, runQueue, Cycle(runQueue, q)[1]);
      sched := sched.(queue := [t] + q);
    }

    /** Takes the head off the run queue, or returns NULL. */
    method RemoveHead() returns (t: int)
      requires Shows()
      modifies this`sched, ram
      ensures Shows()
      ensures old(sched).queue == [] ==> t == NULL && sched == old(sched)
      ensures old(sched).queue != [] ==> t == old(sched).queue[0] && t != NULL && sched == old(sched).(queue := old(sched).queue[1..])
      ensures OnlyKernels(old(ram[..]), ram[..], runQueue, homes, 0, 0)
    {
      hide Ring, Frames, Fields, OnlyLinks, Entries, Kernels, Layout, Placed;
      ghost var q := sched.queue;
      t := ListRemoveHead(ram, runQueue, q);
      if q != [] {
        CycleTask(runQueue, q, homes, 2);
        QueueImage(old(ram[..]), ram[..], runQueue, sched, homes, q[1..], t, runQueue, Cycle(runQueue, q)[2]);
        LinkKeeps(old(ram[..]), ram[..], runQueue, homes, t, runQueue, Cycle(runQueue, q)[2]);
        sched := sched.(queue := q[1..]);
      }
    }

    /** task_create. */
    method Create(t: int, entry: int, arg: int, stack: int, size: int)
      requires Valid() && Allowed(sched, CreateCall(t, trampoline, stack + size))
      requires Layout(ram.Length, runQueue, homes[t := Home(stack, stack + size, entry, arg)])
      modifies this`sched, this`homes, ram
      ensures Valid() && sched == Scheduler.Create(old(sched), t, trampoline, stack + size)
      ensures homes == old(homes)[t := Home(stack, stack + size, entry, arg)]
      ensures 0 < t && t + 36 <= ram.Length && ram[t + 8] == 0 && ram[t + 12] == 1
      ensures ram[t + 16] == entry && ram[t + 20] == arg && ram[t + 32] == stack + size - 20
      ensures 20 <= stack + size <= ram.Length && ram[stack + size - 4] == trampoline
      ensures forall a :: 0 <= a < ram.Length && !(t <= a < t + TASK_SIZE) && !(stack + size - FRAME <= a < stack + size) ==>
        ram[a] == old(ram[a])
    {
      hide Layout, Ring, Frames, FrameAt, CountInv, StateInv, ParkInv, Distinct, Entries;
      ghost var h := Home(stack, stack + size, entry, arg);
      SettledAt(ram.Length, runQueue, homes[t := h], t);
      assert t !in sched.queue;
      InitTask(ram, t, entry, arg, stack, size, trampoline);
      CreateImage(old(ram[..]), ram[..], runQueue, sched, homes, t, h, trampoline);
      CreateKeeps(old(ram[..]), ram[..], runQueue, homes, t, h);
      SimpleInv(sched, CreateCall(t, trampoline, stack + size));
      homes := homes[t := h];
      sched := Scheduler.Create(sched, t, trampoline, stack + size);
    }

    /** x86_task_switch, for a caller with room for the frame on its stack. */
    method SwitchFrom(from: int)
      requires Shows() && from in homes && from != currentTask && currentTask in sched.parked
      requires homes[from].lo + FRAME <= cpu.esp <= homes[from].hi
      modifies this`sched, cpu, ram
      ensures Shows() && sched == Switch(old(sched), from)
      ensures OnlyKernels(old(ram[..]), ram[..], runQueue, homes, old(cpu.esp) - FRAME, old(cpu.esp))
    {
      hide Ring, Layout, Entries, Fields, OnlyKernels, Settled, Frames, FrameAt;
      ghost var n := currentTask;
      ghost var sp := cpu.esp - FRAME;
      SwitchPlaces(ram[..], runQueue, sched, homes, from, sp);
      cpu.AsmSwitch(from + SAVED_SP, ram[currentTask + SAVED_SP], sched.parked[n]);
      SwitchImage(old(ram[..]), ram[..], runQueue, sched, homes, from, sp);
      SaveKeeps(old(ram[..]), ram[..], runQueue, homes, from, sp, sp + FRAME);
      sched := Switch(sched, from);
    }

    /** task_start: -1 unless the task is INITIAL. */
    method Start(t: int) returns (err: int)
      requires Valid() && Allowed(sched, StartCall(t))
      modifies this`interrupts, this`sched, ram
      ensures Valid() && sched == Scheduler.Start(old(sched), t)
      ensures err == (if old(sched).tasks[t].state == INITIAL then 0 else -1)
      ensures OnlyKernels(old(ram[..]), ram[..], runQueue, homes, 0, 0)
    {
      hide Image, Inv, Entries, Kernels;
      ghost var s := sched;
      DoInv(s, StartCall(t));
      StartFacts(s, t);
      EnterCritical();
      var state := StateOf(t);
      if state != INITIAL {
        ExitCritical();
        EnterExit(s);
        return -1;
      }
      SetState(t, READY);
      AddHead(t);
      ExitCritical();
      StartSteps(s, t);
      return 0;
    }

    method StateOf(t: int) returns (state: State)
      requires Shows() && t in sched.tasks
      ensures state == sched.tasks[t].state
    {
      hide Ring, Layout, Frames;
      var c := ram[t + STATE];
      state := if c == 0 then INITIAL else if c == 1 then READY else if c == 2 then RUNNING else DEAD;
    }

    /** The body of task_reschedule between its critical-section calls. */
    method PickAndSwitch()
      requires Shows() && Pickable(sched)
      requires HasRoom()
      modifies this`currentTask, this`sched, cpu, ram
      ensures Shows() && sched == PickNext(old(sched))
      ensures OnlyKernels(old(ram[..]), ram[..], runQueue, homes, old(cpu.esp) - FRAME, old(cpu.esp))
    {
      hide Image, Distinct, Entries, OnlyKernels;
      ghost var s, w0, lo, hi := sched, ram[..], cpu.esp - FRAME, cpu.esp;
      var oldTask := currentTask;
      var state := StateOf(currentTask);
      if state == RUNNING {
        SetState(currentTask, READY);
        ghost var w1 := ram[..];
        AddTail(currentTask);
        KernelsThen(w0, w1, ram[..], runQueue, homes, 0, 0);
      } else {
        KernelsNone(w0, runQueue, homes);
      }
      assert sched == Requeue(s);
      ghost var w2 := ram[..];
      var nextTask := RemoveHead();
      KernelsThen(w0, w2, ram[..], runQueue, homes, 0, 0);
      if nextTask == NULL {
        nextTask := idleTask;
      }
      SetCurrent(nextTask);
      ghost var w3 := ram[..];
      SetState(currentTask, RUNNING);
      KernelsThen(w0, w3, ram[..], runQueue, homes, 0, 0);
      assert sched == Dispatch(Requeue(s));
      KernelsMore(w0, ram[..], runQueue, homes, lo, hi);
      ghost var w := ram[..];
      if nextTask != oldTask {
        HomeOf(oldTask);
        SwitchFrom(oldTask);
        KernelsThen(w0, w, ram[..], runQueue, homes, lo, hi);
      }
    }

    method SetCurrent(t: int)
      requires Shows() && t in sched.tasks
      modifies this`currentTask, this`sched
      ensures Shows() && sched == old(sched).(current := t) && currentTask == t
    {
      hide Ring, Layout, Frames, Fields;
      currentTask := t;
      sched := sched.(current := t);
    }

    lemma HomeOf(t: int)
      requires Shows() && t in sched.tasks
      ensures t in homes
    {
    }

    /** task_reschedule, for a caller whose stack has room for a frame. */
    method Reschedule()
      requires Shows() && Pickable(Scheduler.EnterCritical(sched))
      requires HasRoom()
      modifies this`currentTask, this`interrupts, this`sched, cpu, ram
      ensures Shows() && sched == Scheduler.Reschedule(old(sched))
      ensures OnlyKernels(old(ram[..]), ram[..], runQueue, homes, old(cpu.esp) - FRAME, old(cpu.esp))
    {
      hide Image, Pickable, Entries, OnlyKernels;
      ghost var w0, lo, hi := ram[..], cpu.esp - FRAME, cpu.esp;
      EnterCritical();
      ghost var w1 := ram[..];
      KernelsMore(w0, w1, runQueue, homes, lo, hi);
      PickAndSwitch();
      ghost var w2 := ram[..];
      KernelsThen(w0, w1, w2, runQueue, homes, lo, hi);
      ExitCritical();
      KernelsMore(w2, ram[..], runQueue, homes, lo, hi);
      KernelsThen(w0, w2, ram[..], runQueue, homes, lo, hi);
    }

    /** A call of task_reschedule by a task. */
    method Yield()
      requires Valid() && HasRoom()
      modifies this`currentTask, this`interrupts, this`sched, cpu, ram
      ensures Valid() && sched == Scheduler.Reschedule(old(sched))
      ensures OnlyKernels(old(ram[..]), ram[..], runQueue, homes, old(cpu.esp) - FRAME, old(cpu.esp))
    {
      hide Image, Inv, Pickable, Entries, OnlyKernels;
      DoInv(sched, RescheduleCall);
      EntersPickable(sched);
      Reschedule();
    }

    /** task_exit. Control continues in another task. */
    method Exit()
      requires Valid() && Allowed(sched, ExitTaskCall)
      requires HasRoom()
      modifies this`currentTask, this`interrupts, this`sched, cpu, ram
      ensures Valid() && sched == Scheduler.Exit(old(sched))
      ensures OnlyKernels(old(ram[..]), ram[..], runQueue, homes, old(cpu.esp) - FRAME, old(cpu.esp))
    {
      hide Image, Inv, Pickable, Scheduler.Reschedule, Entries, OnlyKernels;
      ghost var s, w0, lo, hi := sched, ram[..], cpu.esp - FRAME, cpu.esp;
      DoInv(s, ExitTaskCall);
      DyingPickable(s);
      EnterCritical();
      ghost var w1 := ram[..];
      SetState(currentTask, DEAD);
      KernelsThen(w0, w1, ram[..], runQueue, homes, 0, 0);
      ghost var w2 := ram[..];
      KernelsMore(w0, w2, runQueue, homes, lo, hi);
      Reschedule();
      KernelsThen(w0, w2, ram[..], runQueue, homes, lo, hi);
      Forget(s.current);
      sched := Scheduler.Exit(s);
    }

    /** A dead task's frame is not needed. */
    lemma Forget(t: int)
      requires Shows()
      ensures Image(ram[..], runQueue, sched.(parked := sched.parked - {t}), homes)
    {
    }

    /** task_trampoline's reads of the current task: they give what the task was created with. */
    method EntryPoint() returns (entry: int, arg: int)
      requires Shows() && currentTask in homes
      ensures entry == homes[currentTask].entry && arg == homes[currentTask].arg
    {
      hide Image;
      entry, arg := ram[currentTask + ENTRY], ram[currentTask + ARG];
    }

    /** The memory of a task that never started or is dead serves another purpose from now on. */
    ghost method Release(t: int)
      requires Valid() && Allowed(sched, ReleaseCall(t))
      modifies this`sched, this`homes
      ensures Valid() && sched == Scheduler.Release(old(sched), t) && homes == old(homes) - {t}
    {
      hide Image, Entries, Inv;
      DoInv(sched, ReleaseCall(t));
      ReleaseImage(ram[..], runQueue, sched, homes, t);
      InvQueued(Scheduler.Release(sched, t));
      sched := Scheduler.Release(sched, t);
      homes := homes - {t};
    }

    /** The current task computes: it may change the registers and its own stack, and nothing of the kernel's. */
    method Compute(a: int, v: int, c: Context)
      requires Valid() && currentTask in homes && homes[currentTask].lo <= a && a + 4 <= homes[currentTask].hi
      modifies this`sched, cpu, ram
      ensures Valid() && sched == old(sched).(cpu := c)
      ensures ram[..] == old(ram[..])[a := v]
    {
      hide Ring, Layout, Frames, Fields, FrameAt, Entries;
      SettledAt(ram.Length, runQueue, homes, currentTask);
      ram[a] := v;
      StackImage(old(ram[..]), ram[..], runQueue, sched, homes, currentTask, a);
      SaveKeeps(old(ram[..]), ram[..], runQueue, homes, currentTask, a, a + 1);
      cpu.Load(c);
      sched := sched.(cpu := c);
    }
  }

  /** What a reschedule needs of the state it starts from, once it is inside its critical section. */
  ghost predicate Pickable(s: Sched) {
    && Queued(s) && Distinct(s.queue) && s.current !in s.queue
    && (s.queue == [] && s.tasks[s.current].state != RUNNING && s.idle != s.current ==> s.idle in s.parked)
    && (s.queue != [] ==> s.queue[0] in s.parked)
  }

  lemma EntersPickable(s: Sched)
    requires Inv(s)
    ensures Queued(s) && Pickable(Scheduler.EnterCritical(s))
  {
    HeadIsParked(s);
  }

  lemma DyingPickable(s: Sched)
    requires Inv(s) && s.current != s.idle
    ensures Queued(s) && Pickable(Scheduler.EnterCritical(Scheduler.SetState(Scheduler.EnterCritical(s), s.current, DEAD)))
  {
    HeadIsParked(s);
    assert s.idle in s.parked;
  }

  lemma StackImage(w: seq<int>, w': seq<int>, list: int, s: Sched, homes: map<int, Home>, t: int, a: int)
    requires Image(w, list, s, homes) && Queued(s) && t in s.tasks && t !in s.parked && |w'| == |w|
    requires homes[t].lo <= a < homes[t].hi && Settled(|w|, list, t, homes[t])
    requires forall b :: 0 <= b < |w| && b != a ==> w'[b] == w[b]
    ensures Image(w', list, s, homes)
  {
    hide Ring, Layout, FrameAt;
    TerritoryWrite(w, w', list, homes, t, s.queue);
    KeptFields(w, w', homes, s.tasks - {t}, s.parked);
    FieldsAdd(w', s.tasks, t, s.tasks[t]);
    assert s.tasks[t := s.tasks[t]] == s.tasks;
  }
}
