/**
 The task scheduler of task.c as a state machine: what each call does to the tasks, the run queue, the interrupt flag
 and the processor's registers.
 */
module Scheduler {
  datatype State = INITIAL | READY | RUNNING | DEAD

  /** The registers a context switch saves and restores, and where it continues. */
  datatype Context = Context(ebx: int, ebp: int, esi: int, edi: int, esp: int, eip: int)

  datatype Task = Task(state: State, count: int)

  /** `parked` holds, for every live task other than the current one, the context it will continue with. */
  datatype Sched = Sched(tasks: map<int, Task>, queue: seq<int>, current: int, idle: int, irq: bool,
                         parked: map<int, Context>, cpu: Context)

  function SetState(s: Sched, t: int, state: State): Sched
    requires t in s.tasks
  {
    s.(tasks := s.tasks[t := s.tasks[t].(state := state)])
  }

  function AddCount(s: Sched, t: int, d: int): Sched
    requires t in s.tasks
  {
    s.(tasks := s.tasks[t := s.tasks[t].(count := s.tasks[t].count + d)])
  }

  // ------------------------------------------------------------------ the calls

  function EnterCritical(s: Sched): Sched
    requires s.current in s.tasks
  {
    var e := AddCount(s, s.current, 1);
    if e.tasks[s.current].count == 1 then e.(irq := false) else e
  }

  function ExitCritical(s: Sched): Sched
    requires s.current in s.tasks
  {
    var e := AddCount(s, s.current, -1);
    if e.tasks[s.current].count == 0 then e.(irq := true) else e
  }

  /** task_create and x86_init_task: a task that will start at `trampoline` on an empty stack ending at `top`. */
  function Create(s: Sched, t: int, trampoline: int, top: int): Sched {
    s.(tasks := s.tasks[t := Task(INITIAL, 1)], parked := s.parked[t := Context(0, 0, 0, 0, top, trampoline)])
  }

  /**
   A task that never started or is dead is forgotten: its memory may serve another purpose. No code runs for this; it is the
   decision of whoever provided the memory.
   */
  function Release(s: Sched, t: int): Sched {
    s.(tasks := s.tasks - {t}, parked := s.parked - {t})
  }

  /** task_start: an INITIAL task becomes READY at the head of the run queue; any other is refused. */
  function Start(s: Sched, t: int): Sched
    requires t in s.tasks
  {
    if s.tasks[t].state != INITIAL then s else SetState(s, t, READY).(queue := [t] + s.queue)
  }

  /** A running current task goes to the tail of the run queue. */
  function Requeue(s: Sched): Sched
    requires s.current in s.tasks
  {
    if s.tasks[s.current].state == RUNNING then SetState(s, s.current, READY).(queue := s.queue + [s.current]) else s
  }

  /** The head of the queue becomes the running task, or the idle task when the queue is empty. */
  function Dispatch(s: Sched): Sched
    requires s.idle in s.tasks && forall i :: 0 <= i < |s.queue| ==> s.queue[i] in s.tasks
  {
    if s.queue == [] then SetState(s, s.idle, RUNNING).(current := s.idle)
    else SetState(s, s.queue[0], RUNNING).(current := s.queue[0], queue := s.queue[1..])
  }

  /** The stack swap from task `from` to the current task. */
  function Switch(s: Sched, from: int): Sched {
    if s.current == from then s
    else if s.current in s.parked then s.(parked := s.parked[from := s.cpu] - {s.current}, cpu := s.parked[s.current])
    else s
  }

  ghost predicate Queued(s: Sched) {
    s.idle in s.tasks && s.current in s.tasks && forall i :: 0 <= i < |s.queue| ==> s.queue[i] in s.tasks
  }

  /** Between its critical-section calls, task_reschedule picks a task and, if it is another one, swaps stacks. */
  function PickNext(s: Sched): Sched
    requires Queued(s)
  {
    Switch(Dispatch(Requeue(s)), s.current)
  }

  /** task_reschedule, from the caller's call to the point where the picked task has left its own critical section. */
  function Reschedule(s: Sched): Sched
    requires Queued(s)
  {
    ExitCritical(PickNext(EnterCritical(s)))
  }

  /** task_exit: the current task dies and another is dispatched in its place; its context is not needed again. */
  function Exit(s: Sched): Sched
    requires Queued(s)
  {
    var d := Reschedule(SetState(EnterCritical(s), s.current, DEAD));
    d.(parked := d.parked - {s.current})
  }

  // ------------------------------------------------------------------ the invariant

  ghost predicate Distinct(q: seq<int>) {
    forall i, j :: 0 <= i < j < |q| ==> q[i] != q[j]
  }

  /** `t` is neither dead nor current. */
  predicate Waits(s: Sched, t: int) {
    t in s.tasks && t != s.current && s.tasks[t].state != DEAD
  }

  /** A task is in the run queue, once, exactly when it is READY. */
  ghost predicate QueueInv(s: Sched) {
    Queued(s) && Distinct(s.queue) && forall t :: t in s.tasks ==> (t in s.queue <==> s.tasks[t].state == READY)
  }

  /** Only the current task runs; the idle task may be current before it was ever dispatched. The idle task never dies. */
  ghost predicate StateInv(s: Sched)
    requires s.current in s.tasks && s.idle in s.tasks
  {
    && (forall t :: t in s.tasks && s.tasks[t].state == RUNNING ==> t == s.current)
    && (s.tasks[s.current].state == RUNNING || (s.current == s.idle && s.tasks[s.current].state == INITIAL))
    && s.tasks[s.idle].state != DEAD
  }

  /** Interrupts are on exactly outside the current task's critical sections; every waiting task is inside one. */
  ghost predicate CountInv(s: Sched)
    requires s.current in s.tasks
  {
    && s.tasks[s.current].count >= 0 && (s.irq <==> s.tasks[s.current].count == 0)
    && forall t :: Waits(s, t) ==> s.tasks[t].count >= 1
  }

  /** Exactly the waiting tasks have a context to continue with. */
  ghost predicate ParkInv(s: Sched) {
    forall t :: t in s.parked <==> Waits(s, t)
  }

  ghost predicate Inv(s: Sched) {
    QueueInv(s) && StateInv(s) && CountInv(s) && ParkInv(s)
  }

  /** After task_init: only the idle task exists, it is current, and interrupts are off. */
  function Initial(idle: int, cpu: Context): Sched {
    Sched(map[idle := Task(INITIAL, 1)], [], idle, idle, false, map[], cpu)
  }

  datatype Call = EnterCall | ExitCall | CreateCall(t: int, trampoline: int, top: int) | StartCall(t: int)
                | ReleaseCall(t: int) | RescheduleCall | ExitTaskCall | Compute(cpu: Context)

  /** What a caller must respect: balanced critical sections, no reuse of a task in use, no exit of the idle task. */
  ghost predicate Allowed(s: Sched, c: Call) {
    s.current in s.tasks &&
    match c
    case ExitCall => s.tasks[s.current].count >= 1
    case CreateCall(t, _, _) => t != s.idle && t != s.current && (t in s.tasks ==> s.tasks[t].state in {INITIAL, DEAD})
    case ReleaseCall(t) => t != s.idle && t != s.current && t in s.tasks && s.tasks[t].state in {INITIAL, DEAD}
    case StartCall(t) => t in s.tasks && t != s.idle
    case ExitTaskCall => s.current != s.idle
    case _ => true
  }

  function Do(s: Sched, c: Call): Sched
    requires Queued(s) && (c.StartCall? ==> c.t in s.tasks)
  {
    match c
    case EnterCall => EnterCritical(s)
    case ExitCall => ExitCritical(s)
    case CreateCall(t, trampoline, top) => Create(s, t, trampoline, top)
    case ReleaseCall(t) => Release(s, t)
    case StartCall(t) => Start(s, t)
    case RescheduleCall => Reschedule(s)
    case ExitTaskCall => Exit(s)
    case Compute(cpu) => s.(cpu := cpu)
  }

  // ------------------------------------------------------------------ every call keeps the invariant

  lemma InitialInv(idle: int, cpu: Context)
    ensures Inv(Initial(idle, cpu))
  {
  }

  lemma SimpleInv(s: Sched, c: Call)
    requires Inv(s) && Allowed(s, c) && !c.RescheduleCall? && !c.ExitTaskCall?
    ensures Inv(Do(s, c))
  {
    match c
    case StartCall(t) =>
      StartInv(s, t);
    case _ =>
  }

  lemma StartInv(s: Sched, t: int)
    requires Inv(s) && t in s.tasks && t != s.idle
    ensures Inv(Start(s, t))
  {
    var z := Start(s, t);
    if s.tasks[t].state == INITIAL {
      assert forall x :: x in z.queue <==> x == t || x in s.queue;
    }
  }

  /** Who runs after a reschedule. */
  function Next(s: Sched): int {
    if s.queue != [] then s.queue[0]
    else if s.current in s.tasks && s.tasks[s.current].state == RUNNING then s.current
    else s.idle
  }

  /** The run queue once the caller has given up the processor, before the next task is taken off. */
  function Contenders(s: Sched): seq<int>
    requires s.current in s.tasks
  {
    if s.tasks[s.current].state == RUNNING then s.queue + [s.current] else s.queue
  }

  /** What a reschedule amounts to when the caller keeps the processor. */
  lemma RescheduleSame(s: Sched)
    requires Inv(s) && Next(s) == s.current
    ensures Reschedule(s) == s.(tasks := s.tasks[s.current := s.tasks[s.current].(state := RUNNING)])
  {
    var e := EnterCritical(s);
    var r := Requeue(e);
    var d := Dispatch(r);
    assert s.queue == [];
    assert d.current == s.current && d.queue == s.queue;
    var z := Reschedule(s);
    assert z.tasks == s.tasks[s.current := s.tasks[s.current].(state := RUNNING)];
    assert z.irq == s.irq;
  }

  /** The state after the current task of `s` handed the processor to the next one. */
  ghost predicate HandedOver(s: Sched, z: Sched)
    requires s.current in s.tasks
  {
    var c, n := s.current, Next(s);
    && n in s.tasks && Waits(s, n) && n in s.parked
    && z == Sched(s.tasks[c := Task(if s.tasks[c].state == RUNNING then READY else s.tasks[c].state, s.tasks[c].count + 1)]
                         [n := Task(RUNNING, s.tasks[n].count - 1)],
                  if Contenders(s) == [] then [] else Contenders(s)[1..],
                  n, s.idle, s.tasks[n].count == 1, s.parked[c := s.cpu] - {n}, s.parked[n])
  }

  /** The head of the run queue is waiting to continue. */
  lemma HeadIsParked(s: Sched)
    requires Inv(s)
    ensures s.queue != [] ==>
      var h := s.queue[0];
      h in s.tasks && s.tasks[h].state == READY && h != s.current && Waits(s, h) && h in s.parked
  {
    if s.queue != [] {
      var h := s.queue[0];
      assert h in s.queue && h in s.tasks;
      assert s.tasks[h].state == READY;
      assert s.tasks[s.current].state != READY;
      assert Waits(s, h);
    }
  }

  lemma NextWaits(s: Sched)
    requires Inv(s) && Next(s) != s.current
    ensures Waits(s, Next(s)) && Next(s) in s.parked && s.tasks[Next(s)].count >= 1
  {
  }

  /** What a reschedule amounts to when another task takes over. */
  lemma RescheduleOther(s: Sched)
    requires Inv(s) && Next(s) != s.current
    ensures HandedOver(s, Reschedule(s))
  {
    NextWaits(s);
    HandOver(s);
  }

  lemma HandOver(s: Sched)
    requires Queued(s) && Next(s) != s.current && Waits(s, Next(s)) && Next(s) in s.parked
    requires s.tasks[s.current].count >= 0 && s.tasks[Next(s)].count >= 1 && (s.irq <==> s.tasks[s.current].count == 0)
    ensures HandedOver(s, Reschedule(s))
  {
    var c, n := s.current, Next(s);
    var d := Dispatch(Requeue(EnterCritical(s)));
    assert Requeue(EnterCritical(s)).queue == Contenders(s);
    assert d.current == n && !d.irq;
    assert d.tasks[n := d.tasks[n].(count := d.tasks[n].count - 1)] ==
      s.tasks[c := Task(if s.tasks[c].state == RUNNING then READY else s.tasks[c].state, s.tasks[c].count + 1)]
             [n := Task(RUNNING, s.tasks[n].count - 1)];
  }

  /** The idle task is picked without being queued only while it has never been dispatched. */
  lemma FallbackIsFirst(s: Sched)
    requires Inv(s) && Contenders(s) == []
    ensures s.tasks[s.idle].state == INITIAL && s.idle !in s.queue && Next(s) == s.idle
  {
  }

  lemma RescheduleInv(s: Sched)
    requires Inv(s)
    ensures Inv(Reschedule(s))
  {
    hide Reschedule;
    if Next(s) == s.current {
      RescheduleSame(s);
    } else {
      RescheduleOther(s);
      HandedQueue(s, Reschedule(s));
      HandedRest(s, Reschedule(s));
    }
  }

  lemma HandedQueue(s: Sched, z: Sched)
    requires Inv(s) && HandedOver(s, z) && Next(s) != s.current
    ensures QueueInv(z)
  {
    hide CountInv, ParkInv;
    var q := Contenders(s);
    ContendersAre(s);
    assert q != [] ==> q[0] == Next(s);
    TailMembers(q, Next(s));
    forall i | 0 <= i < |z.queue| ensures z.queue[i] in z.tasks {
      assert z.queue[i] in z.queue;
    }
  }

  lemma HandedRest(s: Sched, z: Sched)
    requires s.current in s.tasks && s.idle in s.tasks && StateInv(s) && CountInv(s) && ParkInv(s)
    requires HandedOver(s, z) && Next(s) != s.current
    ensures s.idle in z.tasks && z.current in z.tasks && StateInv(z) && CountInv(z) && ParkInv(z)
  {
    hide Contenders;
  }

  lemma TailMembers(q: seq<int>, n: int)
    requires Distinct(q) && (q != [] ==> q[0] == n)
    ensures var r := if q == [] then [] else q[1..]; Distinct(r) && forall x :: x in r <==> x in q && x != n
  {
  }

  lemma ContendersAre(s: Sched)
    requires Inv(s)
    ensures Distinct(Contenders(s))
    ensures forall x :: x in Contenders(s) <==> x in s.queue || (x == s.current && s.tasks[s.current].state == RUNNING)
  {
  }

  /** The state after the current task of `s` died. */
  ghost predicate DiedTo(s: Sched, z: Sched)
    requires s.current in s.tasks
  {
    var c, n := s.current, if s.queue == [] then s.idle else s.queue[0];
    && n != c && Waits(s, n) && n in s.parked
    && z == Sched(s.tasks[c := Task(DEAD, s.tasks[c].count + 2)][n := Task(RUNNING, s.tasks[n].count - 1)],
                  if s.queue == [] then [] else s.queue[1..],
                  n, s.idle, s.tasks[n].count == 1, s.parked - {n}, s.parked[n])
  }

  lemma ExitEffect(s: Sched)
    requires Inv(s) && s.current != s.idle
    ensures DiedTo(s, Exit(s))
  {
    var c, n := s.current, if s.queue == [] then s.idle else s.queue[0];
    var m := SetState(EnterCritical(s), c, DEAD);
    assert s.queue != [] ==> n in s.queue;
    assert c !in s.queue && c !in s.parked;
    assert Waits(s, n) && Next(m) == n && !m.irq;
    HandOver(m);
    DeathSteps(s, m);
  }

  lemma DeathSteps(s: Sched, m: Sched)
    requires Queued(s) && s.current !in s.parked && m == SetState(EnterCritical(s), s.current, DEAD)
    requires HandedOver(m, Reschedule(m)) && Next(m) != s.current && Next(m) == if s.queue == [] then s.idle else s.queue[0]
    ensures DiedTo(s, Exit(s))
  {
    hide Reschedule;
    var c, n, d := s.current, Next(m), Reschedule(m);
    assert m.parked[c := m.cpu] - {n} - {c} == s.parked - {n};
    assert d.tasks == s.tasks[c := Task(DEAD, s.tasks[c].count + 2)][n := Task(RUNNING, s.tasks[n].count - 1)];
  }

  lemma ExitInv(s: Sched)
    requires Inv(s) && s.current != s.idle
    ensures Inv(Exit(s))
  {
    hide Exit;
    ExitEffect(s);
    var z, n := Exit(s), if s.queue == [] then s.idle else s.queue[0];
    TailMembers(s.queue, n);
    forall i | 0 <= i < |z.queue| ensures z.queue[i] in z.tasks {
      assert z.queue[i] in z.queue;
    }
  }

  lemma DoInv(s: Sched, c: Call)
    requires Inv(s) && Allowed(s, c)
    ensures Inv(Do(s, c)) && Do(s, c).idle == s.idle
  {
    hide Reschedule, Exit, Start;
    match c
    case RescheduleCall =>
      RescheduleInv(s);
      if Next(s) == s.current {
        RescheduleSame(s);
      } else {
        RescheduleOther(s);
      }
    case ExitTaskCall =>
      ExitInv(s);
      ExitEffect(s);
    case StartCall(t) =>
      StartInv(s, t);
      StartIdle(s, t);
    case _ =>
      SimpleInv(s, c);
  }

  lemma StartIdle(s: Sched, t: int)
    requires t in s.tasks
    ensures Start(s, t).idle == s.idle
  {
  }

  // ------------------------------------------------------------------ step by step

  /** Entering and leaving a critical section changes nothing. */
  lemma EnterExit(s: Sched)
    requires s.current in s.tasks && s.tasks[s.current].count >= 0 && (s.irq <==> s.tasks[s.current].count == 0)
    ensures ExitCritical(EnterCritical(s)) == s
  {
  }

  lemma StartFacts(s: Sched, t: int)
    requires Inv(s) && t in s.tasks
    ensures s.current in s.tasks && s.tasks[s.current].count >= 0 && (s.irq <==> s.tasks[s.current].count == 0)
    ensures Distinct(s.queue) && (t in s.queue <==> s.tasks[t].state == READY)
  {
  }

  /** The statements of task_start add up to Start. */
  lemma StartSteps(s: Sched, t: int)
    requires s.current in s.tasks && s.tasks[s.current].count >= 0 && (s.irq <==> s.tasks[s.current].count == 0)
    requires t in s.tasks && s.tasks[t].state == INITIAL
    ensures var e := SetState(EnterCritical(s), t, READY);
      s.current in e.tasks && ExitCritical(e.(queue := [t] + e.queue)) == Start(s, t)
  {
    var e := SetState(EnterCritical(s), t, READY);
    var z := ExitCritical(e.(queue := [t] + e.queue));
    assert z.tasks == Start(s, t).tasks;
  }
}
