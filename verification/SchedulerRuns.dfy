/**
 Whole runs of the scheduler: what every sequence of calls keeps, how long a ready task waits, and what a task finds
 when it gets the processor back.
 */
module SchedulerRuns {
  import opened Scheduler

  /** The state after `calls`; a call its caller may not make is ignored. */
  ghost function After(s: Sched, calls: seq<Call>): Sched
    decreases |calls|
  {
    if calls == [] then s
    else
      var m := After(s, calls[..|calls| - 1]);
      var c := calls[|calls| - 1];
      if Inv(m) && Allowed(m, c) then Do(m, c) else m
  }

  /** Every call is one that may be made in the state it is made in. */
  ghost predicate Legal(s: Sched, calls: seq<Call>) {
    forall i :: 0 <= i < |calls| ==> Allowed(After(s, calls[..i]), calls[i])
  }

  lemma LegalPrefix(s: Sched, calls: seq<Call>, n: nat)
    requires Legal(s, calls) && n <= |calls|
    ensures Legal(s, calls[..n])
  {
    forall i | 0 <= i < n ensures Allowed(After(s, calls[..n][..i]), calls[..n][i]) {
      assert calls[..n][..i] == calls[..i];
    }
  }

  lemma {:induction false} RunInv(s: Sched, calls: seq<Call>)
    requires Inv(s) && Legal(s, calls)
    ensures Inv(After(s, calls)) && After(s, calls).idle == s.idle
    decreases |calls|
  {
    hide Inv, Allowed, Do;
    if calls == [] {
    } else {
      var n := |calls| - 1;
      LegalPrefix(s, calls, n);
      RunInv(s, calls[..n]);
      assert Allowed(After(s, calls[..n]), calls[n]);
      DoInv(After(s, calls[..n]), calls[n]);
    }
  }

  /** The state after one more call. */
  lemma AfterStep(s: Sched, calls: seq<Call>, n: nat)
    requires Inv(s) && Legal(s, calls) && n < |calls|
    ensures Inv(After(s, calls[..n])) && Allowed(After(s, calls[..n]), calls[n])
    ensures After(s, calls[..n + 1]) == Do(After(s, calls[..n]), calls[n]) && Inv(After(s, calls[..n + 1]))
  {
    hide Inv, Allowed, Do;
    LegalPrefix(s, calls, n);
    RunInv(s, calls[..n]);
    assert calls[..n + 1][..n] == calls[..n];
    DoInv(After(s, calls[..n]), calls[n]);
  }

  /**
   In every state reachable from task_init: a task is queued, once, exactly when it is READY; only the current task runs;
   interrupts are on exactly when its critical-section count is zero; every waiting task has a positive count.
   */
  lemma Reachable(idle: int, cpu: Context, calls: seq<Call>)
    requires Legal(Initial(idle, cpu), calls)
    ensures var z := After(Initial(idle, cpu), calls);
      && z.current in z.tasks && Distinct(z.queue)
      && (forall t :: t in z.tasks ==> (t in z.queue <==> z.tasks[t].state == READY))
      && (forall t :: t in z.tasks && z.tasks[t].state == RUNNING ==> t == z.current)
      && (z.irq <==> z.tasks[z.current].count == 0)
      && (forall t :: t in z.tasks && t != z.current && z.tasks[t].state != DEAD ==> z.tasks[t].count >= 1 && t in z.parked)
  {
    Scheduler.InitialInv(idle, cpu);
    RunInv(Initial(idle, cpu), calls);
  }

  // ------------------------------------------------------------------ bounded waiting

  /** A call that gives the processor away. */
  predicate Picks(c: Call) {
    c.RescheduleCall? || c.ExitTaskCall?
  }

  /** How far a call moves the queued tasks that it does not pick: a start pushes them back, a pick pulls them forward. */
  ghost function Shift(s: Sched, c: Call): int {
    if Picks(c) then -1
    else if c.StartCall? && c.t in s.tasks && s.tasks[c.t].state == INITIAL then 1
    else 0
  }

  /** Starts minus picks along a run. */
  ghost function Net(s: Sched, calls: seq<Call>): int
    decreases |calls|
  {
    if calls == [] then 0
    else Net(s, calls[..|calls| - 1]) + Shift(After(s, calls[..|calls| - 1]), calls[|calls| - 1])
  }

  lemma MoveStep(s: Sched, c: Call, k: nat)
    requires Inv(s) && Allowed(s, c) && k < |s.queue|
    ensures var z := Do(s, c); var j := k + Shift(s, c);
      if j < 0 then z.current == s.queue[k] else j < |z.queue| && z.queue[j] == s.queue[k]
  {
    hide Reschedule, Exit, QueueInv, CountInv, ParkInv;
    match c
    case RescheduleCall =>
      HeadIsParked(s);
      RescheduleOther(s);
      HeadNext(s);
    case ExitTaskCall =>
      ExitEffect(s);
    case _ =>
  }

  lemma HeadNext(s: Sched)
    requires s.current in s.tasks && s.queue != []
    ensures Next(s) == s.queue[0] && Contenders(s) != [] && Contenders(s)[1..] == s.queue[1..] + Contenders(s)[|s.queue|..]
  {
  }

  /** Where the task that was at index `k` is after `net` starts more than picks. */
  ghost predicate Moved(s: Sched, z: Sched, k: nat, net: int)
    requires k < |s.queue|
  {
    var j := k + net;
    if j < 0 then j == -1 && z.current == s.queue[k]
    else j < |z.queue| && z.queue[j] == s.queue[k] && z.current != s.queue[k]
  }

  /**
   Bounded waiting. A task at index `k` of the run queue is at index `k + starts - picks` for as long as that is not
   negative, and becomes current at the very call that makes it so.
   */
  lemma {:induction false} BoundedWaiting(s: Sched, calls: seq<Call>, k: nat)
    requires Inv(s) && Legal(s, calls) && k < |s.queue|
    requires forall i :: 0 <= i < |calls| ==> k + Net(s, calls[..i]) >= 0
    ensures Moved(s, After(s, calls), k, Net(s, calls))
    decreases |calls|
  {
    if calls == [] {
      QueuedIsNotCurrent(s);
    } else {
      BoundedStep(s, calls, k);
    }
  }

  lemma {:induction false} BoundedStep(s: Sched, calls: seq<Call>, k: nat)
    requires Inv(s) && Legal(s, calls) && k < |s.queue| && calls != []
    requires forall i :: 0 <= i < |calls| ==> k + Net(s, calls[..i]) >= 0
    ensures Moved(s, After(s, calls), k, Net(s, calls))
    decreases |calls|, 0
  {
    hide Do, Allowed, Inv, After, Net, Shift, Legal;
    var n := |calls| - 1;
    LegalPrefix(s, calls, n);
    assert forall i :: 0 <= i < n ==> calls[..n][..i] == calls[..i];
    assert k + Net(s, calls[..n]) >= 0;
    BoundedWaiting(s, calls[..n], k);
    AfterStep(s, calls, n);
    assert calls[..n + 1] == calls;
    NetStep(s, calls);
    MoveStep(After(s, calls[..n]), calls[n], k + Net(s, calls[..n]));
    QueuedIsNotCurrent(After(s, calls));
  }

  lemma NetStep(s: Sched, calls: seq<Call>)
    requires calls != []
    ensures var n := |calls| - 1; Net(s, calls) == Net(s, calls[..n]) + Shift(After(s, calls[..n]), calls[n])
    ensures -1 <= Shift(After(s, calls[..|calls| - 1]), calls[|calls| - 1]) <= 1
  {
  }

  lemma QueuedIsNotCurrent(z: Sched)
    requires Inv(z)
    ensures forall i :: 0 <= i < |z.queue| ==> z.queue[i] != z.current
  {
  }

  /** The number of calls that give the processor away. */
  function PickCount(calls: seq<Call>): nat {
    if calls == [] then 0 else PickCount(calls[..|calls| - 1]) + if Picks(calls[|calls| - 1]) then 1 else 0
  }

  lemma {:induction false} NetIsPicks(s: Sched, calls: seq<Call>)
    requires forall i :: 0 <= i < |calls| ==> !calls[i].StartCall?
    ensures Net(s, calls) == 0 - PickCount(calls)
  {
    if calls == [] {
    } else {
      NetIsPicks(s, calls[..|calls| - 1]);
    }
  }

  /** With no starts, the task at index `k` is current for the first time right after pick number `k + 1`. */
  lemma NoStarts(s: Sched, calls: seq<Call>, k: nat)
    requires Inv(s) && Legal(s, calls) && k < |s.queue| && calls != []
    requires forall i :: 0 <= i < |calls| ==> !calls[i].StartCall?
    requires PickCount(calls[..|calls| - 1]) <= k
    ensures After(s, calls).current == s.queue[k] <==> PickCount(calls) == k + 1
  {
    hide Inv, After, Net;
    var n := |calls| - 1;
    forall i | 0 <= i < |calls| ensures k + Net(s, calls[..i]) >= 0 {
      NetIsPicks(s, calls[..i]);
      PickMonotone(calls, i, n);
    }
    NetIsPicks(s, calls);
    BoundedWaiting(s, calls, k);
  }

  lemma {:induction false} PickMonotone(calls: seq<Call>, i: nat, n: nat)
    requires i <= n <= |calls|
    ensures PickCount(calls[..i]) <= PickCount(calls[..n])
    decreases n
  {
    if i == n {
    } else {
      PickMonotone(calls, i, n - 1);
      assert calls[..n][..n - 1] == calls[..n - 1];
    }
  }

  // ------------------------------------------------------------------ getting the processor back

  /** The task structure at `t` is made a new task or given up. */
  predicate Renews(c: Call, t: int) {
    (c.CreateCall? || c.ReleaseCall?) && c.t == t
  }

  /** Task `t`, waiting in `s`, is either still waiting in `z` as it was, or was dispatched with what it was parked with. */
  ghost predicate StillOrResumed(s: Sched, z: Sched, t: int) {
    t in s.tasks && t in s.parked && t in z.tasks &&
    if z.current != t then
      Waits(z, t) && t in z.parked && z.tasks[t].count == s.tasks[t].count && z.parked[t] == s.parked[t]
    else
      z.tasks[t].count == s.tasks[t].count - 1 && z.cpu == s.parked[t] && z.irq == (s.tasks[t].count == 1)
  }

  lemma WaitStep(s: Sched, c: Call, t: int)
    requires Inv(s) && Allowed(s, c) && Waits(s, t) && !Renews(c, t)
    ensures StillOrResumed(s, Do(s, c), t)
  {
    hide Reschedule, Exit;
    match c
    case RescheduleCall =>
      if Next(s) == s.current {
        RescheduleSame(s);
      } else {
        RescheduleOther(s);
      }
    case ExitTaskCall =>
      ExitEffect(s);
    case _ =>
  }

  /** A waiting task's count and context stay as they are until it is dispatched, and are what it is dispatched with. */
  lemma {:induction false} WaitingKeeps(s: Sched, calls: seq<Call>, t: int)
    requires Inv(s) && Legal(s, calls) && Waits(s, t)
    requires forall i :: 0 <= i < |calls| ==> !Renews(calls[i], t)
    requires forall i :: 0 <= i < |calls| ==> After(s, calls[..i]).current != t
    ensures StillOrResumed(s, After(s, calls), t)
    decreases |calls|
  {
    if calls != [] {
      hide Do, Allowed, Inv;
      var n := |calls| - 1;
      LegalPrefix(s, calls, n);
      assert forall i :: 0 <= i < n ==> calls[..n][..i] == calls[..i];
      WaitingKeeps(s, calls[..n], t);
      AfterStep(s, calls, n);
      assert calls[..n + 1] == calls;
      WaitStep(After(s, calls[..n]), calls[n], t);
    } else {
      WaitingParked(s, t);
    }
  }

  lemma WaitingParked(s: Sched, t: int)
    requires Inv(s) && Waits(s, t)
    ensures t in s.parked
  {
  }

  /** A run seen from after its first call. */
  lemma AfterFirst(s: Sched, calls: seq<Call>, m: Sched)
    requires Queued(s) && Inv(s) && Legal(s, calls) && calls != [] && (calls[0].StartCall? ==> calls[0].t in s.tasks)
    requires m == Do(s, calls[0])
    ensures Inv(m) && Legal(m, calls[1..])
    ensures forall i :: 0 <= i < |calls| ==> After(s, calls[..i + 1]) == After(m, calls[1..][..i])
    ensures After(s, calls) == After(m, calls[1..])
  {
    hide Do, Inv, Legal, After, Queued;
    FirstAllowed(s, calls);
    AfterStep(s, calls, 0);
    forall i | 0 <= i < |calls| ensures After(s, calls[..i + 1]) == After(m, calls[1..][..i]) {
      ShiftRun(s, calls, i + 1);
    }
    LegalRest(s, calls, m);
    assert calls[..|calls| - 1 + 1] == calls && calls[1..][..|calls| - 1] == calls[1..];
  }

  lemma LegalRest(s: Sched, calls: seq<Call>, m: Sched)
    requires Legal(s, calls) && calls != []
    requires forall i :: 0 <= i < |calls| ==> After(s, calls[..i + 1]) == After(m, calls[1..][..i])
    ensures Legal(m, calls[1..])
  {
  }

  lemma {:induction false} ShiftRun(s: Sched, calls: seq<Call>, j: nat)
    requires 0 < j <= |calls| && Inv(s) && Allowed(s, calls[0])
    ensures After(s, calls[..j]) == After(Do(s, calls[0]), calls[1..][..j - 1])
  {
    hide Do, Allowed, Inv;
    if j == 1 {
      assert calls[..1][..0] == [] && calls[1..][..0] == [];
    } else {
      ShiftRun(s, calls, j - 1);
      assert calls[..j][..j - 1] == calls[..j - 1];
      assert calls[1..][..j - 1][..j - 2] == calls[1..][..j - 2];
    }
  }

  /**
   A task that calls task_reschedule gets the processor back with the critical-section count, the interrupt state and the
   registers it had at the call, however many other tasks ran, started or died in between.
   */
  lemma RescheduleReturns(s: Sched, calls: seq<Call>)
    requires Queued(s) && Inv(s) && Legal(s, calls) && calls != [] && calls[0] == RescheduleCall
    requires forall i :: 0 < i < |calls| ==> After(s, calls[..i]).current != s.current
    requires forall i :: 0 <= i < |calls| ==> !Renews(calls[i], s.current)
    requires After(s, calls).current == s.current
    ensures var z, t := After(s, calls), s.current;
      t in z.tasks && z.tasks[t].count == s.tasks[t].count && z.irq == s.irq && z.cpu == s.cpu
  {
    hide Inv, Legal, Waits, Contenders;
    var m := Do(s, calls[0]);
    AfterFirst(s, calls, m);
    if Next(s) == s.current {
      RescheduleSame(s);
      assert calls[1..][..0] == [] && After(m, []) == m;
      assert After(s, calls[..0 + 1]) == m;
      assert calls[1..] == [];
    } else {
      ComesBack(s, m, calls[1..], s.current);
    }
  }

  lemma ComesBack(s: Sched, m: Sched, rest: seq<Call>, t: int)
    requires Inv(s) && t == s.current && Next(s) != t && m == Reschedule(s) && Inv(m) && Legal(m, rest)
    requires forall i :: 0 <= i < |rest| ==> After(m, rest[..i]).current != t
    requires forall i :: 0 <= i < |rest| ==> !Renews(rest[i], t)
    requires After(m, rest).current == t
    ensures var z := After(m, rest); t in z.tasks && z.tasks[t].count == s.tasks[t].count && z.irq == s.irq && z.cpu == s.cpu
  {
    hide Reschedule, After, Legal;
    RescheduleOther(s);
    Parked(s, m);
    WaitingKeeps(m, rest, t);
  }

  lemma Parked(s: Sched, m: Sched)
    requires Inv(s) && HandedOver(s, m) && Next(s) != s.current
    ensures Waits(m, s.current) && m.tasks[s.current].count == s.tasks[s.current].count + 1
    ensures s.current in m.parked && m.parked[s.current] == s.cpu
  {
  }

  /**
   A created task, whenever it is first dispatched, starts at the trampoline with cleared registers on an empty stack,
   outside every critical section, with interrupts on.
   */
  lemma FirstDispatch(s: Sched, calls: seq<Call>)
    requires Queued(s) && Inv(s) && Legal(s, calls) && calls != [] && calls[0].CreateCall?
    requires forall i :: 0 < i < |calls| ==> !Renews(calls[i], calls[0].t)
    requires forall i :: 0 < i < |calls| ==> After(s, calls[..i]).current != calls[0].t
    requires After(s, calls).current == calls[0].t
    ensures var z, t := After(s, calls), calls[0].t;
      z.cpu == Context(0, 0, 0, 0, calls[0].top, calls[0].trampoline) && t in z.tasks && z.tasks[t].count == 0 && z.irq
  {
    hide Inv, Legal, After;
    var m, t := Do(s, calls[0]), calls[0].t;
    AfterFirst(s, calls, m);
    FirstAllowed(s, calls);
    Created(s, calls[0]);
    WaitingKeeps(m, calls[1..], t);
  }

  lemma FirstAllowed(s: Sched, calls: seq<Call>)
    requires Legal(s, calls) && calls != []
    ensures calls[..0] == [] && After(s, []) == s && Allowed(s, calls[0])
  {
  }

  lemma Created(s: Sched, c: Call)
    requires Inv(s) && c.CreateCall? && Allowed(s, c)
    ensures var m := Do(s, c);
      Waits(m, c.t) && m.tasks[c.t].count == 1 && c.t in m.parked && m.parked[c.t] == Context(0, 0, 0, 0, c.top, c.trampoline)
  {
  }

  // ------------------------------------------------------------------ where parked contexts come from

  /** At call `i` task `t` either was current with context `c`, or was created to start with it. */
  ghost predicate Gave(s: Sched, calls: seq<Call>, i: int, t: int, c: Context) {
    && 0 <= i < |calls|
    && ((After(s, calls[..i]).current == t && After(s, calls[..i]).cpu == c)
        || (calls[i] == CreateCall(t, c.eip, c.esp) && c == Context(0, 0, 0, 0, c.esp, c.eip)))
  }

  /** A task's context can be parked only by creating the task or by switching away from it. */
  lemma ParkStep(s: Sched, c: Call, t: int)
    requires Inv(s) && Allowed(s, c) && t in Do(s, c).parked && !(t in s.parked && Do(s, c).parked[t] == s.parked[t])
    ensures var p := Do(s, c).parked[t];
      || (s.current == t && p == s.cpu)
      || (c == CreateCall(t, p.eip, p.esp) && p == Context(0, 0, 0, 0, p.esp, p.eip))
  {
    hide Reschedule, Exit;
    match c
    case RescheduleCall =>
      if Next(s) == s.current {
        RescheduleSame(s);
      } else {
        RescheduleOther(s);
      }
    case ExitTaskCall =>
      ExitEffect(s);
    case _ =>
  }

  /** Every parked context is one its task ran with, or the one it was created with. */
  lemma {:induction false} ParkedHistory(s: Sched, calls: seq<Call>, t: int)
    requires Inv(s) && Legal(s, calls) && t !in s.parked && t in After(s, calls).parked
    ensures exists i :: Gave(s, calls, i, t, After(s, calls).parked[t])
    decreases |calls|
  {
    hide Do, Allowed, Inv;
    var n := |calls| - 1;
    var m, z := After(s, calls[..n]), After(s, calls);
    AfterStep(s, calls, n);
    assert calls[..n + 1] == calls;
    if t in m.parked && z.parked[t] == m.parked[t] {
      LegalPrefix(s, calls, n);
      ParkedHistory(s, calls[..n], t);
      var i :| Gave(s, calls[..n], i, t, m.parked[t]);
      assert calls[..n][..i] == calls[..i];
      assert Gave(s, calls, i, t, z.parked[t]);
    } else {
      ParkStep(m, calls[n], t);
      assert Gave(s, calls, n, t, z.parked[t]);
    }
  }

  /** The frame that task_init makes for the idle task is never consumed: what is parked for it is what it ran with. */
  lemma IdleFrameUnused(idle: int, cpu: Context, calls: seq<Call>)
    requires Legal(Initial(idle, cpu), calls) && idle in After(Initial(idle, cpu), calls).parked
    ensures var s := Initial(idle, cpu);
      exists i ::
        && 0 <= i < |calls| && After(s, calls[..i]).current == idle
        && After(s, calls[..i]).cpu == After(s, calls).parked[idle]
  {
    hide After;
    var s := Initial(idle, cpu);
    Scheduler.InitialInv(idle, cpu);
    ParkedHistory(s, calls, idle);
    var i :| Gave(s, calls, i, idle, After(s, calls).parked[idle]);
    LegalPrefix(s, calls, i);
    RunInv(s, calls[..i]);
    assert Allowed(After(s, calls[..i]), calls[i]);
  }

  // ------------------------------------------------------------------ the dead and the idle

  lemma DeadStep(s: Sched, c: Call, t: int)
    requires Inv(s) && Allowed(s, c) && t in s.tasks && s.tasks[t].state == DEAD && !Renews(c, t)
    ensures t in Do(s, c).tasks && Do(s, c).tasks[t].state == DEAD
  {
    hide Reschedule, Exit;
    match c
    case RescheduleCall =>
      if Next(s) == s.current {
        RescheduleSame(s);
      } else {
        RescheduleOther(s);
      }
    case ExitTaskCall =>
      ExitEffect(s);
    case _ =>
  }

  /** A dead task never runs and is never queued again, unless its structure is made a new task or given up. */
  lemma {:induction false} DeadStaysDead(s: Sched, calls: seq<Call>, t: int)
    requires Inv(s) && Legal(s, calls) && t in s.tasks && s.tasks[t].state == DEAD
    requires forall i :: 0 <= i < |calls| ==> !Renews(calls[i], t)
    ensures var z := After(s, calls); t in z.tasks && z.tasks[t].state == DEAD && t != z.current && t !in z.queue && t !in z.parked
    decreases |calls|
  {
    if calls != [] {
      hide Do, Allowed, Inv;
      var n := |calls| - 1;
      LegalPrefix(s, calls, n);
      DeadStaysDead(s, calls[..n], t);
      AfterStep(s, calls, n);
      assert calls[..n + 1] == calls;
      DeadStep(After(s, calls[..n]), calls[n], t);
    }
    RunInv(s, calls);
    DeadIsOut(After(s, calls), t);
  }

  lemma DeadIsOut(z: Sched, t: int)
    requires Inv(z) && t in z.tasks && z.tasks[t].state == DEAD
    ensures t != z.current && t !in z.queue && t !in z.parked
  {
  }

  /** The idle task is dispatched from outside the queue. */
  ghost predicate FallsBack(s: Sched, c: Call) {
    && s.current in s.tasks
    && ((c.RescheduleCall? && Contenders(s) == []) || (c.ExitTaskCall? && s.queue == []))
  }

  ghost predicate IdleSeen(s: Sched) {
    s.idle in s.tasks && s.tasks[s.idle].state != INITIAL
  }

  lemma IdleStep(s: Sched, c: Call)
    requires Inv(s) && Allowed(s, c)
    ensures IdleSeen(s) ==> IdleSeen(Do(s, c)) && !FallsBack(s, c)
    ensures FallsBack(s, c) ==> s.idle !in s.queue && Do(s, c).current == s.idle && IdleSeen(Do(s, c))
  {
    hide Reschedule, Exit;
    assert s.idle in s.queue ==> s.queue != [];
    match c
    case RescheduleCall =>
      if Next(s) == s.current {
        RescheduleSame(s);
      } else {
        RescheduleOther(s);
      }
    case ExitTaskCall =>
      ExitEffect(s);
    case _ =>
  }

  lemma {:induction false} IdleStays(s: Sched, calls: seq<Call>, i: nat, j: nat)
    requires Inv(s) && Legal(s, calls) && i <= j <= |calls| && IdleSeen(After(s, calls[..i]))
    ensures IdleSeen(After(s, calls[..j]))
    decreases j - i
  {
    hide Do, Allowed, Inv;
    if i == j {
    } else {
      IdleStays(s, calls, i, j - 1);
      AfterStep(s, calls, j - 1);
      IdleStep(After(s, calls[..j - 1]), calls[j - 1]);
    }
  }

  /** The fallback fires only when the idle task is not queued, and at most once in a run. */
  lemma FallbackOnce(s: Sched, calls: seq<Call>, i: nat, j: nat)
    requires Inv(s) && Legal(s, calls) && i < |calls| && j < |calls|
    requires FallsBack(After(s, calls[..i]), calls[i]) && FallsBack(After(s, calls[..j]), calls[j])
    ensures i == j && s.idle !in After(s, calls[..i]).queue
  {
    hide Do, Allowed, Inv, FallsBack;
    var a, b := if i < j then i else j, if i < j then j else i;
    AfterStep(s, calls, a);
    IdleStep(After(s, calls[..a]), calls[a]);
    LegalPrefix(s, calls, a);
    RunInv(s, calls[..a]);
    if a < b {
      IdleStays(s, calls, a + 1, b);
      AfterStep(s, calls, b);
      IdleStep(After(s, calls[..b]), calls[b]);
    }
  }
}
