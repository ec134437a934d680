/**
 What one call of the scheduler does, said outright: the queue, the states, the counts and the interrupt flag afterwards.
 */
module SchedulerEffects {
  import opened Scheduler
  import opened SchedulerRuns

  /** Entering a critical section turns interrupts off; leaving the outermost one turns them on. */
  lemma CriticalEffect(s: Sched)
    requires Inv(s)
    ensures var c := s.current; var x := s.tasks[c];
      EnterCritical(s) == s.(tasks := s.tasks[c := Task(x.state, x.count + 1)], irq := false)
    ensures var c := s.current; var x := s.tasks[c];
      x.count >= 1 ==> ExitCritical(s) == s.(tasks := s.tasks[c := Task(x.state, x.count - 1)], irq := x.count == 1)
  {
  }

  /** A new task is INITIAL, inside one critical section, parked, and not queued. */
  lemma CreateEffect(s: Sched, t: int, trampoline: int, top: int)
    requires Inv(s) && Allowed(s, CreateCall(t, trampoline, top))
    ensures var z := Create(s, t, trampoline, top);
      && z == s.(tasks := s.tasks[t := Task(INITIAL, 1)], parked := s.parked[t := Context(0, 0, 0, 0, top, trampoline)])
      && t !in z.queue && t != z.current
  {
  }

  /** A started task is the next to be picked; any other task is refused without effect. */
  lemma StartEffect(s: Sched, t: int)
    requires Inv(s) && t in s.tasks
    ensures s.tasks[t].state == INITIAL ==>
      Start(s, t) == s.(tasks := s.tasks[t := Task(READY, s.tasks[t].count)], queue := [t] + s.queue)
    ensures s.tasks[t].state != INITIAL ==> Start(s, t) == s
  {
  }

  /** The head of a queue that is not empty takes over, and a caller that was running waits at the tail. */
  lemma YieldEffect(s: Sched)
    requires Inv(s) && s.queue != []
    ensures var z, c, h := Reschedule(s), s.current, s.queue[0];
      && h != c && h in s.tasks && h in s.parked && z.current == h && z.idle == s.idle
      && (s.tasks[c].state == RUNNING ==> z.queue == s.queue[1..] + [c])
      && (s.tasks[c].state != RUNNING ==> z.queue == s.queue[1..] && c == s.idle && s.tasks[c].state == INITIAL)
      && z.tasks == s.tasks[c := Task(if s.tasks[c].state == RUNNING then READY else INITIAL, s.tasks[c].count + 1)]
                           [h := Task(RUNNING, s.tasks[h].count - 1)]
      && z.cpu == s.parked[h] && z.parked == s.parked[c := s.cpu] - {h} && z.irq == (s.tasks[h].count == 1)
  {
    HeadIsParked(s);
    HeadNext(s);
    RescheduleOther(s);
    StatesOf(s);
  }

  lemma StatesOf(s: Sched)
    requires Inv(s)
    ensures s.tasks[s.current].state == RUNNING || (s.current == s.idle && s.tasks[s.current].state == INITIAL)
    ensures s.tasks[s.idle].state != DEAD
  {
  }

  /** With nobody queued the caller goes on as it was; the idle task is RUNNING from its first time on. */
  lemma AloneEffect(s: Sched)
    requires Inv(s) && s.queue == []
    ensures s.tasks[s.current].state == RUNNING ==> Reschedule(s) == s
    ensures s.tasks[s.current].state != RUNNING ==>
      s.current == s.idle && Reschedule(s) == s.(tasks := s.tasks[s.idle := Task(RUNNING, s.tasks[s.idle].count)])
  {
    StatesOf(s);
    RescheduleSame(s);
    if s.tasks[s.current].state == RUNNING {
      assert s.tasks[s.current := s.tasks[s.current].(state := RUNNING)] == s.tasks;
    }
  }

  /** A task that exits is DEAD and nowhere queued; the head of the queue takes over, or the idle task if there is none. */
  lemma DeathEffect(s: Sched)
    requires Inv(s) && s.current != s.idle
    ensures var z, c, n := Exit(s), s.current, if s.queue == [] then s.idle else s.queue[0];
      && n != c && n in s.tasks && n in s.parked && z.current == n && z.idle == s.idle
      && z.queue == (if s.queue == [] then [] else s.queue[1..]) && c !in z.queue
      && z.tasks == s.tasks[c := Task(DEAD, s.tasks[c].count + 2)][n := Task(RUNNING, s.tasks[n].count - 1)]
      && z.cpu == s.parked[n] && z.parked == s.parked - {n} && c !in z.parked && z.irq == (s.tasks[n].count == 1)
  {
    hide Exit;
    ExitEffect(s);
    NotQueued(s);
  }

  lemma NotQueued(s: Sched)
    requires Inv(s) && s.current != s.idle
    ensures s.current !in s.queue && s.current !in s.parked
  {
    StatesOf(s);
  }

  /**
   The boot code's way into the idle loop (task_become_idle): with no other task, one reschedule and one exit_critical_section
   leave the idle task running, outside every critical section, with interrupts on.
   */
  lemma IdleStarts(idle: int, cpu: Context)
    ensures Legal(Initial(idle, cpu), [RescheduleCall, ExitCall])
    ensures After(Initial(idle, cpu), [RescheduleCall, ExitCall])
      == Sched(map[idle := Task(RUNNING, 0)], [], idle, idle, true, map[], cpu)
  {
    hide Reschedule, Inv, After, Legal;
    var s, calls := Initial(idle, cpu), [RescheduleCall, ExitCall];
    Scheduler.InitialInv(idle, cpu);
    AloneInitial(idle, cpu);
    var m := Reschedule(s);
    assert m == Sched(map[idle := Task(RUNNING, 1)], [], idle, idle, false, map[], cpu);
    DoInv(s, RescheduleCall);
    TwoCalls(s, RescheduleCall, ExitCall, m);
  }

  lemma AloneInitial(idle: int, cpu: Context)
    ensures Reschedule(Initial(idle, cpu)) == Sched(map[idle := Task(RUNNING, 1)], [], idle, idle, false, map[], cpu)
    ensures Queued(Initial(idle, cpu))
  {
    var s := Initial(idle, cpu);
    Scheduler.InitialInv(idle, cpu);
    AloneEffect(s);
    assert s.tasks[idle := Task(RUNNING, 1)] == map[idle := Task(RUNNING, 1)];
  }

  /** A run of two calls. */
  lemma TwoCalls(s: Sched, c: Call, d: Call, m: Sched)
    requires Inv(s) && Allowed(s, c) && Queued(s) && (c.StartCall? ==> c.t in s.tasks) && m == Do(s, c)
    requires Inv(m) && Allowed(m, d) && Queued(m) && (d.StartCall? ==> d.t in m.tasks)
    ensures Legal(s, [c, d]) && After(s, [c, d]) == Do(m, d)
  {
    hide Inv, Allowed, Do, Queued;
    assert [c, d][..0] == [] && [c, d][..1] == [c] && [c][..0] == [];
    assert After(s, []) == s;
    assert After(s, [c]) == m;
    forall i | 0 <= i < 2 ensures Allowed(After(s, [c, d][..i]), [c, d][i]) {
      assert i == 0 || i == 1;
    }
  }
}
