/** Every step keeps the scheduler's invariant. */
module SchedulerSteps {
  import opened Common
  import opened Process
  import opened MinHeap
  import opened Scheduler
  import opened SchedulerInvariant

  // ---------- Choosing and switching ----------

  ghost predicate NobodyRuns(s: Sched) { forall p | p in s.procs :: s.procs[p].state != Running }

  ghost predicate AsAfterWaking(s: Sched, now: nat, r: Sched)
  {
    && r.procs.Keys == s.procs.Keys
    && forall p | p in s.procs :: r.procs[p] == if Due(s.procs[p], now) then s.procs[p].Wake() else s.procs[p]
  }

  /** pick_next_process hands out the head of the queue, and the idle process
      only when the queue is empty. */
  lemma PickKeeps(s: Sched, now: nat, off: set<int>, who: int)
    requires Core(s, off, who) && Awake(s, off)
    ensures var (r, next) := PickNext(s, now);
      && Core(r, off + {next}, who) && AsAfterWaking(s, now, r)
      && r.list == s.list && r.idle == s.idle && r.current == s.current && r.nextPid == s.nextPid
      && next in r.procs && (next == r.idle || (next in r.list && next !in off && r.procs[next].IsReady()))
      && (s.ready != [] ==> next == s.ready[0])
      && (next == r.idle ==> forall p | p in r.list && r.procs[p].IsReady() :: p in off)
  {
    WakeSleepersKeeps(s, now, off, who);
    WakeSleepersExact(s, now, off, who);
    var s1 := WakeSleepers(s, now);
    if s1.ready == [] {
      Widen(s1, off, off + {s1.idle}, who);
    } else {
      DequeueKeeps(s1, off, who);
      SameExits(s1, Dequeue(s1));
    }
  }

  lemma HeadReady(s: Sched, off: set<int>)
    requires Queue(s, off) && s.ready != []
    ensures s.ready[0] in s.list && s.ready[0] !in off
    ensures s.ready[0] in s.procs && s.procs[s.ready[0]].IsReady()
  {
    assert s.ready[0] in s.ready;
  }

  lemma DequeueKeeps(s: Sched, off: set<int>, who: int)
    requires Basic(s, off, who) && s.ready != []
    ensures Basic(Dequeue(s), off + {s.ready[0]}, who)
    ensures s.ready[0] in s.list && s.ready[0] !in off
    ensures s.ready[0] in s.procs && s.procs[s.ready[0]].IsReady()
  {
    var s' := Dequeue(s);
    TailOf(s.ready);
    HeadReady(s, off);
    assert s'.enqueued == s'.picked + s'.ready by {
      assert s.ready == [s.ready[0]] + s'.ready;
    }
    assert Queue(s', off + {s.ready[0]}) by {
      forall i, j | 0 <= i < j < |s'.ready| ensures s'.ready[i] != s'.ready[j] {
        assert s'.ready[i] == s.ready[i + 1] && s'.ready[j] == s.ready[j + 1];
      }
    }
  }

  lemma TailOf(q: seq<int>)
    requires Distinct(q) && q != []
    ensures q[0] in q
    ensures forall p :: p in q[1..] <==> p in q && p != q[0]
  {
    assert q == [q[0]] + q[1..];
  }

  /** Making the chosen process the running one. */
  lemma RunKeeps(s: Sched, who: int, p: int, x: Proc)
    requires Core(s, {p}, who) && NobodyRuns(s) && p in s.procs
    requires s.procs[p].IsReady() || p == s.idle
    requires x.state == Running && x.parent == s.procs[p].parent
    ensures Inv(Set(s, p, x).(current := p))
  {
    assert Basic(s, {p}, p);
    Replace(s, {p}, p, p, x);
    ReplaceExit(s, p, x);
    MoveCurrent(Set(s, p, x), p);
  }

  lemma MoveCurrent(s: Sched, p: int)
    requires Core(s, {p}, p)
    ensures Core(s.(current := p), {p}, p)
  {
    SameExits(s, s.(current := p));
  }

  lemma ActivateInv(s: Sched, who: int, p: int, now: nat)
    requires Core(s, {p}, who) && NobodyRuns(s) && p in s.procs
    requires s.procs[p].IsReady() || p == s.idle
    ensures Inv(Activate(s, p, now))
  {
    var x := s.procs[p].Resume(now);
    var y := x.(contextSwitches := x.contextSwitches + 1);
    assert Activate(s, p, now) == Set(s, p, y).(current := p);
    RunKeeps(s, who, p, y);
  }

  /** Giving up the processor: whoever is chosen next ends up as the one running
      process, possibly the same one if it slept and is already due. */
  lemma SwitchAwayInv(s: Sched, pickAt: nat, resumeAt: nat)
    requires Core(s, {}, s.current) && NobodyRuns(s) && s.current in s.list
    ensures Inv(SwitchAway(s, pickAt, resumeAt))
  {
    PickKeeps(s, pickAt, {}, s.current);
    var (s1, next) := PickNext(s, pickAt);
    assert NobodyRuns(s1);
    assert {} + {next} == {next};
    if next == s.current {
      var x := s1.procs[next].Resume(resumeAt);
      RunKeeps(s1, s.current, next, x);
      assert SwitchAway(s, pickAt, resumeAt) == Set(s1, next, x).(current := next);
    } else {
      ActivateInv(s1, s.current, next, resumeAt);
    }
  }

  /** A process that is dead or a zombie is never chosen. */
  lemma NeverBackToSelf(s: Sched, pickAt: nat)
    requires Core(s, {}, s.current) && s.current in s.list && s.current in s.procs
    requires s.procs[s.current].IsDead() || s.procs[s.current].IsZombie()
    ensures PickNext(s, pickAt).1 != s.current
  {
    PickKeeps(s, pickAt, {}, s.current);
  }

  // ---------- Steps that wake ----------

  lemma WakeSingleInv(s: Sched, r: WaitReason)
    requires Inv(s) && Listed(s)
    ensures Inv(WakeFirst(s, 0, ForReason(r)))
  {
    WakeFirstKeeps(s, ForReason(r), {s.current}, s.current);
    WakeFirstExact(s, 0, ForReason(r));
  }

  lemma WakeAllInv(s: Sched, c: Condition)
    requires Inv(s) && Listed(s)
    ensures Inv(WakeFrom(s, 0, c))
  {
    WakeFromKeeps(s, 0, c, {s.current}, s.current);
    WokenBy(s, c);
  }

  // ---------- Steps that give up the processor ----------

  /** The current process in a state that is neither ready nor running. */
  lemma LeaveCpu(s: Sched, x: Proc)
    requires Inv(s) && s.current in s.list && x.parent == s.procs[s.current].parent
    requires x.state in {Blocked, Dead, Zombie}
    ensures var s1 := Set(s, s.current, x);
      Basic(s1, {}, s.current) && NobodyRuns(s1) && s1.current in s1.list
  {
    var s1 := Set(s, s.current, x);
    Replace(s, {s.current}, s.current, s.current, x);
    Narrow(s1, {s.current}, {}, s.current);
  }

  lemma YieldDeadInv(s: Sched, pickAt: nat, resumeAt: nat)
    requires Inv(s) && s.current in s.list
    ensures Inv(DeadStep(s, pickAt, resumeAt))
    ensures PickNext(Set(s, s.current, s.procs[s.current].Kill()), pickAt).1 != s.current
  {
    var x := s.procs[s.current].Kill();
    LeaveCpu(s, x);
    ReplaceExit(s, s.current, x);
    SwitchAwayInv(Set(s, s.current, x), pickAt, resumeAt);
    NeverBackToSelf(Set(s, s.current, x), pickAt);
  }

  /** Once the exiting process is a zombie, waking everyone who waits for it
      leaves nobody waiting in vain. */
  lemma ExitWakesParents(s: Sched, x: Proc)
    requires Inv(s) && s.current in s.list && x.parent == s.procs[s.current].parent && x.IsZombie()
    requires Listed(Set(s, s.current, x))
    ensures var r := WakeFrom(Set(s, s.current, x), 0, ForChild(s.current));
      Core(r, {}, s.current) && SameFrame(s, r) && NobodyRuns(r) && r.procs[s.current] == x
  {
    var s1 := Set(s, s.current, x);
    LeaveCpu(s, x);
    WokenStill(s1, ForChild(s.current), s.current);
    NobodyInVain(s, s1, WakeFrom(s1, 0, ForChild(s.current)));
  }

  lemma WokenStill(s: Sched, c: Condition, who: int)
    requires Listed(s) && Basic(s, {}, who) && NobodyRuns(s)
    ensures var r := WakeFrom(s, 0, c);
      && Basic(r, {}, who) && NobodyRuns(r) && SameFrame(s, r)
      && forall p | p in s.list ::
           r.procs[p] == if Matches(s.procs[p], c) then s.procs[p].Wake() else s.procs[p]
  {
    WakeFromKeeps(s, 0, c, {}, who);
    WokenBy(s, c);
    WokenNobodyRuns(s, c);
  }

  lemma WokenNobodyRuns(s: Sched, c: Condition)
    requires Listed(s) && Population(s) && NobodyRuns(s)
    ensures NobodyRuns(WakeFrom(s, 0, c))
  {
    WokenBy(s, c);
  }

  lemma WokenBy(s: Sched, c: Condition)
    requires Listed(s) && Population(s)
    ensures var r := WakeFrom(s, 0, c);
      && SameFrame(s, r)
      && (forall p | p in s.list ::
            r.procs[p] == if Matches(s.procs[p], c) then s.procs[p].Wake() else s.procs[p])
      && r.procs[s.idle] == s.procs[s.idle]
  {
    WakeFromExact(s, 0, c);
    forall p | p in s.list
      ensures WakeFrom(s, 0, c).procs[p] == if Matches(s.procs[p], c) then s.procs[p].Wake() else s.procs[p]
    {
      var j :| 0 <= j < |s.list| && s.list[j] == p;
    }
  }

  lemma NobodyInVain(s: Sched, s1: Sched, r: Sched)
    requires NoLostExit(s) && s.list == s1.list && r.list == s.list && r.procs.Keys == s1.procs.Keys
    requires s1.procs.Keys == s.procs.Keys
    requires forall p | p in s.procs && p != s.current :: s1.procs[p] == s.procs[p]
    requires s.current in s1.procs && s1.procs[s.current].IsZombie()
    requires forall p | p in s1.list && p in s1.procs ::
      r.procs[p] == if Matches(s1.procs[p], ForChild(s.current)) then s1.procs[p].Wake() else s1.procs[p]
    ensures NoLostExit(r)
  {
    forall p, c ensures !WaitsInVain(r, p, c) {
      if c != s.current {
        assert !WaitsInVain(s, p, c);
      }
    }
  }

  lemma YieldZombieInv(s: Sched, status: int, pickAt: nat, resumeAt: nat)
    requires Inv(s) && s.current in s.list && WellFormed(s)
    ensures Inv(ZombieStep(s, status, pickAt, resumeAt))
    ensures PickNext(Exited(s, status), pickAt).1 != s.current
  {
    ExitWakesParents(s, s.procs[s.current].(exitStatus := status).Zombify());
    SwitchAwayInv(Exited(s, status), pickAt, resumeAt);
    NeverBackToSelf(Exited(s, status), pickAt);
  }

  // ---------- Waiting for a child ----------

  ghost predicate IsChild(s: Sched, parent: int, pid: int, c: int)
  {
    && c in s.list && c in s.procs
    && (pid == ANY_CHILD || c == pid) && s.procs[c].parent == Some(parent)
  }

  /** find_child finds a matching zombie whenever there is one, otherwise some
      matching child, and nothing only if there is none. */
  lemma {:induction false} FindChildCorrect(s: Sched, parent: int, pid: int, i: nat, first: Option<int>)
    requires i <= |s.list| && Listed(s)
    requires first.Some? ==> IsChild(s, parent, pid, first.value) && !s.procs[first.value].IsZombie()
    ensures var r := FindChild(s, parent, pid, i, first);
      && (r.Some? ==> IsChild(s, parent, pid, r.value))
      && (r.Some? && !s.procs[r.value].IsZombie() ==>
            forall j | i <= j < |s.list| :: !(IsChild(s, parent, pid, s.list[j]) && s.procs[s.list[j]].IsZombie()))
      && (r.None? ==> first.None? && forall j | i <= j < |s.list| :: !IsChild(s, parent, pid, s.list[j]))
    decreases |s.list| - i
  {
    if i < |s.list| {
      var c := s.list[i];
      assert c in s.list;
      if (pid != ANY_CHILD && c != pid) || s.procs[c].parent != Some(parent) {
        FindChildCorrect(s, parent, pid, i + 1, first);
      } else if !s.procs[c].IsZombie() {
        FindChildCorrect(s, parent, pid, i + 1, if first == None then Some(c) else first);
      }
    }
  }

  lemma FindChildIn(s: Sched, parent: int, pid: int)
    requires Listed(s)
    ensures var r := FindChild(s, parent, pid, 0, None);
      && (r.Some? ==> IsChild(s, parent, pid, r.value))
      && (r.Some? && !s.procs[r.value].IsZombie() ==>
            forall c :: !(IsChild(s, parent, pid, c) && s.procs[c].IsZombie()))
      && (r.None? ==> forall c :: !IsChild(s, parent, pid, c))
  {
    FindChildCorrect(s, parent, pid, 0, None);
    forall c | IsChild(s, parent, pid, c) ensures exists j :: 0 <= j < |s.list| && s.list[j] == c {
    }
  }

  lemma CollectInv(s: Sched, c: int, now: nat)
    requires Inv(s) && s.current in s.list && c in s.list && c in s.procs
    requires s.procs[c].IsZombie() && s.procs[c].parent == Some(s.current)
    ensures var s1 := Set(s, c, s.procs[c].Kill());
      s.current in s1.procs && Inv(Set(s1, s.current, s1.procs[s.current].Resume(now)))
  {
    var cur := s.current;
    var s1 := Set(s, c, s.procs[c].Kill());
    Replace(s, {cur}, cur, c, s.procs[c].Kill());
    ReplaceExit(s, c, s.procs[c].Kill());
    var x := s1.procs[cur].Resume(now);
    Replace(s1, {cur}, cur, cur, x);
    ReplaceExit(s1, cur, x);
  }

  lemma WaitInv(s: Sched, pid: int, pickAt: nat, resumeAt: nat)
    requires Inv(s) && s.current in s.list
    requires forall c :: !(IsChild(s, s.current, pid, c) && s.procs[c].IsZombie())
    ensures Inv(SwitchAway(Set(s, s.current, s.procs[s.current].WaitForChild(pid)), pickAt, resumeAt))
  {
    LeaveCpu(s, s.procs[s.current].WaitForChild(pid));
    WaitingCore(s, pid);
    SwitchAwayInv(Set(s, s.current, s.procs[s.current].WaitForChild(pid)), pickAt, resumeAt);
  }

  /** Blocking on a child is safe when no matching child is a zombie. */
  lemma WaitingCore(s: Sched, pid: int)
    requires Inv(s) && s.current in s.list
    requires forall c :: !(IsChild(s, s.current, pid, c) && s.procs[c].IsZombie())
    ensures NoLostExit(Set(s, s.current, s.procs[s.current].WaitForChild(pid)))
  {
    var s1 := Set(s, s.current, s.procs[s.current].WaitForChild(pid));
    forall p, c ensures !WaitsInVain(s1, p, c) {
      assert !WaitsInVain(s, p, c);
      assert !(IsChild(s, s.current, pid, c) && s.procs[c].IsZombie());
    }
  }

  // ---------- Blocking and sleeping ----------

  lemma BlockInv(s: Sched, x: Proc, r: WaitReason, pickAt: nat, resumeAt: nat)
    requires Inv(s) && s.current in s.list && x.parent == s.procs[s.current].parent && r != ChildProcess
    ensures Inv(BlockCurrent(s, x, r, pickAt, resumeAt))
  {
    var y := x.WaitFor(r);
    if r == Sleep {
      SleepKeeps(s, y);
      var s1 := Set(s, s.current, y);
      SwitchAwayInv(s1.(sleepers := Inserted(s1.sleepers, y.wakeTime, s.current)), pickAt, resumeAt);
    } else {
      LeaveCpu(s, y);
      ReplaceExit(s, s.current, y);
      SwitchAwayInv(Set(s, s.current, y), pickAt, resumeAt);
    }
  }

  /** Blocking for the child reason without looking for a zombie first would be
      safe exactly if there is none to be found. */
  lemma BlockOnChildExact(s: Sched)
    requires Inv(s) && s.current in s.list
    ensures NoLostExit(Set(s, s.current, s.procs[s.current].WaitFor(ChildProcess))) <==>
      forall c :: !(IsChild(s, s.current, s.procs[s.current].waitPid, c) && s.procs[c].IsZombie())
  {
    var s1 := Set(s, s.current, s.procs[s.current].WaitFor(ChildProcess));
    forall p, c ensures !WaitsInVain(s, p, c) {
    }
    forall c ensures WaitsInVain(s1, s.current, c) <==>
        IsChild(s, s.current, s.procs[s.current].waitPid, c) && s.procs[c].IsZombie()
    {
    }
    forall p, c | p != s.current ensures !WaitsInVain(s1, p, c) {
      assert !WaitsInVain(s, p, c);
    }
  }

  lemma SleepKeeps(s: Sched, y: Proc)
    requires Inv(s) && s.current in s.list && y.parent == s.procs[s.current].parent && y.state == Sleeping
    ensures var s1 := Set(s, s.current, y);
      var s2 := s1.(sleepers := Inserted(s1.sleepers, y.wakeTime, s.current));
      Core(s2, {}, s.current) && NobodyRuns(s2) && s2.current in s2.list
  {
    var cur := s.current;
    var s1 := Set(s, cur, y);
    var s2 := s1.(sleepers := Inserted(s1.sleepers, y.wakeTime, cur));
    InsertedSleepers(s, y);
    ReplaceExit(s, cur, y);
    SameExits(s1, s2);
  }

  lemma InsertedSleepers(s: Sched, y: Proc)
    requires Inv(s) && s.current in s.list && y.state == Sleeping
    ensures Sleepers(Set(s, s.current, y).(sleepers := Inserted(s.sleepers, y.wakeTime, s.current)))
  {
    var cur := s.current;
    var n := Node(y.wakeTime, cur);
    var s2 := Set(s, cur, y).(sleepers := Inserted(s.sleepers, y.wakeTime, cur));
    InsertCorrect(s.sleepers, y.wakeTime, cur);
    assert multiset(s2.sleepers) == multiset(s.sleepers) + multiset{n};
    forall m | m in multiset(s.sleepers) ensures m.value != cur && m in multiset(s2.sleepers) {
    }
    assert multiset(s.sleepers)[n] == 0;
  }

  // ---------- Preemption and exec ----------

  /** Putting the outgoing process back in the queue, if it is a real one. */
  lemma RequeueKeeps(s: Sched, next: int, x: Proc)
    requires Core(s, {s.current} + {next}, s.current) && s.current in s.procs && next != s.current
    requires s.procs[s.current].state in {Running, New} && x.IsReady() && x.parent == s.procs[s.current].parent
    ensures var s2 := EnqueueIfRunnable(Set(s, s.current, x), s.current);
      && Core(s2, {next}, s.current) && NobodyRuns(s2)
      && s2.idle == s.idle && s2.list == s.list && s2.procs == s.procs[s.current := x]
  {
    var cur := s.current;
    var off := {cur} + {next};
    var s1 := Set(s, cur, x);
    Replace(s, off, cur, cur, x);
    ReplaceExit(s, cur, x);
    if cur == s.idle {
      Narrow(s1, off, {next}, cur);
    } else {
      EnqueueKeeps(s1, next);
      SameExits(s1, Enqueue(s1, cur));
    }
  }

  lemma EnqueueKeeps(s: Sched, next: int)
    requires Basic(s, {s.current} + {next}, s.current) && s.current in s.list && next != s.current
    requires s.procs[s.current].IsReady()
    ensures Basic(Enqueue(s, s.current), {next}, s.current)
  {
    var cur := s.current;
    var s' := Enqueue(s, cur);
    assert cur !in s.ready;
    assert s'.enqueued == s'.picked + s'.ready;
  }

  /** The choice made while the current process still holds the processor. */
  lemma PickWhileRunning(s: Sched, pickAt: nat)
    requires Inv(s)
    ensures var (s1, next) := PickNext(s, pickAt);
      && Core(s1, {s.current} + {next}, s.current)
      && s1.current == s.current && s1.idle == s.idle && s1.list == s.list
      && s.current in s1.procs && next in s1.procs && s1.procs[s.current] == s.procs[s.current]
      && (next == s.idle || (next != s.current && next in s1.list && s1.procs[next].IsReady()))
  {
    PickKeeps(s, pickAt, {s.current}, s.current);
  }

  lemma HandOverInv(s: Sched, next: int, x: Proc, resumeAt: nat)
    requires Core(s, {s.current} + {next}, s.current) && s.current in s.procs && next in s.procs && next != s.current
    requires s.procs[s.current].state in {Running, New} && x.IsReady() && x.parent == s.procs[s.current].parent
    requires next == s.idle || (next in s.list && s.procs[next].IsReady())
    ensures var s2 := EnqueueIfRunnable(Set(s, s.current, x), s.current);
      next in s2.procs && Inv(Activate(s2, next, resumeAt))
  {
    RequeueKeeps(s, next, x);
    ActivateInv(EnqueueIfRunnable(Set(s, s.current, x), s.current), s.current, next, resumeAt);
  }

  lemma PreemptInv(s: Sched, enabled: bool, checkAt: nat, pickAt: nat, resumeAt: nat)
    requires Inv(s)
    ensures Inv(Preempt(s, enabled, checkAt, pickAt, resumeAt))
  {
    var cur := s.current;
    PickWhileRunning(s, pickAt);
    var (s1, next) := PickNext(s, pickAt);
    if cur == next {
      assert {cur} + {next} == {cur};
      assert Inv(s1);
    } else {
      HandOverInv(s1, next, s1.procs[cur].Pause(), resumeAt);
    }
  }

  /** A process that is not idle loses the processor exactly when preemption is
      enabled and its time slice is over, and is then last in the queue. Idle
      gives way exactly when somebody is ready. */
  lemma PreemptExact(s: Sched, enabled: bool, checkAt: nat, pickAt: nat, resumeAt: nat)
    requires Inv(s)
    ensures var r := Preempt(s, enabled, checkAt, pickAt, resumeAt);
      var over := (checkAt - s.procs[s.current].quantumStart) % WORD >= TIME_SLICE_NS;
      && (s.current != s.idle ==>
            && (r.current != s.current <==> enabled && over)
            && (r.current == s.current ==> r == s)
            && (r.current != s.current ==> r.ready != [] && r.ready[|r.ready| - 1] == s.current))
      && (s.current == s.idle ==>
            (r.current != s.idle <==> enabled && WakeSleepers(s, pickAt).ready != []))
  {
    PickWhileRunning(s, pickAt);
    IdleIfNobody(s, pickAt);
    PreemptPicked(s, enabled, checkAt, pickAt, resumeAt);
  }

  lemma PreemptPicked(s: Sched, enabled: bool, checkAt: nat, pickAt: nat, resumeAt: nat)
    requires var (s1, next) := PickNext(s, pickAt);
      && s.current in s.procs && s.current in s1.procs && next in s1.procs
      && s1.current == s.current && s1.idle == s.idle && s1.procs[s.current] == s.procs[s.current]
      && s.procs[s.current].state in {Running, New} && (s.current != s.idle ==> next != s.current)
    ensures var (r, next) := (Preempt(s, enabled, checkAt, pickAt, resumeAt), PickNext(s, pickAt).1);
      var over := (checkAt - s.procs[s.current].quantumStart) % WORD >= TIME_SLICE_NS;
      && (s.current != s.idle ==>
            && (r.current != s.current <==> enabled && over)
            && (r.current == s.current ==> r == s)
            && (r.current != s.current ==> r.ready != [] && r.ready[|r.ready| - 1] == s.current))
      && (s.current == s.idle ==> (r.current != s.idle <==> enabled && next != s.idle))
  {
    var cur := s.current;
    var (s1, next) := PickNext(s, pickAt);
    if enabled && cur != next && (cur == s.idle || ShouldPreempt((checkAt - s.procs[cur].quantumStart) % WORD)) {
      HandOverEffect(s1, next, s1.procs[cur].Pause(), resumeAt);
    }
  }

  /** Idle is chosen exactly when, with the due sleepers awake, nobody is ready. */
  lemma IdleIfNobody(s: Sched, pickAt: nat)
    requires Inv(s)
    ensures PickNext(s, pickAt).1 == s.idle <==> WakeSleepers(s, pickAt).ready == []
  {
    WakeSleepersKeeps(s, pickAt, {s.current}, s.current);
    WakeSleepersExact(s, pickAt, {s.current}, s.current);
  }

  lemma HandOverEffect(s: Sched, next: int, x: Proc, resumeAt: nat)
    requires s.current in s.procs && next in s.procs && next != s.current && x.IsReady()
    ensures var s2 := EnqueueIfRunnable(Set(s, s.current, x), s.current);
      && next in s2.procs && Activate(s2, next, resumeAt).current == next
      && (s.current != s.idle ==> Activate(s2, next, resumeAt).ready == s.ready + [s.current])
  {
  }

  lemma YieldNewInv(s: Sched, pickAt: nat, resumeAt: nat)
    requires Inv(s) && s.current in s.list
    ensures Inv(NewStep(s, pickAt, resumeAt)) && PickNext(s, pickAt).1 != s.current
  {
    PickWhileRunning(s, pickAt);
    var (s1, next) := PickNext(s, pickAt);
    HandOverInv(s1, next, s1.procs[s.current].Wake(), resumeAt);
  }

  lemma ExecInv(s: Sched)
    requires Inv(s) && s.current in s.list
    ensures Inv(Set(s, s.current, s.procs[s.current].Exec()))
  {
    var x := s.procs[s.current].Exec();
    Replace(s, {s.current}, s.current, s.current, x);
    ReplaceExit(s, s.current, x);
  }

  // ---------- Coming and going ----------

  lemma AddInv(s: Sched, x: Proc)
    requires Inv(s) && x.state == New && (x.parent.Some? ==> x.parent.value < s.nextPid)
    ensures Inv(AddProcess(s, x))
  {
    var p := s.nextPid;
    var s' := AddProcess(s, x);
    assert p !in s.procs;
    assert s'.list[|s.list|] == p;
    assert s'.enqueued == s'.picked + s'.ready;
    forall a, c ensures !WaitsInVain(s', a, c) {
      assert !WaitsInVain(s, a, c);
    }
  }

  lemma {:induction false} SurvivorsExact(procs: map<int, Proc>, list: seq<int>)
    requires forall i | 0 <= i < |list| :: list[i] in procs
    requires Distinct(list)
    ensures var r := Survivors(procs, list);
      && Distinct(r) && |r| <= |list|
      && forall p :: p in r <==> p in list && !procs[p].IsDead()
  {
    if list != [] {
      var rest := list[1..];
      forall i | 0 <= i < |rest| ensures rest[i] in procs { assert rest[i] == list[i + 1]; }
      SurvivorsExact(procs, rest);
      assert list == [list[0]] + rest;
      assert list[0] !in rest;
    }
  }

  /** `at` are increasing positions of `list`, and `r` is what stands there. */
  ghost predicate PickedFrom(list: seq<int>, r: seq<int>, at: seq<nat>)
  {
    && |at| == |r| && (forall i | 0 <= i < |at| :: at[i] < |list| && list[at[i]] == r[i])
    && (forall i, j | 0 <= i < j < |at| :: at[i] < at[j])
  }

  lemma PickedLater(list: seq<int>, r: seq<int>, at: seq<nat>) returns (later: seq<nat>)
    requires list != [] && PickedFrom(list[1..], r, at)
    ensures PickedFrom(list, r, later) && forall i | 0 <= i < |later| :: later[i] > 0
  {
    later := seq(|at|, i requires 0 <= i < |at| => at[i] + 1);
    forall i | 0 <= i < |later| ensures later[i] < |list| && list[later[i]] == r[i] {
      assert list[1..][at[i]] == r[i];
    }
  }

  /** Who survives keeps its place in the order of the list. */
  lemma {:induction false} SurvivorsInOrder(procs: map<int, Proc>, list: seq<int>) returns (at: seq<nat>)
    requires forall i | 0 <= i < |list| :: list[i] in procs
    ensures PickedFrom(list, Survivors(procs, list), at)
  {
    if list == [] {
      return [];
    }
    var rest := list[1..];
    forall i | 0 <= i < |rest| ensures rest[i] in procs { assert rest[i] == list[i + 1]; }
    at := SurvivorsInOrder(procs, rest);
    at := PickedLater(list, Survivors(procs, rest), at);
    if !procs[list[0]].IsDead() {
      PickedFirst(list, Survivors(procs, rest), at);
      at := [0] + at;
    }
  }

  lemma PickedFirst(list: seq<int>, r: seq<int>, at: seq<nat>)
    requires list != [] && PickedFrom(list, r, at) && forall i | 0 <= i < |at| :: at[i] > 0
    ensures PickedFrom(list, [list[0]] + r, [0] + at)
  {
  }

  /** reap removes exactly the DEAD processes; none of them was queued, asleep
      or current. */
  lemma ReapInv(s: Sched)
    requires Inv(s) && Listed(s)
    ensures Inv(ReapStep(s))
  {
    SurvivorsExact(s.procs, s.list);
    var s' := ReapStep(s);
    forall p | p in s'.procs ensures s'.procs[p] == s.procs[p] {
    }
    assert s.current in s'.procs;
    ReapedSleepers(s, s');
    forall a, c ensures !WaitsInVain(s', a, c) {
      assert !WaitsInVain(s, a, c);
    }
  }

  lemma ReapedSleepers(s: Sched, s': Sched)
    requires Sleepers(s) && s'.sleepers == s.sleepers
    requires forall p | p in s.list && p in s.procs && !s.procs[p].IsDead() :: p in s'.list
    requires forall p | p in s'.list :: p in s.list
    requires forall p | p in s'.procs :: p in s.procs && s'.procs[p] == s.procs[p]
    requires forall p | p in s'.list :: p in s'.procs
    ensures Sleepers(s')
  {
    forall n: Node<int> | n in multiset(s.sleepers)
      ensures n.value in s'.list && n.value in s'.procs && s'.procs[n.value] == s.procs[n.value]
    {
      var p: int := n.value;
      assert p in s.list && p in s.procs && s.procs[p].state == Sleeping;
      assert p in s'.list;
    }
    forall p | p in s'.list && s'.procs[p].state == Sleeping
      ensures multiset(s'.sleepers)[Node(s'.procs[p].wakeTime, p)] == 1
    {
      assert p in s.list && s.procs[p] == s'.procs[p];
    }
  }

  lemma WaitStepInv(s: Sched, pid: int, pickAt: nat, resumeAt: nat)
    requires Inv(s) && s.current in s.list && WellFormed(s)
    ensures Inv(WaitStep(s, pid, pickAt, resumeAt))
  {
    FindChildIn(s, s.current, pid);
    match Outcome(s, pid)
    case NoChildren =>
    case Collected(c, _) => CollectInv(s, c, resumeAt);
    case KeepsWaiting => WaitInv(s, pid, pickAt, resumeAt);
  }

  lemma InvWellFormed(s: Sched)
    requires Inv(s)
    ensures WellFormed(s) && (s.current != s.idle ==> s.current in s.list)
  {
  }

  /** Every enabled step keeps the invariant. */
  lemma NextKeepsInv(s: Sched, e: Event)
    requires Inv(s) && Enabled(s, e)
    ensures WellFormed(s) && Inv(Next(s, e))
  {
    InvWellFormed(s);
    match e
    case WakeSingle(r) => WakeSingleInv(s, r);
    case WakeAll(r) => WakeAllInv(s, ForReason(r));
    case WakeMutex(m) => WakeAllInv(s, ForMutex(m));
    case Tick(enabled, t0, t1, t2, t3) =>
      WakeSleepersKeeps(s, t0, {s.current}, s.current);
      WakeSleepersExact(s, t0, {s.current}, s.current);
      PreemptInv(WakeSleepers(s, t0), enabled, t1, t2, t3);
    case YieldDead(t0, t1) => YieldDeadInv(s, t0, t1);
    case YieldZombie(status, t0, t1) => YieldZombieInv(s, status, t0, t1);
    case YieldToChild(pid, t0, t1) => WaitStepInv(s, pid, t0, t1);
    case YieldSleep(d, t0, t1, t2) => BlockInv(s, s.procs[s.current].SleepFor(t0, d), Sleep, t1, t2);
    case YieldMutex(m, t0, t1) => BlockInv(s, s.procs[s.current].WaitForMutex(m), Mutex, t0, t1);
    case YieldBlocked(r, t0, t1) => BlockInv(s, s.procs[s.current], r, t0, t1);
    case ExecCurrent => ExecInv(s);
    case YieldNew(t0, t1) => YieldNewInv(s, t0, t1);
    case Fork => AddInv(s, Forked(s.current, s.procs[s.current]));
    case AddKThread => AddInv(s, NewProcess(None));
    case Reap => ReapInv(s);
  }
}
