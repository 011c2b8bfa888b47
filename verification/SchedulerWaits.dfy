/** Who stays blocked, over whole runs: a blocked process is left alone until an
    event that it waits for, which may never come. */
module SchedulerWaits {
  import opened Common
  import opened Process
  import opened MinHeap
  import opened Scheduler
  import opened SchedulerInvariant
  import opened SchedulerSteps
  import opened SchedulerRuns

  ghost predicate BlockedIn(s: Sched, p: int)
  {
    p in s.list && p in s.procs && s.procs[p].IsBlocked()
  }

  /** The event wakes, or in the case of wake_single may wake, what `p` waits for. */
  ghost predicate Wakes(s: Sched, e: Event, p: int)
    requires p in s.procs
  {
    match e
    case WakeSingle(r) => s.procs[p].IsWaitingFor(r)
    case WakeAll(r) => s.procs[p].IsWaitingFor(r)
    case WakeMutex(m) => s.procs[p].IsWaitingForMutex(m)
    case YieldZombie(_, _, _) => s.procs[p].IsWaitingForChild(s.current)
    case _ => false
  }

  ghost predicate Untouched(s: Sched, r: Sched, p: int)
  {
    p in s.procs && p in r.procs && r.procs[p] == s.procs[p] && (p in s.list ==> p in r.list)
  }

  // ---------- One step ----------

  lemma UntouchedPick(s: Sched, now: nat, off: set<int>, who: int, p: int)
    requires Core(s, off, who) && Awake(s, off) && BlockedIn(s, p)
    ensures PassedOver(s, now, p)
  {
    PickKeeps(s, now, off, who);
  }

  // The three ways to switch touch only who leaves and who is chosen.

  ghost predicate PassedOver(s: Sched, now: nat, p: int)
  {
    Untouched(s, PickNext(s, now).0, p) && PickNext(s, now).1 != p
  }

  lemma SwitchesOther(s: Sched, pickAt: nat, resumeAt: nat, p: int)
    requires PassedOver(s, pickAt, p)
    ensures Untouched(s, SwitchAway(s, pickAt, resumeAt), p)
  {
  }

  lemma GivesWayToOther(s: Sched, pickAt: nat, resumeAt: nat, p: int)
    requires PassedOver(s, pickAt, p) && p != s.current
    ensures Untouched(s, GiveWay(s, pickAt, resumeAt), p)
  {
  }

  lemma StartsOther(s: Sched, pickAt: nat, resumeAt: nat, p: int)
    requires PassedOver(s, pickAt, p) && p != s.current
    ensures Untouched(s, NewStep(s, pickAt, resumeAt), p)
  {
  }

  lemma UntouchedSwitchAway(s: Sched, pickAt: nat, resumeAt: nat, p: int)
    requires Core(s, {}, s.current) && NobodyRuns(s) && BlockedIn(s, p)
    ensures Untouched(s, SwitchAway(s, pickAt, resumeAt), p)
  {
    UntouchedPick(s, pickAt, {}, s.current, p);
    SwitchesOther(s, pickAt, resumeAt, p);
  }

  lemma UntouchedGiveWay(s: Sched, pickAt: nat, resumeAt: nat, p: int)
    requires Inv(s) && BlockedIn(s, p)
    ensures Untouched(s, GiveWay(s, pickAt, resumeAt), p)
  {
    UntouchedPick(s, pickAt, {s.current}, s.current, p);
    GivesWayToOther(s, pickAt, resumeAt, p);
  }

  lemma UntouchedNew(s: Sched, pickAt: nat, resumeAt: nat, p: int)
    requires Inv(s) && BlockedIn(s, p)
    ensures Untouched(s, NewStep(s, pickAt, resumeAt), p)
  {
    UntouchedPick(s, pickAt, {s.current}, s.current, p);
    StartsOther(s, pickAt, resumeAt, p);
  }

  lemma TickStart(s: Sched, wakeAt: nat)
    requires Inv(s)
    ensures Inv(WakeSleepers(s, wakeAt)) && SameFrame(s, WakeSleepers(s, wakeAt))
    ensures forall p | p in s.procs && s.procs[p].state != Sleeping :: Untouched(s, WakeSleepers(s, wakeAt), p)
  {
    WakeSleepersKeeps(s, wakeAt, {s.current}, s.current);
    WakeSleepersExact(s, wakeAt, {s.current}, s.current);
  }

  lemma UntouchedTick(s: Sched, enabled: bool, wakeAt: nat, checkAt: nat, pickAt: nat, resumeAt: nat, p: int)
    requires Inv(s) && BlockedIn(s, p)
    ensures Untouched(s, TickStep(s, enabled, wakeAt, checkAt, pickAt, resumeAt), p)
  {
    TickStart(s, wakeAt);
    UntouchedGiveWay(WakeSleepers(s, wakeAt), pickAt, resumeAt, p);
  }

  lemma UntouchedBlock(s: Sched, x: Proc, r: WaitReason, pickAt: nat, resumeAt: nat, p: int)
    requires Inv(s) && s.current in s.list && x.parent == s.procs[s.current].parent && r != ChildProcess
    requires BlockedIn(s, p)
    ensures Untouched(s, BlockCurrent(s, x, r, pickAt, resumeAt), p)
  {
    var y := x.WaitFor(r);
    var s1 := Set(s, s.current, y);
    if r == Sleep {
      SleepKeeps(s, y);
      UntouchedSwitchAway(s1.(sleepers := Inserted(s1.sleepers, y.wakeTime, s.current)), pickAt, resumeAt, p);
    } else {
      LeaveCpu(s, y);
      ReplaceExit(s, s.current, y);
      UntouchedSwitchAway(s1, pickAt, resumeAt, p);
    }
  }

  lemma UntouchedDead(s: Sched, pickAt: nat, resumeAt: nat, p: int)
    requires Inv(s) && s.current in s.list && BlockedIn(s, p)
    ensures Untouched(s, DeadStep(s, pickAt, resumeAt), p)
  {
    var x := s.procs[s.current].Kill();
    LeaveCpu(s, x);
    ReplaceExit(s, s.current, x);
    UntouchedSwitchAway(Set(s, s.current, x), pickAt, resumeAt, p);
  }

  lemma UntouchedZombie(s: Sched, status: int, pickAt: nat, resumeAt: nat, p: int)
    requires Inv(s) && s.current != s.idle && WellFormed(s) && BlockedIn(s, p)
    requires !s.procs[p].IsWaitingForChild(s.current)
    ensures Untouched(s, ZombieStep(s, status, pickAt, resumeAt), p)
  {
    var x := s.procs[s.current].(exitStatus := status).Zombify();
    ExitedZombie(s, status);
    LeaveCpu(s, x);
    WokenBy(Set(s, s.current, x), ForChild(s.current));
    UntouchedSwitchAway(Exited(s, status), pickAt, resumeAt, p);
  }

  lemma UntouchedWait(s: Sched, pid: int, pickAt: nat, resumeAt: nat, p: int)
    requires Inv(s) && s.current in s.list && WellFormed(s) && BlockedIn(s, p)
    ensures Untouched(s, WaitStep(s, pid, pickAt, resumeAt), p)
  {
    FindChildIn(s, s.current, pid);
    if Outcome(s, pid).KeepsWaiting? {
      LeaveCpu(s, s.procs[s.current].WaitForChild(pid));
      WaitingCore(s, pid);
      UntouchedSwitchAway(Set(s, s.current, s.procs[s.current].WaitForChild(pid)), pickAt, resumeAt, p);
    }
  }

  lemma UntouchedWakeAll(s: Sched, c: Condition, p: int)
    requires Inv(s) && WellFormed(s) && BlockedIn(s, p) && !Matches(s.procs[p], c)
    ensures Untouched(s, WakeFrom(s, 0, c), p)
  {
    WokenBy(s, c);
  }

  lemma UntouchedWakeSingle(s: Sched, c: Condition, p: int)
    requires Inv(s) && WellFormed(s) && BlockedIn(s, p) && !Matches(s.procs[p], c)
    ensures Untouched(s, WakeFirst(s, 0, c), p)
  {
    WakeFirstExact(s, 0, c);
  }

  /** A step that does not wake what a blocked process waits for leaves its
      record as it is. */
  lemma BlockedStays(s: Sched, e: Event, p: int)
    requires Inv(s) && Enabled(s, e) && WellFormed(s) && BlockedIn(s, p) && !Wakes(s, e, p)
    ensures Untouched(s, Next(s, e), p)
  {
    InvWellFormed(s);
    match e
    case WakeSingle(r) => UntouchedWakeSingle(s, ForReason(r), p);
    case WakeAll(r) => UntouchedWakeAll(s, ForReason(r), p);
    case WakeMutex(m) => UntouchedWakeAll(s, ForMutex(m), p);
    case Tick(enabled, t0, t1, t2, t3) => UntouchedTick(s, enabled, t0, t1, t2, t3, p);
    case YieldDead(t0, t1) => UntouchedDead(s, t0, t1, p);
    case YieldZombie(status, t0, t1) => UntouchedZombie(s, status, t0, t1, p);
    case YieldToChild(pid, t0, t1) => UntouchedWait(s, pid, t0, t1, p);
    case YieldSleep(d, t0, t1, t2) => UntouchedBlock(s, s.procs[s.current].SleepFor(t0, d), Sleep, t1, t2, p);
    case YieldMutex(m, t0, t1) => UntouchedBlock(s, s.procs[s.current].WaitForMutex(m), Mutex, t0, t1, p);
    case YieldBlocked(r, t0, t1) => UntouchedBlock(s, s.procs[s.current], r, t0, t1, p);
    case ExecCurrent =>
    case YieldNew(t0, t1) => UntouchedNew(s, t0, t1, p);
    case Fork =>
    case AddKThread =>
    case Reap => SurvivorsExact(s.procs, s.list);
  }

  // ---------- Whole runs ----------

  ghost predicate WokenAt(s: Sched, events: seq<Event>, k: nat, p: int)
    requires Legal(s, events)
  {
    && k < |events| && Legal(s, events[..k]) && p in s.procs
    && var t := Run(s, events[..k]);
       BlockedIn(t, p) && t.procs[p] == s.procs[p] && Wakes(t, events[k], p)
  }

  lemma WokenLater(s: Sched, events: seq<Event>, k: nat, p: int)
    requires Legal(s, events) && events != [] && Untouched(s, Next(s, events[0]), p)
    requires WokenAt(Next(s, events[0]), events[1..], k, p)
    ensures WokenAt(s, events, k + 1, p)
  {
    var later := events[..k + 1];
    assert later[0] == events[0] && later[1..] == events[1..][..k];
    assert Run(s, later) == Run(Next(s, events[0]), events[1..][..k]);
  }

  /** Over every run a blocked process keeps its state, reason and all, until an
      event that wakes what it waits for. */
  lemma {:induction false} BlockedUntilWoken(s: Sched, events: seq<Event>, p: int)
    requires Inv(s) && Legal(s, events) && BlockedIn(s, p)
    ensures
      || (BlockedIn(Run(s, events), p) && Run(s, events).procs[p] == s.procs[p])
      || exists k: nat :: WokenAt(s, events, k, p)
    decreases |events|
  {
    if events != [] {
      var e, s1 := events[0], Next(s, events[0]);
      NextKeepsInv(s, e);
      if Wakes(s, e, p) {
        assert events[..0] == [];
        assert WokenAt(s, events, 0, p);
      } else {
        BlockedStays(s, e, p);
        BlockedUntilWoken(s1, events[1..], p);
        if k: nat :| WokenAt(s1, events[1..], k, p) {
          WokenLater(s, events, k, p);
        }
      }
    }
  }

  // ---------- Waiting for a child that is already dead ----------

  /** `p` is blocked in a wait for `c` alone, and `c` was already collected. */
  ghost predicate WaitsForDead(s: Sched, p: int, c: int)
  {
    && BlockedIn(s, p) && s.procs[p].IsWaitingFor(ChildProcess) && s.procs[p].waitPid == c
    && c != ANY_CHILD && Finished(s, c)
  }

  lemma NobodyDies(s: Sched, pickAt: nat, resumeAt: nat, c: int)
    requires Core(s, {}, s.current) && NobodyRuns(s) && c in s.procs && !s.procs[c].IsDead()
    ensures var r := SwitchAway(s, pickAt, resumeAt);
      c in r.procs && !r.procs[c].IsDead()
  {
    PickKeeps(s, pickAt, {}, s.current);
    SwitchKillsNobody(s, pickAt, resumeAt, c);
  }

  lemma SwitchKillsNobody(s: Sched, pickAt: nat, resumeAt: nat, c: int)
    requires c in PickNext(s, pickAt).0.procs && !PickNext(s, pickAt).0.procs[c].IsDead()
    ensures var r := SwitchAway(s, pickAt, resumeAt);
      c in r.procs && !r.procs[c].IsDead()
  {
  }

  lemma BlockedForChild(s: Sched, c: int)
    requires Inv(s) && WellFormed(s) && s.current != s.idle && Outcome(s, c).KeepsWaiting?
    ensures var s1 := Set(s, s.current, s.procs[s.current].WaitForChild(c));
      Core(s1, {}, s1.current) && NobodyRuns(s1) && BlockedIn(s1, s.current)
  {
    InvWellFormed(s);
    FindChildIn(s, s.current, c);
    LeaveCpu(s, s.procs[s.current].WaitForChild(c));
    WaitingCore(s, c);
  }

  /** A round of waiting that blocks: the caller waits for `c`, and whether any
      other process is dead has not changed. */
  lemma WaitBlocks(s: Sched, c: int, pickAt: nat, resumeAt: nat, q: int)
    requires Inv(s) && WellFormed(s) && s.current != s.idle && Outcome(s, c).KeepsWaiting? && q in s.procs
    ensures var r := WaitStep(s, c, pickAt, resumeAt);
      && BlockedIn(r, s.current) && r.procs[s.current] == s.procs[s.current].WaitForChild(c)
      && q in r.procs && (r.procs[q].IsDead() ==> s.procs[q].IsDead())
  {
    var s1 := Set(s, s.current, s.procs[s.current].WaitForChild(c));
    BlockedForChild(s, c);
    UntouchedSwitchAway(s1, pickAt, resumeAt, s.current);
    if s1.procs[q].IsDead() {
      KeptSwitchAway(s1, pickAt, resumeAt);
    } else {
      NobodyDies(s1, pickAt, resumeAt, q);
    }
  }

  lemma FoundIsNamed(s: Sched, c: int)
    requires Inv(s) && WellFormed(s) && s.current != s.idle && c != ANY_CHILD
    ensures IsChild(s, s.current, c, c) ==> c < s.nextPid && c != s.idle && c != s.current
    ensures Outcome(s, c).KeepsWaiting? <==> IsChild(s, s.current, c, c) && !s.procs[c].IsZombie()
    ensures !Outcome(s, c).KeepsWaiting? ==> forall t0: nat, t1: nat :: !BlockedIn(WaitStep(s, c, t0, t1), s.current)
  {
    FindChildIn(s, s.current, c);
  }

  /** find_child still finds a collected child until it is reaped, so a second
      wait for it blocks instead of reporting that there is no such child. */
  lemma SecondWaitBlocks(s: Sched, c: int, pickAt: nat, resumeAt: nat)
    requires Inv(s) && WellFormed(s) && s.current != s.idle && c != ANY_CHILD
    ensures WaitsForDead(Next(s, YieldToChild(c, pickAt, resumeAt)), s.current, c) <==>
      IsChild(s, s.current, c, c) && s.procs[c].IsDead()
  {
    FoundIsNamed(s, c);
    if Outcome(s, c).KeepsWaiting? {
      WaitBlocks(s, c, pickAt, resumeAt, c);
      NextEffect(s, YieldToChild(c, pickAt, resumeAt), c);
      KeptNext(s, YieldToChild(c, pickAt, resumeAt));
    }
  }

  /** Nothing but wake_single and wake_all for the child reason, which the kernel
      never calls, can end such a wait. */
  ghost predicate Plain(events: seq<Event>)
  {
    forall e | e in events :: e != WakeSingle(ChildProcess) && e != WakeAll(ChildProcess)
  }

  /** Once a process waits for a child that was already collected, it waits for
      ever: no run ends the wait, not even the reaping of the child. */
  lemma {:induction false} WaitsForEver(s: Sched, events: seq<Event>, p: int, c: int)
    requires Inv(s) && Legal(s, events) && Plain(events) && WaitsForDead(s, p, c)
    ensures WaitsForDead(Run(s, events), p, c) && Run(s, events).procs[p] == s.procs[p]
    ensures OffDuty(Run(s, events), p)
    decreases |events|
  {
    if events == [] {
      BlockedOffDuty(s, p);
    } else {
      assert events[0] in events && forall e | e in events[1..] :: e in events;
      WaitGoesOn(s, events[0], p, c);
      WaitsForEver(Next(s, events[0]), events[1..], p, c);
    }
  }

  lemma WaitGoesOn(s: Sched, e: Event, p: int, c: int)
    requires Inv(s) && WellFormed(s) && Enabled(s, e) && WaitsForDead(s, p, c)
    requires e != WakeSingle(ChildProcess) && e != WakeAll(ChildProcess)
    ensures Inv(Next(s, e)) && WaitsForDead(Next(s, e), p, c) && Next(s, e).procs[p] == s.procs[p]
  {
    NextKeepsInv(s, e);
    NextEffect(s, e, c);
    FinishedNotCurrent(s, c);
    BlockedStays(s, e, p);
  }

  lemma FinishedNotCurrent(s: Sched, c: int)
    requires Inv(s) && Finished(s, c)
    ensures c != s.current
  {
  }

  lemma BlockedOffDuty(s: Sched, p: int)
    requires Inv(s) && BlockedIn(s, p)
    ensures OffDuty(s, p)
  {
    forall n | n in multiset(s.sleepers) ensures n.value != p {
      var q: int := n.value;
      assert q in s.list && s.procs[q].state == Sleeping;
    }
  }

  // ---------- Zombies that nobody can collect ----------

  /** A zombie without a parent, or whose parent is dead or deleted, is never
      collected and never freed. */
  lemma OrphanStays(s: Sched, events: seq<Event>, p: int)
    requires Inv(s) && Legal(s, events) && IsZombieIn(s, p)
    requires s.procs[p].parent.None? || Finished(s, s.procs[p].parent.value)
    ensures IsZombieIn(Run(s, events), p) && Run(s, events).procs[p] == s.procs[p]
  {
    ZombieUntilCollected(s, events, p);
    if k: nat :| ReportedAt(s, events, k, p, s.procs[p]) {
      assert events == events[..k] + events[k..];
      RunSplits(s, events[..k], events[k..]);
      FinishedForEver(s, events[..k], s.procs[p].parent.value);
      assert false;
    }
  }
}
