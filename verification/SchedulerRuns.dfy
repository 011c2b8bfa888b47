/** What holds of whole runs of the scheduler, from boot on. */
module SchedulerRuns {
  import opened Common
  import opened Process
  import opened MinHeap
  import opened Scheduler
  import opened SchedulerInvariant
  import opened SchedulerSteps

  // ---------- Runs ----------

  /** After percpu::init: only the idle process, which is current. */
  function Booted(idle: int): Sched
  {
    Sched(map[idle := NewProcess(None)], [], [], [], idle, idle, idle + 1, [], [])
  }

  ghost predicate Legal(s: Sched, events: seq<Event>)
    decreases |events|
  {
    events == [] ||
    (WellFormed(s) && Enabled(s, events[0]) && Legal(Next(s, events[0]), events[1..]))
  }

  ghost function Run(s: Sched, events: seq<Event>): Sched
    requires Legal(s, events)
    decreases |events|
  {
    if events == [] then s else Run(Next(s, events[0]), events[1..])
  }

  lemma {:induction false} RunKeepsInv(s: Sched, events: seq<Event>)
    requires Inv(s) && Legal(s, events)
    ensures Inv(Run(s, events))
    decreases |events|
  {
    if events != [] {
      NextKeepsInv(s, events[0]);
      RunKeepsInv(Next(s, events[0]), events[1..]);
    }
  }

  /** The invariant holds in every state that can be reached from boot. */
  lemma AlwaysInv(idle: int, events: seq<Event>)
    requires Legal(Booted(idle), events)
    ensures Inv(Run(Booted(idle), events))
  {
    RunKeepsInv(Booted(idle), events);
  }

  lemma {:induction false} RunSplits(s: Sched, a: seq<Event>, b: seq<Event>)
    requires Legal(s, a + b)
    ensures Legal(s, a) && Legal(Run(s, a), b) && Run(s, a + b) == Run(Run(s, a), b)
    decreases |a|
  {
    if a == [] {
      assert a + b == b;
    } else {
      assert (a + b)[0] == a[0] && (a + b)[1..] == a[1..] + b;
      RunSplits(Next(s, a[0]), a[1..], b);
    }
  }

  // ---------- What a step leaves alone ----------

  ghost predicate Terminal(x: Proc) { x.IsDead() || x.IsZombie() }

  /** Nothing added or removed, exited processes untouched, queue history only
      extended. */
  ghost predicate Kept(s: Sched, r: Sched)
  {
    && r.list == s.list && r.procs.Keys == s.procs.Keys && r.nextPid == s.nextPid && r.idle == s.idle
    && s.picked <= r.picked && s.enqueued <= r.enqueued
    && forall p | p in s.procs && Terminal(s.procs[p]) :: r.procs[p] == s.procs[p]
  }

  lemma KeptSet(s: Sched, p: int, x: Proc)
    requires p in s.procs && !Terminal(s.procs[p])
    ensures Kept(s, Set(s, p, x))
  {
  }

  lemma {:induction false} KeptWakeFrom(s: Sched, i: nat, c: Condition)
    requires i <= |s.list| && Listed(s)
    ensures Kept(s, WakeFrom(s, i, c))
    decreases |s.list| - i
  {
    if i < |s.list| {
      if Matches(s.procs[s.list[i]], c) {
        KeptWakeFrom(WakeOne(s, s.list[i]), i + 1, c);
      } else {
        KeptWakeFrom(s, i + 1, c);
      }
    }
  }

  lemma {:induction false} KeptWakeFirst(s: Sched, i: nat, c: Condition)
    requires i <= |s.list| && Listed(s)
    ensures Kept(s, WakeFirst(s, i, c))
    decreases |s.list| - i
  {
    if i < |s.list| && !Matches(s.procs[s.list[i]], c) {
      KeptWakeFirst(s, i + 1, c);
    }
  }

  lemma {:induction false} KeptWakeSleepers(s: Sched, now: nat, off: set<int>, who: int)
    requires Basic(s, off, who) && Awake(s, off)
    ensures Kept(s, WakeSleepers(s, now))
    decreases |s.sleepers|
  {
    if s.sleepers != [] {
      KeptWakeTop(s, off, who);
      if now >= s.procs[s.sleepers[0].value].wakeTime {
        KeptWakeSleepers(WakeTop(s), now, off, who);
        KeptTwice(s, WakeTop(s), WakeSleepers(s, now));
      }
    }
  }

  lemma KeptWakeTop(s: Sched, off: set<int>, who: int)
    requires Basic(s, off, who) && Awake(s, off) && s.sleepers != []
    ensures s.sleepers[0].value in s.procs
    ensures Basic(WakeTop(s), off, who) && Awake(WakeTop(s), off) && Kept(s, WakeTop(s))
  {
    WakeTopKeeps(s, off, who);
  }

  lemma KeptPick(s: Sched, now: nat, off: set<int>, who: int)
    requires Core(s, off, who) && Awake(s, off)
    ensures Kept(s, PickNext(s, now).0)
  {
    KeptWakeSleepers(s, now, off, who);
  }

  lemma KeptTwice(s: Sched, s1: Sched, s2: Sched)
    requires Kept(s, s1) && Kept(s1, s2)
    ensures Kept(s, s2)
  {
  }

  lemma KeptActivate(s: Sched, p: int, now: nat)
    requires p in s.procs && !Terminal(s.procs[p])
    ensures Kept(s, Activate(s, p, now))
  {
  }

  lemma KeptSwitchAway(s: Sched, pickAt: nat, resumeAt: nat)
    requires Core(s, {}, s.current) && NobodyRuns(s) && s.current in s.list
    ensures Kept(s, SwitchAway(s, pickAt, resumeAt))
  {
    var (s1, next) := PickNext(s, pickAt);
    KeptPick(s, pickAt, {}, s.current);
    PickedAlive(s, pickAt, {}, s.current);
    if next == s.current {
      KeptSet(s1, next, s1.procs[next].Resume(resumeAt));
    } else {
      KeptActivate(s1, next, resumeAt);
    }
    KeptTwice(s, s1, SwitchAway(s, pickAt, resumeAt));
  }

  lemma PickedAlive(s: Sched, now: nat, off: set<int>, who: int)
    requires Core(s, off, who) && Awake(s, off)
    ensures var (s1, next) := PickNext(s, now);
      && next in s1.procs && !Terminal(s1.procs[next]) && s1.current == s.current
      && (next == s1.idle || next !in off)
  {
    PickKeeps(s, now, off, who);
  }

  lemma KeptPreempt(s: Sched, enabled: bool, checkAt: nat, pickAt: nat, resumeAt: nat)
    requires Inv(s)
    ensures Kept(s, Preempt(s, enabled, checkAt, pickAt, resumeAt))
  {
    KeptGiveWay(s, pickAt, resumeAt);
  }

  lemma KeptGiveWay(s: Sched, pickAt: nat, resumeAt: nat)
    requires Inv(s)
    ensures Kept(s, GiveWay(s, pickAt, resumeAt))
  {
    var cur := s.current;
    var (s1, next) := PickNext(s, pickAt);
    KeptPick(s, pickAt, {cur}, cur);
    PickWhileRunning(s, pickAt);
    PickedAlive(s, pickAt, {cur}, cur);
    if cur != next {
      KeptGiven(s, s1, next, pickAt, resumeAt);
    }
  }

  lemma KeptGiven(s: Sched, s1: Sched, next: int, pickAt: nat, resumeAt: nat)
    requires PickNext(s, pickAt) == (s1, next) && Kept(s, s1) && s.current != next
    requires s.current in s1.procs && next in s1.procs
    requires !Terminal(s1.procs[s.current]) && !Terminal(s1.procs[next])
    ensures Kept(s, GiveWay(s, pickAt, resumeAt))
  {
    KeptHandOver(s1, s.current, next, s1.procs[s.current].Pause(), resumeAt);
    KeptTwice(s, s1, GiveWay(s, pickAt, resumeAt));
  }

  lemma KeptHandOver(s: Sched, cur: int, next: int, x: Proc, resumeAt: nat)
    requires cur in s.procs && next in s.procs && cur != next
    requires !Terminal(s.procs[cur]) && !Terminal(s.procs[next])
    ensures var s2 := EnqueueIfRunnable(Set(s, cur, x), cur);
      next in s2.procs && Kept(s, Activate(s2, next, resumeAt))
  {
  }

  lemma KeptNew(s: Sched, pickAt: nat, resumeAt: nat)
    requires Inv(s) && s.current in s.list
    ensures Kept(s, NewStep(s, pickAt, resumeAt))
  {
    var cur := s.current;
    var (s1, next) := PickNext(s, pickAt);
    KeptPick(s, pickAt, {cur}, cur);
    PickWhileRunning(s, pickAt);
    PickedAlive(s, pickAt, {cur}, cur);
    KeptHandOver(s1, cur, next, s1.procs[cur].Wake(), resumeAt);
    KeptTwice(s, s1, NewStep(s, pickAt, resumeAt));
  }

  lemma KeptTick(s: Sched, enabled: bool, wakeAt: nat, checkAt: nat, pickAt: nat, resumeAt: nat)
    requires Inv(s)
    ensures Kept(s, TickStep(s, enabled, wakeAt, checkAt, pickAt, resumeAt))
  {
    var s1 := WakeSleepers(s, wakeAt);
    KeptWakeSleepers(s, wakeAt, {s.current}, s.current);
    WakeSleepersKeeps(s, wakeAt, {s.current}, s.current);
    WakeSleepersExact(s, wakeAt, {s.current}, s.current);
    KeptPreempt(s1, enabled, checkAt, pickAt, resumeAt);
    KeptTwice(s, s1, TickStep(s, enabled, wakeAt, checkAt, pickAt, resumeAt));
  }

  lemma KeptBlock(s: Sched, x: Proc, r: WaitReason, pickAt: nat, resumeAt: nat)
    requires Inv(s) && s.current in s.list && x.parent == s.procs[s.current].parent && r != ChildProcess
    ensures Kept(s, BlockCurrent(s, x, r, pickAt, resumeAt))
  {
    var y := x.WaitFor(r);
    var s1 := Set(s, s.current, y);
    KeptSet(s, s.current, y);
    if r == Sleep {
      SleepKeeps(s, y);
      var s2 := s1.(sleepers := Inserted(s1.sleepers, y.wakeTime, s.current));
      KeptSwitchAway(s2, pickAt, resumeAt);
      KeptTwice(s, s2, SwitchAway(s2, pickAt, resumeAt));
    } else {
      LeaveCpu(s, y);
      ReplaceExit(s, s.current, y);
      KeptSwitchAway(s1, pickAt, resumeAt);
      KeptTwice(s, s1, SwitchAway(s1, pickAt, resumeAt));
    }
  }

  lemma KeptDead(s: Sched, pickAt: nat, resumeAt: nat)
    requires Inv(s) && s.current in s.list
    ensures Kept(s, DeadStep(s, pickAt, resumeAt))
  {
    var x := s.procs[s.current].Kill();
    var s1 := Set(s, s.current, x);
    LeaveCpu(s, x);
    ReplaceExit(s, s.current, x);
    KeptSet(s, s.current, x);
    KeptSwitchAway(s1, pickAt, resumeAt);
    KeptTwice(s, s1, SwitchAway(s1, pickAt, resumeAt));
  }

  lemma KeptZombie(s: Sched, status: int, pickAt: nat, resumeAt: nat)
    requires Inv(s) && s.current in s.list && WellFormed(s)
    ensures Kept(s, ZombieStep(s, status, pickAt, resumeAt))
  {
    var x := s.procs[s.current].(exitStatus := status).Zombify();
    var s1 := Set(s, s.current, x);
    ExitWakesParents(s, x);
    KeptSet(s, s.current, x);
    KeptWakeFrom(s1, 0, ForChild(s.current));
    KeptTwice(s, s1, Exited(s, status));
    KeptSwitchAway(Exited(s, status), pickAt, resumeAt);
    KeptTwice(s, Exited(s, status), ZombieStep(s, status, pickAt, resumeAt));
  }

  lemma KeptWaiting(s: Sched, pid: int, pickAt: nat, resumeAt: nat)
    requires Inv(s) && s.current in s.list && WellFormed(s) && !Outcome(s, pid).Collected?
    ensures Kept(s, WaitStep(s, pid, pickAt, resumeAt))
  {
    if Outcome(s, pid).KeepsWaiting? {
      var x := s.procs[s.current].WaitForChild(pid);
      var s1 := Set(s, s.current, x);
      FindChildIn(s, s.current, pid);
      LeaveCpu(s, x);
      WaitingCore(s, pid);
      KeptSet(s, s.current, x);
      KeptSwitchAway(s1, pickAt, resumeAt);
      KeptTwice(s, s1, SwitchAway(s1, pickAt, resumeAt));
    }
  }

  // ---------- One step ----------

  ghost predicate Collects(s: Sched, e: Event, c: int)
  {
    WellFormed(s) && e.YieldToChild? && Outcome(s, e.pid).Collected? && Outcome(s, e.pid).child == c
  }

  /** A successful wait kills its child and touches nobody else that exited. */
  lemma CollectEffect(s: Sched, e: Event)
    requires Inv(s) && Enabled(s, e) && WellFormed(s) && e.YieldToChild? && Outcome(s, e.pid).Collected?
    ensures var c := Outcome(s, e.pid).child;
      && IsChild(s, s.current, e.pid, c) && s.procs[c].IsZombie()
      && Outcome(s, e.pid).status == s.procs[c].exitStatus
      && c in Next(s, e).procs && Next(s, e).procs[c] == s.procs[c].Kill()
      && Next(s, e).list == s.list && Next(s, e).nextPid == s.nextPid && Next(s, e).idle == s.idle
      && Next(s, e).picked == s.picked && Next(s, e).enqueued == s.enqueued
      && (forall p | p in s.procs && Terminal(s.procs[p]) && p != c :: Next(s, e).procs[p] == s.procs[p])
  {
    FindChildIn(s, s.current, e.pid);
  }

  /** A step that neither collects nor adds nor reaps keeps everything. */
  lemma KeptNext(s: Sched, e: Event)
    requires Inv(s) && Enabled(s, e) && WellFormed(s)
    requires !(e.YieldToChild? && Outcome(s, e.pid).Collected?) && !e.Fork? && !e.AddKThread? && !e.Reap?
    ensures Kept(s, Next(s, e))
  {
    InvWellFormed(s);
    match e
    case WakeSingle(r) => KeptWakeFirst(s, 0, ForReason(r));
    case WakeAll(r) => KeptWakeFrom(s, 0, ForReason(r));
    case WakeMutex(m) => KeptWakeFrom(s, 0, ForMutex(m));
    case Tick(enabled, t0, t1, t2, t3) => KeptTick(s, enabled, t0, t1, t2, t3);
    case YieldDead(t0, t1) => KeptDead(s, t0, t1);
    case YieldZombie(status, t0, t1) => KeptZombie(s, status, t0, t1);
    case YieldToChild(pid, t0, t1) => KeptWaiting(s, pid, t0, t1);
    case YieldSleep(d, t0, t1, t2) => KeptBlock(s, s.procs[s.current].SleepFor(t0, d), Sleep, t1, t2);
    case YieldMutex(m, t0, t1) => KeptBlock(s, s.procs[s.current].WaitForMutex(m), Mutex, t0, t1);
    case YieldBlocked(r, t0, t1) => KeptBlock(s, s.procs[s.current], r, t0, t1);
    case ExecCurrent => KeptSet(s, s.current, s.procs[s.current].Exec());
    case YieldNew(t0, t1) => KeptNew(s, t0, t1);
  }

  /** `p` has left the scheduler for good: it is dead, or was deleted. */
  ghost predicate Finished(s: Sched, p: int)
  {
    p < s.nextPid && p != s.idle && (p in s.list ==> p in s.procs && s.procs[p].IsDead())
  }

  ghost predicate IsZombieIn(s: Sched, p: int)
  {
    p in s.list && p in s.procs && s.procs[p].IsZombie()
  }

  /** What one step does to processes that have exited, and to the queue's
      history. */
  lemma NextEffect(s: Sched, e: Event, p: int)
    requires Inv(s) && Enabled(s, e) && WellFormed(s)
    ensures Finished(s, p) ==> Finished(Next(s, e), p)
    ensures IsZombieIn(s, p) && !Collects(s, e, p) ==>
      IsZombieIn(Next(s, e), p) && Next(s, e).procs[p] == s.procs[p]
    ensures Collects(s, e, p) ==> Finished(Next(s, e), p)
    ensures s.enqueued <= Next(s, e).enqueued
  {
    if e.YieldToChild? && Outcome(s, e.pid).Collected? {
      CollectEffect(s, e);
    } else if e.Fork? || e.AddKThread? {
      assert s.nextPid !in s.procs;
    } else if e.Reap? {
      SurvivorsExact(s.procs, s.list);
    } else {
      KeptNext(s, e);
    }
  }

  // ---------- Whole runs ----------

  /** Dead is for ever: a finished process is never queued, asleep, running or
      collected again, however the run goes on. */
  lemma {:induction false} FinishedForEver(s: Sched, events: seq<Event>, p: int)
    requires Inv(s) && Legal(s, events) && Finished(s, p)
    ensures var r := Run(s, events);
      && Finished(r, p) && p !in r.ready && p != r.current
      && forall n | n in multiset(r.sleepers) :: n.value != p
    decreases |events|
  {
    if events == [] {
      forall n | n in multiset(s.sleepers) ensures n.value != p {
        var q: int := n.value;
        assert q in s.list && s.procs[q].state == Sleeping;
      }
    } else {
      NextKeepsInv(s, events[0]);
      NextEffect(s, events[0], p);
      FinishedForEver(Next(s, events[0]), events[1..], p);
    }
  }

  ghost predicate OffDuty(s: Sched, p: int)
  {
    && p !in s.ready && p != s.current
    && forall n | n in multiset(s.sleepers) :: n.value != p
  }

  /** A process that has exited is neither queued nor asleep nor current. */
  lemma ExitedOffDuty(s: Sched, p: int)
    requires Inv(s) && (IsZombieIn(s, p) || Finished(s, p))
    ensures OffDuty(s, p)
  {
    forall n | n in multiset(s.sleepers) ensures n.value != p {
      var q: int := n.value;
      assert q in s.list && s.procs[q].state == Sleeping;
    }
  }

  /** Exit is one-way: from then on, in every run, the process is a zombie, dead
      or deleted, and never queued, asleep or current again. */
  lemma {:induction false} ExitIsOneWay(s: Sched, events: seq<Event>, p: int)
    requires Inv(s) && Legal(s, events) && (IsZombieIn(s, p) || Finished(s, p))
    ensures var r := Run(s, events);
      (IsZombieIn(r, p) || Finished(r, p)) && OffDuty(r, p)
    decreases |events|
  {
    if events == [] {
      ExitedOffDuty(s, p);
    } else {
      NextKeepsInv(s, events[0]);
      NextEffect(s, events[0], p);
      ExitIsOneWay(Next(s, events[0]), events[1..], p);
    }
  }

  ghost predicate CollectedAt(s: Sched, events: seq<Event>, k: nat, p: int)
    requires Legal(s, events)
  {
    k < |events| && Legal(s, events[..k]) && Collects(Run(s, events[..k]), events[k], p)
  }

  /** Event `k` is a wait by the parent of `z`, which finds it as `p` and
      returns its exit status. */
  ghost predicate ReportedAt(s: Sched, events: seq<Event>, k: nat, p: int, z: Proc)
    requires Legal(s, events)
  {
    CollectedAt(s, events, k, p) && Reports(Run(s, events[..k]), events[k], z)
  }

  ghost predicate Reports(t: Sched, e: Event, z: Proc)
  {
    && WellFormed(t) && e.YieldToChild? && z.parent == Some(t.current)
    && Outcome(t, e.pid).Collected? && Outcome(t, e.pid).status == z.exitStatus
  }

  lemma ReportedLater(s: Sched, events: seq<Event>, k: nat, p: int, z: Proc)
    requires Legal(s, events) && events != []
    requires ReportedAt(Next(s, events[0]), events[1..], k, p, z)
    ensures ReportedAt(s, events, k + 1, p, z)
  {
    var later := events[..k + 1];
    assert later[0] == events[0] && later[1..] == events[1..][..k];
    assert Run(s, later) == Run(Next(s, events[0]), events[1..][..k]);
  }

  /** A zombie stays listed, with its exit status, until its own parent collects
      it; and the collecting wait returns exactly that status. */
  lemma {:induction false} ZombieUntilCollected(s: Sched, events: seq<Event>, p: int)
    requires Inv(s) && Legal(s, events) && IsZombieIn(s, p)
    ensures
      || (IsZombieIn(Run(s, events), p) && Run(s, events).procs[p] == s.procs[p])
      || (exists k: nat :: ReportedAt(s, events, k, p, s.procs[p]))
    decreases |events|
  {
    if events != [] {
      var e, s1 := events[0], Next(s, events[0]);
      NextKeepsInv(s, e);
      NextEffect(s, e, p);
      if Collects(s, e, p) {
        CollectEffect(s, e);
        assert events[..0] == [];
        assert ReportedAt(s, events, 0, p, s.procs[p]);
      } else {
        ZombieUntilCollected(s1, events[1..], p);
        if k: nat :| ReportedAt(s1, events[1..], k, p, s.procs[p]) {
          ReportedLater(s, events, k, p, s.procs[p]);
        }
      }
    }
  }

  lemma FinishedNotCollected(s: Sched, e: Event, p: int)
    requires Inv(s) && Finished(s, p)
    ensures !Collects(s, e, p)
  {
    if Collects(s, e, p) {
      FindChildIn(s, s.current, e.pid);
    }
  }

  /** An exit leaves the process a zombie that holds the status given. */
  lemma ExitMakesZombie(s: Sched, status: int, pickAt: nat, resumeAt: nat)
    requires Inv(s) && s.current != s.idle && WellFormed(s)
    ensures var r := Next(s, YieldZombie(status, pickAt, resumeAt));
      && IsZombieIn(r, s.current) && r.procs[s.current].exitStatus == status
      && r.procs[s.current].parent == s.procs[s.current].parent
  {
    ExitedZombie(s, status);
    KeptSwitchAway(Exited(s, status), pickAt, resumeAt);
  }

  lemma ExitedZombie(s: Sched, status: int)
    requires Inv(s) && s.current != s.idle && WellFormed(s)
    ensures var r, x := Exited(s, status), s.procs[s.current].(exitStatus := status).Zombify();
      && Core(r, {}, r.current) && NobodyRuns(r) && r.current == s.current && s.current in r.list
      && s.current in r.procs && r.procs[s.current] == x
  {
    ExitWakesParents(s, s.procs[s.current].(exitStatus := status).Zombify());
  }

  /** From the exit on, in every run, the process waits for its parent; the wait
      that collects it returns exactly the status given to exit. */
  lemma ExitIsReported(s: Sched, status: int, pickAt: nat, resumeAt: nat, events: seq<Event>)
    requires Inv(s) && s.current != s.idle && WellFormed(s)
    requires Legal(Next(s, YieldZombie(status, pickAt, resumeAt)), events)
    ensures var r := Next(s, YieldZombie(status, pickAt, resumeAt));
      || IsZombieIn(Run(r, events), s.current)
      || exists k: nat :: CollectedAt(r, events, k, s.current) && Returns(Run(r, events[..k]), events[k], s, status)
  {
    var e := YieldZombie(status, pickAt, resumeAt);
    var r := Next(s, e);
    ExitMakesZombie(s, status, pickAt, resumeAt);
    NextKeepsInv(s, e);
    ZombieUntilCollected(r, events, s.current);
    if k: nat :| ReportedAt(r, events, k, s.current, r.procs[s.current]) {
      assert Returns(Run(r, events[..k]), events[k], s, status);
    }
  }

  /** In state `t` the parent of the process that was current in `s` waits, and
      gets `status`. */
  ghost predicate Returns(t: Sched, e: Event, s: Sched, status: int)
  {
    && WellFormed(t) && e.YieldToChild? && s.current in s.procs && s.procs[s.current].parent == Some(t.current)
    && Outcome(t, e.pid) == Collected(s.current, status)
  }

  /** Each exit is reported by at most one wait. */
  lemma CollectedOnce(s: Sched, events: seq<Event>, i: nat, j: nat, p: int)
    requires Inv(s) && Legal(s, events) && i < j && CollectedAt(s, events, i, p)
    ensures !CollectedAt(s, events, j, p)
  {
    if CollectedAt(s, events, j, p) {
      var a, b := events[..i], events[i..j];
      assert events[..j] == a + b && b[0] == events[i];
      RunSplits(s, a, b);
      var t := Run(s, a);
      RunKeepsInv(s, a);
      NextKeepsInv(t, events[i]);
      NextEffect(t, events[i], p);
      FinishedForEver(Next(t, events[i]), b[1..], p);
      RunKeepsInv(s, events[..j]);
      FinishedNotCollected(Run(s, events[..j]), events[j], p);
    }
  }

  lemma {:induction false} HistoryGrows(s: Sched, events: seq<Event>)
    requires Inv(s) && Legal(s, events)
    ensures s.enqueued <= Run(s, events).enqueued && Fifo(s) && Fifo(Run(s, events))
    decreases |events|
  {
    if events != [] {
      NextKeepsInv(s, events[0]);
      NextEffect(s, events[0], s.idle);
      HistoryGrows(Next(s, events[0]), events[1..]);
    }
  }

  /** Fairness of the queue: the process at position `k` is handed out by
      exactly the (k + 1)-th pick from then on, and until then it stays queued. */
  lemma PickedInTurn(s: Sched, events: seq<Event>, k: nat)
    requires Inv(s) && Legal(s, events) && k < |s.ready|
    ensures var r := Run(s, events);
      var turn := |s.picked| + k;
      if |r.picked| > turn then r.picked[turn] == s.ready[k]
      else turn - |r.picked| < |r.ready| && r.ready[turn - |r.picked|] == s.ready[k]
  {
    HistoryGrows(s, events);
    InTurn(s, Run(s, events), k);
  }

  lemma InTurn(s: Sched, r: Sched, k: nat)
    requires Fifo(s) && Fifo(r) && s.enqueued <= r.enqueued && k < |s.ready|
    ensures var turn := |s.picked| + k;
      if |r.picked| > turn then r.picked[turn] == s.ready[k]
      else turn - |r.picked| < |r.ready| && r.ready[turn - |r.picked|] == s.ready[k]
  {
    var turn := |s.picked| + k;
    assert s.enqueued[turn] == s.ready[k];
    assert r.enqueued[turn] == s.ready[k];
  }
}
