/** What every step of the scheduler keeps. */
module SchedulerInvariant {
  import opened Common
  import opened Process
  import opened MinHeap
  import opened Scheduler

  // ---------- The invariant ----------

  /** Listed processes are distinct, are exactly the known ones but idle, and
      have pids and parents that were already given out. */
  ghost predicate Population(s: Sched)
  {
    && (forall i, j | 0 <= i < j < |s.list| :: s.list[i] != s.list[j])
    && (forall p :: p in s.procs <==> p in s.list || p == s.idle)
    && s.idle !in s.list
    && s.idle < s.nextPid
    && (forall p | p in s.list :: p < s.nextPid)
    && (forall p | p in s.list && s.procs[p].parent.Some? :: s.procs[p].parent.value < p)
  }

  /** The queue holds, once each, the ready processes outside `off`. */
  ghost predicate Queue(s: Sched, off: set<int>)
  {
    && (forall i, j | 0 <= i < j < |s.ready| :: s.ready[i] != s.ready[j])
    && (forall p | p in s.ready :: p in s.list && p in s.procs && s.procs[p].IsReady() && p !in off)
    && (forall p | p in s.list && p in s.procs && s.procs[p].IsReady() && p !in off :: p in s.ready)
  }

  /** The heap holds, once each, the sleeping processes under their deadlines. */
  ghost predicate Sleepers(s: Sched)
  {
    && IsHeap(s.sleepers)
    && (forall n | n in multiset(s.sleepers) ::
          n.value in s.list && n.value in s.procs && s.procs[n.value].state == Sleeping
          && n.key == s.procs[n.value].wakeTime)
    && (forall p | p in s.list && p in s.procs && s.procs[p].state == Sleeping ::
          multiset(s.sleepers)[Node(s.procs[p].wakeTime, p)] == 1)
  }

  ghost predicate WaitsInVain(s: Sched, p: int, c: int)
  {
    && p in s.list && c in s.list && p in s.procs && c in s.procs
    && s.procs[p].IsBlocked() && s.procs[p].IsWaitingForChild(c)
    && s.procs[c].parent == Some(p) && s.procs[c].IsZombie()
  }

  /** Nobody is blocked on a child that has already exited. */
  ghost predicate NoLostExit(s: Sched)
  {
    forall p, c :: !WaitsInVain(s, p, c)
  }

  /** First in, first out. */
  ghost predicate Fifo(s: Sched) { s.enqueued == s.picked + s.ready }

  /** At most `who` is running, and the idle process is never put away. */
  ghost predicate OnlyRuns(s: Sched, who: int)
  {
    && (forall p | p in s.procs && s.procs[p].state == Running :: p == who)
    && s.idle in s.procs && s.procs[s.idle].state in {New, Ready, Running}
  }

  ghost predicate Basic(s: Sched, off: set<int>, who: int)
  {
    && Population(s) && Queue(s, off) && Sleepers(s) && Fifo(s) && OnlyRuns(s, who)
  }

  ghost predicate Core(s: Sched, off: set<int>, who: int)
  {
    Basic(s, off, who) && NoLostExit(s)
  }

  /** Between steps: the current process runs, or has just called exec, or is
      the idle process before its first switch. */
  ghost predicate Inv(s: Sched)
  {
    && Core(s, {s.current}, s.current)
    && s.current in s.procs && s.procs[s.current].state in {Running, New}
  }

  // ---------- One record at a time ----------

  /** Replacing a record that is neither ready nor asleep, before and after. */
  lemma Replace(s: Sched, off: set<int>, who: int, p: int, x: Proc)
    requires Basic(s, off, who) && p in s.procs && x.parent == s.procs[p].parent
    requires s.procs[p].state != Sleeping && x.state != Sleeping
    requires s.procs[p].IsReady() || x.IsReady() ==> p in off || p == s.idle
    requires x.state == Running ==> p == who
    requires p == s.idle ==> x.state in {New, Ready, Running}
    ensures Basic(Set(s, p, x), off, who)
  {
  }

  lemma ReplaceExit(s: Sched, p: int, x: Proc)
    requires NoLostExit(s) && p in s.procs && x.parent == s.procs[p].parent
    requires x.IsZombie() ==> s.procs[p].IsZombie()
    requires !(x.IsBlocked() && x.reason == ChildProcess)
    ensures NoLostExit(Set(s, p, x))
  {
    forall a, c ensures !WaitsInVain(Set(s, p, x), a, c) {
      assert !WaitsInVain(s, a, c);
    }
  }

  /** A process that is not ready need not be exempt from the queue. */
  lemma Narrow(s: Sched, off: set<int>, off': set<int>, who: int)
    requires Basic(s, off, who) && off' <= off
    requires forall p | p in off && p !in off' :: p !in s.list || (p in s.procs && !s.procs[p].IsReady())
    ensures Basic(s, off', who)
  {
  }

  lemma Widen(s: Sched, off: set<int>, off': set<int>, who: int)
    requires Basic(s, off, who) && off <= off'
    requires forall p | p in off' && p !in off :: p !in s.list || (p in s.procs && !s.procs[p].IsReady())
    ensures Basic(s, off', who)
  {
  }

  /** Waking a blocked process. */
  lemma WakeKeeps(s: Sched, off: set<int>, who: int, p: int)
    requires Basic(s, off, who) && p in s.list && p in s.procs && s.procs[p].IsBlocked() && p !in off
    ensures Basic(WakeOne(s, p), off, who)
    ensures NoLostExit(s) ==> NoLostExit(WakeOne(s, p))
  {
    var s' := WakeOne(s, p);
    assert p !in s.ready;
    assert s'.enqueued == s'.picked + s'.ready;
    assert s' == Enqueue(Set(s, p, s.procs[p].Wake()), p);
    if NoLostExit(s) {
      ReplaceExit(s, p, s.procs[p].Wake());
      SameExits(Set(s, p, s.procs[p].Wake()), s');
    }
  }

  lemma SameExits(s: Sched, s': Sched)
    requires NoLostExit(s) && s'.procs == s.procs && s'.list == s.list
    ensures NoLostExit(s')
  {
    forall a, c ensures !WaitsInVain(s', a, c) {
      assert !WaitsInVain(s, a, c);
    }
  }

  // ---------- Waking many ----------

  ghost predicate Blocking(s: Sched, off: set<int>)
  {
    forall p | p in off && p in s.procs :: !s.procs[p].IsBlocked()
  }

  ghost predicate SameFrame(s: Sched, r: Sched)
  {
    && r.list == s.list && r.idle == s.idle && r.current == s.current && r.nextPid == s.nextPid
    && r.picked == s.picked && r.procs.Keys == s.procs.Keys
  }

  lemma WakeOneKeeps(s: Sched, off: set<int>, who: int, p: int)
    requires Basic(s, off, who) && Blocking(s, off) && Listed(s)
    requires p in s.list && p in s.procs && s.procs[p].IsBlocked()
    ensures var r := WakeOne(s, p);
      Basic(r, off, who) && Blocking(r, off) && Listed(r) && r.list == s.list && (NoLostExit(s) ==> NoLostExit(r))
  {
    WakeKeeps(s, off, who, p);
  }

  lemma {:induction false} WakeFromKeeps(s: Sched, i: nat, c: Condition, off: set<int>, who: int)
    requires Basic(s, off, who) && Blocking(s, off) && i <= |s.list| && Listed(s)
    ensures Basic(WakeFrom(s, i, c), off, who) && Blocking(WakeFrom(s, i, c), off)
    ensures NoLostExit(s) ==> NoLostExit(WakeFrom(s, i, c))
    decreases |s.list| - i
  {
    if i < |s.list| {
      var p := s.list[i];
      if Matches(s.procs[p], c) {
        WakeOneKeeps(s, off, who, p);
        WakeFromKeeps(WakeOne(s, p), i + 1, c, off, who);
      } else {
        WakeFromKeeps(s, i + 1, c, off, who);
      }
    }
  }

  /** wake_all, wake_mutex and wake_parents wake exactly the processes that are
      blocked on the condition. */
  lemma {:induction false} WakeFromExact(s: Sched, i: nat, c: Condition)
    requires Distinct(s.list) && i <= |s.list| && Listed(s)
    ensures var r := WakeFrom(s, i, c);
      && SameFrame(s, r) && r.sleepers == s.sleepers && s.ready <= r.ready
      && (forall p | p in s.procs && p !in s.list :: r.procs[p] == s.procs[p])
      && forall j | 0 <= j < |s.list| ::
           r.procs[s.list[j]] ==
             if j >= i && Matches(s.procs[s.list[j]], c) then s.procs[s.list[j]].Wake() else s.procs[s.list[j]]
    decreases |s.list| - i
  {
    if i < |s.list| {
      var p := s.list[i];
      if Matches(s.procs[p], c) {
        WakeFromExact(WakeOne(s, p), i + 1, c);
      } else {
        WakeFromExact(s, i + 1, c);
      }
    }
  }

  /** wake_single wakes nobody, or the first process blocked for the reason. */
  lemma {:induction false} WakeFirstExact(s: Sched, i: nat, c: Condition)
    requires i <= |s.list| && Listed(s)
    ensures var r := WakeFirst(s, i, c);
      || (r == s && forall j | i <= j < |s.list| :: !Matches(s.procs[s.list[j]], c))
      || exists j :: FirstMatch(s, i, c, j) && r == WakeOne(s, s.list[j])
    decreases |s.list| - i
  {
    if i < |s.list| {
      if Matches(s.procs[s.list[i]], c) {
        assert FirstMatch(s, i, c, i);
      } else {
        WakeFirstExact(s, i + 1, c);
        if j :| FirstMatch(s, i + 1, c, j) && WakeFirst(s, i, c) == WakeOne(s, s.list[j]) {
          assert FirstMatch(s, i, c, j);
        }
      }
    }
  }

  ghost predicate FirstMatch(s: Sched, i: int, c: Condition, j: int)
    requires Listed(s)
  {
    && 0 <= i <= j < |s.list| && Matches(s.procs[s.list[j]], c)
    && forall k | i <= k < j :: !Matches(s.procs[s.list[k]], c)
  }

  lemma WakeFirstKeeps(s: Sched, c: Condition, off: set<int>, who: int)
    requires Basic(s, off, who) && Blocking(s, off) && Listed(s)
    ensures Basic(WakeFirst(s, 0, c), off, who)
    ensures NoLostExit(s) ==> NoLostExit(WakeFirst(s, 0, c))
  {
    WakeFirstExact(s, 0, c);
    if WakeFirst(s, 0, c) != s {
      var j :| FirstMatch(s, 0, c, j) && WakeFirst(s, 0, c) == WakeOne(s, s.list[j]);
      WakeKeeps(s, off, who, s.list[j]);
    }
  }

  // ---------- Sleepers ----------

  /** Waking the process at the top of the heap. */
  lemma WakeTopKeeps(s: Sched, off: set<int>, who: int)
    requires Basic(s, off, who) && s.sleepers != []
    ensures var p := s.sleepers[0].value;
      && p in s.procs && p in s.list && s.procs[p].state == Sleeping
      && s.sleepers[0].key == s.procs[p].wakeTime
      && (p !in off ==> Basic(WakeTop(s), off, who))
      && (NoLostExit(s) ==> NoLostExit(WakeTop(s)))
  {
    var n := s.sleepers[0];
    var p := n.value;
    assert n in multiset(s.sleepers);
    if p !in off {
      WakeTopBasic(s, off, who);
    }
    if NoLostExit(s) {
      ReplaceExit(s, p, s.procs[p].Wake());
      SameExits(Set(s, p, s.procs[p].Wake()), WakeTop(s));
    }
  }

  lemma WakeTopBasic(s: Sched, off: set<int>, who: int)
    requires Basic(s, off, who) && s.sleepers != []
    requires var p := s.sleepers[0].value; p in s.procs && p in s.list && s.procs[p].state == Sleeping && p !in off
    ensures Basic(WakeTop(s), off, who)
  {
    var s' := WakeTop(s);
    assert s'.enqueued == s'.picked + s'.ready;
    assert s.sleepers[0].value !in s.ready;
    PoppedSleepers(s, off, who);
  }

  lemma PoppedSleepers(s: Sched, off: set<int>, who: int)
    requires Basic(s, off, who) && s.sleepers != [] && s.sleepers[0].value in s.procs
    ensures Sleepers(WakeTop(s))
  {
    var n := s.sleepers[0];
    var s' := WakeTop(s);
    PopCorrect(s.sleepers);
    assert n in multiset(s.sleepers);
    assert multiset(s'.sleepers) + multiset{n} == multiset(s.sleepers);
    assert multiset(s.sleepers)[n] == 1;
    forall m | m in multiset(s'.sleepers)
      ensures m.value in s'.list && m.value in s'.procs && s'.procs[m.value].state == Sleeping
        && m.key == s'.procs[m.value].wakeTime
    {
      assert m in multiset(s.sleepers);
      assert m != n;
    }
  }

  ghost predicate Due(x: Proc, now: nat) { x.state == Sleeping && x.wakeTime <= now }

  ghost predicate Awake(s: Sched, off: set<int>)
  {
    forall p | p in off && p in s.procs :: s.procs[p].state != Sleeping
  }

  lemma {:induction false} WakeSleepersKeeps(s: Sched, now: nat, off: set<int>, who: int)
    requires Basic(s, off, who) && Awake(s, off)
    ensures Basic(WakeSleepers(s, now), off, who)
    ensures NoLostExit(s) ==> NoLostExit(WakeSleepers(s, now))
    decreases |s.sleepers|
  {
    if s.sleepers != [] {
      WakeTopKeeps(s, off, who);
      if now >= s.procs[s.sleepers[0].value].wakeTime {
        assert Awake(WakeTop(s), off);
        WakeSleepersKeeps(WakeTop(s), now, off, who);
      }
    }
  }

  /** wake_sleepers wakes exactly the sleepers whose deadline is at or before
      the time it read: none early, and none left overdue. */
  lemma {:induction false} WakeSleepersExact(s: Sched, now: nat, off: set<int>, who: int)
    requires Basic(s, off, who) && Awake(s, off)
    ensures var r := WakeSleepers(s, now);
      && SameFrame(s, r) && s.ready <= r.ready
      && forall p | p in s.procs :: r.procs[p] == if Due(s.procs[p], now) then s.procs[p].Wake() else s.procs[p]
    decreases |s.sleepers|
  {
    if s.sleepers == [] || now < s.procs[s.sleepers[0].value].wakeTime {
      if s.sleepers != [] { WakeTopKeeps(s, off, who); }
      NoneDue(s, now, off, who);
    } else {
      WakeTopExact(s, now, off, who);
      WakeSleepersExact(WakeTop(s), now, off, who);
    }
  }

  lemma WakeTopExact(s: Sched, now: nat, off: set<int>, who: int)
    requires Basic(s, off, who) && Awake(s, off) && s.sleepers != [] && s.sleepers[0].value in s.procs
    requires now >= s.procs[s.sleepers[0].value].wakeTime
    ensures var r, p := WakeTop(s), s.sleepers[0].value;
      && Basic(r, off, who) && Awake(r, off) && SameFrame(s, r) && s.ready <= r.ready
      && Due(s.procs[p], now) && r.procs == s.procs[p := s.procs[p].Wake()]
  {
    WakeTopKeeps(s, off, who);
  }

  lemma NoneDue(s: Sched, now: nat, off: set<int>, who: int)
    requires Basic(s, off, who)
    requires s.sleepers != [] ==> now < s.sleepers[0].key
    ensures forall p | p in s.procs :: !Due(s.procs[p], now)
  {
    forall p | p in s.procs && s.procs[p].state == Sleeping ensures now < s.procs[p].wakeTime {
      assert p in s.list;
      var n := Node(s.procs[p].wakeTime, p);
      assert n in multiset(s.sleepers);
      var i :| 0 <= i < |s.sleepers| && s.sleepers[i] == n;
      RootIsLeast(s.sleepers, i);
    }
  }
}
