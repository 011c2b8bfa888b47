/** The scheduler as the kernel runs it: global state updated in place by calls
    with loops. Every call is proved to be one step of the transition system. */
module Mechanism {
  import opened Common
  import opened Process
  import opened MinHeap
  import opened Scheduler
  import opened SchedulerInvariant
  import opened SchedulerSteps
  import opened SchedulerRuns

  /** No pid the scheduler may follow is dangling. */
  ghost predicate Known(s: Sched)
  {
    && WellFormed(s)
    && (forall p | p in s.ready :: p in s.procs)
    && IsHeap(s.sleepers)
    && (forall n | n in multiset(s.sleepers) :: n.value in s.procs)
  }

  lemma InvKnown(s: Sched)
    requires Inv(s)
    ensures Known(s) && (s.current != s.idle ==> s.current in s.list)
  {
  }

  lemma KnownWake(s: Sched, p: int)
    requires Known(s) && p in s.procs
    ensures Known(WakeOne(s, p))
  {
  }

  lemma KnownWakeTop(s: Sched)
    requires Known(s) && s.sleepers != []
    ensures s.sleepers[0].value in s.procs && Known(WakeTop(s))
  {
    assert s.sleepers[0] in multiset(s.sleepers);
    KnownWake(s, s.sleepers[0].value);
    PopCorrect(s.sleepers);
    forall n | n in multiset(Popped(s.sleepers)) ensures n in multiset(s.sleepers) {
    }
  }

  lemma KnownInsert(s: Sched, key: nat)
    requires Known(s)
    ensures Known(s.(sleepers := Inserted(s.sleepers, key, s.current)))
  {
    InsertCorrect(s.sleepers, key, s.current);
  }

  /** Choosing the next process wakes others, never the one that runs. */
  lemma {:induction false} WakeKeepsKeys(s: Sched, now: nat)
    ensures Scheduler.WakeSleepers(s, now).procs.Keys == s.procs.Keys
    ensures Scheduler.WakeSleepers(s, now).current == s.current
    ensures Scheduler.WakeSleepers(s, now).idle == s.idle
    decreases |s.sleepers|
  {
    if !(s.sleepers == [] || s.sleepers[0].value !in s.procs || now < s.procs[s.sleepers[0].value].wakeTime) {
      WakeKeepsKeys(WakeTop(s), now);
    }
  }

  lemma KeepsCurrent(s: Sched, now: nat)
    requires s.current in s.procs
    ensures s.current in PickNext(s, now).0.procs && PickNext(s, now).0.current == s.current
  {
    WakeKeepsKeys(s, now);
  }

  lemma PreemptExactly(s: Sched, enabled: bool, checkAt: nat, pickAt: nat, resumeAt: nat)
    requires s.current in s.procs
    ensures var r := Scheduler.Preempt(s, enabled, checkAt, pickAt, resumeAt);
      Inv(s) && s.current != s.idle ==>
        && (r.current != s.current <==>
              enabled && (checkAt - s.procs[s.current].quantumStart) % WORD >= TIME_SLICE_NS)
        && (r.current != s.current ==> r.ready != [] && r.ready[|r.ready| - 1] == s.current)
  {
    if Inv(s) {
      PreemptExact(s, enabled, checkAt, pickAt, resumeAt);
    }
  }

  /** Entering a wait state that yield_blocked enters again changes nothing. */
  lemma BlockTwice(s: Sched, x: Proc, r: WaitReason, pickAt: nat, resumeAt: nat)
    ensures BlockCurrent(Set(s, s.current, x), x, r, pickAt, resumeAt) == BlockCurrent(s, x, r, pickAt, resumeAt)
  {
    assert Set(Set(s, s.current, x), s.current, x.WaitFor(r)) == Set(s, s.current, x.WaitFor(r));
  }

  /** Dropping one element of a list, as reap does while it walks over it. */
  lemma SurvivorsStep(procs: map<int, Proc>, list: seq<int>, i: nat)
    requires i < |list| && forall j | 0 <= j < |list| :: list[j] in procs
    ensures Survivors(procs, list[i..]) ==
      (if procs[list[i]].IsDead() then [] else [list[i]]) + Survivors(procs, list[i + 1..])
  {
    assert list[i..][1..] == list[i + 1..];
  }

  /** reap after the first `i` survivors: `list` is the list then, `rest` its
      unvisited part as it was at the start. */
  ghost predicate ReapedSoFar(s: Sched, r: Sched, i: nat, done: nat)
    requires Listed(s)
  {
    && done <= |s.list| && i <= |r.list| && r.list[i..] == s.list[done..]
    && r.list[..i] + Survivors(s.procs, s.list[done..]) == Survivors(s.procs, s.list)
    && (forall p | p in r.list[..i] :: p in s.procs && !s.procs[p].IsDead())
    && (forall p :: p in r.procs <==> p in s.procs && (p in r.list || p == s.idle))
    && (forall p | p in r.procs :: r.procs[p] == s.procs[p])
    && r == s.(list := r.list, procs := r.procs)
  }

  lemma ReapSkips(s: Sched, r: Sched, i: nat, done: nat)
    requires Listed(s) && ReapedSoFar(s, r, i, done) && i < |r.list|
    requires done < |s.list| && !s.procs[s.list[done]].IsDead()
    ensures ReapedSoFar(s, r, i + 1, done + 1)
  {
    SurvivorsStep(s.procs, s.list, done);
    KeepNext(s.list, done, r.list, i, Survivors(s.procs, s.list[done + 1..]));
  }

  /** Stepping over the next unvisited element, seen on the two lists. */
  lemma KeepNext(all: seq<int>, done: nat, list: seq<int>, i: nat, rest: seq<int>)
    requires done < |all| && i < |list| && list[i..] == all[done..]
    ensures list[i] == all[done] && list[i + 1..] == all[done + 1..]
    ensures list[..i + 1] == list[..i] + [list[i]]
    ensures list[..i + 1] + rest == list[..i] + ([all[done]] + rest)
  {
    assert list[i..][0] == all[done..][0];
    assert list[i + 1..] == list[i..][1..] && all[done + 1..] == all[done..][1..];
  }

  /** Erasing the next unvisited element, seen on the two lists. */
  lemma EraseNext(all: seq<int>, done: nat, list: seq<int>, i: nat)
    requires Distinct(all) && done < |all| && i < |list| && list[i..] == all[done..]
    ensures var rest := list[..i] + list[i + 1..];
      && list[i] == all[done] && rest[..i] == list[..i] && rest[i..] == all[done + 1..]
      && (forall p :: p in list <==> p in rest || p == list[i])
      && list[i] !in rest[i..]
  {
    var rest := list[..i] + list[i + 1..];
    assert list[i..][0] == all[done..][0];
    assert list[i + 1..] == list[i..][1..] && all[done + 1..] == all[done..][1..];
    assert rest[i..] == list[i + 1..];
    assert forall j | 0 <= j < |rest[i..]| :: rest[i..][j] == all[done + 1 + j];
    assert list == list[..i] + [list[i]] + list[i + 1..];
  }

  lemma ReapErases(s: Sched, r: Sched, i: nat, done: nat)
    requires Population(s) && Listed(s) && ReapedSoFar(s, r, i, done) && i < |r.list|
    requires done < |s.list| && s.procs[s.list[done]].IsDead()
    ensures ReapedSoFar(s, r.(list := r.list[..i] + r.list[i + 1..], procs := r.procs - {r.list[i]}), i, done + 1)
  {
    var list := r.list[..i] + r.list[i + 1..];
    SurvivorsStep(s.procs, s.list, done);
    EraseNext(s.list, done, r.list, i);
    OneLess(r.procs, s.procs, r.list, list, i, s.idle);
    var rest := Survivors(s.procs, s.list[done + 1..]);
    assert [] + rest == rest;
  }

  /** The record that goes with the erased entry. */
  lemma OneLess(known: map<int, Proc>, all: map<int, Proc>, list: seq<int>, rest: seq<int>, i: nat, idle: int)
    requires i < |list| && rest == list[..i] + list[i + 1..] && list[i] != idle
    requires list[i] !in list[..i] && list[i] !in rest[i..]
    requires forall p :: p in list <==> p in rest || p == list[i]
    requires forall p :: p in known <==> p in all && (p in list || p == idle)
    ensures forall p :: p in known - {list[i]} <==> p in all && (p in rest || p == idle)
  {
    assert rest == list[..i] + rest[i..];
  }

  lemma Reaped(s: Sched, r: Sched, i: nat, done: nat)
    requires Listed(s) && Population(s) && ReapedSoFar(s, r, i, done) && i == |r.list|
    ensures r == ReapStep(s)
  {
    assert |r.list[i..]| == |s.list[done..]|;
    assert r.list[..|r.list|] == r.list && s.list[|s.list|..] == [];
    var rest := Survivors(s.procs, s.list);
    assert r.list == rest;
    var kept := map p | p in s.procs && (p in rest || p == s.idle) :: s.procs[p];
    assert forall p :: p in r.procs <==> p in kept;
    assert forall p | p in r.procs :: r.procs[p] == s.procs[p] == kept[p];
    assert r.procs == kept;
  }

  /** The loop counter of reap is an unsigned 64-bit number: an erasure steps it
      back, through zero if need be, and the end of the round steps it forward. */
  method NextIndex(i: nat, erased: bool) returns (j: nat)
    requires i + 1 < WORD
    ensures j == if erased then i else i + 1
  {
    j := i;
    if erased {
      j := (j + WORD - 1) % WORD;
    }
    j := (j + 1) % WORD;
  }

  class Mechanism {
    var procs: map<int, Proc>
    var list: seq<int>
    var ready: seq<int>
    const sleepers: KMinHeap<int>
    var current: int
    const idle: int
    var nextPid: int
    ghost var enqueued: seq<int>
    ghost var picked: seq<int>

    ghost function State(): Sched
      reads this, sleepers
    {
      Sched(procs, list, ready, sleepers.nodes, current, idle, nextPid, enqueued, picked)
    }

    ghost predicate Valid()
      reads this, sleepers
    {
      Inv(State())
    }

    constructor (idle: int)
      ensures State() == Booted(idle) && Valid() && fresh(sleepers)
    {
      this.idle, current, nextPid := idle, idle, idle + 1;
      procs, list, ready := map[idle := NewProcess(None)], [], [];
      enqueued, picked := [], [];
      sleepers := new KMinHeap();
      new;
      RunKeepsInv(Booted(idle), []);
    }

    // ---------- Policy: round robin ----------

    method Enqueue(p: int)
      modifies this
      ensures State() == Scheduler.Enqueue(old(State()), p)
    {
      ready := ready + [p];
      enqueued := enqueued + [p];
    }

    method PickNext() returns (next: Option<int>)
      modifies this
      ensures old(ready) == [] ==> next == None && State() == old(State())
      ensures old(ready) != [] ==> next == Some(old(ready[0])) && State() == Dequeue(old(State()))
    {
      if ready == [] {
        return None;
      }
      next := Some(ready[0]);
      picked := picked + [ready[0]];
      ready := ready[1..];
    }

    // ---------- Waking ----------

    method Wake(p: int)
      requires p in procs && Known(State())
      modifies this
      ensures State() == WakeOne(old(State()), p) && Known(State())
    {
      KnownWake(State(), p);
      procs := procs[p := procs[p].Wake()];
      Enqueue(p);
    }

    method WakeMatching(c: Condition)
      requires Known(State())
      modifies this
      ensures old(Listed(State())) && State() == WakeFrom(old(State()), 0, c) && Known(State())
      ensures current == old(current)
    {
      for i := 0 to |list|
        invariant list == old(list) && current == old(current) && Known(State())
        invariant WakeFrom(State(), i, c) == WakeFrom(old(State()), 0, c)
      {
        var p := list[i];
        if Matches(procs[p], c) {
          Wake(p);
        }
      }
    }

    method WakeFirstMatching(c: Condition)
      requires Known(State())
      modifies this
      ensures old(Listed(State())) && State() == WakeFirst(old(State()), 0, c)
    {
      for i := 0 to |list|
        invariant State() == old(State())
        invariant WakeFirst(State(), i, c) == WakeFirst(State(), 0, c)
      {
        var p := list[i];
        if Matches(procs[p], c) {
          Wake(p);
          return;
        }
      }
    }

    method WakeSingle(reason: WaitReason)
      requires Valid()
      modifies this, sleepers
      ensures Valid() && old(WellFormed(State()))
      ensures State() == Next(old(State()), Event.WakeSingle(reason))
    {
      NextKeepsInv(State(), Event.WakeSingle(reason));
      InvKnown(State());
      if reason != Sleep {
        WakeFirstMatching(ForReason(reason));
      }
    }

    method WakeAll(reason: WaitReason)
      requires Valid()
      modifies this, sleepers
      ensures Valid() && old(WellFormed(State()))
      ensures State() == Next(old(State()), Event.WakeAll(reason))
    {
      NextKeepsInv(State(), Event.WakeAll(reason));
      InvKnown(State());
      if reason != Sleep {
        WakeMatching(ForReason(reason));
      }
    }

    method WakeMutex(m: nat)
      requires Valid()
      modifies this, sleepers
      ensures Valid() && old(WellFormed(State()))
      ensures State() == Next(old(State()), Event.WakeMutex(m))
    {
      NextKeepsInv(State(), Event.WakeMutex(m));
      InvKnown(State());
      WakeMatching(ForMutex(m));
    }

    method WakeSleepers(now: nat)
      requires Known(State())
      modifies this, sleepers
      ensures State() == Scheduler.WakeSleepers(old(State()), now) && Known(State())
    {
      while sleepers.nodes != []
        invariant Known(State())
        invariant Scheduler.WakeSleepers(State(), now) == Scheduler.WakeSleepers(old(State()), now)
        decreases |sleepers.nodes|
      {
        KnownWakeTop(State());
        var p := sleepers.Peak();
        if now < procs[p].wakeTime {
          break;
        }
        WakeTop(p);
      }
    }

    method WakeTop(p: int)
      requires Known(State()) && sleepers.nodes != [] && p == sleepers.nodes[0].value && p in procs
      modifies this, sleepers
      ensures State() == Scheduler.WakeTop(old(State())) && Known(State())
      ensures |sleepers.nodes| < |old(sleepers.nodes)|
    {
      KnownWakeTop(State());
      Wake(p);
      sleepers.Pop();
    }

    // ---------- Choosing and switching ----------

    method PickNextProcess(now: nat) returns (next: int)
      requires Known(State())
      modifies this, sleepers
      ensures (State(), next) == Scheduler.PickNext(old(State()), now)
      ensures Known(State()) && next in procs && current == old(current) && current in procs
    {
      KeepsCurrent(State(), now);
      WakeSleepers(now);
      var choice := PickNext();
      next := if choice == None then idle else choice.value;
    }

    method ActivateProcess(p: int, now: nat)
      requires p in procs
      modifies this
      ensures State() == Activate(old(State()), p, now)
    {
      var x := procs[p].Resume(now);
      procs := procs[p := x.(contextSwitches := x.contextSwitches + 1)];
      current := p;
    }

    method EnqueueIfRunnable(p: int)
      requires p in procs
      modifies this
      ensures State() == Scheduler.EnqueueIfRunnable(old(State()), p)
    {
      if p == idle || !procs[p].IsReady() {
        return;
      }
      Enqueue(p);
    }

    // ---------- Giving up the processor ----------

    /** For calls that never come back: the choice is another process. */
    method SwitchForGood(pickAt: nat, resumeAt: nat)
      requires Known(State()) && Scheduler.PickNext(State(), pickAt).1 != current
      modifies this, sleepers
      ensures State() == Scheduler.SwitchAway(old(State()), pickAt, resumeAt) && current != old(current)
    {
      var next := PickNextProcess(pickAt);
      ActivateProcess(next, resumeAt);
    }

    method SwitchAway(pickAt: nat, resumeAt: nat)
      requires Known(State())
      modifies this, sleepers
      ensures State() == Scheduler.SwitchAway(old(State()), pickAt, resumeAt)
    {
      var next := PickNextProcess(pickAt);
      if current == next {
        procs := procs[next := procs[next].Resume(resumeAt)];
        return;
      }
      ActivateProcess(next, resumeAt);
    }

    /** The quantum of the current process is over, or it is the idle process. */
    method Preempt(enabled: bool, checkAt: nat, pickAt: nat, resumeAt: nat)
      requires Known(State())
      modifies this, sleepers
      ensures State() == Scheduler.Preempt(old(State()), enabled, checkAt, pickAt, resumeAt)
      ensures old(Valid()) && old(current) != idle ==>
        && (current != old(current) <==>
              enabled && (checkAt - old(procs[current]).quantumStart) % WORD >= TIME_SLICE_NS)
        && (current != old(current) ==> ready != [] && ready[|ready| - 1] == old(current))
    {
      PreemptExactly(State(), enabled, checkAt, pickAt, resumeAt);
      PreemptStep(enabled, checkAt, pickAt, resumeAt);
    }

    method PreemptStep(enabled: bool, checkAt: nat, pickAt: nat, resumeAt: nat)
      requires Known(State())
      modifies this, sleepers
      ensures State() == Scheduler.Preempt(old(State()), enabled, checkAt, pickAt, resumeAt)
    {
      if !enabled {
        return;
      }
      var self := current;
      if self != idle {
        var runtime := (checkAt - procs[self].quantumStart) % WORD;
        if !ShouldPreempt(runtime) {
          return;
        }
      }
      GiveWay(pickAt, resumeAt);
    }

    method GiveWay(pickAt: nat, resumeAt: nat)
      requires Known(State())
      modifies this, sleepers
      ensures State() == Scheduler.GiveWay(old(State()), pickAt, resumeAt)
    {
      var self := current;
      var next := PickNextProcess(pickAt);
      if self == next {
        return;
      }
      HandOver(procs[self].Pause(), next, resumeAt);
    }

    /** The outgoing process becomes `x` and is queued again if it can run. */
    method HandOver(x: Proc, next: int, resumeAt: nat)
      requires current in procs && next in procs
      modifies this
      ensures State() ==
        Activate(Scheduler.EnqueueIfRunnable(Set(old(State()), old(current), x), old(current)), next, resumeAt)
    {
      procs := procs[current := x];
      EnqueueIfRunnable(current);
      ActivateProcess(next, resumeAt);
    }

    method Tick(enabled: bool, wakeAt: nat, checkAt: nat, pickAt: nat, resumeAt: nat)
      requires Valid()
      modifies this, sleepers
      ensures Valid() && old(WellFormed(State()))
      ensures State() == Next(old(State()), Event.Tick(enabled, wakeAt, checkAt, pickAt, resumeAt))
    {
      NextKeepsInv(State(), Event.Tick(enabled, wakeAt, checkAt, pickAt, resumeAt));
      InvKnown(State());
      WakeSleepers(wakeAt);
      Preempt(enabled, checkAt, pickAt, resumeAt);
    }

    method YieldDead(pickAt: nat, resumeAt: nat)
      requires Valid() && current != idle
      modifies this, sleepers
      ensures Valid() && old(WellFormed(State())) && current != old(current)
      ensures State() == Next(old(State()), Event.YieldDead(pickAt, resumeAt))
    {
      NextKeepsInv(State(), Event.YieldDead(pickAt, resumeAt));
      InvKnown(State());
      YieldDeadInv(State(), pickAt, resumeAt);
      var self := current;
      procs := procs[self := procs[self].Kill()];
      SwitchForGood(pickAt, resumeAt);
    }

    method YieldZombie(status: int, pickAt: nat, resumeAt: nat)
      requires Valid() && current != idle
      modifies this, sleepers
      ensures Valid() && old(WellFormed(State())) && current != old(current)
      ensures State() == Next(old(State()), Event.YieldZombie(status, pickAt, resumeAt))
    {
      NextKeepsInv(State(), Event.YieldZombie(status, pickAt, resumeAt));
      InvKnown(State());
      YieldZombieInv(State(), status, pickAt, resumeAt);
      Zombify(status);
      SwitchForGood(pickAt, resumeAt);
    }

    /** Record the exit status, become a zombie, and wake whoever waits for it. */
    method Zombify(status: int)
      requires Known(State())
      modifies this, sleepers
      ensures State() == Exited(old(State()), status) && Known(State()) && current == old(current)
    {
      var self := current;
      var x := procs[self].(exitStatus := status);
      procs := procs[self := x.Zombify()];
      WakeMatching(ForChild(self));
    }

    method FindChild(parent: int, pid: int) returns (child: Option<int>)
      requires Listed(State())
      ensures child == Scheduler.FindChild(State(), parent, pid, 0, None)
    {
      child := None;
      for i := 0 to |list|
        invariant Scheduler.FindChild(State(), parent, pid, i, child) == Scheduler.FindChild(State(), parent, pid, 0, None)
      {
        var p := list[i];
        if (pid != ANY_CHILD && p != pid) || procs[p].parent != Some(parent) {
          continue;
        }
        if procs[p].IsZombie() {
          return Some(p);
        }
        if child == None {
          child := Some(p);
        }
      }
    }

    /** One round of waiting, up to the switch to another process. */
    method WaitRound(pid: int, pickAt: nat, resumeAt: nat) returns (outcome: WaitOutcome)
      requires Known(State())
      modifies this, sleepers
      ensures outcome == Outcome(old(State()), pid)
      ensures State() == WaitStep(old(State()), pid, pickAt, resumeAt)
    {
      FindChildIn(State(), current, pid);
      var self := current;
      var child := FindChild(self, pid);
      if child == None {
        return NoChildren;
      }
      var c := child.value;
      if procs[c].IsZombie() {
        outcome := Collected(c, procs[c].exitStatus);
        procs := procs[c := procs[c].Kill()];
        procs := procs[self := procs[self].Resume(resumeAt)];
        return;
      }
      procs := procs[self := procs[self].WaitForChild(pid)];
      SwitchAway(pickAt, resumeAt);
      outcome := KeepsWaiting;
    }

    method YieldToChild(pid: int, pickAt: nat, resumeAt: nat) returns (outcome: WaitOutcome)
      requires Valid() && current != idle
      modifies this, sleepers
      ensures Valid() && old(WellFormed(State())) && outcome == Outcome(old(State()), pid)
      ensures State() == Next(old(State()), Event.YieldToChild(pid, pickAt, resumeAt))
    {
      NextKeepsInv(State(), Event.YieldToChild(pid, pickAt, resumeAt));
      InvKnown(State());
      outcome := WaitRound(pid, pickAt, resumeAt);
    }

    method Block(reason: WaitReason, pickAt: nat, resumeAt: nat)
      requires Known(State())
      modifies this, sleepers
      ensures State() == BlockCurrent(old(State()), old(procs[current]), reason, pickAt, resumeAt)
    {
      var self := current;
      procs := procs[self := procs[self].WaitFor(reason)];
      if reason == Sleep {
        KnownInsert(State(), procs[self].wakeTime);
        sleepers.Insert(procs[self].wakeTime, self);
      }
      SwitchAway(pickAt, resumeAt);
    }

    method YieldBlocked(reason: WaitReason, pickAt: nat, resumeAt: nat)
      requires Valid() && current != idle && reason != ChildProcess
      modifies this, sleepers
      ensures Valid() && old(WellFormed(State()))
      ensures State() == Next(old(State()), Event.YieldBlocked(reason, pickAt, resumeAt))
    {
      NextKeepsInv(State(), Event.YieldBlocked(reason, pickAt, resumeAt));
      InvKnown(State());
      Block(reason, pickAt, resumeAt);
    }

    method YieldSleep(duration: nat, sleepAt: nat, pickAt: nat, resumeAt: nat)
      requires Valid() && current != idle
      modifies this, sleepers
      ensures Valid() && old(WellFormed(State()))
      ensures State() == Next(old(State()), Event.YieldSleep(duration, sleepAt, pickAt, resumeAt))
    {
      NextKeepsInv(State(), Event.YieldSleep(duration, sleepAt, pickAt, resumeAt));
      InvKnown(State());
      procs := procs[current := procs[current].SleepFor(sleepAt, duration)];
      Block(Sleep, pickAt, resumeAt);
      BlockTwice(old(State()), old(procs[current]).SleepFor(sleepAt, duration), Sleep, pickAt, resumeAt);
    }

    method YieldMutex(m: nat, pickAt: nat, resumeAt: nat)
      requires Valid() && current != idle
      modifies this, sleepers
      ensures Valid() && old(WellFormed(State()))
      ensures State() == Next(old(State()), Event.YieldMutex(m, pickAt, resumeAt))
    {
      NextKeepsInv(State(), Event.YieldMutex(m, pickAt, resumeAt));
      InvKnown(State());
      procs := procs[current := procs[current].WaitForMutex(m)];
      Block(Mutex, pickAt, resumeAt);
      BlockTwice(old(State()), old(procs[current]).WaitForMutex(m), Mutex, pickAt, resumeAt);
    }

    // ---------- Coming and going ----------

    method ExecCurrent()
      requires Valid() && current != idle
      modifies this, sleepers
      ensures Valid() && old(WellFormed(State())) && State() == Next(old(State()), Event.ExecCurrent)
    {
      NextKeepsInv(State(), Event.ExecCurrent);
      procs := procs[current := procs[current].Exec()];
    }

    method YieldNewProcess(pickAt: nat, resumeAt: nat)
      requires Valid() && current != idle
      modifies this, sleepers
      ensures Valid() && old(WellFormed(State())) && current != old(current)
      ensures State() == Next(old(State()), Event.YieldNew(pickAt, resumeAt))
    {
      NextKeepsInv(State(), Event.YieldNew(pickAt, resumeAt));
      InvKnown(State());
      YieldNewInv(State(), pickAt, resumeAt);
      var self := current;
      var next := PickNextProcess(pickAt);
      assert self != next;
      HandOver(procs[self].Wake(), next, resumeAt);
    }

    method AddProcess(x: Proc)
      modifies this
      ensures State() == Scheduler.AddProcess(old(State()), x)
    {
      var p := nextPid;
      procs := procs[p := x];
      nextPid := nextPid + 1;
      list := list + [p];
      Enqueue(p);
    }

    method Fork()
      requires Valid() && current != idle
      modifies this, sleepers
      ensures Valid() && old(WellFormed(State())) && State() == Next(old(State()), Event.Fork)
    {
      NextKeepsInv(State(), Event.Fork);
      AddProcess(Forked(current, procs[current]));
    }

    method AddKThread()
      requires Valid()
      modifies this, sleepers
      ensures Valid() && old(WellFormed(State())) && State() == Next(old(State()), Event.AddKThread)
    {
      NextKeepsInv(State(), Event.AddKThread);
      AddProcess(NewProcess(None));
    }

    method Reap()
      requires Valid() && current != idle && |list| < WORD
      modifies this, sleepers
      ensures Valid() && old(WellFormed(State())) && State() == Next(old(State()), Event.Reap)
    {
      NextKeepsInv(State(), Event.Reap);
      InvKnown(State());
      ReapAll();
    }

    method ReapAll()
      requires Known(State()) && Population(State()) && |list| < WORD && !procs[current].IsDead()
      modifies this
      ensures State() == ReapStep(old(State()))
    {
      ghost var s := State();
      ghost var done := 0;
      var i: nat := 0;
      while i < |list|
        invariant |list| < WORD && ReapedSoFar(s, State(), i, done)
        decreases |s.list| - done
      {
        i := ReapAt(i, s, done);
        done := done + 1;
      }
      Reaped(s, State(), i, done);
    }

    method ReapAt(i: nat, ghost s: Sched, ghost done: nat) returns (j: nat)
      requires Listed(s) && Population(s) && ReapedSoFar(s, State(), i, done) && i < |list| < WORD
      requires s.current in s.procs && !s.procs[s.current].IsDead()
      modifies this
      ensures done < |s.list| && ReapedSoFar(s, State(), j, done + 1) && |list| <= |old(list)|
    {
      var dead := IsDeadAt(i, s, done);
      if dead {
        Delete(i, s, done);
      } else {
        ReapSkips(s, State(), i, done);
      }
      j := NextIndex(i, dead);
    }

    method IsDeadAt(i: nat, ghost s: Sched, ghost done: nat) returns (dead: bool)
      requires Listed(s) && ReapedSoFar(s, State(), i, done) && i < |list|
      ensures done < |s.list| && dead == s.procs[s.list[done]].IsDead()
    {
      assert list[i] == list[i..][0] == s.list[done];
      dead := procs[list[i]].IsDead();
    }

    method Delete(i: nat, ghost s: Sched, ghost done: nat)
      requires Listed(s) && Population(s) && ReapedSoFar(s, State(), i, done) && i < |list|
      requires done < |s.list| && s.procs[s.list[done]].IsDead()
      requires s.current in s.procs && !s.procs[s.current].IsDead()
      modifies this
      ensures ReapedSoFar(s, State(), i, done + 1) && |list| == |old(list)| - 1
    {
      ReapErases(s, State(), i, done);
      assert list[i] == list[i..][0] == s.list[done];
      assert list[i] != current;
      procs := procs - {list[i]};
      list := list[..i] + list[i + 1..];
    }
  }
}
