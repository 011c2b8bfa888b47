/** The scheduler as a transition system: one step per critical section of the
    process lock, on one processor. Processes are named by pid. */
module Scheduler {
  import opened Common
  import opened Process
  import opened MinHeap

  const TIME_SLICE_NS: nat := 10_000_000

  /** `list` is g_processes in order, `ready` the round-robin queue, `sleepers`
      the heap's node array. `enqueued` and `picked` record, for reasoning, all
      that ever entered and left the queue. The idle process is not in `list`. */
  datatype Sched = Sched(
    procs: map<int, Proc>, list: seq<int>, ready: seq<int>, sleepers: seq<Node<int>>,
    current: int, idle: int, nextPid: int, enqueued: seq<int>, picked: seq<int>)

  function Set(s: Sched, p: int, x: Proc): Sched { s.(procs := s.procs[p := x]) }

  // ---------- Policy ----------

  function Enqueue(s: Sched, p: int): Sched
  {
    s.(ready := s.ready + [p], enqueued := s.enqueued + [p])
  }

  function Dequeue(s: Sched): Sched
    requires s.ready != []
  {
    s.(ready := s.ready[1..], picked := s.picked + [s.ready[0]])
  }

  predicate ShouldPreempt(runtime: nat) { runtime >= TIME_SLICE_NS }

  // ---------- Waking ----------

  datatype Condition = ForReason(reason: WaitReason) | ForChild(pid: int) | ForMutex(m: nat)

  predicate Matches(p: Proc, c: Condition)
  {
    && p.IsBlocked()
    && match c
       case ForReason(r) => p.IsWaitingFor(r)
       case ForChild(pid) => p.IsWaitingForChild(pid)
       case ForMutex(m) => p.IsWaitingForMutex(m)
  }

  predicate Listed(s: Sched) { forall i | 0 <= i < |s.list| :: s.list[i] in s.procs }

  function WakeOne(s: Sched, p: int): Sched
    requires p in s.procs
  {
    Enqueue(Set(s, p, s.procs[p].Wake()), p)
  }

  /** The loop of wake_all, wake_mutex and wake_parents from position `i` on. */
  function WakeFrom(s: Sched, i: nat, c: Condition): (r: Sched)
    requires i <= |s.list| && Listed(s)
    ensures r.list == s.list && r.procs.Keys == s.procs.Keys
    decreases |s.list| - i
  {
    if i == |s.list| then s
    else if Matches(s.procs[s.list[i]], c) then WakeFrom(WakeOne(s, s.list[i]), i + 1, c)
    else WakeFrom(s, i + 1, c)
  }

  function WakeFirst(s: Sched, i: nat, c: Condition): Sched
    requires i <= |s.list| && Listed(s)
    decreases |s.list| - i
  {
    if i == |s.list| then s
    else if Matches(s.procs[s.list[i]], c) then WakeOne(s, s.list[i])
    else WakeFirst(s, i + 1, c)
  }

  function WakeTop(s: Sched): Sched
    requires s.sleepers != [] && s.sleepers[0].value in s.procs
  {
    WakeOne(s, s.sleepers[0].value).(sleepers := Popped(s.sleepers))
  }

  /** A sleeper that is no longer known ends the loop; the invariant excludes it. */
  function WakeSleepers(s: Sched, now: nat): Sched
    decreases |s.sleepers|
  {
    if s.sleepers == [] || s.sleepers[0].value !in s.procs || now < s.procs[s.sleepers[0].value].wakeTime then s
    else WakeSleepers(WakeTop(s), now)
  }

  // ---------- Choosing and switching ----------

  /** pick_next_process: the state after, and the choice. */
  function PickNext(s: Sched, now: nat): (Sched, int)
  {
    var s1 := WakeSleepers(s, now);
    if s1.ready == [] then (s1, s1.idle) else (Dequeue(s1), s1.ready[0])
  }

  function Activate(s: Sched, p: int, now: nat): Sched
    requires p in s.procs
  {
    var x := s.procs[p].Resume(now);
    Set(s, p, x.(contextSwitches := x.contextSwitches + 1)).(current := p)
  }

  function EnqueueIfRunnable(s: Sched, p: int): Sched
    requires p in s.procs
  {
    if p == s.idle || !s.procs[p].IsReady() then s else Enqueue(s, p)
  }

  /** find_child: a zombie that matches, else the first match at all. */
  function FindChild(s: Sched, parent: int, pid: int, i: nat, first: Option<int>): Option<int>
    requires i <= |s.list| && Listed(s)
    decreases |s.list| - i
  {
    if i == |s.list| then first
    else
      var c := s.list[i];
      if (pid != ANY_CHILD && c != pid) || s.procs[c].parent != Some(parent) then FindChild(s, parent, pid, i + 1, first)
      else if s.procs[c].IsZombie() then Some(c)
      else FindChild(s, parent, pid, i + 1, if first == None then Some(c) else first)
  }

  /** reap: DEAD processes leave the list, and their records are deleted. */
  function Survivors(procs: map<int, Proc>, list: seq<int>): seq<int>
    requires forall i | 0 <= i < |list| :: list[i] in procs
  {
    if list == [] then []
    else if procs[list[0]].IsDead() then Survivors(procs, list[1..])
    else [list[0]] + Survivors(procs, list[1..])
  }

  // ---------- Steps ----------

  /** Times are the clock readings taken during the step, in order. */
  datatype Event =
    | WakeSingle(reason: WaitReason)
    | WakeAll(reason: WaitReason)
    | WakeMutex(m: nat)
    | Tick(enabled: bool, wakeAt: nat, checkAt: nat, pickAt: nat, resumeAt: nat)
    | YieldDead(pickAt: nat, resumeAt: nat)
    | YieldZombie(status: int, pickAt: nat, resumeAt: nat)
    | YieldToChild(pid: int, pickAt: nat, resumeAt: nat)
    | YieldSleep(duration: nat, sleepAt: nat, pickAt: nat, resumeAt: nat)
    | YieldMutex(m: nat, pickAt: nat, resumeAt: nat)
    | YieldBlocked(reason: WaitReason, pickAt: nat, resumeAt: nat)
    | ExecCurrent
    | YieldNew(pickAt: nat, resumeAt: nat)
    | Fork
    | AddKThread
    | Reap

  /** The idle process only halts, and waiting for a child has its own call. */
  predicate Enabled(s: Sched, e: Event)
  {
    match e
    case WakeSingle(_) => true
    case WakeAll(_) => true
    case WakeMutex(_) => true
    case Tick(_, _, _, _, _) => true
    case AddKThread => true
    case YieldBlocked(r, _, _) => s.current != s.idle && r != ChildProcess
    case _ => s.current != s.idle
  }

  predicate WellFormed(s: Sched)
  {
    Listed(s) && s.current in s.procs && s.idle in s.procs
  }

  function Preempt(s: Sched, enabled: bool, checkAt: nat, pickAt: nat, resumeAt: nat): Sched
    requires s.current in s.procs
  {
    var cur := s.current;
    if !enabled then s
    else if cur != s.idle && !ShouldPreempt((checkAt - s.procs[cur].quantumStart) % WORD) then s
    else GiveWay(s, pickAt, resumeAt)
  }

  /** The part of preempt after its checks. */
  function GiveWay(s: Sched, pickAt: nat, resumeAt: nat): Sched
  {
    var cur := s.current;
    var (s1, next) := PickNext(s, pickAt);
    if cur == next || cur !in s1.procs || next !in s1.procs then s1
    else
      var s2 := EnqueueIfRunnable(Set(s1, cur, s1.procs[cur].Pause()), cur);
      if next in s2.procs then Activate(s2, next, resumeAt) else s2
  }

  /** Leaving the processor for good or until woken: the current process has
      already been put into its new state. */
  function SwitchAway(s: Sched, pickAt: nat, resumeAt: nat): Sched
  {
    var (s1, next) := PickNext(s, pickAt);
    if next !in s1.procs then s1
    else if next == s.current then Set(s1, next, s1.procs[next].Resume(resumeAt))
    else Activate(s1, next, resumeAt)
  }

  function BlockCurrent(s: Sched, x: Proc, r: WaitReason, pickAt: nat, resumeAt: nat): Sched
  {
    var s1 := Set(s, s.current, x.WaitFor(r));
    var s2 := if r == Sleep then s1.(sleepers := Inserted(s1.sleepers, x.WaitFor(r).wakeTime, s.current)) else s1;
    SwitchAway(s2, pickAt, resumeAt)
  }

  function AddProcess(s: Sched, x: Proc): Sched
  {
    var p := s.nextPid;
    Enqueue(Set(s, p, x).(list := s.list + [p], nextPid := p + 1), p)
  }

  function TickStep(s: Sched, enabled: bool, wakeAt: nat, checkAt: nat, pickAt: nat, resumeAt: nat): Sched
  {
    var s1 := WakeSleepers(s, wakeAt);
    if s1.current in s1.procs then Preempt(s1, enabled, checkAt, pickAt, resumeAt) else s1
  }

  function DeadStep(s: Sched, pickAt: nat, resumeAt: nat): Sched
    requires s.current in s.procs
  {
    SwitchAway(Set(s, s.current, s.procs[s.current].Kill()), pickAt, resumeAt)
  }

  /** sys_exit and yield_zombie up to the choice of the next process. */
  function Exited(s: Sched, status: int): Sched
    requires WellFormed(s)
  {
    WakeFrom(Set(s, s.current, s.procs[s.current].(exitStatus := status).Zombify()), 0, ForChild(s.current))
  }

  function ZombieStep(s: Sched, status: int, pickAt: nat, resumeAt: nat): Sched
    requires WellFormed(s)
  {
    SwitchAway(Exited(s, status), pickAt, resumeAt)
  }

  datatype WaitOutcome = NoChildren | Collected(child: int, status: int) | KeepsWaiting

  function Outcome(s: Sched, pid: int): WaitOutcome
    requires WellFormed(s)
  {
    var child := FindChild(s, s.current, pid, 0, None);
    if child == None || child.value !in s.procs then NoChildren
    else if s.procs[child.value].IsZombie() then Collected(child.value, s.procs[child.value].exitStatus)
    else KeepsWaiting
  }

  /** One round of the loop in yield_to_child. */
  function WaitStep(s: Sched, pid: int, pickAt: nat, resumeAt: nat): Sched
    requires WellFormed(s)
  {
    match Outcome(s, pid)
    case NoChildren => s
    case Collected(c, _) =>
      if c !in s.procs then s
      else
        var s1 := Set(s, c, s.procs[c].Kill());
        Set(s1, s.current, s1.procs[s.current].Resume(resumeAt))
    case KeepsWaiting => SwitchAway(Set(s, s.current, s.procs[s.current].WaitForChild(pid)), pickAt, resumeAt)
  }

  function NewStep(s: Sched, pickAt: nat, resumeAt: nat): Sched
  {
    var cur := s.current;
    var (s1, next) := PickNext(s, pickAt);
    if cur !in s1.procs then s1
    else
      var s2 := EnqueueIfRunnable(Set(s1, cur, s1.procs[cur].Wake()), cur);
      if next in s2.procs then Activate(s2, next, resumeAt) else s2
  }

  function ReapStep(s: Sched): Sched
    requires Listed(s)
  {
    var rest := Survivors(s.procs, s.list);
    s.(list := rest, procs := map p | p in s.procs && (p in rest || p == s.idle) :: s.procs[p])
  }

  function Next(s: Sched, e: Event): Sched
    requires WellFormed(s)
  {
    var cur := s.procs[s.current];
    match e
    case WakeSingle(r) => if r == Sleep then s else WakeFirst(s, 0, ForReason(r))
    case WakeAll(r) => if r == Sleep then s else WakeFrom(s, 0, ForReason(r))
    case WakeMutex(m) => WakeFrom(s, 0, ForMutex(m))
    case Tick(enabled, t0, t1, t2, t3) => TickStep(s, enabled, t0, t1, t2, t3)
    case YieldDead(t0, t1) => DeadStep(s, t0, t1)
    case YieldZombie(status, t0, t1) => ZombieStep(s, status, t0, t1)
    case YieldToChild(pid, t0, t1) => WaitStep(s, pid, t0, t1)
    case YieldSleep(duration, t0, t1, t2) => BlockCurrent(s, cur.SleepFor(t0, duration), Sleep, t1, t2)
    case YieldMutex(m, t0, t1) => BlockCurrent(s, cur.WaitForMutex(m), Mutex, t0, t1)
    case YieldBlocked(r, t0, t1) => BlockCurrent(s, cur, r, t0, t1)
    case ExecCurrent => Set(s, s.current, cur.Exec())
    case YieldNew(t0, t1) => NewStep(s, t0, t1)
    case Fork => AddProcess(s, Forked(s.current, cur))
    case AddKThread => AddProcess(s, NewProcess(None))
    case Reap => ReapStep(s)
  }
}
