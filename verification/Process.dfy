/** A process's scheduling state and the transitions on it. */
module Process {
  import opened Common

  const ANY_CHILD: int := -1

  datatype ProcessState = New | Running | Ready | Blocked | Sleeping | Dead | Zombie

  datatype WaitReason = NoReason | Keyboard | Sleep | Framebuffer | ChildProcess | Mutex | Signal

  datatype Proc = Proc(
    parent: Option<int>, state: ProcessState, reason: WaitReason, waitPid: int, waitMutex: Option<nat>,
    wakeTime: nat, quantumStart: nat, exitStatus: int, contextSwitches: nat)
  {
    predicate IsReady() { state == Ready || state == New }
    predicate IsBlocked() { state == Blocked }
    predicate IsZombie() { state == Zombie }
    predicate IsDead() { state == Dead }
    predicate IsWaitingFor(r: WaitReason) { reason == r }

    predicate IsWaitingForChild(pid: int)
    {
      IsWaitingFor(ChildProcess) && (waitPid == pid || waitPid == ANY_CHILD)
    }

    predicate IsWaitingForMutex(m: nat) { IsWaitingFor(Mutex) && waitMutex == Some(m) }

    function Wake(): Proc
    {
      this.(state := Ready, reason := NoReason, waitPid := ANY_CHILD, waitMutex := None, wakeTime := 0)
    }

    function Pause(): Proc { if state == Running then this.(state := Ready) else this }

    function Resume(now: nat): Proc
    {
      this.(state := Running, reason := NoReason, waitPid := ANY_CHILD, waitMutex := None, wakeTime := 0,
            quantumStart := now)
    }

    function Kill(): Proc { this.(state := Dead) }
    function Zombify(): Proc { this.(state := Zombie) }

    function WaitFor(r: WaitReason): Proc
    {
      this.(state := if r == Sleep then Sleeping else Blocked, reason := r)
    }

    function WaitForChild(pid: int): Proc { WaitFor(ChildProcess).(waitPid := pid) }
    function WaitForMutex(m: nat): Proc { WaitFor(Mutex).(waitMutex := Some(m)) }

    function SleepFor(now: nat, duration: nat): Proc
    {
      WaitFor(Sleep).(wakeTime := (now + duration) % WORD)
    }

    /** What exec_elf64 does to the scheduling state of the current process. */
    function Exec(): Proc { this.(state := New, reason := NoReason, exitStatus := 0, wakeTime := 0) }
  }

  /** A process as its constructor leaves it. */
  function NewProcess(parent: Option<int>): Proc
  {
    Proc(parent, New, NoReason, ANY_CHILD, None, 0, 0, 0, 0)
  }

  /** The child that fork makes: the parent's fields, its own state and parent. */
  function Forked(pid: int, p: Proc): Proc
  {
    NewProcess(Some(pid)).(reason := p.reason, exitStatus := p.exitStatus,
                           quantumStart := p.quantumStart, wakeTime := p.wakeTime)
  }
}
