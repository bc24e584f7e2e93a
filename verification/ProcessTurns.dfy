/**
  Everybody gets a turn: whatever is called, created, reaped or discarded meanwhile, a process that is ready, or is
  woken, or is created, has the CPU after at most sixteen interrupts, unless it is killed or discarded itself.
 */
module ProcessTurns {

  import opened Common
  import opened ProcessModel
  import opened ProcessRuns
  import opened ProcessCalls

  /** How many places ahead of the current one slot k is, going round a table of sixteen. */
  function PlacesAhead(current: int, k: int): int {
    if k > current then k - current else k + MAX_PROCESSES - current
  }

  /** Process pid is ready in a slot that is not the current one. */
  ghost predicate Waits(s: Sys, pid: nat) {
    var k := Slot(s, pid);
    HasCurrent(s) && k != -1 && k != s.current && s.table[k].state == Ready
  }

  function Turn(s: Sys, pid: nat): int { PlacesAhead(s.current, Slot(s, pid)) }

  ghost predicate HasCpu(s: Sys, pid: nat) {
    HasCurrent(s) && s.table[s.current].pid == pid && s.table[s.current].state == Running
  }

  /** The step is not aimed at pid, and the shell does not reap itself. */
  ghost predicate Spares(s: Sys, step: Step, pid: nat) {
    && step != ShellKill(pid) && step != Discard(pid) && !ShellReapsItself(s, step)
    && (step.Syscall? ==> step.call != Kill(pid))
  }

  /** A call by another process leaves a waiting one waiting, no further from its turn. */
  lemma CallWaits(s: Sys, c: Call, esp: nat, pid: nat)
    requires Safe(s) && Legal(s, Syscall(c, esp)) && Spares(s, Syscall(c, esp), pid) && Waits(s, pid) && !c.Wait?
    ensures Waits(CallState(s, c), pid) && Turn(CallState(s, c), pid) == Turn(s, pid)
  {
    CallKeepsSlots(s, c, pid);
    SlotIs(s, s.current);
  }

  /** The last entry may move down into the place of the one that leaves, and then its turn comes earlier. */
  lemma RemovalWaits(s: Sys, i: nat, pid: nat)
    requires Safe(s) && Waits(s, pid) && s.current == 0 && 0 < i < |s.table| && s.table[i].pid != pid
    ensures var s' := s.(table := SwapRemove(s.table, i)); Waits(s', pid) && Turn(s', pid) <= Turn(s, pid)
  {
    var k, n := Slot(s, pid), |s.table| - 1;
    var s' := s.(table := SwapRemove(s.table, i));
    assert forall j :: 0 <= j < n ==> s'.table[j] == s.table[if j == i then n else j];
    var k' := if k == n then i else k;
    assert s'.table[k'] == s.table[k];
    assert forall j :: 0 <= j < n && s'.table[j].pid == pid ==> j == k';
  }

  lemma WaitWaits(s: Sys, arg: nat, esp: nat, pid: nat)
    requires Safe(s) && Spares(s, Syscall(Wait(arg), esp), pid) && Waits(s, pid)
    ensures Waits(CallState(s, Wait(arg)), pid) && Turn(CallState(s, Wait(arg)), pid) <= Turn(s, pid)
  {
    var i := FindReapable(s.table, s.table[s.current].pid, arg, 0);
    if i != -1 {
      assert s.table[s.current].pid == 1;
      RemovalWaits(s, i, pid);
    }
  }

  lemma DiscardWaits(s: Sys, other: nat, pid: nat)
    requires Safe(s) && Legal(s, Discard(other)) && other != pid && Waits(s, pid)
    ensures Waits(DiscardState(s, other), pid) && Turn(DiscardState(s, other), pid) <= Turn(s, pid)
  {
    var i := FindPid(s.table, other, 0);
    if i != -1 { RemovalWaits(s, i, pid); }
  }

  lemma CreateWaits(s: Sys, stackTop: nat, withQueue: bool, pid: nat)
    requires Safe(s) && Legal(s, Create(stackTop, withQueue)) && Waits(s, pid)
    ensures var s' := CreateState(s, stackTop, withQueue); Waits(s', pid) && Turn(s', pid) == Turn(s, pid)
  {
    StepKeepsSafe(s, Create(stackTop, withQueue));
    SlotIs(CreateState(s, stackTop, withQueue), Slot(s, pid));
  }

  /** The tick gives the CPU to a waiting process, or to one before it. */
  lemma TickComesCloser(s: Sys, esp: nat, pid: nat)
    requires Safe(s) && Waits(s, pid)
    ensures var s' := TickState(s, esp); HasCpu(s', pid) || (Waits(s', pid) && Turn(s', pid) < Turn(s, pid))
  {
    var k, t := Slot(s, pid), Preempted(s, esp);
    NextComesCloser(t, s.current, k);
    TickKeepsMail(s, esp, pid);
    hide Next, Fine, FindPid;
  }

  lemma InterruptComesCloser(s: Sys, step: Step, pid: nat)
    requires Safe(s) && Legal(s, step) && Spares(s, step, pid) && Waits(s, pid) && Interrupt(step)
    ensures var s' := Exec(s, step); HasCpu(s', pid) || (Waits(s', pid) && Turn(s', pid) < Turn(s, pid))
  {
    hide Waits, Turn, TickState, CallState;
    match step
    case Timer(esp) => TickComesCloser(s, esp, pid);
    case Syscall(c, esp) =>
      CallKeepsSafe(s, c);
      if c.Wait? { WaitWaits(s, c.pid, esp, pid); } else { CallWaits(s, c, esp, pid); }
      TickComesCloser(CallState(s, c), esp, pid);
  }

  lemma OtherStepWaits(s: Sys, step: Step, pid: nat)
    requires Safe(s) && Legal(s, step) && Spares(s, step, pid) && Waits(s, pid) && !Interrupt(step)
    ensures Waits(Exec(s, step), pid) && Turn(Exec(s, step), pid) <= Turn(s, pid)
  {
    match step
    case Create(stackTop, withQueue) => CreateWaits(s, stackTop, withQueue, pid);
    case BurnPid =>
    case ShellKill(other) => CallWaits(s, Kill(other), 1, pid);
    case Discard(other) => DiscardWaits(s, other, pid);
  }

  ghost predicate SparingRun(s: Sys, steps: seq<Step>, pid: nat)
    requires s.current >= -1 && LegalRun(s, steps)
    decreases |steps|
  {
    steps != [] ==> Spares(s, steps[0], pid) && SparingRun(Exec(s, steps[0]), steps[1..], pid)
  }

  lemma {:induction false} TurnComes(s: Sys, steps: seq<Step>, pid: nat)
    requires Safe(s) && LegalRun(s, steps) && SparingRun(s, steps, pid) && Waits(s, pid)
    requires Interrupts(steps) >= Turn(s, pid)
    ensures GetsCpu(s, steps, pid)
    decreases |steps|
  {
    TurnIsAhead(s, pid);
    var s' := Exec(s, steps[0]);
    StepKeepsSafe(s, steps[0]);
    if Interrupt(steps[0]) { InterruptComesCloser(s, steps[0], pid); } else { OtherStepWaits(s, steps[0], pid); }
    hide Exec, Safe, Waits, Turn, Spares, Legal;
    if !HasCpu(s', pid) { TurnComes(s', steps[1..], pid); }
  }

  lemma TurnIsAhead(s: Sys, pid: nat)
    requires Safe(s) && Waits(s, pid)
    ensures 1 <= Turn(s, pid) <= MAX_PROCESSES
  {
  }

  /**
    Nobody starves: a process that is ready gets the CPU within sixteen interrupts, whatever the others call and
    whatever is created, reaped or discarded between them, unless it is itself killed or discarded.
   */
  lemma NobodyStarves(s: Sys, steps: seq<Step>, pid: nat)
    requires Safe(s) && LegalRun(s, steps) && SparingRun(s, steps, pid) && HasCurrent(s)
    requires exists k :: 0 <= k < |s.table| && k != s.current && s.table[k].pid == pid && s.table[k].state == Ready
    requires Interrupts(steps) >= MAX_PROCESSES
    ensures GetsCpu(s, steps, pid)
  {
    var k :| 0 <= k < |s.table| && k != s.current && s.table[k].pid == pid && s.table[k].state == Ready;
    SlotIs(s, k);
    TurnIsAhead(s, pid);
    TurnComes(s, steps, pid);
  }

  /** A created process gets the CPU within sixteen interrupts. */
  lemma CreatedRuns(s: Sys, stackTop: nat, withQueue: bool, steps: seq<Step>)
    requires Safe(s) && HasCurrent(s) && Legal(s, Create(stackTop, withQueue))
    requires var s' := Exec(s, Create(stackTop, withQueue));
             LegalRun(s', steps) && SparingRun(s', steps, s.nextPid) && Interrupts(steps) >= MAX_PROCESSES
    ensures GetsCpu(Exec(s, Create(stackTop, withQueue)), steps, s.nextPid)
  {
    var s' := Exec(s, Create(stackTop, withQueue));
    StepKeepsSafe(s, Create(stackTop, withQueue));
    CreatedIsReady(s, stackTop, withQueue);
    hide Exec, Safe;
    assert s'.table[|s.table|].pid == s.nextPid;
    NobodyStarves(s', steps, s.nextPid);
  }

  /** So does every background task after boot, within as many interrupts as it has processes before it. */
  lemma BootTasksRun(tasks: seq<Task>, steps: seq<Step>, k: nat)
    requires 1 <= k < |tasks| <= MAX_PROCESSES && forall i :: 0 <= i < |tasks| ==> tasks[i].stackTop != 0
    requires LegalRun(Boot(tasks), steps) && SparingRun(Boot(tasks), steps, k + 1) && Interrupts(steps) >= k
    ensures GetsCpu(Boot(tasks), steps, k + 1)
  {
    hide Boot, Safe, FindPid, LegalRun, SparingRun, GetsCpu, Interrupts;
    var s := Boot(tasks);
    SafeAtBoot(tasks);
    BootIsReady(tasks);
    assert s.table[k].pid == k + 1;
    SlotIs(s, k);
    TurnComes(s, steps, k + 1);
  }

  /** A message wakes its receiver for good: a sleeping one has the CPU at once or within sixteen more interrupts. */
  lemma WokenRuns(s: Sys, c: Call, esp: nat, steps: seq<Step>, k: nat)
    requires Safe(s) && HasCurrent(s) && c.Send? && Legal(s, Syscall(c, esp)) && c.data.Some? && 1 <= c.size <= 64
    requires HasRoom(s, c.target, k) && s.table[k].state == Blocked && k != s.current
    requires var s' := Exec(s, Syscall(c, esp));
             LegalRun(s', steps) && SparingRun(s', steps, c.target) && Interrupts(steps) >= MAX_PROCESSES
    ensures LegalRun(s, [Syscall(c, esp)] + steps) && GetsCpu(s, [Syscall(c, esp)] + steps, c.target)
  {
    var run, mid := [Syscall(c, esp)] + steps, CallState(s, c);
    assert run[0] == Syscall(c, esp) && run[1..] == steps;
    SendAnswers(s, c.target, c.data, c.size);
    CallKeepsSafe(s, c);
    SlotIs(mid, k);
    hide CallState, Fine, FindPid;
    TickComesCloser(mid, esp, c.target);
    TickKeepsSafe(mid, esp);
    hide TickState, Safe;
    var s' := Exec(s, Syscall(c, esp));
    if !HasCpu(s', c.target) {
      TurnIsAhead(s', c.target);
      TurnComes(s', steps, c.target);
    }
  }
}
