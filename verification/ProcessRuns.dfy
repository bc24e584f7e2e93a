/**
  What every run of the process model keeps: safety of the table, no lost context, FIFO delivery, bounded
  waiting, and at most one report of each death.
 */
module ProcessRuns {

  import opened Common
  import opened ProcessModel

  // ---------- Safety ----------

  ghost predicate Fine(p: Proc, nextPid: nat) {
    && 1 <= p.pid < nextPid && p.parent == 1 && p.stackTop != 0
    && (p.queue.Some? ==> |p.queue.value| <= IPC_MAX_MSG_PER_PROC)
    && (p.state == Blocked ==> p.queue == Some([]))       // nobody sleeps with mail
  }

  /**
    The table holds sound entries with different pids; only the shell has pid 1, and it sits in slot 0;
    only the current process is running.
   */
  ghost predicate Safe(s: Sys) {
    && s.current >= -1 && 2 <= s.nextPid <= ERROR && |s.table| <= MAX_PROCESSES
    && (forall i :: 0 <= i < |s.table| ==> Fine(s.table[i], s.nextPid))
    && (forall i, j :: 0 <= i < j < |s.table| ==> s.table[i].pid != s.table[j].pid)
    && (forall i :: 0 <= i < |s.table| && s.table[i].pid == 1 ==> i == 0)
    && (forall i :: 0 <= i < |s.table| && s.table[i].state == Running ==> i == s.current)
  }

  lemma SafeAtBoot(tasks: seq<Task>)
    requires 1 <= |tasks| <= MAX_PROCESSES && forall i :: 0 <= i < |tasks| ==> tasks[i].stackTop != 0
    ensures Safe(Boot(tasks))
  {
  }

  lemma TickKeepsSafe(s: Sys, esp: nat)
    requires Safe(s)
    ensures Safe(TickState(s, esp))
  {
    NextIsSound(Preempted(s, esp), s.current);
  }

  lemma WaitKeepsSafe(s: Sys, pid: nat)
    requires Safe(s)
    ensures Safe(CallState(s, Wait(pid)))
  {
    if HasCurrent(s) {
      var i := FindReapable(s.table, s.table[s.current].pid, pid, 0);
      if i != -1 {
        assert s.table[s.current].pid == 1;
        var t := SwapRemove(s.table, i);
        assert forall k :: 0 <= k < |t| ==> t[k] == s.table[if k == i then |t| else k];
      }
    }
  }

  lemma SendKeepsSafe(s: Sys, target: nat, data: Option<seq<Byte>>, size: nat)
    requires Safe(s) && (data.Some? ==> size <= |data.value|)
    ensures Safe(SendState(s, target, data, size))
  {
  }

  lemma RecvKeepsSafe(s: Sys, bufOk: bool, size: nat)
    requires Safe(s)
    ensures Safe(RecvState(s, bufOk, size))
  {
  }

  lemma CallKeepsSafe(s: Sys, c: Call)
    requires Safe(s) && (c.Send? && c.data.Some? ==> c.size <= |c.data.value|)
    ensures Safe(CallState(s, c))
  {
    match c
    case Exit(_) =>
    case Wait(pid) => WaitKeepsSafe(s, pid);
    case Kill(_) =>
    case Send(target, data, size) => SendKeepsSafe(s, target, data, size);
    case Recv(bufOk, size) => RecvKeepsSafe(s, bufOk, size);
  }

  lemma DiscardKeepsSafe(s: Sys, pid: nat)
    requires Safe(s) && Legal(s, Discard(pid))
    ensures Safe(DiscardState(s, pid))
  {
    var i := FindPid(s.table, pid, 0);
    if i != -1 {
      var t := SwapRemove(s.table, i);
      assert forall k :: 0 <= k < |t| ==> t[k] == s.table[if k == i then |t| else k];
    }
  }

  lemma StepKeepsSafe(s: Sys, step: Step)
    requires Safe(s) && Legal(s, step)
    ensures Safe(Exec(s, step))
  {
    match step
    case Timer(esp) => TickKeepsSafe(s, esp);
    case Syscall(c, esp) => CallKeepsSafe(s, c); TickKeepsSafe(CallState(s, c), esp);
    case Create(_, _) =>
    case BurnPid =>
    case ShellKill(pid) => CallKeepsSafe(s, Kill(pid));
    case Discard(pid) => DiscardKeepsSafe(s, pid);
  }

  // ---------- Runs ----------

  ghost predicate LegalRun(s: Sys, steps: seq<Step>)
    requires s.current >= -1
    decreases |steps|
  {
    steps != [] ==> Legal(s, steps[0]) && LegalRun(Exec(s, steps[0]), steps[1..])
  }

  ghost function RunTo(s: Sys, steps: seq<Step>): Sys
    requires s.current >= -1 && LegalRun(s, steps)
    decreases |steps|
  {
    if steps == [] then s else RunTo(Exec(s, steps[0]), steps[1..])
  }

  /** Whatever the processes call and whenever the timer fires, the table stays safe. */
  lemma {:induction false} SafeForEver(s: Sys, steps: seq<Step>)
    requires Safe(s) && LegalRun(s, steps)
    ensures Safe(RunTo(s, steps))
    decreases |steps|
  {
    if steps != [] {
      StepKeepsSafe(s, steps[0]);
      SafeForEver(Exec(s, steps[0]), steps[1..]);
    }
  }

  // ---------- The shell in slot 0 ----------

  ghost predicate ShellInPlace(s: Sys) {
    |s.table| > 0 && s.table[0].pid == 1
  }

  /** The shell goes on executing although it is dead, and waits for any child or for itself. */
  ghost predicate ShellReapsItself(s: Sys, step: Step) {
    && step.Syscall? && step.call.Wait? && s.current == 0 && |s.table| > 0 && s.table[0].state == Dead
    && (step.call.pid >= 0x8000_0000 || step.call.pid == 1)
  }

  /** A step takes the shell out of slot 0 exactly when the shell reaps itself. */
  lemma ShellStaysIff(s: Sys, step: Step)
    requires Safe(s) && Legal(s, step) && ShellInPlace(s)
    ensures ShellInPlace(Exec(s, step)) <==> !ShellReapsItself(s, step)
  {
    match step
    case Timer(esp) => TickKeepsShell(s, esp);
    case Syscall(c, esp) => CallShell(s, c, esp); TickKeepsShell(CallState(s, c), esp);
    case Create(_, _) =>
    case BurnPid =>
    case ShellKill(pid) => CallShell(s, Kill(pid), 1);
    case Discard(pid) =>
  }

  lemma TickKeepsShell(s: Sys, esp: nat)
    requires s.current >= -1
    ensures ShellInPlace(TickState(s, esp)) <==> ShellInPlace(s)
  {
    NextIsSound(Preempted(s, esp), s.current);
  }

  lemma CallShell(s: Sys, c: Call, esp: nat)
    requires Safe(s) && Legal(s, Syscall(c, esp)) && ShellInPlace(s)
    ensures ShellInPlace(CallState(s, c)) <==> !ShellReapsItself(s, Syscall(c, esp))
  {
    if c.Wait? && HasCurrent(s) {
      var i := FindReapable(s.table, s.table[s.current].pid, c.pid, 0);
      if i != -1 {
        assert s.table[s.current].pid == 1;
        var t := SwapRemove(s.table, i);
        assert forall k :: 0 <= k < |t| ==> t[k] == s.table[if k == i then |t| else k];
      }
    }
  }

  ghost predicate RunningCaller(s: Sys, step: Step) {
    step.Syscall? ==> HasCurrent(s) && s.table[s.current].state == Running
  }

  ghost predicate RunningCallers(s: Sys, steps: seq<Step>)
    requires s.current >= -1 && LegalRun(s, steps)
    decreases |steps|
  {
    steps != [] ==> RunningCaller(s, steps[0]) && RunningCallers(Exec(s, steps[0]), steps[1..])
  }

  /** In every run in which only running processes make calls, the shell stays in slot 0. */
  lemma {:induction false} ShellStays(s: Sys, steps: seq<Step>)
    requires Safe(s) && ShellInPlace(s) && LegalRun(s, steps) && RunningCallers(s, steps)
    ensures ShellInPlace(RunTo(s, steps)) && Safe(RunTo(s, steps))
    decreases |steps|
  {
    if steps != [] {
      StepKeepsSafe(s, steps[0]);
      ShellStaysIff(s, steps[0]);
      hide Exec, Fine;
      ShellStays(Exec(s, steps[0]), steps[1..]);
    }
  }

  /** From boot, with running callers: pid 1 is in slot 0 in every reachable state. */
  lemma ShellStaysFromBoot(tasks: seq<Task>, steps: seq<Step>)
    requires 1 <= |tasks| <= MAX_PROCESSES && forall i :: 0 <= i < |tasks| ==> tasks[i].stackTop != 0
    requires LegalRun(Boot(tasks), steps) && RunningCallers(Boot(tasks), steps)
    ensures ShellInPlace(RunTo(Boot(tasks), steps))
  {
    SafeAtBoot(tasks);
    ShellStays(Boot(tasks), steps);
  }

  // ---------- No lost context ----------

  /**
    The machine beside its books: who is really executing, and where each process was last interrupted.
    The kernel keeps neither; it has only the table and the current index.
   */
  datatype Machine = Machine(sys: Sys, cpu: nat, seen: map<nat, nat>)

  /** The table after the dispatched call, before the tick. */
  function Dispatched(s: Sys, step: Step): Sys
    requires step.Timer? || step.Syscall?
    requires step.Syscall? && step.call.Send? && step.call.data.Some? ==> step.call.size <= |step.call.data.value|
  {
    if step.Timer? then s else CallState(s, step.call)
  }

  /** The stack pointer that the step's interrupt returns on. */
  ghost function Returned(s: Sys, step: Step): nat
    requires s.current >= -1 && Legal(s, step)
  {
    if step.Timer? || step.Syscall? then TickResult(Dispatched(s, step), step.esp) else 0
  }

  function Advance(m: Machine, step: Step): Machine
    requires m.sys.current >= -1
    requires step.Syscall? && step.call.Send? && step.call.data.Some? ==> step.call.size <= |step.call.data.value|
  {
    var sys := Exec(m.sys, step);
    if step.Timer? || step.Syscall? then
      var mid := Dispatched(m.sys, step);
      var next := Next(Preempted(mid, step.esp), mid.current);
      NextIsSound(Preempted(mid, step.esp), mid.current);
      Machine(sys, if next == -1 then m.cpu else mid.table[next].pid, m.seen[m.cpu := step.esp])
    else
      m.(sys := sys)
  }

  /** Where p has to continue: where it was last interrupted, or at its initial frame. */
  function Context(m: Machine, p: Proc): nat {
    if p.pid in m.seen then m.seen[p.pid] else p.stackTop
  }

  /** The books agree with the machine, and every process that waits for the CPU can be continued. */
  ghost predicate Consistent(m: Machine) {
    && Safe(m.sys)
    && HasCurrent(m.sys) && m.sys.table[m.sys.current].pid == m.cpu && m.sys.table[m.sys.current].state != Ready
    && (forall pid :: pid in m.seen ==> pid < m.sys.nextPid && m.seen[pid] != 0)
    && (forall i :: 0 <= i < |m.sys.table| && i != m.sys.current && m.sys.table[i].state != Dead ==>
          Resume(m.sys.table[i]) == Context(m, m.sys.table[i]))
  }

  /**
    The two calls that break the books, both possible only for a caller that is no longer Running because
    nothing else was runnable: a Blocked process that sends to itself, and a Dead shell that reaps itself.
   */
  predicate Careful(s: Sys, c: Call)
    requires HasCurrent(s)
  {
    match c
    case Send(target, data, size) =>
      s.table[s.current].state == Blocked ==> SendTarget(s, target, data, size) != s.current
    case Wait(pid) =>
      FindReapable(s.table, s.table[s.current].pid, pid, 0) != s.current
    case _ => true
  }

  ghost predicate CarefulStep(s: Sys, step: Step) {
    step.Syscall? ==> HasCurrent(s) && Careful(s, step.call)
  }

  /** A running caller is always careful. */
  lemma RunningIsCareful(s: Sys, c: Call)
    requires HasCurrent(s) && s.table[s.current].state == Running
    ensures Careful(s, c)
  {
  }

  lemma WaitKeepsContexts(m: Machine, pid: nat)
    requires Consistent(m) && Careful(m.sys, Wait(pid))
    ensures Consistent(m.(sys := CallState(m.sys, Wait(pid))))
  {
    WaitKeepsSafe(m.sys, pid);
    var s := m.sys;
    var i := FindReapable(s.table, s.table[s.current].pid, pid, 0);
    if i != -1 {
      assert s.table[s.current].pid == 1;
      var t := SwapRemove(s.table, i);
      assert forall k :: 0 <= k < |t| ==> t[k] == s.table[if k == i then |t| else k];
    }
  }

  /** The dispatched call leaves the other processes' contexts alone, and the caller never Ready. */
  lemma CallKeepsContexts(m: Machine, c: Call)
    requires Consistent(m) && (c.Send? && c.data.Some? ==> c.size <= |c.data.value|) && Careful(m.sys, c)
    ensures Consistent(m.(sys := CallState(m.sys, c)))
  {
    if c.Wait? {
      WaitKeepsContexts(m, c.pid);
    } else {
      CallKeepsSafe(m.sys, c);
      hide Fine;
    }
  }

  /** A tick saves the interrupted context and returns on the context of the process it picks. */
  lemma TickKeepsContexts(m: Machine, esp: nat)
    requires Consistent(m) && esp != 0
    ensures Consistent(Advance(m, Timer(esp)))
    ensures TickResult(m.sys, esp)
         == var m' := Advance(m, Timer(esp)); if m'.cpu in m'.seen then m'.seen[m'.cpu]
                                              else m'.sys.table[m'.sys.current].stackTop
  {
    TickKeepsSafe(m.sys, esp);
    hide Fine;
    var t := Preempted(m.sys, esp);
    NextIsSound(t, m.sys.current);
    var m' := Advance(m, Timer(esp));
    assert forall i :: 0 <= i < |t| ==> t[i].pid == m.sys.table[i].pid && t[i].stackTop == m.sys.table[i].stackTop;
    assert forall i :: 0 <= i < |t| && i != m.sys.current ==> t[i] == m.sys.table[i] && t[i].pid != m.cpu;
    assert t[m.sys.current].state != Ready || t[m.sys.current].savedEsp == esp;
  }

  lemma StepKeepsContexts(m: Machine, step: Step)
    requires Consistent(m) && Legal(m.sys, step) && CarefulStep(m.sys, step)
    ensures Consistent(Advance(m, step))
    ensures step.Timer? || step.Syscall? ==>
              var m' := Advance(m, step); Returned(m.sys, step) == Context(m', m'.sys.table[m'.sys.current])
  {
    match step
    case Timer(esp) => TickKeepsContexts(m, esp);
    case Syscall(c, esp) =>
      CallKeepsContexts(m, c);
      TickKeepsContexts(m.(sys := CallState(m.sys, c)), esp);
    case Create(_, _) => StepKeepsSafe(m.sys, step);
    case BurnPid =>
    case ShellKill(pid) => CallKeepsContexts(m, Kill(pid));
    case Discard(pid) => DiscardKeepsContexts(m, pid);
  }

  lemma DiscardKeepsContexts(m: Machine, pid: nat)
    requires Consistent(m) && Legal(m.sys, Discard(pid))
    ensures Consistent(m.(sys := DiscardState(m.sys, pid)))
  {
    DiscardKeepsSafe(m.sys, pid);
    var i := FindPid(m.sys.table, pid, 0);
    if i != -1 {
      var t := SwapRemove(m.sys.table, i);
      assert forall k :: 0 <= k < |t| ==> t[k] == m.sys.table[if k == i then |t| else k];
    }
  }

  ghost predicate CarefulRun(m: Machine, steps: seq<Step>)
    requires m.sys.current >= -1
    decreases |steps|
  {
    steps != [] ==>
      Legal(m.sys, steps[0]) && CarefulStep(m.sys, steps[0]) && CarefulRun(Advance(m, steps[0]), steps[1..])
  }

  ghost function MachineAfter(m: Machine, steps: seq<Step>): Machine
    requires m.sys.current >= -1 && CarefulRun(m, steps)
    decreases |steps|
  {
    if steps == [] then m else MachineAfter(Advance(m, steps[0]), steps[1..])
  }

  /** The stack pointers that the interrupts of a run return on. */
  ghost function Returns(m: Machine, steps: seq<Step>): seq<nat>
    requires m.sys.current >= -1 && CarefulRun(m, steps)
    decreases |steps|
  {
    if steps == [] then []
    else
      (if steps[0].Timer? || steps[0].Syscall? then [Returned(m.sys, steps[0])] else [])
      + Returns(Advance(m, steps[0]), steps[1..])
  }

  /** The stack pointers they should return on: the context of whoever runs next. */
  ghost function Contexts(m: Machine, steps: seq<Step>): seq<nat>
    requires Consistent(m) && CarefulRun(m, steps)
    decreases |steps|
  {
    if steps == [] then []
    else
      StepKeepsContexts(m, steps[0]);
      var m' := Advance(m, steps[0]);
      (if steps[0].Timer? || steps[0].Syscall? then [Context(m', m'.sys.table[m'.sys.current])] else [])
      + Contexts(m', steps[1..])
  }

  function BootMachine(tasks: seq<Task>): Machine
    requires |tasks| >= 1
  {
    Machine(Boot(tasks), 1, map[])
  }

  /**
    No context is lost in any run: every interrupt returns exactly where the process that runs next was last
    interrupted, or on its initial frame if it never was.
   */
  lemma {:induction false} NoLostContext(m: Machine, steps: seq<Step>)
    requires Consistent(m) && CarefulRun(m, steps)
    ensures Consistent(MachineAfter(m, steps))
    ensures Returns(m, steps) == Contexts(m, steps)
    decreases |steps|
  {
    if steps != [] {
      StepKeepsContexts(m, steps[0]);
      NoLostContext(Advance(m, steps[0]), steps[1..]);
    }
  }

  lemma BootIsConsistent(tasks: seq<Task>)
    requires 1 <= |tasks| <= MAX_PROCESSES && forall i :: 0 <= i < |tasks| ==> tasks[i].stackTop != 0
    ensures Consistent(BootMachine(tasks))
  {
    SafeAtBoot(tasks);
  }

  /** The step keeps the books right and returns on the right context. */
  ghost predicate KeepsContext(m: Machine, step: Step)
    requires m.sys.current >= -1 && Legal(m.sys, step) && step.Syscall?
  {
    var m' := Advance(m, step);
    && Consistent(m')
    && Returned(m.sys, step) == Context(m', m'.sys.table[m'.sys.current])
  }

  /**
    A dead shell that reaps itself gets away with it: something is runnable, and the process that moves into
    slot 0 is not blocked.
   */
  ghost predicate Lucky(s: Sys, c: Call) {
    && c.Wait? && (exists i :: 0 <= i < |s.table| && Runnable(s.table[i]))
    && s.table[|s.table| - 1].state != Blocked
  }

  /**
    A call keeps the contexts exactly when it is careful, or a dead shell is lucky. The stack pointer of the call
    must not happen to be an older one of the caller or of the last process.
   */
  lemma KeptIffCareful(m: Machine, step: Step)
    requires Consistent(m) && step.Syscall? && Legal(m.sys, step)
    requires step.esp != Resume(m.sys.table[m.sys.current]) && step.esp != Resume(m.sys.table[|m.sys.table| - 1])
    ensures KeepsContext(m, step) <==> Careful(m.sys, step.call) || Lucky(m.sys, step.call)
  {
    if Careful(m.sys, step.call) {
      StepKeepsContexts(m, step);
    } else if step.call.Send? {
      SelfSendLoses(m, step);
    } else if Lucky(m.sys, step.call) {
      SelfReapKeeps(m, step);
    } else if exists i :: 0 <= i < |m.sys.table| && Runnable(m.sys.table[i]) {
      SelfReapOverwrites(m, step);
    } else {
      SelfReapLoses(m, step);
    }
  }

  /** After a send to itself a blocked process is ready, with the stack pointer of an older interrupt. */
  lemma SelfSendWakes(m: Machine, c: Call, esp: nat)
    requires Consistent(m) && Legal(m.sys, Syscall(c, esp)) && c.Send? && !Careful(m.sys, c)
    ensures var s, mid := m.sys, CallState(m.sys, c);
            && mid.current == s.current && |mid.table| == |s.table| && Preempted(mid, esp) == mid.table
            && mid.table[s.current].state == Ready && mid.table[s.current].pid == m.cpu
            && Resume(mid.table[s.current]) == Resume(s.table[s.current])
            && Next(mid.table, s.current) != -1
  {
    var mid := CallState(m.sys, c);
    assert Preempted(mid, esp) == mid.table;
    NextIsSound(mid.table, mid.current);
  }

  /** A blocked process that sends to itself loses the context of this call, whatever runs next. */
  lemma SelfSendLoses(m: Machine, step: Step)
    requires Consistent(m) && step.Syscall? && Legal(m.sys, step) && step.call.Send? && !Careful(m.sys, step.call)
    requires step.esp != Resume(m.sys.table[m.sys.current])
    ensures !KeepsContext(m, step)
    ensures Next(CallState(m.sys, step.call).table, m.sys.current) == m.sys.current ==>
              Returned(m.sys, step) == Resume(m.sys.table[m.sys.current])
  {
    SelfSendWakes(m, step.call, step.esp);
    var mid := CallState(m.sys, step.call);
    NextIsSound(mid.table, mid.current);
    hide CallState, Next, Safe;
    var m' := Advance(m, step);
    assert m'.seen[m.cpu] == step.esp;
    if Next(mid.table, mid.current) != mid.current {
      assert m'.sys.table[mid.current] == mid.table[mid.current];
    }
  }

  /** The shell alone, after boot and a receive that found no message: blocked, and still executing. */
  function BlockedShell(): Machine {
    Machine(Sys([Proc(1, 1, Blocked, 4, 8, 0, Some([]))], 0, 2), 1, map[1 := 4])
  }

  lemma ShellBlocks()
    ensures Advance(BootMachine([Task(8, true)]), Syscall(Recv(true, 1), 4)) == BlockedShell()
    ensures Consistent(BlockedShell())
  {
    var tasks := [Task(8, true)];
    assert NewProcs(tasks, 1) == [NewProc(1, 8, true)];
    var mid := CallState(Boot(tasks), Recv(true, 1));
    assert Preempted(mid, 4) == BlockedShell().sys.table;
    NextIsSound(Preempted(mid, 4), 0);
  }

  /** It happens to the shell alone: it receives, blocks, goes on, sends to itself, and is back at the receive. */
  lemma SelfSendExample()
    ensures var step := Syscall(Send(1, Some([0]), 1), 12);
            Advance(BlockedShell(), step).cpu == 1 && Returned(BlockedShell().sys, step) == 4
  {
    ShellBlocks();
    var step := Syscall(Send(1, Some([0]), 1), 12);
    SelfSendWakes(BlockedShell(), step.call, 12);
    NextIsSound(CallState(BlockedShell().sys, step.call).table, 0);
    SelfSendLoses(BlockedShell(), step);
  }

  /** The table after a dead shell has reaped itself: the last process is in slot 0. */
  lemma SelfReaped(s: Sys, pid: nat)
    requires Safe(s) && HasCurrent(s) && !Careful(s, Wait(pid))
    ensures var mid := CallState(s, Wait(pid));
            && s.current == 0 && s.table[0].state == Dead && s.table[0].pid == 1 && mid == s.(table := mid.table)
            && Safe(mid) && |mid.table| == |s.table| - 1
            && forall k :: 0 <= k < |mid.table| ==> mid.table[k] == s.table[if k == 0 then |mid.table| else k]
  {
    WaitKeepsSafe(s, pid);
  }

  /** When nothing is runnable, the dead shell has the CPU, and slot 0 is another's or nobody's. */
  lemma SelfReapLoses(m: Machine, step: Step)
    requires Consistent(m) && step.Syscall? && Legal(m.sys, step) && step.call.Wait? && !Careful(m.sys, step.call)
    requires forall i :: 0 <= i < |m.sys.table| ==> !Runnable(m.sys.table[i])
    ensures !Consistent(Advance(m, step))
    ensures var m', n := Advance(m, step), |m.sys.table| - 1;
            && m'.cpu == m.cpu == 1 && m'.sys.current == 0 && |m'.sys.table| == n
            && (n > 0 ==> m'.sys.table[0].pid == m.sys.table[n].pid != 1)
  {
    var s := m.sys;
    SelfReaped(s, step.call.pid);
    var mid := CallState(s, step.call);
    var t := Preempted(mid, step.esp);
    assert forall i :: 0 <= i < |t| ==> t[i].pid != m.cpu && !Runnable(t[i]);
    NextIsSound(t, mid.current);
  }

  /** If the last process is blocked, the tick puts the shell's stack pointer in place of its own. */
  lemma SelfReapOverwrites(m: Machine, step: Step)
    requires Consistent(m) && step.Syscall? && Legal(m.sys, step) && step.call.Wait? && !Careful(m.sys, step.call)
    requires exists i :: 0 <= i < |m.sys.table| && Runnable(m.sys.table[i])
    requires m.sys.table[|m.sys.table| - 1].state == Blocked
    requires step.esp != Resume(m.sys.table[|m.sys.table| - 1])
    ensures !Consistent(Advance(m, step))
  {
    var s := m.sys;
    SelfReaped(s, step.call.pid);
    var mid := CallState(s, step.call);
    var t := Preempted(mid, step.esp);
    var i :| 0 <= i < |s.table| && Runnable(s.table[i]);
    assert t[i] == s.table[i];
    NextIsSound(t, 0);
    hide Safe, CallState, Next;
    var m', last := Advance(m, step), s.table[|mid.table|];
    assert m'.sys.table[0] == t[0] == last.(savedEsp := step.esp) && m'.sys.current != 0;
    assert Resume(last) == Context(m, last) == Context(m', t[0]);
  }

  /** A tick when the process that has the CPU is not in the table, and all that are can be continued. */
  lemma TickWithoutCaller(m: Machine, mid: Sys, esp: nat)
    requires Safe(mid) && esp != 0 && mid.nextPid == m.sys.nextPid && m.cpu < mid.nextPid
    requires Preempted(mid, esp) == mid.table && exists i :: 0 <= i < |mid.table| && Runnable(mid.table[i])
    requires forall pid :: pid in m.seen ==> pid < mid.nextPid && m.seen[pid] != 0
    requires forall k :: 0 <= k < |mid.table| ==> mid.table[k].pid != m.cpu
    requires forall k :: 0 <= k < |mid.table| && mid.table[k].state != Dead ==>
               Resume(mid.table[k]) == Context(m, mid.table[k])
    ensures var next := Next(mid.table, mid.current);
            && 0 <= next < |mid.table|
            && var m' := Machine(TickState(mid, esp), mid.table[next].pid, m.seen[m.cpu := esp]);
               Consistent(m') && TickResult(mid, esp) == Context(m', m'.sys.table[next]) && m'.sys.current == next
  {
    TickKeepsSafe(mid, esp);
    NextIsSound(mid.table, mid.current);
    hide Fine, Next;
  }

  /** Otherwise the tick finds the books in order. */
  lemma SelfReapKeeps(m: Machine, step: Step)
    requires Consistent(m) && step.Syscall? && Legal(m.sys, step) && !Careful(m.sys, step.call)
    requires Lucky(m.sys, step.call)
    ensures KeepsContext(m, step)
  {
    var s, mid := m.sys, CallState(m.sys, step.call);
    SelfReaped(s, step.call.pid);
    var i :| 0 <= i < |s.table| && Runnable(s.table[i]);
    assert Runnable(mid.table[if i == |mid.table| then 0 else i]);
    assert Preempted(mid, step.esp) == mid.table;
    hide CallState, Next, Fine;
    forall k | 0 <= k < |mid.table|
      ensures mid.table[k].pid != 1
      ensures mid.table[k].state != Dead ==> Resume(mid.table[k]) == Context(m, mid.table[k])
    {
      var j := if k == 0 then |mid.table| else k;
      assert mid.table[k] == s.table[j] && j != 0;
    }
    TickWithoutCaller(m, mid, step.esp);
    hide Safe, Consistent, TickState;
  }

  // ---------- Messages ----------

  function Slot(s: Sys, pid: nat): int { FindPid(s.table, pid, 0) }

  function Mailbox(s: Sys, pid: nat): seq<Envelope> {
    var i := Slot(s, pid);
    if i == -1 || s.table[i].queue.None? then [] else s.table[i].queue.value
  }

  /** The message this step puts into pid's queue. */
  ghost function Posted(s: Sys, step: Step, pid: nat): seq<Envelope>
    requires Legal(s, step)
  {
    if step.Syscall? && step.call.Send? then
      var c := step.call;
      var i := SendTarget(s, c.target, c.data, c.size);
      if i != -1 && c.target == pid then [Sent(s, c.data.value, c.size)] else []
    else []
  }

  /** The message this step takes out of pid's queue. */
  function Taken(s: Sys, step: Step, pid: nat): seq<Envelope> {
    if step.Syscall? && step.call.Recv? && CanReceive(s, step.call.bufOk, step.call.size)
       && s.table[s.current].pid == pid
    then [s.table[s.current].queue.value[0]] else []
  }

  ghost function PostedTo(s: Sys, steps: seq<Step>, pid: nat): seq<Envelope>
    requires s.current >= -1 && LegalRun(s, steps)
    decreases |steps|
  {
    if steps == [] then [] else Posted(s, steps[0], pid) + PostedTo(Exec(s, steps[0]), steps[1..], pid)
  }

  ghost function TakenBy(s: Sys, steps: seq<Step>, pid: nat): seq<Envelope>
    requires s.current >= -1 && LegalRun(s, steps)
    decreases |steps|
  {
    if steps == [] then [] else Taken(s, steps[0], pid) + TakenBy(Exec(s, steps[0]), steps[1..], pid)
  }

  lemma SlotIs(s: Sys, i: nat)
    requires Safe(s) && i < |s.table|
    ensures Slot(s, s.table[i].pid) == i
  {
  }

  /** A tick moves no process and touches no queue. */
  lemma TickKeepsMail(s: Sys, esp: nat, pid: nat)
    requires Safe(s)
    ensures Slot(TickState(s, esp), pid) == Slot(s, pid)
    ensures Mailbox(TickState(s, esp), pid) == Mailbox(s, pid)
    ensures TickState(s, esp).nextPid == s.nextPid
  {
    var s' := TickState(s, esp);
    NextIsSound(Preempted(s, esp), s.current);
    assert forall i :: 0 <= i < |s.table| ==>
             s'.table[i].pid == s.table[i].pid && s'.table[i].queue == s.table[i].queue;
    var i, i' := Slot(s, pid), Slot(s', pid);
    assert i != -1 ==> s'.table[i].pid == pid;
    assert i' != -1 ==> s.table[i'].pid == pid;
  }

  lemma WaitMovesMail(s: Sys, arg: nat, pid: nat)
    requires Safe(s) && Slot(CallState(s, Wait(arg)), pid) != -1
    ensures Slot(s, pid) != -1 && Mailbox(s, pid) == Mailbox(CallState(s, Wait(arg)), pid)
  {
    if HasCurrent(s) {
      var i := FindReapable(s.table, s.table[s.current].pid, arg, 0);
      if i != -1 {
        var s' := CallState(s, Wait(arg));
        var i' := Slot(s', pid);
        var k := if i' == i then |s'.table| else i';
        assert s'.table[i'] == s.table[k];
        SlotIs(s, k);
      }
    }
  }

  /** The other calls move no process. */
  lemma CallKeepsSlots(s: Sys, c: Call, pid: nat)
    requires !c.Wait? && (c.Send? && c.data.Some? ==> c.size <= |c.data.value|)
    ensures |CallState(s, c).table| == |s.table| && Slot(CallState(s, c), pid) == Slot(s, pid)
  {
    var s' := CallState(s, c);
    assert |s'.table| == |s.table| && forall k :: 0 <= k < |s.table| ==> s'.table[k].pid == s.table[k].pid;
    var i, i' := Slot(s, pid), Slot(s', pid);
    assert i != -1 ==> s'.table[i].pid == pid;
    assert i' != -1 ==> s.table[i'].pid == pid;
  }

  /** Only a wait takes a process out of the table; the others stay, with their mail unless they are called on. */
  lemma CallMovesMail(s: Sys, c: Call, esp: nat, pid: nat)
    requires Safe(s) && Legal(s, Syscall(c, esp))
    requires Slot(CallState(s, c), pid) != -1
    ensures Slot(s, pid) != -1
    ensures Mailbox(s, pid) + Posted(s, Syscall(c, esp), pid) ==
            Taken(s, Syscall(c, esp), pid) + Mailbox(CallState(s, c), pid)
  {
    if c.Wait? {
      WaitMovesMail(s, c.pid, pid);
    } else {
      CallKeepsSlots(s, c, pid);
      if HasCurrent(s) { SlotIs(s, s.current); }
      hide Fine;
    }
  }

  /** A pid that has been given away and is not in the table never comes back. */
  lemma GoneIsGone(s: Sys, step: Step, pid: nat)
    requires Safe(s) && Legal(s, step) && pid < s.nextPid && Slot(s, pid) == -1
    ensures pid < Exec(s, step).nextPid && Slot(Exec(s, step), pid) == -1
  {
    match step
    case Timer(esp) => TickKeepsMail(s, esp, pid);
    case Syscall(c, esp) =>
      CallKeepsSafe(s, c);
      TickKeepsMail(CallState(s, c), esp, pid);
      if Slot(CallState(s, c), pid) != -1 { CallMovesMail(s, c, esp, pid); }
    case Create(_, _) =>
    case BurnPid =>
    case ShellKill(other) => CallKeepsSlots(s, Kill(other), pid);
    case Discard(other) => if Slot(DiscardState(s, other), pid) != -1 { DiscardMovesMail(s, other, pid); }
  }

  lemma DiscardMovesMail(s: Sys, other: nat, pid: nat)
    requires Safe(s) && Legal(s, Discard(other)) && Slot(DiscardState(s, other), pid) != -1
    ensures Slot(s, pid) != -1
    ensures s.table[Slot(s, pid)] == DiscardState(s, other).table[Slot(DiscardState(s, other), pid)]
  {
    var i := FindPid(s.table, other, 0);
    if i != -1 {
      var s' := DiscardState(s, other);
      var i' := Slot(s', pid);
      var k := if i' == i then |s'.table| else i';
      assert s'.table[i'] == s.table[k];
      SlotIs(s, k);
    }
  }

  lemma {:induction false} GoneForEver(s: Sys, steps: seq<Step>, pid: nat)
    requires Safe(s) && LegalRun(s, steps) && pid < s.nextPid && Slot(s, pid) == -1
    ensures Slot(RunTo(s, steps), pid) == -1
    decreases |steps|
  {
    if steps != [] {
      GoneIsGone(s, steps[0], pid);
      StepKeepsSafe(s, steps[0]);
      GoneForEver(Exec(s, steps[0]), steps[1..], pid);
    }
  }

  lemma CreateKeepsMail(s: Sys, top: nat, withQueue: bool, pid: nat)
    requires Safe(s) && Legal(s, Create(top, withQueue))
    ensures Mailbox(CreateState(s, top, withQueue), pid) == Mailbox(s, pid)
  {
    var s' := CreateState(s, top, withQueue);
    StepKeepsSafe(s, Create(top, withQueue));
    if Slot(s, pid) != -1 { SlotIs(s', Slot(s, pid)); }
    else if Slot(s', pid) != -1 { SlotIs(s', |s.table|); }
  }

  /** One step: what was waiting and what arrives is what is taken and what still waits. */
  lemma MailStep(s: Sys, step: Step, pid: nat)
    requires Safe(s) && Legal(s, step)
    requires Slot(Exec(s, step), pid) != -1 || pid >= Exec(s, step).nextPid
    ensures Mailbox(s, pid) + Posted(s, step, pid) == Taken(s, step, pid) + Mailbox(Exec(s, step), pid)
  {
    hide TickState, Next;
    match step
    case Timer(esp) => TickKeepsMail(s, esp, pid);
    case Syscall(c, esp) =>
      CallKeepsSafe(s, c);
      TickKeepsMail(CallState(s, c), esp, pid);
      if Slot(CallState(s, c), pid) != -1 { CallMovesMail(s, c, esp, pid); }
    case Create(top, withQueue) => CreateKeepsMail(s, top, withQueue, pid);
    case BurnPid =>
    case ShellKill(other) => CallKeepsSlots(s, Kill(other), pid);
    case Discard(other) => if Slot(DiscardState(s, other), pid) != -1 { DiscardMovesMail(s, other, pid); }
  }

  /** A process that is gone takes nothing more. */
  lemma {:induction false} GoneTakesNothing(s: Sys, steps: seq<Step>, pid: nat)
    requires Safe(s) && LegalRun(s, steps) && pid < s.nextPid && Slot(s, pid) == -1
    ensures TakenBy(s, steps, pid) == []
    decreases |steps|
  {
    if steps != [] {
      GoneIsGone(s, steps[0], pid);
      StepKeepsSafe(s, steps[0]);
      if HasCurrent(s) { SlotIs(s, s.current); }
      hide Exec, Fine, FindPid;
      GoneTakesNothing(Exec(s, steps[0]), steps[1..], pid);
    }
  }

  lemma TakenIsOldest(s: Sys, step: Step, pid: nat)
    requires Safe(s)
    ensures Taken(s, step, pid) <= Mailbox(s, pid)
  {
    if HasCurrent(s) { SlotIs(s, s.current); }
  }

  /**
    Messages are delivered first in, first out, none duplicated or invented: along every run, what any process
    has taken is the beginning of what was waiting for it at first followed by what was sent to it. For a
    process that is still there none is lost either: the rest is what waits in its queue.
   */
  lemma {:induction false} FirstInFirstOut(s: Sys, steps: seq<Step>, pid: nat)
    requires Safe(s) && LegalRun(s, steps)
    ensures TakenBy(s, steps, pid) <= Mailbox(s, pid) + PostedTo(s, steps, pid)
    ensures Slot(RunTo(s, steps), pid) != -1 ==>
              Mailbox(s, pid) + PostedTo(s, steps, pid) == TakenBy(s, steps, pid) + Mailbox(RunTo(s, steps), pid)
    decreases |steps|
  {
    hide Exec, Mailbox, Posted, Taken, FindPid, Fine;
    if steps != [] {
      var s' := Exec(s, steps[0]);
      StepKeepsSafe(s, steps[0]);
      TakenIsOldest(s, steps[0], pid);
      if pid < s'.nextPid && Slot(s', pid) == -1 {
        GoneForEver(s', steps[1..], pid);
        GoneTakesNothing(s', steps[1..], pid);
      } else {
        MailStep(s, steps[0], pid);
        FirstInFirstOut(s', steps[1..], pid);
        Prefixes(Mailbox(s, pid), Posted(s, steps[0], pid), PostedTo(s', steps[1..], pid), Taken(s, steps[0], pid),
                 Mailbox(s', pid), TakenBy(s', steps[1..], pid));
        if Slot(RunTo(s, steps), pid) != -1 {
          Chain(Mailbox(s, pid), Posted(s, steps[0], pid), PostedTo(s', steps[1..], pid), Taken(s, steps[0], pid),
                Mailbox(s', pid), TakenBy(s', steps[1..], pid), Mailbox(RunTo(s, steps), pid));
        }
      }
    }
  }

  lemma Prefixes<T>(q: seq<T>, p: seq<T>, ps: seq<T>, t: seq<T>, q': seq<T>, ts: seq<T>)
    requires q + p == t + q' && ts <= q' + ps
    ensures t + ts <= q + (p + ps)
  {
    assert q + (p + ps) == (q + p) + ps == t + (q' + ps);
  }

  lemma Chain<T>(q: seq<T>, p: seq<T>, ps: seq<T>, t: seq<T>, q': seq<T>, ts: seq<T>, end: seq<T>)
    requires q + p == t + q' && q' + ps == ts + end
    ensures q + (p + ps) == (t + ts) + end
  {
    calc {
      q + (p + ps);
      (q + p) + ps;
      t + (q' + ps);
      (t + ts) + end;
    }
  }

  // ---------- Deaths are reported once ----------

  /** The pid that a successful wait returns. */
  function Reaped(s: Sys, step: Step): (r: seq<nat>)
    ensures |r| <= 1
  {
    if step.Syscall? && step.call.Wait? && CallResult(s, step.call) != ERROR then [CallResult(s, step.call)] else []
  }

  ghost function ReapedIn(s: Sys, steps: seq<Step>): seq<nat>
    requires s.current >= -1 && LegalRun(s, steps)
    decreases |steps|
  {
    if steps == [] then [] else Reaped(s, steps[0]) + ReapedIn(Exec(s, steps[0]), steps[1..])
  }

  /** A wait that succeeds returns the pid of a dead child of its caller, which is then gone. */
  lemma ReapIsFinal(s: Sys, step: Step)
    requires Safe(s) && Legal(s, step) && Reaped(s, step) != []
    ensures var pid := Reaped(s, step)[0];
            && Slot(s, pid) != -1 && s.table[Slot(s, pid)].state == Dead
            && pid < Exec(s, step).nextPid && Slot(Exec(s, step), pid) == -1
  {
    var c := step.call;
    var i := FindReapable(s.table, s.table[s.current].pid, c.pid, 0);
    var pid := s.table[i].pid;
    SlotIs(s, i);
    var t := SwapRemove(s.table, i);
    assert forall k :: 0 <= k < |t| ==> t[k] == s.table[if k == i then |t| else k];
    CallKeepsSafe(s, c);
    TickKeepsMail(CallState(s, c), step.esp, pid);
  }

  lemma {:induction false} GoneIsNotReaped(s: Sys, steps: seq<Step>, pid: nat)
    requires Safe(s) && LegalRun(s, steps) && pid < s.nextPid && Slot(s, pid) == -1
    ensures pid !in ReapedIn(s, steps)
    decreases |steps|
  {
    if steps != [] {
      GoneIsGone(s, steps[0], pid);
      StepKeepsSafe(s, steps[0]);
      GoneIsNotReaped(Exec(s, steps[0]), steps[1..], pid);
    }
  }

  /** Along every run each process is reaped at most once. */
  lemma {:induction false} ReapedOnce(s: Sys, steps: seq<Step>)
    requires Safe(s) && LegalRun(s, steps)
    ensures var r := ReapedIn(s, steps); forall i, j :: 0 <= i < j < |r| ==> r[i] != r[j]
    decreases |steps|
  {
    hide Exec, Reaped, FindPid, Fine;
    if steps != [] {
      var s' := Exec(s, steps[0]);
      StepKeepsSafe(s, steps[0]);
      ReapedOnce(s', steps[1..]);
      if Reaped(s, steps[0]) != [] {
        ReapIsFinal(s, steps[0]);
        GoneIsNotReaped(s', steps[1..], Reaped(s, steps[0])[0]);
      }
      StillDifferent(Reaped(s, steps[0]), ReapedIn(s', steps[1..]));
    }
  }

  lemma StillDifferent(first: seq<nat>, rest: seq<nat>)
    requires |first| <= 1 && (forall i, j :: 0 <= i < j < |rest| ==> rest[i] != rest[j])
    requires first != [] ==> first[0] !in rest
    ensures var r := first + rest; forall i, j :: 0 <= i < j < |r| ==> r[i] != r[j]
  {
  }

  // ---------- The dead stay dead ----------

  ghost predicate IsDead(s: Sys, pid: nat) {
    Slot(s, pid) != -1 && s.table[Slot(s, pid)].state == Dead
  }

  /** A kill of a process that is in the table, and an exit, leave the process dead. */
  lemma KilledIsDead(s: Sys, c: Call, esp: nat, pid: nat)
    requires Safe(s) && Legal(s, Syscall(c, esp))
    requires || (c == Kill(pid) && exists i :: 0 <= i < |s.table| && s.table[i].pid == pid)
             || (c.Exit? && HasCurrent(s) && s.table[s.current].pid == pid)
    ensures IsDead(Exec(s, Syscall(c, esp)), pid)
  {
    CallKeepsSafe(s, c);
    CallKeepsSlots(s, c, pid);
    if c.Exit? { SlotIs(s, s.current); }
    DeadTick(CallState(s, c), esp, pid);
  }

  lemma DeadTick(s: Sys, esp: nat, pid: nat)
    requires Safe(s) && IsDead(s, pid)
    ensures IsDead(TickState(s, esp), pid) && TickState(s, esp).nextPid == s.nextPid
  {
    TickKeepsMail(s, esp, pid);
    NextIsSound(Preempted(s, esp), s.current);
  }

  /** No call of another process brings a dead one back; at most it is reaped. */
  lemma DeadCall(s: Sys, c: Call, esp: nat, pid: nat)
    requires Safe(s) && Legal(s, Syscall(c, esp)) && SenderPid(s) != pid && IsDead(s, pid)
    ensures Slot(CallState(s, c), pid) == -1 || IsDead(CallState(s, c), pid)
  {
    var s' := CallState(s, c);
    if c.Wait? {
      if HasCurrent(s) {
        var i := FindReapable(s.table, s.table[s.current].pid, c.pid, 0);
        var i' := Slot(s', pid);
        if i != -1 && i' != -1 {
          var k := if i' == i then |s'.table| else i';
          assert s'.table[i'] == s.table[k];
          SlotIs(s, k);
        }
      }
    } else {
      CallKeepsSlots(s, c, pid);
      if HasCurrent(s) { SlotIs(s, s.current); }
    }
  }

  lemma DeadStep(s: Sys, step: Step, pid: nat)
    requires Safe(s) && Legal(s, step) && (step.Syscall? ==> SenderPid(s) != pid) && pid < s.nextPid
    requires Slot(s, pid) == -1 || IsDead(s, pid)
    ensures pid < Exec(s, step).nextPid && (Slot(Exec(s, step), pid) == -1 || IsDead(Exec(s, step), pid))
  {
    hide Fine, Next, TickState;
    if Slot(s, pid) == -1 {
      GoneIsGone(s, step, pid);
    } else {
      match step
      case Timer(esp) => DeadTick(s, esp, pid);
      case Syscall(c, esp) =>
        DeadCall(s, c, esp, pid);
        CallKeepsSafe(s, c);
        var mid := CallState(s, c);
        if Slot(mid, pid) == -1 { TickKeepsMail(mid, esp, pid); } else { DeadTick(mid, esp, pid); }
      case Create(top, withQueue) =>
        StepKeepsSafe(s, step);
        SlotIs(Exec(s, step), Slot(s, pid));
      case BurnPid =>
      case ShellKill(other) => CallKeepsSlots(s, Kill(other), pid);
      case Discard(other) => if Slot(DiscardState(s, other), pid) != -1 { DiscardMovesMail(s, other, pid); }
    }
  }

  /**
    After an interrupt a process that is dead when the tick begins has the CPU exactly when it had it before and
    nothing is runnable: then the tick returns to it, and it goes on executing.
   */
  lemma DeadHasCpuIff(m: Machine, step: Step, pid: nat)
    requires Safe(m.sys) && Legal(m.sys, step) && (step.Timer? || step.Syscall?)
    requires IsDead(Dispatched(m.sys, step), pid)
    ensures var table := Dispatched(m.sys, step).table;
            Advance(m, step).cpu == pid <==> m.cpu == pid && forall i :: 0 <= i < |table| ==> !Runnable(table[i])
  {
    var mid := Dispatched(m.sys, step);
    if step.Syscall? { CallKeepsSafe(m.sys, step.call); }
    var t := Preempted(mid, step.esp);
    NextIsSound(t, mid.current);
    assert forall i :: 0 <= i < |t| ==> Runnable(t[i]) == Runnable(mid.table[i]) && t[i].pid == mid.table[i].pid;
    if Next(t, mid.current) != -1 { SlotIs(mid, Next(t, mid.current)); }
  }

  /** Who is dead after a tick was dead before. */
  lemma DeadBeforeTick(s: Sys, esp: nat, pid: nat)
    requires Safe(s) && IsDead(TickState(s, esp), pid)
    ensures IsDead(s, pid)
  {
    NextIsSound(Preempted(s, esp), s.current);
    var s' := TickState(s, esp);
    TickKeepsSafe(s, esp);
    assert forall i :: 0 <= i < |s.table| ==>
             s'.table[i].pid == s.table[i].pid && (s'.table[i].state == Dead ==> s.table[i].state == Dead);
    SlotIs(s, Slot(s', pid));
  }

  /** The shell alone, after boot and an exit: dead, and still executing. */
  function DeadShell(): Machine {
    Machine(Sys([Proc(1, 1, Dead, 0, 8, 0, Some([]))], 0, 2), 1, map[1 := 4])
  }

  /** It happens when the shell is the only process and exits. */
  lemma DeadHasCpuExample()
    ensures Advance(BootMachine([Task(8, true)]), Syscall(Exit(0), 4)) == DeadShell()
    ensures IsDead(DeadShell().sys, 1) && Returned(Boot([Task(8, true)]), Syscall(Exit(0), 4)) == 4
  {
    var tasks := [Task(8, true)];
    assert NewProcs(tasks, 1) == [NewProc(1, 8, true)];
    var mid := CallState(Boot(tasks), Exit(0));
    assert Preempted(mid, 4) == DeadShell().sys.table;
    NextIsSound(Preempted(mid, 4), 0);
  }

  /** The dead shell then reaps itself: the table is empty while its code goes on. */
  lemma SelfReapExample()
    ensures ShellReapsItself(DeadShell().sys, Syscall(Wait(1), 12))
    ensures CallState(DeadShell().sys, Wait(1)).table == [] && Advance(DeadShell(), Syscall(Wait(1), 12)).cpu == 1
  {
    var s := DeadShell().sys;
    assert FindReapable(s.table, 1, 1, 0) == 0;
    assert CallState(s, Wait(1)).table == [];
  }

  /** A process that is dead, or gone, and does not have the CPU never gets it again. */
  lemma {:induction false} TheDeadNeverRun(m: Machine, steps: seq<Step>, pid: nat)
    requires Consistent(m) && CarefulRun(m, steps) && pid < m.sys.nextPid && m.cpu != pid
    requires Slot(m.sys, pid) == -1 || IsDead(m.sys, pid)
    ensures MachineAfter(m, steps).cpu != pid
    decreases |steps|
  {
    if steps != [] {
      var m' := Advance(m, steps[0]);
      DeadStep(m.sys, steps[0], pid);
      StepKeepsContexts(m, steps[0]);
      if Slot(m'.sys, pid) != -1 && (steps[0].Timer? || steps[0].Syscall?) {
        if steps[0].Syscall? { CallKeepsSafe(m.sys, steps[0].call); }
        DeadBeforeTick(Dispatched(m.sys, steps[0]), steps[0].esp, pid);
        DeadHasCpuIff(m, steps[0], pid);
      }
      SlotIs(m'.sys, m'.sys.current);
      hide Advance, Fine, FindPid, CarefulStep, Legal;
      TheDeadNeverRun(m', steps[1..], pid);
    }
  }

  // ---------- Bounded waiting ----------

  /** How many places ahead of the current process k is, going round. */
  function Distance(current: nat, k: nat, n: nat): nat
    requires current < n && k < n
  {
    if k > current then k - current else k + n - current
  }

  /** Within one round, going ahead is plain addition. */
  lemma AheadInOneRound(from: nat, step: nat, n: nat)
    requires from < n && 1 <= step <= n
    ensures Ahead(from, step, n) == if from + step < n then from + step else from + step - n
  {
    if from + step < n {
      RemainderIs(0, n, from + step);
    } else {
      RemainderIs(1, n, from + step - n);
    }
  }

  /** find_next goes no further than a runnable k, so it picks k or comes closer to it. */
  lemma NextComesCloser(table: seq<Proc>, from: nat, k: nat)
    requires from < |table| && k < |table| && Runnable(table[k])
    ensures var next := Next(table, from);
            && 0 <= next < |table|
            && (next == k || (from != k ==> Distance(next, k, |table|) < Distance(from, k, |table|)))
  {
    var n := |table|;
    var d := Distance(from, k, n);
    AheadInOneRound(from, d, n);
    NextIsSound(table, from);
    var step := NextStep(table, from, 1);
    assert step <= d;
    AheadInOneRound(from, step, n);
  }

  predicate Interrupt(step: Step) { step.Timer? || step.Syscall? }

  function Interrupts(steps: seq<Step>): nat {
    if steps == [] then 0 else (if Interrupt(steps[0]) then 1 else 0) + Interrupts(steps[1..])
  }

  /** A step that leaves the table's shape and the waiting process alone. */
  ghost predicate Quiet(s: Sys, step: Step, pid: nat) {
    || step.Timer? || step.BurnPid? || (step.ShellKill? && step.pid != pid)
    || (step.Syscall? && step.call != Kill(pid) && (step.call.Wait? ==> CallState(s, step.call) == s))
  }

  ghost predicate QuietRun(s: Sys, steps: seq<Step>, pid: nat)
    requires s.current >= -1 && LegalRun(s, steps)
    decreases |steps|
  {
    steps != [] ==> Quiet(s, steps[0], pid) && QuietRun(Exec(s, steps[0]), steps[1..], pid)
  }

  /** Some step of the run gives the CPU to pid. */
  ghost predicate GetsCpu(s: Sys, steps: seq<Step>, pid: nat)
    requires s.current >= -1 && LegalRun(s, steps)
    decreases |steps|
  {
    && steps != []
    && var s' := Exec(s, steps[0]);
       || (HasCurrent(s') && s'.table[s'.current].pid == pid && s'.table[s'.current].state == Running)
       || GetsCpu(s', steps[1..], pid)
  }

  /** One step: a waiting process gets the CPU, or it goes on waiting in its place, nearer to its turn. */
  lemma WaitStep(s: Sys, step: Step, k: nat)
    requires Safe(s) && Legal(s, step) && HasCurrent(s)
    requires k < |s.table| && k != s.current && s.table[k].state == Ready && Quiet(s, step, s.table[k].pid)
    ensures var s' := Exec(s, step);
            && |s'.table| == |s.table| && HasCurrent(s') && s'.table[k].pid == s.table[k].pid
            && if !Interrupt(step) then s'.current == s.current && s'.table[k].state == Ready
               else if s'.current == k then s'.table[k].state == Running
               else && s'.table[k].state == Ready
                    && Distance(s'.current, k, |s.table|) < Distance(s.current, k, |s.table|)
  {
    if Interrupt(step) {
      var mid := Dispatched(s, step);
      assert |mid.table| == |s.table| && mid.current == s.current;
      assert mid.table[k].pid == s.table[k].pid && mid.table[k].state == Ready;
      hide CallState, Next, Fine;
      var t := Preempted(mid, step.esp);
      assert |t| == |mid.table| && t[k] == mid.table[k];
      NextComesCloser(t, s.current, k);
    }
  }

  /**
    Waiting is bounded: a ready process that is not killed gets the CPU within as many interrupts as it has
    processes before it, hence within one round of the table, whatever else happens between them.
   */
  lemma {:induction false} BoundedWaiting(s: Sys, steps: seq<Step>, k: nat)
    requires Safe(s) && LegalRun(s, steps) && HasCurrent(s)
    requires k < |s.table| && k != s.current && s.table[k].state == Ready
    requires QuietRun(s, steps, s.table[k].pid)
    requires Interrupts(steps) >= Distance(s.current, k, |s.table|)
    ensures GetsCpu(s, steps, s.table[k].pid)
    decreases |steps|
  {
    WaitStep(s, steps[0], k);
    StepKeepsSafe(s, steps[0]);
    hide Exec, Fine, Quiet;
    var s' := Exec(s, steps[0]);
    if s'.current != k {
      BoundedWaiting(s', steps[1..], k);
    }
  }
}
