/**
  The process table, the scheduler and message passing as one transition system on values.

  Every `int 0x80` is one step, "dispatch, then scheduler_tick", because the gate disables interrupts
  (src/interrupts/syscall_stub.s:6-28, src/interrupts/idt.cpp:80-84); a timer interrupt is the other kind
  of step (src/interrupts/isr_stub.s:35-48). The classes of Processes.dfy refine these functions.
 */
module ProcessModel {

  import opened Common

  const MAX_PROCESSES: nat := 16
  const IPC_MAX_MSG_SIZE: nat := 64
  const IPC_MAX_MSG_PER_PROC: nat := 16
  const ERROR: nat := 0xFFFFFFFF

  datatype TaskState = Ready | Running | Blocked | Dead

  /** A message as the receiver may see it. */
  datatype Envelope = Envelope(sender: nat, payload: seq<Byte>)

  datatype Proc = Proc(pid: nat, parent: nat, state: TaskState, savedEsp: nat, stackTop: nat, exitCode: int,
                       queue: Option<seq<Envelope>>)

  datatype Sys = Sys(table: seq<Proc>, current: int, nextPid: nat)

  predicate Runnable(p: Proc) {
    p.state != Dead && p.state != Blocked
  }

  predicate HasCurrent(s: Sys) {
    0 <= s.current < |s.table|
  }

  // ---------- The scheduler ----------

  /** The index reached step places after from, going round the table. */
  function Ahead(from: int, step: nat, n: nat): nat
    requires n > 0 && from >= -1 && step >= 1
  {
    (from + step) % n
  }

  /** The least step of at least i that leads to a runnable process, or n + 1. */
  function NextStep(table: seq<Proc>, from: int, i: nat): (step: nat)
    requires |table| > 0 && from >= -1 && 1 <= i <= |table| + 1
    ensures i <= step <= |table| + 1
    ensures forall k :: i <= k < step ==> !Runnable(table[Ahead(from, k, |table|)])
    ensures step <= |table| ==> Runnable(table[Ahead(from, step, |table|)])
    decreases |table| + 1 - i
  {
    if i == |table| + 1 || Runnable(table[Ahead(from, i, |table|)]) then i else NextStep(table, from, i + 1)
  }

  /** The process the scheduler picks, or -1. */
  function Next(table: seq<Proc>, from: int): int
    requires from >= -1
  {
    if |table| == 0 then -1
    else
      var step := NextStep(table, from, 1);
      if step <= |table| then Ahead(from, step, |table|) else -1
  }

  /** Going round once reaches every place. */
  lemma Round(from: int, k: nat, n: nat)
    requires k < n && from >= -1
    ensures exists step :: 1 <= step <= n && Ahead(from, step, n) == k
  {
    var r := (from + 1) % n;
    var step := 1 + if k >= r then k - r else k + n - r;
    var q := (from + 1) / n;
    assert from + step == q * n + r + (step - 1);
    if k >= r {
      assert from + step == q * n + k;
      RemainderIs(q, n, k);
    } else {
      assert from + step == (q + 1) * n + k;
      RemainderIs(q + 1, n, k);
    }
    assert Ahead(from, step, n) == k;
  }

  lemma {:induction false} RemainderIs(q: int, n: nat, k: nat)
    requires k < n && q >= 0
    ensures (q * n + k) % n == k
    decreases q
  {
    if q > 0 {
      RemainderIs(q - 1, n, k);
      AddN((q - 1) * n + k, n);
      assert q * n + k == (q - 1) * n + k + n;
    }
  }

  lemma AddN(x: int, n: nat)
    requires n > 0
    ensures (x + n) % n == x % n
  {
    var q, r := x / n, x % n;
    assert x + n == (q + 1) * n + r;
    UniqueRemainder(x + n, n, q + 1, r);
  }

  lemma UniqueRemainder(x: int, n: nat, q: int, r: int)
    requires n > 0 && x == q * n + r && 0 <= r < n
    ensures x % n == r
  {
    var q', r' := x / n, x % n;
    assert x == q' * n + r';
    if q > q' {
      Grows(q - q', n);
    } else if q < q' {
      Grows(q' - q, n);
    }
  }

  lemma Grows(a: nat, n: nat)
    requires a >= 1
    ensures a * n >= n
  {
  }

  /** find_next answers -1 exactly when nothing is runnable, and otherwise a runnable process. */
  lemma NextIsSound(table: seq<Proc>, from: int)
    requires from >= -1
    ensures Next(table, from) == -1 <==> forall k :: 0 <= k < |table| ==> !Runnable(table[k])
    ensures Next(table, from) != -1 ==> 0 <= Next(table, from) < |table| && Runnable(table[Next(table, from)])
  {
    if |table| > 0 {
      forall k | 0 <= k < |table| && Runnable(table[k]) ensures NextStep(table, from, 1) <= |table| {
        Round(from, k, |table|);
      }
    }
  }

  /** The interrupted process is put back, with its stack pointer, unless it is dead. */
  function Preempt(p: Proc, esp: nat): Proc {
    match p.state
    case Running => p.(state := Ready, savedEsp := esp)
    case Blocked => p.(savedEsp := esp)
    case _ => p
  }

  function Preempted(s: Sys, esp: nat): seq<Proc> {
    if HasCurrent(s) then s.table[s.current := Preempt(s.table[s.current], esp)] else s.table
  }

  /** Where a process continues: where it was interrupted, or at its initial frame. */
  function Resume(p: Proc): nat {
    if p.savedEsp != 0 then p.savedEsp else p.stackTop
  }

  function TickState(s: Sys, esp: nat): Sys
    requires s.current >= -1
  {
    var table := Preempted(s, esp);
    var next := Next(table, s.current);
    if next == -1 then s.(table := table)
    else
      NextIsSound(table, s.current);
      s.(table := table[next := table[next].(state := Running)], current := next)
  }

  /** The stack pointer the interrupt returns on. */
  function TickResult(s: Sys, esp: nat): nat
    requires s.current >= -1
  {
    var table := Preempted(s, esp);
    var next := Next(table, s.current);
    if next == -1 then esp
    else
      NextIsSound(table, s.current);
      Resume(table[next])
  }

  // ---------- System calls ----------

  /** The least index at or after i with this pid, or -1. */
  function FindPid(table: seq<Proc>, pid: nat, i: nat): (r: int)
    requires i <= |table|
    ensures r == -1 || (i <= r < |table| && table[r].pid == pid)
    ensures forall k :: i <= k < (if r == -1 then |table| else r) ==> table[k].pid != pid
    decreases |table| - i
  {
    if i == |table| then -1 else if table[i].pid == pid then i else FindPid(table, pid, i + 1)
  }

  /** A child that a wait for arg by process me may reap; a negative arg means any child. */
  predicate Reapable(p: Proc, me: nat, arg: nat) {
    p.parent == me && (arg >= 0x8000_0000 || p.pid == arg) && p.state == Dead
  }

  function FindReapable(table: seq<Proc>, me: nat, arg: nat, i: nat): (r: int)
    requires i <= |table|
    ensures r == -1 || (i <= r < |table| && Reapable(table[r], me, arg))
    ensures forall k :: i <= k < (if r == -1 then |table| else r) ==> !Reapable(table[k], me, arg)
    decreases |table| - i
  {
    if i == |table| then -1 else if Reapable(table[i], me, arg) then i else FindReapable(table, me, arg, i + 1)
  }

  /** The last entry takes the place of entry i, and the table is one shorter. */
  function SwapRemove(table: seq<Proc>, i: nat): seq<Proc>
    requires i < |table|
  {
    table[i := table[|table| - 1]][..|table| - 1]
  }

  datatype Call =
    | Exit(code: int)
    | Wait(pid: nat)
    | Kill(pid: nat)
    | Send(target: nat, data: Option<seq<Byte>>, size: nat)
    | Recv(bufOk: bool, size: nat)

  /** The place of the process that a send reaches, or -1 if the send fails. */
  function SendTarget(s: Sys, target: nat, data: Option<seq<Byte>>, size: nat): (r: int)
    ensures r != -1 ==> 0 <= r < |s.table| && s.table[r].queue.Some?
  {
    if data.None? || size == 0 || size > IPC_MAX_MSG_SIZE then -1
    else
      var i := FindPid(s.table, target, 0);
      if i == -1 || s.table[i].state == Dead || s.table[i].queue.None?
         || |s.table[i].queue.value| >= IPC_MAX_MSG_PER_PROC then -1
      else i
  }

  function SenderPid(s: Sys): nat {
    if HasCurrent(s) then s.table[s.current].pid else 0
  }

  /** What a send puts into the queue. */
  function Sent(s: Sys, data: seq<Byte>, size: nat): Envelope
    requires size <= |data|
  {
    Envelope(SenderPid(s), data[..size])
  }

  /** A delivered message wakes its receiver. */
  function Deliver(p: Proc, e: Envelope): Proc
    requires p.queue.Some?
  {
    p.(queue := Some(p.queue.value + [e]), state := if p.state == Blocked then Ready else p.state)
  }

  function SendState(s: Sys, target: nat, data: Option<seq<Byte>>, size: nat): Sys
    requires data.Some? ==> size <= |data.value|
  {
    var i := SendTarget(s, target, data, size);
    if i == -1 then s else s.(table := s.table[i := Deliver(s.table[i], Sent(s, data.value, size))])
  }

  /** A receive is possible, and a message is waiting. */
  predicate CanReceive(s: Sys, bufOk: bool, size: nat) {
    && HasCurrent(s) && bufOk && size != 0
    && s.table[s.current].queue.Some? && s.table[s.current].queue.value != []
  }

  function RecvState(s: Sys, bufOk: bool, size: nat): Sys {
    if !HasCurrent(s) || !bufOk || size == 0 || s.table[s.current].queue.None? then s
    else
      var me := s.table[s.current];
      if me.queue.value == [] then s.(table := s.table[s.current := me.(state := Blocked)])
      else s.(table := s.table[s.current := me.(queue := Some(me.queue.value[1..]))])
  }

  /** The message data, cut to the receiver's buffer: as much of its beginning as fits. */
  function Cut(payload: seq<Byte>, size: nat): (bytes: seq<Byte>)
    ensures bytes <= payload && |bytes| <= size && (|bytes| == size || bytes == payload)
  {
    if |payload| < size then payload else payload[..size]
  }

  function CallState(s: Sys, c: Call): Sys
    requires c.Send? && c.data.Some? ==> c.size <= |c.data.value|
  {
    match c
    case Exit(code) =>
      if !HasCurrent(s) then s
      else s.(table := s.table[s.current := s.table[s.current].(exitCode := code, state := Dead)])
    case Wait(pid) =>
      if !HasCurrent(s) then s
      else
        var i := FindReapable(s.table, s.table[s.current].pid, pid, 0);
        if i == -1 then s else s.(table := SwapRemove(s.table, i))
    case Kill(pid) =>
      var i := FindPid(s.table, pid, 0);
      if i == -1 then s else s.(table := s.table[i := s.table[i].(state := Dead)])
    case Send(target, data, size) => SendState(s, target, data, size)
    case Recv(bufOk, size) => RecvState(s, bufOk, size)
  }

  /** What the call returns to its caller. */
  function CallResult(s: Sys, c: Call): nat
    requires c.Send? && c.data.Some? ==> c.size <= |c.data.value|
  {
    match c
    case Exit(_) => 0
    case Wait(pid) =>
      if !HasCurrent(s) then ERROR
      else
        var i := FindReapable(s.table, s.table[s.current].pid, pid, 0);
        if i == -1 then ERROR else s.table[i].pid
    case Kill(pid) => if FindPid(s.table, pid, 0) == -1 then ERROR else 0
    case Send(target, data, size) => if SendTarget(s, target, data, size) == -1 then ERROR else 0
    case Recv(bufOk, size) =>
      if !HasCurrent(s) || !bufOk || size == 0 || s.table[s.current].queue.None? then ERROR
      else if s.table[s.current].queue.value == [] then 0
      else |Cut(s.table[s.current].queue.value[0].payload, size)|
  }

  // ---------- Process creation ----------

  function NewProc(pid: nat, stackTop: nat, withQueue: bool): Proc {
    Proc(pid, 1, Ready, 0, stackTop, 0, if withQueue then Some([]) else None)
  }

  /** A created process takes the next pid and the next slot. */
  function CreateState(s: Sys, stackTop: nat, withQueue: bool): Sys {
    s.(table := s.table + [NewProc(s.nextPid, stackTop, withQueue)], nextPid := s.nextPid + 1)
  }

  /** A process of kernel_main: its initial frame, and whether there was memory for its queue. */
  datatype Task = Task(stackTop: nat, withQueue: bool)

  function NewProcs(tasks: seq<Task>, n: nat): (r: seq<Proc>)
    requires n <= |tasks|
    ensures |r| == n && forall k :: 0 <= k < n ==> r[k] == NewProc(k + 1, tasks[k].stackTop, tasks[k].withQueue)
  {
    if n == 0 then [] else NewProcs(tasks, n - 1) + [NewProc(n, tasks[n - 1].stackTop, tasks[n - 1].withQueue)]
  }

  /** kernel_main: the shell and the background tasks, then process_first_enter of the shell. */
  function Boot(tasks: seq<Task>): Sys
    requires |tasks| >= 1
  {
    var table := NewProcs(tasks, |tasks|);
    Sys(table[0 := table[0].(state := Running)], 0, |tasks| + 1)
  }

  // ---------- Steps ----------

  datatype Step =
    | Timer(esp: nat)
    | Syscall(call: Call, esp: nat)
    | Create(stackTop: nat, withQueue: bool)
    | BurnPid                         // a creation that fails after it has taken its pid
    | ShellKill(pid: nat)             // the shell's kill command, which marks a process dead directly
    | Discard(pid: nat)               // the shell destroys a process after a failed exec, whatever its state

  function DiscardState(s: Sys, pid: nat): Sys {
    var i := FindPid(s.table, pid, 0);
    if i == -1 then s else s.(table := SwapRemove(s.table, i))
  }

  /** The shell is the process that runs. */
  predicate ShellRuns(s: Sys) {
    HasCurrent(s) && s.table[s.current].pid == 1 && s.table[s.current].state == Running
  }

  function Exec(s: Sys, step: Step): Sys
    requires s.current >= -1
    requires step.Syscall? && step.call.Send? && step.call.data.Some? ==> step.call.size <= |step.call.data.value|
    ensures Exec(s, step).current >= -1
  {
    match step
    case Timer(esp) => TickState(s, esp)
    case Syscall(c, esp) => TickState(CallState(s, c), esp)
    case Create(top, q) => CreateState(s, top, q)
    case BurnPid => s.(nextPid := s.nextPid + 1)
    case ShellKill(pid) => CallState(s, Kill(pid))
    case Discard(pid) => DiscardState(s, pid)
  }

  /**
    The steps that can be taken: stack pointers are never null, a creation needs room in the table (it panics
    otherwise), the 32-bit pid counter does not wrap, and the shell's own commands need the shell to run.
   */
  ghost predicate Legal(s: Sys, step: Step) {
    match step
    case Timer(esp) => esp != 0
    case Syscall(c, esp) => esp != 0 && (c.Send? && c.data.Some? ==> c.size <= |c.data.value|)
    case Create(top, _) => |s.table| < MAX_PROCESSES && top != 0 && s.nextPid < 0xFFFFFFFF
    case BurnPid => s.nextPid < 0xFFFFFFFF
    case ShellKill(_) => ShellRuns(s)
    case Discard(pid) => ShellRuns(s) && pid != 1
  }
}
