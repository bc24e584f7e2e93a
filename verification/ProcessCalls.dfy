/**
  What each call and each creation does, said of the table alone and without the model's own functions, and what
  follows for whole runs: a created process gets its turn, and the bytes that are received are the bytes sent.
 */
module ProcessCalls {

  import opened Common
  import opened ProcessModel
  import opened ProcessRuns

  // ---------- Death ----------

  /** Where the processes with this pid are, their states are Dead; everything else is as it was. */
  ghost predicate DeadAt(s: Sys, s': Sys, pid: nat) {
    && s'.current == s.current && s'.nextPid == s.nextPid && |s'.table| == |s.table|
    && (forall k :: 0 <= k < |s.table| && s.table[k].pid == pid ==> s'.table[k] == s.table[k].(state := Dead))
    && (forall k :: 0 <= k < |s.table| && s.table[k].pid != pid ==> s'.table[k] == s.table[k])
  }

  /** A kill returns 0 exactly if some process has the pid; that one is dead then, and nothing else has changed. */
  lemma KillAnswers(s: Sys, pid: nat)
    requires Safe(s)
    ensures var there := exists k :: 0 <= k < |s.table| && s.table[k].pid == pid;
            && CallResult(s, Kill(pid)) == (if there then 0 else ERROR)
            && (!there ==> CallState(s, Kill(pid)) == s)
    ensures DeadAt(s, CallState(s, Kill(pid)), pid)
    ensures DeadAt(s, Exec(s, ShellKill(pid)), pid)
  {
    forall k | 0 <= k < |s.table| && s.table[k].pid == pid ensures FindPid(s.table, pid, 0) == k { SlotIs(s, k); }
  }

  /** An exit leaves the caller dead, with its exit code, and returns 0. */
  lemma ExitAnswers(s: Sys, code: int)
    ensures CallResult(s, Exit(code)) == 0
    ensures CallState(s, Exit(code)) == if !(0 <= s.current < |s.table|) then s
            else var p := s.table[s.current]; s.(table := s.table[s.current := p.(state := Dead, exitCode := code)])
  {
  }

  // ---------- Leaving the table ----------

  /** Taking entry i out loses no other entry, and moves none but the last. */
  lemma RemovesOne(table: seq<Proc>, i: nat)
    requires i < |table|
    ensures var t := SwapRemove(table, i);
            && |t| == |table| - 1 && (forall k :: 0 <= k < |t| && k != i ==> t[k] == table[k])
            && multiset(t) == multiset(table) - multiset{table[i]}
  {
    var n := |table| - 1;
    assert table == table[..n] + [table[n]];
    if i < n {
      var t := table[..n];
      assert SwapRemove(table, i) == t[i := table[n]];
    } else {
      assert SwapRemove(table, i) == table[..n];
    }
  }

  /** Entry k is a dead child of process me that a wait for arg asks for; a negative arg asks for any. */
  ghost predicate DeadChild(s: Sys, me: nat, arg: nat, k: int) {
    && 0 <= k < |s.table| && s.table[k].parent == me && s.table[k].state == Dead
    && (s.table[k].pid == arg || arg >= 0x8000_0000)
  }

  /** Exactly this process has left the table. */
  ghost predicate OneLess(s: Sys, s': Sys, k: nat) {
    && k < |s.table| && s'.current == s.current && s'.nextPid == s.nextPid
    && multiset(s'.table) == multiset(s.table) - multiset{s.table[k]}
  }

  /**
    A wait fails exactly when there is no dead child that it asks for; otherwise it returns the pid of the first
    one in the table, and exactly that one leaves the table.
   */
  lemma WaitAnswers(s: Sys, arg: nat)
    requires Safe(s) && HasCurrent(s)
    ensures var me, r, s' := s.table[s.current].pid, CallResult(s, Wait(arg)), CallState(s, Wait(arg));
            && (r == ERROR <==> forall k :: !DeadChild(s, me, arg, k)) && (r == ERROR ==> s' == s)
            && forall k :: DeadChild(s, me, arg, k) && (forall j :: j < k ==> !DeadChild(s, me, arg, j)) ==>
                 r == s.table[k].pid && OneLess(s, s', k)
  {
    var me := s.table[s.current].pid;
    var i := FindReapable(s.table, me, arg, 0);
    assert forall k :: 0 <= k < |s.table| ==> (DeadChild(s, me, arg, k) <==> Reapable(s.table[k], me, arg));
    if i != -1 {
      assert DeadChild(s, me, arg, i);
      RemovesOne(s.table, i);
    }
  }

  /** A discard takes exactly the process with the pid out of the table, whatever its state. */
  lemma DiscardAnswers(s: Sys, pid: nat)
    requires Safe(s)
    ensures forall k :: 0 <= k < |s.table| && s.table[k].pid == pid ==> OneLess(s, DiscardState(s, pid), k)
    ensures (forall k :: 0 <= k < |s.table| ==> s.table[k].pid != pid) ==> DiscardState(s, pid) == s
  {
    forall k | 0 <= k < |s.table| && s.table[k].pid == pid ensures OneLess(s, DiscardState(s, pid), k) {
      SlotIs(s, k);
      RemovesOne(s.table, k);
    }
  }

  // ---------- Messages ----------

  /** Process k is alive and its queue has room. */
  ghost predicate HasRoom(s: Sys, target: nat, k: int) {
    && 0 <= k < |s.table| && s.table[k].pid == target && s.table[k].state != Dead
    && s.table[k].queue.Some? && |s.table[k].queue.value| < IPC_MAX_MSG_PER_PROC
  }

  /** The process after the message e has been put into its queue: a sleeper is ready, any other state stays. */
  ghost predicate Notified(p: Proc, p': Proc, e: Envelope)
    requires p.queue.Some?
  {
    && p'.queue == Some(p.queue.value + [e])
    && p'.state == (if p.state == Blocked then Ready else p.state)
    && p' == p.(queue := p'.queue, state := p'.state)
  }

  /**
    A send succeeds exactly when it has 1 to 64 bytes for a process that is alive and whose queue has room; then
    the message, signed by the caller, is the last in that queue, a sleeping receiver is ready, and nothing else
    has changed. A send that fails changes nothing.
   */
  lemma SendAnswers(s: Sys, target: nat, data: Option<seq<Byte>>, size: nat)
    requires Safe(s) && (data.Some? ==> size <= |data.value|)
    ensures var c := Send(target, data, size);
            && var s', ok := CallState(s, c), data.Some? && 1 <= size <= 64 && exists k :: HasRoom(s, target, k);
            && CallResult(s, c) == (if ok then 0 else ERROR) && (!ok ==> s' == s)
            && (ok ==> forall k :: HasRoom(s, target, k) ==>
                  && |s'.table| == |s.table| && s' == s.(table := s.table[k := s'.table[k]])
                  && var me := if 0 <= s.current < |s.table| then s.table[s.current].pid else 0;
                     Notified(s.table[k], s'.table[k], Envelope(me, data.value[..size])))
  {
    forall k | 0 <= k < |s.table| && s.table[k].pid == target ensures FindPid(s.table, target, 0) == k { SlotIs(s, k); }
    if SendTarget(s, target, data, size) != -1 { assert HasRoom(s, target, FindPid(s.table, target, 0)); }
  }

  /**
    A receive fails exactly without a caller, a buffer, room in it or a queue. On an empty queue it returns 0 and
    the caller sleeps. Otherwise it takes the oldest message and returns how much of it fits the buffer.
   */
  lemma ReceiveAnswers(s: Sys, bufOk: bool, size: nat)
    ensures var r, s' := CallResult(s, Recv(bufOk, size)), CallState(s, Recv(bufOk, size));
            if !(0 <= s.current < |s.table|) || !bufOk || size == 0 || s.table[s.current].queue.None?
            then r == ERROR && s' == s
            else
              var me, queue := s.table[s.current], s.table[s.current].queue.value;
              && |s'.table| == |s.table| && s' == s.(table := s.table[s.current := s'.table[s.current]])
              && if queue == [] then r == 0 && s'.table[s.current] == me.(state := Blocked)
                 else && r == (if |queue[0].payload| <= size then |queue[0].payload| else size)
                      && s'.table[s.current] == me.(queue := Some(queue[1..]))
  {
  }

  /** The bytes that a receive by pid puts into the buffer. */
  function Delivered(s: Sys, step: Step, pid: nat): seq<seq<Byte>> {
    if step.Syscall? && step.call.Recv? && CanReceive(s, step.call.bufOk, step.call.size)
       && s.table[s.current].pid == pid
    then [Cut(s.table[s.current].queue.value[0].payload, step.call.size)] else []
  }

  ghost function DeliveredTo(s: Sys, steps: seq<Step>, pid: nat): seq<seq<Byte>>
    requires s.current >= -1 && LegalRun(s, steps)
    decreases |steps|
  {
    if steps == [] then [] else Delivered(s, steps[0], pid) + DeliveredTo(Exec(s, steps[0]), steps[1..], pid)
  }

  /** The data of a successful send to pid. */
  ghost function Data(s: Sys, step: Step, pid: nat): seq<seq<Byte>>
    requires Legal(s, step)
  {
    if step.Syscall? && step.call.Send? && step.call.target == pid && CallResult(s, step.call) == 0
    then [step.call.data.value[..step.call.size]] else []
  }

  /** The data strings that successful sends along the run carry to pid. */
  ghost function DataSent(s: Sys, steps: seq<Step>, pid: nat): seq<seq<Byte>>
    requires s.current >= -1 && LegalRun(s, steps)
    decreases |steps|
  {
    if steps == [] then [] else Data(s, steps[0], pid) + DataSent(Exec(s, steps[0]), steps[1..], pid)
  }

  function Payloads(messages: seq<Envelope>): (r: seq<seq<Byte>>)
    ensures |r| == |messages| && forall i :: 0 <= i < |r| ==> r[i] == messages[i].payload
  {
    seq(|messages|, i requires 0 <= i < |messages| => messages[i].payload)
  }

  lemma PayloadsJoin(x: seq<Envelope>, y: seq<Envelope>)
    ensures Payloads(x + y) == Payloads(x) + Payloads(y)
  {
  }

  ghost predicate Small(messages: seq<Envelope>) {
    forall i :: 0 <= i < |messages| ==> 1 <= |messages[i].payload| <= IPC_MAX_MSG_SIZE
  }

  /** Every receive of the run has a buffer for a message of any size. */
  ghost predicate Roomy(steps: seq<Step>) {
    forall i :: 0 <= i < |steps| && steps[i].Syscall? && steps[i].call.Recv? ==> steps[i].call.size >= IPC_MAX_MSG_SIZE
  }

  lemma SmallJoin(x: seq<Envelope>, y: seq<Envelope>)
    ensures Small(x + y) <==> Small(x) && Small(y)
  {
    if Small(x + y) {
      assert forall i :: 0 <= i < |x| ==> x[i] == (x + y)[i];
      assert forall i :: 0 <= i < |y| ==> y[i] == (x + y)[|x| + i];
    }
  }

  lemma DataIsPosted(s: Sys, step: Step, pid: nat)
    requires Legal(s, step)
    ensures Data(s, step, pid) == Payloads(Posted(s, step, pid)) && Small(Posted(s, step, pid))
  {
  }

  /** What is sent is what is posted, and it is small. */
  lemma {:induction false} SentIsPosted(s: Sys, steps: seq<Step>, pid: nat)
    requires s.current >= -1 && LegalRun(s, steps)
    ensures DataSent(s, steps, pid) == Payloads(PostedTo(s, steps, pid)) && Small(PostedTo(s, steps, pid))
    decreases |steps|
  {
    hide Exec, Data, Posted, Small, Payloads;
    if steps != [] {
      DataIsPosted(s, steps[0], pid);
      var s' := Exec(s, steps[0]);
      SentIsPosted(s', steps[1..], pid);
      PayloadsJoin(Posted(s, steps[0], pid), PostedTo(s', steps[1..], pid));
      SmallJoin(Posted(s, steps[0], pid), PostedTo(s', steps[1..], pid));
    } else {
      NoMessages();
    }
  }

  lemma NoMessages()
    ensures Payloads([]) == [] && Small([])
  {
  }

  /** A receive delivers the beginning of the message it takes, and all of it if the buffer has room. */
  lemma DeliveredStep(s: Sys, step: Step, pid: nat)
    ensures var d, t := Delivered(s, step, pid), Taken(s, step, pid);
            && |d| == |t| && (forall i :: 0 <= i < |d| ==> d[i] <= t[i].payload)
            && (Roomy([step]) && Small(t) ==> d == Payloads(t))
  {
    var d, t := Delivered(s, step, pid), Taken(s, step, pid);
    if t != [] && Roomy([step]) && Small(t) {
      assert [step][0] == step && |t[0].payload| <= step.call.size;
      assert d[0] == t[0].payload;
    }
  }

  lemma {:induction false} DeliveredIsTaken(s: Sys, steps: seq<Step>, pid: nat)
    requires s.current >= -1 && LegalRun(s, steps)
    ensures var d, t := DeliveredTo(s, steps, pid), TakenBy(s, steps, pid);
            && |d| == |t| && (forall i :: 0 <= i < |d| ==> d[i] <= t[i].payload)
            && (Roomy(steps) && Small(t) ==> d == Payloads(t))
    decreases |steps|
  {
    hide Exec, Delivered, Taken, Small, Payloads;
    if steps != [] {
      DeliveredStep(s, steps[0], pid);
      var s' := Exec(s, steps[0]);
      DeliveredIsTaken(s', steps[1..], pid);
      assert Roomy(steps) ==> Roomy([steps[0]]) && Roomy(steps[1..]);
      hide Roomy;
      SmallJoin(Taken(s, steps[0], pid), TakenBy(s', steps[1..], pid));
      PayloadsJoin(Taken(s, steps[0], pid), TakenBy(s', steps[1..], pid));
    } else {
      NoMessages();
    }
  }

  lemma TakenIsSmall(first: seq<Envelope>, posted: seq<Envelope>, taken: seq<Envelope>)
    requires Small(first) && Small(posted) && taken <= first + posted
    ensures Small(taken)
  {
    assert forall i :: 0 <= i < |taken| ==> taken[i] == (first + posted)[i];
  }

  lemma Assembled(first: seq<Envelope>, posted: seq<Envelope>, taken: seq<Envelope>, last: seq<Envelope>, there: bool,
        data: seq<seq<Byte>>, delivered: seq<seq<Byte>>)
    requires taken <= first + posted && (there ==> first + posted == taken + last)
    requires Small(first) && Small(posted) && data == Payloads(posted)
    requires Small(taken) ==> delivered == Payloads(taken)
    ensures delivered <= Payloads(first) + data
    ensures there ==> Payloads(first) + data == delivered + Payloads(last)
  {
    TakenIsSmall(first, posted, taken);
    var rest := (first + posted)[|taken|..];
    assert first + posted == taken + rest;
    PayloadsJoin(first, posted);
    PayloadsJoin(taken, rest);
    if there { PayloadsJoin(taken, last); }
  }

  /**
    From end to end: along every run in which the receives have buffers of 64 bytes, the byte strings that a process
    receives are, in order and unchanged, what was waiting for it at first and then what was sent to it.
   */
  lemma ReceivedIsSent(s: Sys, steps: seq<Step>, pid: nat)
    requires Safe(s) && LegalRun(s, steps) && Roomy(steps) && Small(Mailbox(s, pid))
    ensures DeliveredTo(s, steps, pid) <= Payloads(Mailbox(s, pid)) + DataSent(s, steps, pid)
    ensures Slot(RunTo(s, steps), pid) != -1 ==>
              Payloads(Mailbox(s, pid)) + DataSent(s, steps, pid)
              == DeliveredTo(s, steps, pid) + Payloads(Mailbox(RunTo(s, steps), pid))
  {
    FirstInFirstOut(s, steps, pid);
    SentIsPosted(s, steps, pid);
    DeliveredIsTaken(s, steps, pid);
    hide Safe, LegalRun, Roomy, Mailbox, Slot, PostedTo, TakenBy, DeliveredTo, DataSent, RunTo, Small, Payloads;
    Assembled(Mailbox(s, pid), PostedTo(s, steps, pid), TakenBy(s, steps, pid), Mailbox(RunTo(s, steps), pid),
              Slot(RunTo(s, steps), pid) != -1, DataSent(s, steps, pid), DeliveredTo(s, steps, pid));
  }

  // ---------- Creation ----------

  /** A process as it is born: ready to run from its initial frame, a child of the shell, with no mail. */
  ghost predicate NewBorn(p: Proc, pid: nat, stackTop: nat, withQueue: bool) {
    && p.pid == pid && p.parent == 1 && p.state == Ready && p.exitCode == 0
    && p.stackTop == stackTop && p.savedEsp == 0 && p.queue == (if withQueue then Some([]) else None)
  }

  /** A created process takes the next pid and the slot behind the others, which stay as they were. */
  lemma CreatedIsReady(s: Sys, stackTop: nat, withQueue: bool)
    requires s.current >= -1
    ensures var s' := Exec(s, Create(stackTop, withQueue));
            && s'.nextPid == s.nextPid + 1 && s'.current == s.current && |s'.table| == |s.table| + 1
            && s'.table[..|s.table|] == s.table && NewBorn(s'.table[|s.table|], s.nextPid, stackTop, withQueue)
  {
  }

  /** After boot the shell runs in slot 0, and the background tasks behind it are ready. */
  lemma BootIsReady(tasks: seq<Task>)
    requires 1 <= |tasks|
    ensures var s := Boot(tasks);
            && |s.table| == |tasks| && s.current == 0 && s.nextPid == |tasks| + 1
            && s.table[0].state == Running
            && NewBorn(s.table[0].(state := Ready), 1, tasks[0].stackTop, tasks[0].withQueue)
            && forall k {:trigger s.table[k]} :: 1 <= k < |tasks| ==>
                 NewBorn(s.table[k], k + 1, tasks[k].stackTop, tasks[k].withQueue)
  {
  }
}
