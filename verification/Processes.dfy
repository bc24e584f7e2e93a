/**
  The process table as the kernel keeps it: objects updated in place, a circular message queue per process,
  and loops over the table. Every method is proved to do what ProcessModel says, so that what ProcessRuns
  proves about runs holds of these objects.
 */
module Processes {

  import opened Common
  import opened ProcessModel
  import opened ProcessRuns
  import opened ProcessCalls

  /** One slot of a queue. A shorter message leaves the tail of the slot's old bytes in place. */
  datatype Message = Message(sender: nat, size: nat, data: seq<Byte>)

  predicate MessageOk(m: Message) { m.size <= IPC_MAX_MSG_SIZE && |m.data| == IPC_MAX_MSG_SIZE }

  function Content(m: Message): Envelope
    requires MessageOk(m)
  {
    Envelope(m.sender, m.data[..m.size])
  }

  /** The slot that lies k places behind head. */
  function Place(head: nat, k: nat): nat { (head + k) % IPC_MAX_MSG_PER_PROC }

  /** The messages in the count slots from head on, going round. */
  ghost function Window(slots: seq<Message>, head: nat, count: nat): (w: seq<Envelope>)
    requires |slots| == IPC_MAX_MSG_PER_PROC && forall i :: 0 <= i < |slots| ==> MessageOk(slots[i])
    requires head < IPC_MAX_MSG_PER_PROC && count <= IPC_MAX_MSG_PER_PROC
    ensures |w| == count && forall k :: 0 <= k < count ==> w[k] == Content(slots[Place(head, k)])
  {
    seq(count, k requires 0 <= k < count => Content(slots[Place(head, k)]))
  }

  lemma PlaceIs(head: nat, k: nat)
    requires head < IPC_MAX_MSG_PER_PROC && k <= IPC_MAX_MSG_PER_PROC
    ensures Place(head, k) == if head + k < IPC_MAX_MSG_PER_PROC then head + k else head + k - IPC_MAX_MSG_PER_PROC
  {
    if head + k < IPC_MAX_MSG_PER_PROC {
      RemainderIs(0, IPC_MAX_MSG_PER_PROC, head + k);
    } else {
      RemainderIs(1, IPC_MAX_MSG_PER_PROC, head + k - IPC_MAX_MSG_PER_PROC);
    }
  }

  lemma PlacesDiffer(head: nat, k: nat, count: nat)
    requires head < IPC_MAX_MSG_PER_PROC && k < count < IPC_MAX_MSG_PER_PROC
    ensures Place(head, k) != Place(head, count)
  {
    hide Place;
    PlaceIs(head, k);
    PlaceIs(head, count);
  }

  lemma PlaceAfter(head: nat, count: nat)
    requires head < IPC_MAX_MSG_PER_PROC && count < IPC_MAX_MSG_PER_PROC
    ensures Place(head, count) < IPC_MAX_MSG_PER_PROC && Place(head, count + 1) == Place(Place(head, count), 1)
  {
    hide Place;
    PlaceIs(head, count);
    PlaceIs(head, count + 1);
    PlaceIs(Place(head, count), 1);
  }

  /** Filling the slot behind the last message appends to the window. */
  lemma WindowPush(slots: seq<Message>, head: nat, count: nat, m: Message)
    requires |slots| == IPC_MAX_MSG_PER_PROC && (forall i :: 0 <= i < |slots| ==> MessageOk(slots[i])) && MessageOk(m)
    requires head < IPC_MAX_MSG_PER_PROC && count < IPC_MAX_MSG_PER_PROC
    ensures Window(slots[Place(head, count) := m], head, count + 1) == Window(slots, head, count) + [Content(m)]
    ensures Place(head, count + 1) == Place(Place(head, count), 1)
  {
    PlaceAfter(head, count);
    forall k | 0 <= k < count ensures Place(head, k) != Place(head, count) { PlacesDiffer(head, k, count); }
    hide Place, Content;
  }

  /** Counted from the next slot, the k-th slot is the one before. */
  lemma PlaceNext(head: nat, k: nat)
    requires head < IPC_MAX_MSG_PER_PROC && 1 <= k <= IPC_MAX_MSG_PER_PROC
    ensures Place(head, k) == Place(Place(head, 1), k - 1)
  {
    hide Place;
    PlaceIs(head, k);
    PlaceIs(head, 1);
    PlaceIs(Place(head, 1), k - 1);
  }

  /** Moving head on by one drops the oldest message of the window. */
  lemma WindowPop(slots: seq<Message>, head: nat, count: nat)
    requires |slots| == IPC_MAX_MSG_PER_PROC && forall i :: 0 <= i < |slots| ==> MessageOk(slots[i])
    requires head < IPC_MAX_MSG_PER_PROC && 0 < count <= IPC_MAX_MSG_PER_PROC
    ensures Window(slots, head, count) == [Content(slots[head])] + Window(slots, Place(head, 1), count - 1)
    ensures Place(Place(head, 1), count - 1) == Place(head, count)
  {
    hide Place, Content;
    PlaceIs(head, 0);
    PlaceIs(head, 1);
    PlaceNext(head, count);
    var w, w' := Window(slots, head, count), Window(slots, Place(head, 1), count - 1);
    forall k | 1 <= k < count ensures w[k] == w'[k - 1] { PlaceNext(head, k); }
  }

  class MessageQueue {
    const msgs: array<Message>
    var head: nat
    var tail: nat
    var count: nat

    ghost predicate Valid()
      reads this, msgs
    {
      && msgs.Length == IPC_MAX_MSG_PER_PROC
      && head < IPC_MAX_MSG_PER_PROC && count <= IPC_MAX_MSG_PER_PROC && tail == Place(head, count)
      && forall i :: 0 <= i < msgs.Length ==> MessageOk(msgs[i])
    }

    /** The messages in the queue, oldest first. */
    ghost function Contents(): seq<Envelope>
      requires Valid()
      reads this, msgs
    {
      Window(msgs[..], head, count)
    }

    constructor ()
      ensures Valid() && Contents() == [] && fresh(msgs)
    {
      var blank: seq<Byte> := seq(IPC_MAX_MSG_SIZE, _ => 0);
      msgs := new Message[IPC_MAX_MSG_PER_PROC](_ => Message(0, 0, blank));
      head, tail, count := 0, 0, 0;
    }

    method Push(sender: nat, data: seq<Byte>, size: nat)
      requires Valid() && count < IPC_MAX_MSG_PER_PROC && size <= |data| && size <= IPC_MAX_MSG_SIZE
      modifies this, msgs
      ensures Valid()
      ensures Contents() == old(Contents()) + [Envelope(sender, data[..size])]
    {
      var slot := msgs[tail];
      var msg := Message(sender, size, data[..size] + slot.data[size..]);
      WindowPush(msgs[..], head, count, msg);
      assert msg.data[..size] == data[..size];
      msgs[tail] := msg;
      assert msgs[..] == old(msgs[..])[tail := msg];
      tail := (tail + 1) % IPC_MAX_MSG_PER_PROC;
      count := count + 1;
    }

    /** Takes the oldest message, cut to the receiver's buffer. */
    method Pop(size: nat) returns (sender: nat, bytes: seq<Byte>)
      requires Valid() && count > 0
      modifies this
      ensures Valid()
      ensures old(Contents()) == [old(Contents())[0]] + Contents()
      ensures var e := old(Contents())[0];
              && sender == e.sender && bytes <= e.payload
              && |bytes| == if |e.payload| <= size then |e.payload| else size
    {
      WindowPop(msgs[..], head, count);
      var msg := msgs[head];
      var copySize := if msg.size < size then msg.size else size;
      sender, bytes := msg.sender, msg.data[..copySize];
      head := (head + 1) % IPC_MAX_MSG_PER_PROC;
      count := count - 1;
    }
  }

  class Process {
    var pid: nat
    var parent: nat
    var state: TaskState
    var savedEsp: nat
    var stackTop: nat
    var exitCode: int
    var queue: MessageQueue?

    ghost function Footprint(): set<object>
      reads this
    {
      if queue == null then {this} else {this, queue, queue.msgs}
    }

    ghost predicate Valid()
      reads this, Footprint()
    {
      queue != null ==> queue.Valid()
    }

    ghost function Value(): Proc
      requires Valid()
      reads this, Footprint()
    {
      Proc(pid, parent, state, savedEsp, stackTop, exitCode, if queue == null then None else Some(queue.Contents()))
    }

    constructor (pid: nat, stackTop: nat, queue: MessageQueue?)
      requires queue != null ==> queue.Valid() && queue.Contents() == []
      ensures Valid() && Value() == NewProc(pid, stackTop, queue != null) && this.queue == queue
    {
      this.pid, this.parent, this.state, this.savedEsp, this.stackTop, this.exitCode := pid, 1, Ready, 0, stackTop, 0;
      this.queue := queue;
    }
  }

  class ProcessTable {
    const table: array<Process?>
    var count: nat
    var current: int
    var nextPid: nat
    ghost var procs: seq<Process>
    ghost var repr: set<object>

    /** The processes in the table are different objects with different queues. */
    ghost predicate Valid()
      reads this, repr
    {
      && this in repr && table in repr && table.Length == MAX_PROCESSES && |procs| == count <= MAX_PROCESSES
      && current >= -1
      && (forall i :: 0 <= i < count ==> table[i] == procs[i])
      && (forall i :: 0 <= i < count ==> Holds(procs[i]))
      && (forall i, j :: 0 <= i < j < count ==> procs[i].Footprint() !! procs[j].Footprint())
    }

    ghost predicate Holds(p: Process)
      reads this, repr
    {
      && p in repr && p.Footprint() <= repr - {this, table} && p.Valid()
    }

    ghost function Table(): (t: seq<Proc>)
      requires Valid()
      reads this, repr
      ensures |t| == count && forall i :: 0 <= i < count ==> t[i] == procs[i].Value()
    {
      Values(count)
    }

    ghost function Values(n: nat): (t: seq<Proc>)
      requires Valid() && n <= count
      reads this, repr
      ensures |t| == n && forall i :: 0 <= i < n ==> t[i] == procs[i].Value()
    {
      if n == 0 then [] else Values(n - 1) + [procs[n - 1].Value()]
    }

    ghost function State(): Sys
      requires Valid()
      reads this, repr
    {
      Sys(Table(), current, nextPid)
    }

    constructor ()
      ensures Valid() && fresh(repr) && State() == Sys([], -1, 1)
    {
      table := new Process?[MAX_PROCESSES](_ => null);
      count, current, nextPid := 0, -1, 1;
      new;
      procs, repr := [], {this, table};
    }

    method SetState(i: nat, state: TaskState)
      requires Valid() && i < count
      modifies table[i]
      ensures Valid()
      ensures Table() == old(Table())[i := old(Table())[i].(state := state)]
    {
      table[i].state := state;
    }

    method SaveEsp(i: nat, esp: nat)
      requires Valid() && i < count
      modifies table[i]
      ensures Valid()
      ensures Table() == old(Table())[i := old(Table())[i].(savedEsp := esp)]
    {
      table[i].savedEsp := esp;
    }

    /** Round robin: the first process after from that is neither dead nor blocked. */
    method FindNext(from: int) returns (next: int)
      requires Valid() && from >= -1
      ensures next == Next(Table(), from)
    {
      if count == 0 { return -1; }
      var step := 1;
      while step <= count
        invariant 1 <= step <= count + 1
        invariant NextStep(Table(), from, 1) == NextStep(Table(), from, step)
      {
        var idx := (from + step) % count;
        assert idx == Ahead(from, step, |Table()|);
        if table[idx].state != Dead && table[idx].state != Blocked { return idx; }
        step := step + 1;
      }
      return -1;
    }

    /** scheduler_tick: puts the interrupted process back and gives the CPU to the next one. */
    method Tick(esp: nat) returns (result: nat)
      requires Valid()
      modifies repr
      ensures Valid() && repr == old(repr)
      ensures State() == TickState(old(State()), esp) && result == TickResult(old(State()), esp)
    {
      if 0 <= current < count { SaveCurrent(esp); }
      result := Switch(esp);
    }

    method Switch(esp: nat) returns (result: nat)
      requires Valid()
      modifies this`current, repr - {this, table}
      ensures Valid()
      ensures var next := Next(old(Table()), old(current));
              if next == -1 then State() == old(State()) && result == esp
              else && 0 <= next < old(count) && result == Resume(old(Table())[next])
                   && State() == Sys(old(Table())[next := old(Table())[next].(state := Running)], next, nextPid)
    {
      hide NextStep, Process.Valid, Process.Footprint;
      var next := FindNext(current);
      NextIsSound(Table(), current);
      if next == -1 { return esp; }
      result := if table[next].savedEsp != 0 then table[next].savedEsp else table[next].stackTop;
      SetState(next, Running);
      MarkCurrent(next);
    }

    method MarkCurrent(idx: nat)
      requires Valid()
      modifies this`current
      ensures Valid() && current == idx && Table() == old(Table())
    {
      current := idx;
    }

    method SaveCurrent(esp: nat)
      requires Valid() && 0 <= current < count
      modifies table[current]
      ensures Valid()
      ensures Table() == Preempted(old(State()), esp)
    {
      if table[current].state == Running {
        SetState(current, Ready);
        SaveEsp(current, esp);
      } else if table[current].state == Blocked {
        SaveEsp(current, esp);
      }
    }

    // ---------- System calls ----------

    method FindProcess(pid: nat) returns (i: int)
      requires Valid()
      ensures i == FindPid(Table(), pid, 0)
    {
      i := 0;
      while i < count
        invariant 0 <= i <= count && FindPid(Table(), pid, 0) == FindPid(Table(), pid, i)
      {
        if table[i].pid == pid { return; }
        i := i + 1;
      }
      i := -1;
    }

    method CurrentPid() returns (pid: nat)
      requires Valid()
      ensures pid == SenderPid(State())
    {
      pid := if 0 <= current < count then table[current].pid else 0;
    }

    method Exit(code: int)
      requires Valid()
      modifies repr
      ensures Valid() && repr == old(repr) && State() == CallState(old(State()), Call.Exit(code))
    {
      if 0 <= current < count {
        SetExitCode(current, code);
        SetState(current, Dead);
      }
    }

    method SetExitCode(i: nat, code: int)
      requires Valid() && i < count
      modifies table[i]
      ensures Valid()
      ensures Table() == old(Table())[i := old(Table())[i].(exitCode := code)]
    {
      table[i].exitCode := code;
    }

    method Kill(pid: nat) returns (result: nat)
      requires Valid()
      modifies repr
      ensures Valid() && repr == old(repr)
      ensures State() == CallState(old(State()), Call.Kill(pid)) && result == CallResult(old(State()), Call.Kill(pid))
      ensures result == if exists k :: 0 <= k < |old(Table())| && old(Table())[k].pid == pid then 0 else ERROR
    {
      var i := FindProcess(pid);
      if i == -1 { return ERROR; }
      SetState(i, Dead);
      result := 0;
    }

    method Deposit(i: nat, sender: nat, data: seq<Byte>, size: nat)
      requires Valid() && i < count && procs[i].queue != null && procs[i].queue.count < IPC_MAX_MSG_PER_PROC
      requires size <= |data| && size <= IPC_MAX_MSG_SIZE
      modifies procs[i].queue, procs[i].queue.msgs
      ensures Valid()
      ensures var p := old(Table())[i];
              Table() == old(Table())[i := p.(queue := Some(p.queue.value + [Envelope(sender, data[..size])]))]
    {
      table[i].queue.Push(sender, data, size);
    }

    method Wake(i: nat)
      requires Valid() && i < count
      modifies procs[i]
      ensures Valid()
      ensures var p := old(Table())[i];
              Table() == old(Table())[i := p.(state := if p.state == Blocked then Ready else p.state)]
    {
      if table[i].state == Blocked { SetState(i, Ready); }
    }

    method Post(i: nat, sender: nat, data: seq<Byte>, size: nat)
      requires Valid() && i < count && procs[i].queue != null && procs[i].queue.count < IPC_MAX_MSG_PER_PROC
      requires size <= |data| && size <= IPC_MAX_MSG_SIZE
      modifies procs[i], procs[i].queue, procs[i].queue.msgs
      ensures Valid()
      ensures Table() == old(Table())[i := Deliver(old(Table())[i], Envelope(sender, data[..size]))]
    {
      Deposit(i, sender, data, size);
      Wake(i);
    }

    /** The process that a send reaches, or -1. */
    method Receiver(target: nat, data: Option<seq<Byte>>, size: nat) returns (i: int)
      requires Valid()
      ensures i == SendTarget(State(), target, data, size)
      ensures i != -1 ==> data.Some? && size <= IPC_MAX_MSG_SIZE
      ensures i != -1 ==> procs[i].queue != null && procs[i].queue.count < IPC_MAX_MSG_PER_PROC
    {
      if data.None? || size == 0 || size > IPC_MAX_MSG_SIZE { return -1; }
      i := FindProcess(target);
      if i == -1 || table[i].state == Dead || table[i].queue == null { return -1; }
      if table[i].queue.count >= IPC_MAX_MSG_PER_PROC { return -1; }
    }

    /** Puts a message into the receiver's queue and wakes the receiver. */
    method Send(target: nat, data: Option<seq<Byte>>, size: nat) returns (result: nat)
      requires Valid() && (data.Some? ==> size <= |data.value|)
      modifies repr
      ensures Valid() && repr == old(repr)
      ensures State() == SendState(old(State()), target, data, size)
      ensures result == CallResult(old(State()), Call.Send(target, data, size))
    {
      hide SendTarget, FindPid;
      var i := Receiver(target, data, size);
      if i == -1 { return ERROR; }
      var sender := CurrentPid();
      Post(i, sender, data.value, size);
      result := 0;
    }

    /** Takes the oldest message of the current process. */
    method Withdraw(size: nat) returns (bytes: seq<Byte>)
      requires Valid() && 0 <= current < count && procs[current].queue != null && procs[current].queue.count > 0
      modifies procs[current].queue
      ensures Valid()
      ensures var me := old(Table())[current];
              && Table() == old(Table())[current := me.(queue := Some(me.queue.value[1..]))]
              && bytes == Cut(me.queue.value[0].payload, size)
    {
      var sender;
      sender, bytes := table[current].queue.Pop(size);
    }

    /** Returns the message's bytes, as many as fit; blocks the caller if there is no message. */
    method Recv(bufOk: bool, size: nat) returns (result: nat, bytes: seq<Byte>)
      requires Valid()
      modifies repr
      ensures Valid() && repr == old(repr)
      ensures State() == RecvState(old(State()), bufOk, size)
      ensures result == CallResult(old(State()), Call.Recv(bufOk, size))
      ensures bytes == if CanReceive(old(State()), bufOk, size)
                       then Cut(old(Table())[old(current)].queue.value[0].payload, size) else []
      ensures result == |bytes| || (result == ERROR && bytes == [])
    {
      if !(0 <= current < count) || !bufOk || size == 0 || table[current].queue == null { return ERROR, []; }
      if table[current].queue.count == 0 {
        SetState(current, Blocked);
        return 0, [];
      }
      bytes := Withdraw(size);
      result := |bytes|;
    }

    /** The last process takes the place of process i. */
    method Unlink(i: nat)
      requires Valid() && i < count
      modifies this, table
      ensures Valid() && repr == old(repr) && current == old(current) && nextPid == old(nextPid)
      ensures Table() == SwapRemove(old(Table()), i)
    {
      hide Process.Valid, Process.Value, Process.Footprint;
      ghost var before := Table();
      count := count - 1;
      table[i] := table[count];
      procs := procs[i := procs[count]][..count];
      forall k | 0 <= k < count ensures Table()[k] == SwapRemove(before, i)[k] {
        var q := procs[k];
        assert q == old(procs)[if k == i then count else k];
        assert q.Value() == old(q.Value());
      }
    }

    /** process_destroy: marks the process dead and takes it out of the table. */
    method Destroy(p: Process, ghost idx: nat)
      requires Valid() && idx < count && p == procs[idx]
      modifies repr
      ensures Valid() && repr == old(repr) && current == old(current) && nextPid == old(nextPid)
      ensures Table() == SwapRemove(old(Table()), idx)
    {
      hide Process.Valid, Process.Value, Process.Footprint, SwapRemove;
      MarkDead(p, idx);
      RemoveUpdated(old(Table()), idx, Table()[idx]);
      var i := IndexOf(p, idx);
      Unlink(i);
    }

    /** The place of a process in the table. */
    method IndexOf(p: Process, ghost idx: nat) returns (i: nat)
      requires Valid() && idx < count && p == procs[idx]
      ensures i == idx
    {
      hide Process.Valid, Process.Value;
      i := 0;
      while table[i] != p
        invariant 0 <= i <= idx
        decreases idx - i
      {
        i := i + 1;
      }
      assert procs[i] in procs[i].Footprint();
    }

    /** The entry that is about to be removed is marked dead first. */
    method MarkDead(p: Process, ghost i: nat)
      requires Valid() && i < count && p == procs[i]
      modifies p
      ensures Valid() && Table() == old(Table())[i := old(Table())[i].(state := Dead)]
    {
      p.state := Dead;
    }

    /** The shell destroys a process that it could not load a program into. */
    method DiscardProcess(pid: nat)
      requires Valid()
      modifies repr
      ensures Valid() && repr == old(repr) && State() == DiscardState(old(State()), pid)
    {
      hide SwapRemove;
      var i := FindProcess(pid);
      if i != -1 { Destroy(table[i], i); }
    }

    /** Reaps the first dead child that the caller asks for. */
    method Wait(pid: nat) returns (result: nat)
      requires Valid()
      modifies repr
      ensures Valid() && repr == old(repr)
      ensures State() == CallState(old(State()), Call.Wait(pid)) && result == CallResult(old(State()), Call.Wait(pid))
    {
      hide FindReapable, SwapRemove;
      if !(0 <= current < count) { return ERROR; }
      var i := FindChild(table[current].pid, pid);
      if i == -1 { return ERROR; }
      result := table[i].pid;
      Destroy(table[i], i);
    }

    method FindChild(me: nat, pid: nat) returns (i: int)
      requires Valid()
      ensures i == FindReapable(Table(), me, pid, 0)
    {
      i := 0;
      while i < count
        invariant 0 <= i <= count && FindReapable(Table(), me, pid, 0) == FindReapable(Table(), me, pid, i)
      {
        var child := table[i];
        if child.parent == me && (pid >= 0x8000_0000 || child.pid == pid) && child.state == Dead { return; }
        i := i + 1;
      }
      i := -1;
    }

    // ---------- Creation ----------

    /** register_process, for a process that owns its queue. */
    method Register(p: Process)
      requires Valid() && count < MAX_PROCESSES
      requires p.Valid() && p.Footprint() !! repr
      modifies this, table
      ensures Valid() && repr == old(repr) + p.Footprint() && current == old(current) && nextPid == old(nextPid)
      ensures Table() == old(Table()) + [old(p.Value())]
    {
      assert p in p.Footprint();
      hide Process.Valid, Process.Value, Process.Footprint;
      table[count] := p;
      count := count + 1;
      procs := procs + [p];
      repr := repr + p.Footprint();
    }

    method TakePid() returns (pid: nat)
      requires Valid()
      modifies this`nextPid
      ensures Valid() && pid == old(nextPid) && nextPid == pid + 1 && Table() == old(Table())
    {
      pid := nextPid;
      nextPid := nextPid + 1;
    }

    /** Takes the next pid and makes a ready process, with an empty queue if it is to have one. */
    method Create(stackTop: nat, withQueue: bool)
      requires Valid() && count < MAX_PROCESSES
      modifies this, table
      ensures Valid() && fresh(repr - old(repr))
      ensures State() == CreateState(old(State()), stackTop, withQueue)
      ensures NewBorn(Table()[old(count)], old(nextPid), stackTop, withQueue)
    {
      hide Process.Valid, Process.Value, Process.Footprint;
      var pid := TakePid();
      var p := NewProcess(pid, stackTop, withQueue);
      Register(p);
    }

    // ---------- Steps ----------

    /** One system call, as syscall_dispatch routes it. */
    method Dispatch(c: Call) returns (result: nat)
      requires Valid() && (c.Send? && c.data.Some? ==> c.size <= |c.data.value|)
      modifies repr
      ensures Valid() && repr == old(repr)
      ensures State() == CallState(old(State()), c) && result == CallResult(old(State()), c)
    {
      hide Process.Valid, Process.Value, Process.Footprint, FindPid, FindReapable, SendTarget;
      match c
      case Exit(code) => Exit(code); result := 0;
      case Wait(pid) => result := Wait(pid);
      case Kill(pid) => result := Kill(pid);
      case Send(target, data, size) => result := Send(target, data, size);
      case Recv(bufOk, size) => var bytes; result, bytes := Recv(bufOk, size);
    }

    /** One step of a run, and the stack pointer it returns on. The kernel keeps the table safe. */
    method Perform(step: Step) returns (esp: nat)
      requires Valid() && Safe(State()) && Legal(State(), step)
      modifies repr
      ensures Valid() && fresh(repr - old(repr))
      ensures State() == Exec(old(State()), step) && Safe(State())
      ensures esp == Returned(old(State()), step)
    {
      hide Process.Valid, Process.Value, Process.Footprint, TickState, TickResult, CallState, Fine;
      StepKeepsSafe(State(), step);
      esp := 0;
      match step
      case Timer(e) => esp := Tick(e);
      case Syscall(c, e) => var result := Dispatch(c); esp := Tick(e);
      case Create(stackTop, withQueue) => Create(stackTop, withQueue);
      case BurnPid => var pid := TakePid();
      case ShellKill(pid) => var result := Kill(pid);
      case Discard(pid) => DiscardProcess(pid);
    }

    /** process_first_enter, for the process in slot 0. */
    method Enter()
      requires Valid() && count > 0
      modifies repr
      ensures Valid() && repr == old(repr) && nextPid == old(nextPid) && current == 0
      ensures Table() == old(Table())[0 := old(Table())[0].(state := Running)]
    {
      SetState(0, Running);
      MarkCurrent(0);
    }

    /** kernel_main: creates the boot processes and enters the first. */
    method Start(tasks: seq<Task>)
      requires Valid() && State() == Sys([], -1, 1)
      requires 1 <= |tasks| <= MAX_PROCESSES
      modifies repr
      ensures Valid() && State() == Boot(tasks)
    {
      hide Process.Valid, Process.Value, Process.Footprint;
      var i := 0;
      while i < |tasks|
        invariant 0 <= i <= |tasks| && Valid() && fresh(repr - old(repr))
        invariant current == -1 && nextPid == i + 1 && count == i
        invariant Table() == NewProcs(tasks, i)
      {
        Create(tasks[i].stackTop, tasks[i].withQueue);
        i := i + 1;
      }
      Enter();
    }
  }

  /** What becomes of an entry before it is removed does not matter. */
  lemma RemoveUpdated(table: seq<Proc>, i: nat, p: Proc)
    requires i < |table|
    ensures SwapRemove(table[i := p], i) == SwapRemove(table, i)
  {
  }

  method NewProcess(pid: nat, stackTop: nat, withQueue: bool) returns (p: Process)
    ensures fresh(p.Footprint()) && p.Valid() && p.Value() == NewProc(pid, stackTop, withQueue)
  {
    var queue: MessageQueue? := null;
    if withQueue { queue := new MessageQueue(); }
    p := new Process(pid, stackTop, queue);
  }
}
