/** ipc/message.c: msg_send, msg_receive and sys_sendrec, each call up to the point where it
    blocks or returns being one atomic step.  The assertions of the source are proved; those about
    a receiver that blocks hold under the condition stated. */
module Ipc {
  import opened Common
  import opened Words
  import opened IpcTheory

  const SEND: int := 1
  const RECEIVE: int := 2

  /** A system call: sendrec(kind, srcDest, m) made by task `p`. */
  datatype Call = Call(kind: int, srcDest: Pid, m: nat, p: Pid)

  /** For every pair of tasks the record in `a` is a prefix of that in `b`. */
  ghost predicate Grows(a: Log, b: Log) {
    forall s, d :: Entries(a, s, d) <= Entries(b, s, d)
  }

  lemma RecordGrows(log: Log, s: Pid, d: Pid, m: Message)
    ensures Grows(log, log) && Grows(log, Record(log, s, d, m))
  {
  }

  lemma GrowsOn(a: Log, b: Log, c: Log)
    requires Grows(a, b) && Grows(b, c)
    ensures Grows(a, c)
  {
    hide Entries;
    forall s, d
      ensures Entries(a, s, d) <= Entries(c, s, d)
    {
      assert Entries(a, s, d) <= Entries(b, s, d) <= Entries(c, s, d);
    }
  }

  /** Everything a call can change. */
  datatype State = State(tasks: Tasks, memory: Memory, queues: Queues, sent: Log, delivered: Log)

  /** A rendezvous is possible: the receiver waits for this sender or for any. */
  predicate Awaits(ts: Tasks, dest: Pid, sender: Pid) {
    dest in ts && ts[dest].flags == RECEIVING && Willing(ts[dest], sender)
  }

  predicate Interrupted(ts: Tasks, who: Pid, src: Pid) {
    who in ts && ts[who].hasInt && (src == ANY || src == INTERRUPT)
  }

  /** Someone that `who` asks to hear from waits in its queue. */
  ghost predicate Heard(qs: Queues, who: Pid, src: Pid) {
    who in qs && if src == ANY then qs[who] != [] else src in qs[who]
  }

  /** A message is sent from the buffer `m` of `p` to `d`: handed over if `d` waits for it, else
      `p` blocks at the end of the queue of `d`. */
  ghost predicate SendStep(s: State, t: State, p: Pid, d: Pid, m: nat) {
    && p in s.tasks && d in s.tasks && (p, m) in s.memory
    && var msg := s.memory[(p, m)];
    && t.sent == Record(s.sent, p, d, msg)
    && if Awaits(s.tasks, d, p) then
         && s.tasks[d].msg.Some? && t.tasks == s.tasks[d := Idle(s.tasks[d])]
         && t.memory == s.memory[(d, s.tasks[d].msg.value) := msg]
         && t.queues == s.queues && t.delivered == Record(s.delivered, p, d, msg)
       else
         && d in s.queues && (s.queues[d] != [] ==> s.queues[d][|s.queues[d]| - 1] in s.tasks)
         && t.tasks == Appended(s.tasks, s.queues[d], p, d, m)
         && t.queues == s.queues[d := s.queues[d] + [p]]
         && t.memory == s.memory && t.delivered == s.delivered
  }

  /** The sender at place `k` of the queue of `who` was heard: its message, and only that,
      is now in the buffer `m`, it runs again, and the others keep their order. */
  ghost predicate Served(s: State, t: State, who: Pid, k: nat, m: nat) {
    && who in s.tasks && who in s.queues && k < |s.queues[who]|
    && (forall i :: 0 <= i < |s.queues[who]| ==> s.queues[who][i] in s.tasks)
    && var from := s.queues[who][k];
    && s.tasks[from].msg.Some? && (from, s.tasks[from].msg.value) in s.memory
    && var msg := s.memory[(from, s.tasks[from].msg.value)];
    && msg.source == from
    && t.memory == s.memory[(who, m) := msg]
    && t.queues == s.queues[who := s.queues[who][..k] + s.queues[who][k + 1..]]
    && t.delivered == Record(s.delivered, from, who, msg) && t.sent == s.sent
    && t.tasks == Taken(s.tasks, s.queues[who], k, who) && t.tasks.Keys == s.tasks.Keys
    && t.tasks[from].flags == 0 && t.tasks[who].flags == 0
  }

  /** `who` receives into its buffer `m`: an interrupt, else the message of the sender it asked
      for or, of any, of the first that waits, else it blocks. */
  ghost predicate ReceiveStep(s: State, t: State, who: Pid, src: Pid, m: nat, k: nat) {
    && who in s.tasks
    && if Interrupted(s.tasks, who, src) then
         t == s.(tasks := s.tasks[who := s.tasks[who].(hasInt := false)],
                 memory := s.memory[(who, m) := Message(INTERRUPT, HARD_INT, [])])
       else if Heard(s.queues, who, src) then
         && Served(s, t, who, k, m)
         && (if src == ANY then k == 0 else s.queues[who][k] == src)
       else
         t == s.(tasks := s.tasks[who := s.tasks[who].(flags := RECEIVING, msg := Some(m), recvFrom := src)])
  }

  /** A call a task may make now: it runs, and names an existing buffer and peer. */
  predicate Permitted(ts: Tasks, mem: Memory, c: Call) {
    && c.p in ts && ts[c.p].flags == 0 && (c.p, c.m) in mem && c.p != c.srcDest
    && (c.kind == SEND ==> c.srcDest in ts)
    && (c.kind == RECEIVE ==> c.srcDest in ts || c.srcDest == ANY || (c.srcDest == INTERRUPT && ts[c.p].hasInt))
  }

  /** The state once the kernel has filled in who the caller's message is from. */
  function Stamped(s: State, c: Call): State
    requires (c.p, c.m) in s.memory
  {
    s.(memory := s.memory[(c.p, c.m) := s.memory[(c.p, c.m)].(source := c.p)])
  }

  /** What a system call does. */
  ghost predicate CallStep(s: State, t: State, c: Call, k: nat)
    requires (c.p, c.m) in s.memory
  {
    if c.kind == SEND then SendStep(Stamped(s, c), t, c.p, c.srcDest, c.m)
    else if c.kind == RECEIVE then ReceiveStep(Stamped(s, c), t, c.p, c.srcDest, c.m, k)
    else t == Stamped(s, c)
  }

  /** A task makes a system call, or writes to a message buffer of its own. */
  datatype Event = Invoke(call: Call) | Write(p: Pid, m: nat, msg: Message)

  /** Only a task that is not blocked in a send writes to its buffers. */
  predicate Possible(ts: Tasks, mem: Memory, e: Event) {
    match e
    case Invoke(c) => Permitted(ts, mem, c)
    case Write(p, _, _) => p in ts && ts[p].flags != SENDING
  }

  /** What became of an event: it could not happen, it did, or it sent a message. */
  datatype Outcome = Ignored | Done | Sent(msg: Message)

  function OutcomeOf(ts: Tasks, mem: Memory, e: Event): Outcome {
    if !Possible(ts, mem, e) then Ignored
    else if e.Invoke? && e.call.kind == SEND then Sent(mem[(e.call.p, e.call.m)].(source := e.call.p)) else Done
  }

  ghost predicate RunStep(s: State, t: State, e: Event, k: nat, o: Outcome) {
    && o == OutcomeOf(s.tasks, s.memory, e)
    && if !Possible(s.tasks, s.memory, e) then t == s
       else match e
         case Invoke(c) => CallStep(s, t, c, k)
         case Write(p, m, msg) => t == s.(memory := s.memory[(p, m) := msg])
  }

  /** The messages that events sent from `s` to `d`, in the order of the events. */
  function SentBy(events: seq<Event>, outcomes: seq<Outcome>, s: Pid, d: Pid): seq<Message>
    requires |events| == |outcomes|
  {
    if events == [] then []
    else
      var n := |events| - 1;
      SentBy(events[..n], outcomes[..n], s, d) + SentNow(events[n], outcomes[n], s, d)
  }

  function SentNow(e: Event, o: Outcome, s: Pid, d: Pid): seq<Message> {
    if o.Sent? && e.Invoke? && e.call.p == s && e.call.srcDest == d then [o.msg] else []
  }

  // ---------- the order of service ----------

  /** The task that an event makes wait in the queue of `d`, if any. */
  function JoinsNow(s: State, e: Event, d: Pid): seq<Pid> {
    if e.Invoke? && Permitted(s.tasks, s.memory, e.call) && e.call.kind == SEND && e.call.srcDest == d
       && !Awaits(s.tasks, d, e.call.p)
    then [e.call.p] else []
  }

  /** The task that an event takes from the queue of `d`, if any. */
  ghost function LeavesNow(s: State, e: Event, k: nat, d: Pid): seq<Pid> {
    if e.Invoke? && Permitted(s.tasks, s.memory, e.call) && e.call.kind == RECEIVE && e.call.p == d
       && !Interrupted(s.tasks, d, e.call.srcDest) && Heard(s.queues, d, e.call.srcDest) && k < |s.queues[d]|
    then [s.queues[d][k]] else []
  }

  /** A receive by `d` from one task. */
  predicate Picky(e: Event, d: Pid) {
    e.Invoke? && e.call.kind == RECEIVE && e.call.p == d && e.call.srcDest != ANY
  }

  ghost predicate RunSteps(trace: seq<State>, events: seq<Event>, ks: seq<nat>, outcomes: seq<Outcome>) {
    && |outcomes| == |ks| == |events| && |trace| == |events| + 1
    && forall i :: 0 <= i < |events| ==> RunStep(trace[i], trace[i + 1], events[i], ks[i], outcomes[i])
  }

  /** Those who came to wait for `d` in the first `n` events of a run, in order. */
  ghost function Joined(trace: seq<State>, events: seq<Event>, d: Pid, n: nat): seq<Pid>
    requires n <= |events| < |trace|
  {
    if n == 0 then [] else Joined(trace, events, d, n - 1) + JoinsNow(trace[n - 1], events[n - 1], d)
  }

  /** Those whose message `d` took, in order. */
  ghost function Left(trace: seq<State>, events: seq<Event>, ks: seq<nat>, d: Pid, n: nat): seq<Pid>
    requires n <= |events| == |ks| < |trace|
  {
    if n == 0 then [] else Left(trace, events, ks, d, n - 1) + LeavesNow(trace[n - 1], events[n - 1], ks[n - 1], d)
  }

  /** A queue `q` becomes `q2` when those of `x` join and those of `y` leave: in order, unless
      someone was picked. */
  ghost predicate Turn(q: seq<Pid>, q2: seq<Pid>, x: seq<Pid>, y: seq<Pid>, picked: bool) {
    multiset(q) + multiset(x) == multiset(y) + multiset(q2) && (!picked ==> q + x == y + q2)
  }

  lemma TurnOne(q: seq<Pid>, x: seq<Pid>, picked: bool)
    ensures Turn(q, q + x, x, [], picked) && Turn(q, q, [], [], picked)
  {
    assert q + [] == [] + q;
  }

  lemma TurnLeaves(q: seq<Pid>, q2: seq<Pid>, p: Pid, picked: bool)
    requires multiset(q) == multiset([p]) + multiset(q2) && (!picked ==> q == [p] + q2)
    ensures Turn(q, q2, [], [p], picked)
  {
    assert q + [] == q;
  }

  lemma QueueStep(s: State, t: State, e: Event, k: nat, o: Outcome, d: Pid)
    requires RunStep(s, t, e, k, o) && d in s.queues
    ensures d in t.queues
    ensures Turn(s.queues[d], t.queues[d], JoinsNow(s, e, d), LeavesNow(s, e, k, d), Picky(e, d))
  {
    hide SendStep, ReceiveStep, Interrupted, Heard, Awaits, Turn;
    var q := s.queues[d];
    if Possible(s.tasks, s.memory, e) && e.Invoke? && e.call.kind == SEND {
      SendQueue(Stamped(s, e.call), t, e.call.p, e.call.srcDest, e.call.m, d);
      TurnOne(q, JoinsNow(s, e, d), Picky(e, d));
    } else if Possible(s.tasks, s.memory, e) && e.Invoke? && e.call.kind == RECEIVE {
      ReceiveQueue(Stamped(s, e.call), t, e.call.p, e.call.srcDest, e.call.m, k, d);
      TurnOne(q, [], Picky(e, d));
      if LeavesNow(s, e, k, d) != [] { TurnLeaves(q, t.queues[d], q[k], Picky(e, d)); }
    } else {
      TurnOne(q, [], Picky(e, d));
    }
  }

  lemma SendQueue(s: State, t: State, p: Pid, to: Pid, m: nat, d: Pid)
    requires SendStep(s, t, p, to, m) && d in s.queues
    ensures d in t.queues
    ensures t.queues[d] == s.queues[d] + if to == d && !Awaits(s.tasks, d, p) then [p] else []
  {
    hide Appended, Record, Awaits;
  }

  lemma ReceiveQueue(s: State, t: State, who: Pid, src: Pid, m: nat, k: nat, d: Pid)
    requires ReceiveStep(s, t, who, src, m, k) && d in s.queues
    ensures d in t.queues
    ensures var q, q' := s.queues[d], t.queues[d];
      if who == d && !Interrupted(s.tasks, d, src) && Heard(s.queues, d, src)
      then k < |q| && multiset(q) == multiset([q[k]]) + multiset(q') && (src == ANY ==> q == [q[k]] + q')
      else q' == q
  {
    hide Taken, Record, Interrupted;
    if who == d && !Interrupted(s.tasks, d, src) && Heard(s.queues, d, src) {
      var q := s.queues[d];
      assert q == q[..k] + [q[k]] + q[k + 1..];
    }
  }

  /** Over any run nobody is lost from a queue and nobody is served twice for one wait; and a task
      that receives only from any serves those who wait for it in the order in which they came. */
  lemma {:induction false} InTurn(trace: seq<State>, events: seq<Event>, ks: seq<nat>, outcomes: seq<Outcome>,
                                  d: Pid, n: nat)
    requires RunSteps(trace, events, ks, outcomes) && n <= |events| && d in trace[0].queues
    ensures d in trace[n].queues
    ensures Turn(trace[0].queues[d], trace[n].queues[d], Joined(trace, events, d, n), Left(trace, events, ks, d, n),
                 exists i :: 0 <= i < n && Picky(events[i], d))
  {
    hide RunStep, JoinsNow, LeavesNow, Picky, Turn;
    if n == 0 {
      TurnOne(trace[0].queues[d], [], false);
    } else {
      var i := n - 1;
      InTurn(trace, events, ks, outcomes, d, i);
      QueueStep(trace[i], trace[n], events[i], ks[i], outcomes[i], d);
      var was := exists j :: 0 <= j < i && Picky(events[j], d);
      TurnStep(trace[0].queues[d], trace[i].queues[d], trace[n].queues[d], Joined(trace, events, d, i),
               Left(trace, events, ks, d, i), JoinsNow(trace[i], events[i], d),
               LeavesNow(trace[i], events[i], ks[i], d), was, Picky(events[i], d));
      assert (exists j :: 0 <= j < n && Picky(events[j], d)) <==> was || Picky(events[i], d);
    }
  }

  lemma TurnStep(q: seq<Pid>, q1: seq<Pid>, q2: seq<Pid>, x: seq<Pid>, y: seq<Pid>, x1: seq<Pid>, y1: seq<Pid>,
                 was: bool, now: bool)
    requires Turn(q, q1, x, y, was) && Turn(q1, q2, x1, y1, now)
    ensures Turn(q, q2, x + x1, y + y1, was || now)
  {
    forall p: Pid
      ensures (multiset(q) + multiset(x + x1))[p] == (multiset(y + y1) + multiset(q2))[p]
    {
      assert (multiset(q) + multiset(x))[p] == (multiset(y) + multiset(q1))[p];
      assert (multiset(q1) + multiset(x1))[p] == (multiset(y1) + multiset(q2))[p];
    }
    if !was && !now {
      assert q + (x + x1) == (q + x) + x1;
      assert (y + q1) + x1 == y + (q1 + x1);
      assert y + (y1 + q2) == (y + y1) + q2;
    }
  }

  /** What msg_receive asserts of the task it blocked. */
  predicate AssertedBlocked(t: Task) {
    t.flags == RECEIVING && t.msg.Some? && t.recvFrom != NO_TASK && t.sendTo == NO_TASK && !t.hasInt
  }

  /** The flag arithmetic on the only three values that flags take. */
  lemma FlagOps()
    ensures And(0, SENDING) == And(RECEIVING, SENDING) == 0 && And(SENDING, SENDING) == SENDING
    ensures And(0, RECEIVING) == And(SENDING, RECEIVING) == 0 && And(RECEIVING, RECEIVING) == RECEIVING
    ensures Or(0, SENDING) == SENDING && Or(0, RECEIVING) == RECEIVING
    ensures And(SENDING, WORD - 1 - SENDING) == 0 && And(RECEIVING, WORD - 1 - RECEIVING) == 0
  {
    assert And(2, 0xFFFF_FFFD) == 2 * And(1, 0x7FFF_FFFE);
    assert And(4, 0xFFFF_FFFB) == 2 * And(2, 0x7FFF_FFFD);
    assert And(2, 0x7FFF_FFFD) == 2 * And(1, 0x3FFF_FFFE);
  }

  class Kernel {
    var tasks: Tasks
    var memory: Memory
    ghost var queues: Queues     // who waits to send to a task, first come first
    ghost var sent: Log          // messages sent, per sender and receiver
    ghost var delivered: Log     // messages delivered, per sender and receiver

    ghost function Now(): State
      reads this
    {
      State(tasks, memory, queues, sent, delivered)
    }

    ghost predicate Valid()
      reads this
    {
      Inv(tasks, queues, memory, sent, delivered)
    }

    /** No task has called yet. */
    constructor (pids: set<Pid>, buffers: Memory)
      requires ANY !in pids && INTERRUPT !in pids
      ensures Valid() && tasks.Keys == pids && memory == buffers && sent == map[] && delivered == map[]
      ensures forall p :: p in pids ==> p in queues && queues[p] == [] && !tasks[p].hasInt && tasks[p].flags == 0
    {
      tasks := map p | p in pids :: Task(0, None, NO_TASK, NO_TASK, None, None, false);
      memory := buffers;
      queues := map p | p in pids :: [];
      sent, delivered := map[], map[];
    }

    /** The queue walk of msg_send: link the sender at the end. */
    method Enqueue(sender: Pid, dest: Pid, m: nat)
      requires Shape(tasks) && Queued(tasks, queues) && Links(tasks, queues)
      requires sender in tasks && dest in tasks && sender != dest && tasks[sender].flags == 0
      modifies this`tasks
      ensures var q := old(queues[dest]);
        && (q != [] ==> q[|q| - 1] in old(tasks))
        && tasks == Appended(old(tasks), q, sender, dest, m)
    {
      hide Shape, Linked, Links, Queued, Or;
      ghost var ts := tasks;
      QueueFacts(ts, queues, sender, dest);
      ghost var q := queues[dest];
      FlagOps();
      tasks := tasks[sender := tasks[sender].(flags := Or(tasks[sender].flags, SENDING))];
      tasks := tasks[sender := tasks[sender].(sendTo := dest)];
      tasks := tasks[sender := tasks[sender].(msg := Some(m))];
      assert tasks == ts[sender := ts[sender].(flags := SENDING, sendTo := dest, msg := Some(m))];
      if tasks[dest].queue.Some? {
        LinkedFrame(ts, tasks, dest, q);
        var p := LastInQueue(tasks[dest].queue.value, dest, q);
        tasks := tasks[p := tasks[p].(next := Some(sender))];
      } else {
        tasks := tasks[dest := tasks[dest].(queue := Some(sender))];
      }
      tasks := tasks[sender := tasks[sender].(next := None)];
    }

    method LastInQueue(first: Pid, ghost d: Pid, ghost q: seq<Pid>) returns (p: Pid)
      requires Linked(tasks, d, q) && q != [] && first == q[0]
      ensures p == q[|q| - 1]
    {
      hide Linked;
      p := first;
      ghost var i := 0;
      LinkedNext(tasks, d, q, 0);
      while tasks[p].next.Some?
        invariant 0 <= i < |q| && p == q[i] && p in tasks
        decreases |q| - i
      {
        LinkedNext(tasks, d, q, i);
        p := tasks[p].next.value;
        i := i + 1;
        LinkedNext(tasks, d, q, i);
      }
      LinkedNext(tasks, d, q, i);
    }

    /** The receiver waits: msg_send hands the message over. */
    method HandOver(sender: Pid, dest: Pid, m: nat)
      requires Valid() && sender in tasks && dest in tasks && sender != dest
      requires tasks[sender].flags == 0 && Awaits(tasks, dest, sender)
      requires (sender, m) in memory && memory[(sender, m)].source == sender
      modifies this
      ensures Valid() && tasks.Keys == old(tasks.Keys) && SendStep(old(Now()), Now(), sender, dest, m)
      ensures tasks[sender].flags == tasks[dest].flags == 0
    {
      hide Shape, Queued, Links, NoMissed, Logged, And, Record, Appended;
      ghost var ts, msg := tasks, memory[(sender, m)];
      FlagOps();
      Rendezvous(tasks, queues, memory, sent, delivered, sender, dest, msg);
      assert tasks[dest].msg.Some?;
      memory := memory[(dest, tasks[dest].msg.value) := memory[(sender, m)]];
      tasks := tasks[dest := tasks[dest].(msg := None)];
      tasks := tasks[dest := tasks[dest].(flags := And(tasks[dest].flags, WORD - 1 - RECEIVING))];
      tasks := tasks[dest := tasks[dest].(recvFrom := NO_TASK)];
      assert tasks == ts[dest := Idle(ts[dest])];
      sent, delivered := Record(sent, sender, dest, msg), Record(delivered, sender, dest, msg);
      FlagValues(tasks, dest);
      FlagValues(tasks, sender);
      assert tasks[dest].flags == 0 && tasks[dest].msg == None;
      assert tasks[dest].recvFrom == NO_TASK && tasks[dest].sendTo == NO_TASK;
      assert tasks[sender].flags == 0 && tasks[sender].msg == None;
      assert tasks[sender].recvFrom == NO_TASK && tasks[sender].sendTo == NO_TASK;
    }

    /** It does not: msg_send blocks the sender in its queue. */
    method BlockInQueue(sender: Pid, dest: Pid, m: nat)
      requires Valid() && sender in tasks && dest in tasks && sender != dest
      requires tasks[sender].flags == 0 && !Awaits(tasks, dest, sender)
      requires (sender, m) in memory && memory[(sender, m)].source == sender
      modifies this
      ensures Valid() && tasks.Keys == old(tasks.Keys) && SendStep(old(Now()), Now(), sender, dest, m)
      ensures tasks[sender].flags == SENDING && tasks[sender].sendTo == dest && tasks[sender].msg == Some(m)
    {
      hide Shape, Queued, Links, NoMissed, Logged, Record, Appended, Linked;
      ghost var msg := memory[(sender, m)];
      BlockSender(tasks, queues, memory, sent, delivered, sender, dest, m);
      QueueFacts(tasks, queues, sender, dest);
      AppendedFields(tasks, queues[dest], sender, dest, m, sender);
      Enqueue(sender, dest, m);
      queues := queues[dest := queues[dest] + [sender]];
      sent := Record(sent, sender, dest, msg);
      FlagValues(tasks, sender);
      assert tasks[sender].flags == SENDING && tasks[sender].msg != None;
      assert tasks[sender].recvFrom == NO_TASK && tasks[sender].sendTo == dest;
    }

    /** msg_send: hand the message over if the receiver waits for it, else block in its queue. */
    method MsgSend(sender: Pid, dest: Pid, m: nat)
      requires Valid() && sender in tasks && dest in tasks && sender != dest
      requires tasks[sender].flags == 0
      requires (sender, m) in memory && memory[(sender, m)].source == sender
      modifies this
      ensures Valid() && tasks.Keys == old(tasks.Keys) && SendStep(old(Now()), Now(), sender, dest, m)
      ensures if old(Awaits(tasks, dest, sender)) then tasks[sender].flags == tasks[dest].flags == 0
              else tasks[sender].flags == SENDING && tasks[sender].sendTo == dest && tasks[sender].msg == Some(m)
    {
      hide Shape, Queued, Links, NoMissed, Logged, And, SendStep;
      FlagOps();
      FlagValues(tasks, dest);
      if And(tasks[dest].flags, RECEIVING) != 0 && (tasks[dest].recvFrom == sender || tasks[dest].recvFrom == ANY) {
        HandOver(sender, dest, m);
      } else {
        BlockInQueue(sender, dest, m);
      }
    }

    /** The queue walk of msg_receive: the task linked before `src`, if any. */
    method FindInQueue(who: Pid, src: Pid, ghost q: seq<Pid>) returns (prev: Option<Pid>, ghost k: nat)
      requires Linked(tasks, who, q) && src in q
      ensures k < |q| && q[k] == src && prev == if k == 0 then None else Some(q[k - 1])
    {
      hide Linked;
      LinkedHead(tasks, who, q);
      prev, k := None, 0;
      var p := tasks[who].queue;
      while p.Some?
        invariant k < |q| && p == Some(q[k]) && src in q[k..]
        invariant prev == if k == 0 then None else Some(q[k - 1])
        decreases |q| - k
      {
        LinkedNext(tasks, who, q, k);
        if p.value == src {
          return;
        }
        assert src in q[k + 1..];
        prev := p;
        p := tasks[p.value].next;
        k := k + 1;
      }
    }

    /** Unlink a sender from the queue of `who`, copy its message and let it go. */
    method Dequeue(who: Pid, from: Pid, prev: Option<Pid>, m: nat, ghost q: seq<Pid>, ghost k: nat)
      requires Linked(tasks, who, q) && NoDup(q) && who !in q && k < |q| && q[k] == from
      requires prev == if k == 0 then None else Some(q[k - 1])
      requires forall i :: 0 <= i < |q| ==> q[i] in tasks
      requires tasks[from].flags == SENDING && tasks[from].msg.Some? && (from, tasks[from].msg.value) in memory
      modifies this`tasks, this`memory
      ensures tasks == Taken(old(tasks), q, k, who)
      ensures memory == old(memory[(who, m) := memory[(from, tasks[from].msg.value)]])
    {
      hide And;
      LinkedHead(tasks, who, q);
      hide Linked;
      if tasks[who].queue == Some(from) {
        assert prev == None;
        tasks := tasks[who := tasks[who].(queue := tasks[from].next)];
      } else {
        assert prev != None;
        tasks := tasks[prev.value := tasks[prev.value].(next := tasks[from].next)];
      }
      tasks := tasks[from := tasks[from].(next := None)];
      memory := memory[(who, m) := memory[(from, tasks[from].msg.value)]];
      FlagOps();
      tasks := tasks[from := tasks[from].(msg := None)];
      tasks := tasks[from := tasks[from].(sendTo := NO_TASK)];
      tasks := tasks[from := tasks[from].(flags := And(tasks[from].flags, WORD - 1 - SENDING))];
    }

    /** The part of msg_receive that takes the message of the sender found. */
    method Take(who: Pid, from: Pid, prev: Option<Pid>, m: nat, ghost k: nat)
      requires Valid() && who in queues && k < |queues[who]| && queues[who][k] == from
      requires tasks[who].flags == 0
      requires prev == if k == 0 then None else Some(queues[who][k - 1])
      modifies this
      ensures Valid() && Served(old(Now()), Now(), who, k, m) && Grows(old(delivered), delivered)
    {
      hide Shape, Queued, Links, NoMissed, Logged, Linked, Taken, Grows, Record;
      ghost var q := queues[who];
      ghost var ts, qs, mem, log := tasks, queues, memory, delivered;
      Fetch(ts, qs, mem, sent, log, who, k, m);
      Waiting(ts, qs, mem, sent, log, who, k);
      QueueLinked(ts, qs, who);
      assert tasks[from].flags == SENDING && tasks[from].msg != None;
      assert tasks[from].recvFrom == NO_TASK && tasks[from].sendTo == who;
      Dequeue(who, from, prev, m, q, k);
      queues := queues[who := q[..k] + q[k + 1..]];
      RecordGrows(delivered, from, who, mem[(from, ts[from].msg.value)]);
      delivered := Record(delivered, from, who, mem[(from, ts[from].msg.value)]);
      TakenFields(ts, q, k, who, from);
      TakenFields(ts, q, k, who, who);
    }

    /** msg_receive: an interrupt first, then the first sender (of any, or the one asked for),
        else block. */
    method MsgReceive(who: Pid, src: Pid, m: nat) returns (ghost k: nat)
      requires Valid() && who in tasks && tasks[who].flags == 0 && who != src
      requires src in tasks || src == ANY || (src == INTERRUPT && tasks[who].hasInt)
      modifies this
      ensures Valid() && tasks.Keys == old(tasks.Keys) && ReceiveStep(old(Now()), Now(), who, src, m, k)
      ensures sent == old(sent) && Grows(old(delivered), delivered)
      ensures tasks[who].flags == RECEIVING <==> !old(Interrupted(tasks, who, src)) && !old(Heard(queues, who, src))
      ensures tasks[who].flags == RECEIVING ==> (AssertedBlocked(tasks[who]) <==> src != ANY && !old(tasks[who].hasInt))
    {
      hide Shape, Queued, Links, NoMissed, Logged, Linked, And, Or, Grows, Record;
      k := 0;
      RecordGrows(delivered, who, who, Message(INTERRUPT, HARD_INT, []));
      FlagOps();
      ghost var ts := tasks;
      FlagValues(ts, who);
      QueueLinked(ts, queues, who);
      ghost var q := queues[who];
      if tasks[who].hasInt && (src == ANY || src == INTERRUPT) {
        Interrupt(ts, queues, memory, sent, delivered, who, m);
        memory := memory[(who, m) := Message(INTERRUPT, HARD_INT, [])];
        tasks := tasks[who := tasks[who].(hasInt := false)];
        assert tasks[who].flags == 0 && tasks[who].msg == None && tasks[who].sendTo == NO_TASK;
        return;
      }
      SendersQueued(ts, queues, who, src);
      if src == ANY {
        if tasks[who].queue.Some? {
          Take(who, tasks[who].queue.value, None, m, 0);
          return;
        }
      } else if And(tasks[src].flags, SENDING) != 0 && tasks[src].sendTo == who {
        assert tasks[who].queue != None;
        var prev;
        prev, k := FindInQueue(who, src, q);
        Take(who, src, prev, m, k);
        return;
      }
      Retask(ts, queues, memory, sent, delivered, who, ts[who].(flags := RECEIVING, msg := Some(m), recvFrom := src));
      tasks := tasks[who := tasks[who].(flags := Or(tasks[who].flags, RECEIVING))];
      tasks := tasks[who := tasks[who].(msg := Some(m))];
      if src == ANY {
        tasks := tasks[who := tasks[who].(recvFrom := ANY)];
      } else {
        tasks := tasks[who := tasks[who].(recvFrom := src)];
      }
      assert tasks == ts[who := ts[who].(flags := RECEIVING, msg := Some(m), recvFrom := src)];
    }

    /** sys_sendrec: the kernel, not the caller, fills in who a message is from. */
    method SysSendrec(call: int, srcDest: Pid, m: nat, p: Pid) returns (ghost k: nat)
      requires Valid() && Permitted(tasks, memory, Call(call, srcDest, m, p))
      modifies this
      ensures Valid() && tasks.Keys == old(tasks.Keys)
      ensures old((p, m) in memory) && CallStep(old(Now()), Now(), Call(call, srcDest, m, p), k)
      ensures sent == if call == SEND then Record(old(sent), p, srcDest, old(memory[(p, m)]).(source := p))
                      else old(sent)
      ensures Grows(old(delivered), delivered)
      ensures call == SEND ==> tasks[p].flags == if old(Awaits(tasks, srcDest, p)) then 0 else SENDING
      ensures call == RECEIVE ==>
        (tasks[p].flags == RECEIVING <==> !old(Interrupted(tasks, p, srcDest)) && !old(Heard(queues, p, srcDest)))
    {
      k := 0;
      hide Shape, Queued, Links, NoMissed, Logged, Grows, Served, Record, Appended, Taken;
      RecordGrows(delivered, p, srcDest, memory[(p, m)].(source := p));
      WriteBuffer(tasks, memory, sent, delivered, p, m, memory[(p, m)].(source := p));
      memory := memory[(p, m) := memory[(p, m)].(source := p)];
      if call == SEND {
        MsgSend(p, srcDest, m);
      } else if call == RECEIVE {
        k := MsgReceive(p, srcDest, m);
      }
    }

    /** One event, if it can happen. */
    method Serve(e: Event) returns (outcome: Outcome, ghost k: nat)
      requires Valid()
      modifies this
      ensures Valid() && tasks.Keys == old(tasks.Keys) && RunStep(old(Now()), Now(), e, k, outcome)
      ensures Grows(old(delivered), delivered)
      ensures outcome.Sent? ==> e.Invoke?
      ensures sent == if outcome.Sent? then Record(old(sent), e.call.p, e.call.srcDest, outcome.msg) else old(sent)
    {
      hide Shape, Queued, Links, NoMissed, Logged, Grows, Record, Entries, SendStep, ReceiveStep;
      outcome, k := OutcomeOf(tasks, memory, e), 0;
      RecordGrows(delivered, 0, 0, Message(0, 0, []));
      if Possible(tasks, memory, e) {
        match e {
          case Invoke(c) => k := SysSendrec(c.kind, c.srcDest, c.m, c.p);
          case Write(p, m, msg) =>
            WriteBuffer(tasks, memory, sent, delivered, p, m, msg);
            memory := memory[(p, m) := msg];
        }
      }
    }

    /** Any run of system calls and of writes to message buffers, by any tasks in any order: every
        event that can happen has its effect; what was sent is what the calls sent, in their order;
        and per pair of tasks what is delivered is what was sent, in order and each once, up to at
        most one message in flight. */
    method Run(events: seq<Event>) returns (outcomes: seq<Outcome>, ghost trace: seq<State>, ghost ks: seq<nat>)
      requires Valid()
      modifies this
      ensures Valid() && tasks.Keys == old(tasks.Keys)
      ensures |outcomes| == |events| && |trace| == |events| + 1
      ensures trace[0] == old(Now()) && trace[|events|] == Now()
      ensures RunSteps(trace, events, ks, outcomes)
      ensures forall s, d :: Entries(sent, s, d) == Entries(old(sent), s, d) + SentBy(events, outcomes, s, d)
      ensures Grows(old(sent), sent) && Grows(old(delivered), delivered) && Grows(delivered, sent)
      ensures forall s, d :: |Entries(sent, s, d)| <= |Entries(delivered, s, d)| + 1
    {
      hide Inv, Grows, Record, Entries, RunStep, SentBy;
      RecordGrows(delivered, 0, 0, Message(0, 0, []));
      outcomes, trace, ks := [], [Now()], [];
      NoneSent(sent);
      for i := 0 to |events|
        invariant Valid() && tasks.Keys == old(tasks.Keys)
        invariant |outcomes| == |ks| == i && |trace| == i + 1 && trace[0] == old(Now()) && trace[i] == Now()
        invariant forall j :: 0 <= j < i ==> RunStep(trace[j], trace[j + 1], events[j], ks[j], outcomes[j])
        invariant SentAre(old(sent), sent, events[..i], outcomes)
        invariant Grows(old(delivered), delivered)
      {
        ghost var wasSent, wasDelivered := sent, delivered;
        ghost var k;
        var outcome;
        outcome, k := Serve(events[i]);
        assert events[..i + 1] == events[..i] + [events[i]];
        SentMore(old(sent), wasSent, sent, events[..i], outcomes, events[i], outcome);
        GrowsOn(old(delivered), wasDelivered, delivered);
        outcomes, trace, ks := outcomes + [outcome], trace + [Now()], ks + [k];
      }
      assert events[..|events|] == events;
      SentGrows(old(sent), sent, events, outcomes);
      InOrder(tasks, queues, memory, sent, delivered);
    }
  }

  /** A task that receives from any when nobody has sent to it: it blocks as it should, and the
      assertion that it then waits for some task fails, since ANY and NO_TASK are the same. */
  method ReceiveAny(buffers: Memory) returns (kernel: Kernel)
    ensures fresh(kernel) && kernel.Valid() && 1 in kernel.tasks
    ensures kernel.tasks[1].flags == RECEIVING && kernel.tasks[1].recvFrom == ANY && !AssertedBlocked(kernel.tasks[1])
  {
    hide Inv;
    kernel := new Kernel({1, 2}, buffers);
    var k := kernel.MsgReceive(1, ANY, 0);
  }

  ghost predicate SentAre(start: Log, sent: Log, events: seq<Event>, outcomes: seq<Outcome>)
    requires |events| == |outcomes|
  {
    forall s, d :: Entries(sent, s, d) == Entries(start, s, d) + SentBy(events, outcomes, s, d)
  }

  lemma NoneSent(sent: Log)
    ensures SentAre(sent, sent, [], [])
  {
  }

  lemma SentMore(start: Log, was: Log, sent: Log, events: seq<Event>, outcomes: seq<Outcome>, e: Event, o: Outcome)
    requires |events| == |outcomes| && SentAre(start, was, events, outcomes) && (o.Sent? ==> e.Invoke?)
    requires sent == if o.Sent? then Record(was, e.call.p, e.call.srcDest, o.msg) else was
    ensures SentAre(start, sent, events + [e], outcomes + [o])
  {
    hide Entries, Record, SentBy;
    forall s, d
      ensures Entries(sent, s, d) == Entries(start, s, d) + SentBy(events + [e], outcomes + [o], s, d)
    {
      SentByStep(events, outcomes, e, o, s, d);
      if o.Sent? { RecordAt(was, e.call.p, e.call.srcDest, o.msg, s, d); }
      assert Entries(was, s, d) == Entries(start, s, d) + SentBy(events, outcomes, s, d);
    }
  }

  lemma SentByStep(events: seq<Event>, outcomes: seq<Outcome>, e: Event, o: Outcome, s: Pid, d: Pid)
    requires |events| == |outcomes|
    ensures SentBy(events + [e], outcomes + [o], s, d) == SentBy(events, outcomes, s, d) + SentNow(e, o, s, d)
  {
    assert (events + [e])[..|events|] == events && (outcomes + [o])[..|events|] == outcomes;
  }

  lemma SentGrows(start: Log, sent: Log, events: seq<Event>, outcomes: seq<Outcome>)
    requires |events| == |outcomes| && SentAre(start, sent, events, outcomes)
    ensures Grows(start, sent)
  {
    hide Entries, SentBy;
  }

  /** Delivery is in order and at most once, for every pair of tasks. */
  lemma InOrder(ts: Tasks, qs: Queues, mem: Memory, sent: Log, delivered: Log)
    requires Inv(ts, qs, mem, sent, delivered)
    ensures Grows(delivered, sent)
    ensures forall s, d :: |Entries(sent, s, d)| <= |Entries(delivered, s, d)| + 1
  {
    forall s, d
      ensures Entries(delivered, s, d) <= Entries(sent, s, d) && |Entries(sent, s, d)| <= |Entries(delivered, s, d)| + 1
    {
      assert Entries(sent, s, d) == Entries(delivered, s, d) + Pending(ts, mem, s, d);
    }
  }

  /** Delivering an interrupt message touches no queue and no log. */
  lemma Interrupt(ts: Tasks, qs: Queues, mem: Memory, sent: Log, delivered: Log, who: Pid, m: nat)
    requires Inv(ts, qs, mem, sent, delivered) && who in ts && ts[who].flags == 0
    ensures Inv(ts[who := ts[who].(hasInt := false)], qs, mem[(who, m) := Message(INTERRUPT, HARD_INT, [])],
                sent, delivered)
  {
    assert TaskOk(who, ts[who], ts.Keys);
    Retask(ts, qs, mem, sent, delivered, who, ts[who].(hasInt := false));
    WriteBuffer(ts[who := ts[who].(hasInt := false)], mem, sent, delivered, who, m, Message(INTERRUPT, HARD_INT, []));
  }

  lemma QueueLinked(ts: Tasks, qs: Queues, d: Pid)
    requires Shape(ts) && Queued(ts, qs) && Links(ts, qs) && d in ts
    ensures d in qs && NoDup(qs[d]) && d !in qs[d] && Linked(ts, d, qs[d]) && ts[d].queue == At(qs[d], 0)
  {
    NotOwn(ts, qs, d);
  }

  /** The flags of a task tell whether it waits in the queue of `who`. */
  lemma SendersQueued(ts: Tasks, qs: Queues, who: Pid, src: Pid)
    requires Shape(ts) && Queued(ts, qs) && who in ts
    ensures who in qs && ANY !in qs[who] && ANY !in ts
    ensures src in qs[who] <==> src in ts && ts[src].flags == SENDING && ts[src].sendTo == who
    ensures src in ts ==> ts[src].flags == 0 || ts[src].flags == SENDING || ts[src].flags == RECEIVING
  {
    if src in ts { assert TaskOk(src, ts[src], ts.Keys); }
  }

  /** What the flags of a task say about its other fields. */
  lemma FlagValues(ts: Tasks, p: Pid)
    requires Shape(ts) && p in ts
    ensures ts[p].flags == 0 || ts[p].flags == SENDING || ts[p].flags == RECEIVING
    ensures ts[p].flags == 0 ==> ts[p].msg == None && ts[p].recvFrom == NO_TASK && ts[p].sendTo == NO_TASK
    ensures ts[p].flags == SENDING ==> ts[p].msg != None && ts[p].recvFrom == NO_TASK && ts[p].sendTo in ts
    ensures ts[p].flags == RECEIVING ==> ts[p].msg != None && ts[p].sendTo == NO_TASK
  {
    assert TaskOk(p, ts[p], ts.Keys);
  }

  lemma QueueFacts(ts: Tasks, qs: Queues, s: Pid, d: Pid)
    requires Shape(ts) && Queued(ts, qs) && Links(ts, qs) && s in ts && d in ts && ts[s].flags == 0
    ensures d in qs && s !in qs[d] && d !in qs[d] && Linked(ts, d, qs[d])
    ensures ts[d].queue == At(qs[d], 0) && forall p :: p in qs[d] ==> p in ts
  {
    hide Shape;
    OneQueue(ts, qs, s, d);
    NotOwn(ts, qs, d);
    LinkedHead(ts, d, qs[d]);
  }

  lemma LinkedHead(ts: Tasks, d: Pid, q: seq<Pid>)
    requires Linked(ts, d, q)
    ensures d in ts && ts[d].queue == At(q, 0)
    ensures q != [] ==> q[0] in ts && q[|q| - 1] in ts
  {
  }

  lemma LinkedNext(ts: Tasks, d: Pid, q: seq<Pid>, i: nat)
    requires Linked(ts, d, q) && i < |q|
    ensures q[i] in ts && ts[q[i]].next == if i + 1 < |q| then Some(q[i + 1]) else None
  {
  }
}
