/** The process table of the rendezvous message passing in ipc/message.c, and what holds of
    it between two calls. */
module IpcTheory {
  import opened Common

  type Pid = int

  const SENDING: nat := 2
  const RECEIVING: nat := 4
  const ANY: Pid := 10
  const NO_TASK: Pid := 10
  const INTERRUPT: Pid := -10
  const HARD_INT: int := 1

  datatype Message = Message(source: Pid, kind: int, body: seq<int>)

  /** The fields of a task_struct that message passing uses.  Pointers to tasks are pids;
      p_msg is the address of a message buffer of the task itself. */
  datatype Task = Task(flags: nat, msg: Option<nat>, recvFrom: Pid, sendTo: Pid,
                       queue: Option<Pid>, next: Option<Pid>, hasInt: bool)

  type Tasks = map<Pid, Task>
  type Queues = map<Pid, seq<Pid>>

  /** Buffers by owner and address.  Tasks share one address space, so this takes for granted that
      buffers of different tasks are at different addresses. */
  type Memory = map<(Pid, nat), Message>

  type Log = map<(Pid, Pid), seq<Message>>

  function Entries(log: Log, s: Pid, d: Pid): seq<Message> {
    if (s, d) in log then log[(s, d)] else []
  }

  function Record(log: Log, s: Pid, d: Pid, m: Message): Log {
    log[(s, d) := Entries(log, s, d) + [m]]
  }

  predicate Willing(t: Task, p: Pid) {
    t.recvFrom == p || t.recvFrom == ANY
  }

  /** A task is idle, sending to another task, or receiving from another task or from any. */
  predicate TaskOk(p: Pid, t: Task, pids: set<Pid>) {
    || (t.flags == 0 && t.msg.None? && t.recvFrom == NO_TASK && t.sendTo == NO_TASK)
    || (t.flags == SENDING && t.msg.Some? && t.recvFrom == NO_TASK && t.sendTo in pids && t.sendTo != p)
    || (t.flags == RECEIVING && t.msg.Some? && t.sendTo == NO_TASK
        && (t.recvFrom == ANY || (t.recvFrom in pids && t.recvFrom != p)))
  }

  ghost predicate Shape(ts: Tasks) {
    && ANY !in ts && INTERRUPT !in ts
    && forall p :: p in ts ==> TaskOk(p, ts[p], ts.Keys)
  }

  /** A task is sending exactly when it waits in one queue, once: that of the task it sends to. */
  ghost predicate Queued(ts: Tasks, qs: Queues) {
    qs.Keys == ts.Keys && EachOnce(qs) && Rightly(ts, qs) && AllWait(ts, qs)
  }

  ghost predicate EachOnce(qs: Queues) {
    forall d :: d in qs ==> NoDup(qs[d])
  }

  ghost predicate Rightly(ts: Tasks, qs: Queues) {
    forall d, p :: d in qs && p in qs[d] ==> p in ts && ts[p].flags == SENDING && ts[p].sendTo == d
  }

  ghost predicate AllWait(ts: Tasks, qs: Queues) {
    forall p :: p in ts && ts[p].flags == SENDING ==> ts[p].sendTo in qs && p in qs[ts[p].sendTo]
  }

  /** The task at place `i` of a queue, if there is one. */
  function At(q: seq<Pid>, i: nat): Option<Pid> {
    if i < |q| then Some(q[i]) else None
  }

  /** The intrusive links of a task spell out its queue. */
  ghost predicate Linked(ts: Tasks, d: Pid, q: seq<Pid>) {
    && d in ts && ts[d].queue == At(q, 0)
    && forall i :: 0 <= i < |q| ==> q[i] in ts && ts[q[i]].next == At(q, i + 1)
  }

  ghost predicate Links(ts: Tasks, qs: Queues) {
    forall d :: d in qs ==> Linked(ts, d, qs[d])
  }

  /** No task waits to receive while a sender it would hear from waits to send to it. */
  ghost predicate NoMissed(ts: Tasks, qs: Queues) {
    forall r, p :: r in ts && r in qs && ts[r].flags == RECEIVING && p in qs[r] ==> !Willing(ts[r], p)
  }

  /** The message a task is waiting to hand over to `d`. */
  function Pending(ts: Tasks, mem: Memory, s: Pid, d: Pid): seq<Message> {
    if s in ts && ts[s].flags == SENDING && ts[s].sendTo == d && ts[s].msg.Some? && (s, ts[s].msg.value) in mem
    then [mem[(s, ts[s].msg.value)]] else []
  }

  /** What was sent is what was delivered, in order, and then what is pending; every message
      carries its sender's pid. */
  ghost predicate Logged(ts: Tasks, mem: Memory, sent: Log, delivered: Log) {
    && (forall p :: p in ts && ts[p].flags == SENDING ==>
          ts[p].msg.Some? && (p, ts[p].msg.value) in mem && mem[(p, ts[p].msg.value)].source == p)
    && (forall s, d :: Entries(sent, s, d) == Entries(delivered, s, d) + Pending(ts, mem, s, d))
    && (forall s, d, i :: 0 <= i < |Entries(sent, s, d)| ==> Entries(sent, s, d)[i].source == s)
  }

  ghost predicate Inv(ts: Tasks, qs: Queues, mem: Memory, sent: Log, delivered: Log) {
    Shape(ts) && Queued(ts, qs) && Links(ts, qs) && NoMissed(ts, qs) && Logged(ts, mem, sent, delivered)
  }

  // ---------- appending to and taking from a queue ----------

  /** A task at most waits in the queue of the task it sends to. */
  lemma OneQueue(ts: Tasks, qs: Queues, p: Pid, d: Pid)
    requires Queued(ts, qs) && d in qs
    requires p !in ts || ts[p].flags != SENDING || ts[p].sendTo != d
    ensures p !in qs[d]
  {
  }

  /** The table after `s` is blocked sending to `d` and linked at the end of its queue `q`. */
  function Appended(ts: Tasks, q: seq<Pid>, s: Pid, d: Pid, addr: nat): Tasks
    requires s in ts && d in ts && (q != [] ==> q[|q| - 1] in ts)
  {
    var t1 := ts[s := ts[s].(flags := SENDING, sendTo := d, msg := Some(addr))];
    var t2 := if q == [] then t1[d := t1[d].(queue := Some(s))]
              else t1[q[|q| - 1] := t1[q[|q| - 1]].(next := Some(s))];
    t2[s := t2[s].(next := None)]
  }

  lemma LinkedFrame(ts: Tasks, r: Tasks, d: Pid, q: seq<Pid>)
    requires Linked(ts, d, q)
    requires d in r && r[d].queue == ts[d].queue
    requires forall p :: p in q ==> p in r && r[p].next == ts[p].next
    ensures Linked(r, d, q)
  {
    forall i | 0 <= i < |q|
      ensures q[i] in r && r[q[i]].next == At(q, i + 1)
    {
      var p := q[i];
      assert p in q;
      assert ts[p].next == At(q, i + 1);
    }
  }

  lemma AppendedFields(ts: Tasks, q: seq<Pid>, s: Pid, d: Pid, addr: nat, x: Pid)
    requires s in ts && d in ts && s != d && s !in q && d !in q && (q != [] ==> q[|q| - 1] in ts) && x in ts
    ensures var r := Appended(ts, q, s, d, addr);
      && r.Keys == ts.Keys
      && r[x].queue == (if x == d && q == [] then Some(s) else ts[x].queue)
      && r[x].next == (if x == s then None else if q != [] && x == q[|q| - 1] then Some(s) else ts[x].next)
      && r[x].(queue := ts[x].queue, next := ts[x].next)
         == (if x == s then ts[x].(flags := SENDING, sendTo := d, msg := Some(addr)) else ts[x])
  {
  }

  /** The queue that grows. */
  lemma AppendOwn(ts: Tasks, q: seq<Pid>, s: Pid, d: Pid, addr: nat)
    requires Linked(ts, d, q) && NoDup(q) && s in ts && d in ts && s != d && s !in q && d !in q
    ensures q != [] ==> q[|q| - 1] in ts
    ensures Linked(Appended(ts, q, s, d, addr), d, q + [s])
  {
    assert q != [] ==> q[|q| - 1] in ts;
    hide Appended;
    var r := Appended(ts, q, s, d, addr);
    var q2 := q + [s];
    AppendedFields(ts, q, s, d, addr, d);
    forall i | 0 <= i < |q2|
      ensures q2[i] in r && r[q2[i]].next == At(q2, i + 1)
    {
      AppendedFields(ts, q, s, d, addr, q2[i]);
      if i < |q| - 1 {
        assert q[i] != q[|q| - 1];
      }
    }
  }

  lemma AppendLinks(ts: Tasks, qs: Queues, s: Pid, d: Pid, addr: nat)
    requires Shape(ts) && Queued(ts, qs) && Links(ts, qs)
    requires s in ts && d in ts && s != d && ts[s].flags == 0
    ensures qs[d] != [] ==> qs[d][|qs[d]| - 1] in ts
    ensures Links(Appended(ts, qs[d], s, d, addr), qs[d := qs[d] + [s]])
  {
    hide Linked, Appended, Shape;
    var q := qs[d];
    OneQueue(ts, qs, s, d);
    NotOwn(ts, qs, d);
    AppendOwn(ts, q, s, d, addr);
    var r := Appended(ts, q, s, d, addr);
    forall e | e in qs && e != d
      ensures Linked(r, e, qs[e])
    {
      OneQueue(ts, qs, s, e);
      forall p | p in qs[e] || p == e
        ensures p in r && (p in qs[e] ==> r[p].next == ts[p].next) && (p == e ==> r[p].queue == ts[p].queue)
      {
        AppendedFields(ts, q, s, d, addr, p);
        if q != [] { assert q[|q| - 1] in qs[d]; }
      }
      LinkedFrame(ts, r, e, qs[e]);
    }
  }

  lemma NotOwn(ts: Tasks, qs: Queues, d: Pid)
    requires Shape(ts) && Queued(ts, qs) && d in qs
    ensures d !in qs[d]
  {
    assert TaskOk(d, ts[d], ts.Keys);
  }

  /** The table after the sender at place `k` of queue `q` of task `d` is unlinked and let go. */
  function Taken(ts: Tasks, q: seq<Pid>, k: nat, d: Pid): Tasks
    requires k < |q| && d in ts && forall i :: 0 <= i < |q| ==> q[i] in ts
  {
    var f := q[k];
    var t1 := if k == 0 then ts[d := ts[d].(queue := ts[f].next)]
              else ts[q[k - 1] := ts[q[k - 1]].(next := ts[f].next)];
    t1[f := t1[f].(next := None, msg := None, sendTo := NO_TASK, flags := 0)]
  }

  lemma TakenFields(ts: Tasks, q: seq<Pid>, k: nat, d: Pid, x: Pid)
    requires k < |q| && d in ts && (forall i :: 0 <= i < |q| ==> q[i] in ts) && NoDup(q) && d !in q && x in ts
    ensures var r := Taken(ts, q, k, d);
      && r.Keys == ts.Keys
      && r[x].queue == (if x == d && k == 0 then ts[q[k]].next else ts[x].queue)
      && r[x].next == (if x == q[k] then None else if k > 0 && x == q[k - 1] then ts[q[k]].next else ts[x].next)
      && r[x].(queue := ts[x].queue, next := ts[x].next)
         == (if x == q[k] then ts[x].(msg := None, sendTo := NO_TASK, flags := 0) else ts[x])
  {
  }

  /** The queue that shrinks. */
  lemma TakeOwn(ts: Tasks, q: seq<Pid>, k: nat, d: Pid)
    requires Linked(ts, d, q) && NoDup(q) && k < |q| && d !in q
    ensures Linked(Taken(ts, q, k, d), d, q[..k] + q[k + 1..])
  {
    hide Taken;
    var r, q2 := Taken(ts, q, k, d), q[..k] + q[k + 1..];
    TakenFields(ts, q, k, d, d);
    assert ts[q[k]].next == At(q, k + 1);
    forall i | 0 <= i < |q2|
      ensures q2[i] in r && r[q2[i]].next == At(q2, i + 1)
    {
      TakenFields(ts, q, k, d, q2[i]);
      if i < k {
        assert q2[i] == q[i];
      } else {
        assert q2[i] == q[i + 1] && At(q2, i + 1) == At(q, i + 2);
      }
    }
  }

  lemma TakeLinks(ts: Tasks, qs: Queues, d: Pid, k: nat)
    requires Shape(ts) && Queued(ts, qs) && Links(ts, qs) && d in qs && k < |qs[d]|
    ensures forall i :: 0 <= i < |qs[d]| ==> qs[d][i] in ts
    ensures Links(Taken(ts, qs[d], k, d), qs[d := qs[d][..k] + qs[d][k + 1..]])
  {
    var q := qs[d];
    assert forall i :: 0 <= i < |q| ==> q[i] in q && q[i] in ts;
    hide Linked, Taken, Shape;
    NotOwn(ts, qs, d);
    assert Linked(ts, d, q);
    TakeOwn(ts, q, k, d);
    var r := Taken(ts, q, k, d);
    forall e | e in qs && e != d
      ensures Linked(r, e, qs[e])
    {
      TakenFields(ts, q, k, d, e);
      forall p | p in qs[e]
        ensures p in r && r[p].next == ts[p].next
      {
        assert p !in q;
        TakenFields(ts, q, k, d, p);
      }
      LinkedFrame(ts, r, e, qs[e]);
    }
  }

  // ---------- the steps keep the invariant ----------

  function Idle(t: Task): Task {
    t.(flags := 0, msg := None, recvFrom := NO_TASK)
  }

  /** Writing a buffer of a task that is not sending, and changing nothing else that matters. */
  lemma WriteBuffer(ts: Tasks, mem: Memory, sent: Log, delivered: Log, p: Pid, addr: nat, m: Message)
    requires Logged(ts, mem, sent, delivered) && p in ts && ts[p].flags != SENDING
    ensures Logged(ts, mem[(p, addr) := m], sent, delivered)
  {
    var mem2 := mem[(p, addr) := m];
    forall s, d
      ensures Pending(ts, mem2, s, d) == Pending(ts, mem, s, d)
    {
    }
  }

  lemma RetaskLinks(ts: Tasks, qs: Queues, p: Pid, t: Task)
    requires Links(ts, qs) && p in ts && t.queue == ts[p].queue && t.next == ts[p].next
    ensures Links(ts[p := t], qs)
  {
    hide Linked;
    var r := ts[p := t];
    forall d | d in qs
      ensures Linked(r, d, qs[d])
    {
      LinkedIn(ts, d, qs[d]);
      LinkedFrame(ts, r, d, qs[d]);
    }
  }

  lemma LinkedIn(ts: Tasks, d: Pid, q: seq<Pid>)
    requires Linked(ts, d, q)
    ensures d in ts && forall p :: p in q ==> p in ts
  {
  }

  lemma RetaskQueued(ts: Tasks, qs: Queues, p: Pid, t: Task)
    requires Queued(ts, qs) && p in ts && ts[p].flags != SENDING && t.flags != SENDING
    ensures Queued(ts[p := t], qs)
  {
    assert ts[p := t].Keys == ts.Keys;
  }

  lemma RetaskNoMissed(ts: Tasks, qs: Queues, p: Pid, t: Task)
    requires NoMissed(ts, qs) && p in ts && p in qs
    requires t.flags == RECEIVING ==> forall x :: x in qs[p] ==> !Willing(t, x)
    ensures NoMissed(ts[p := t], qs)
  {
  }

  lemma RetaskShape(ts: Tasks, p: Pid, t: Task)
    requires Shape(ts) && p in ts && TaskOk(p, t, ts.Keys)
    ensures Shape(ts[p := t])
  {
    assert ts[p := t].Keys == ts.Keys;
  }

  lemma RetaskLogged(ts: Tasks, mem: Memory, sent: Log, delivered: Log, p: Pid, t: Task)
    requires Logged(ts, mem, sent, delivered) && p in ts && ts[p].flags != SENDING && t.flags != SENDING
    ensures Logged(ts[p := t], mem, sent, delivered)
  {
    var r := ts[p := t];
    forall s, d
      ensures Pending(r, mem, s, d) == Pending(ts, mem, s, d)
    {
    }
  }

  /** Updating a task that neither was nor becomes a sender, with its links kept. */
  lemma Retask(ts: Tasks, qs: Queues, mem: Memory, sent: Log, delivered: Log, p: Pid, t: Task)
    requires Inv(ts, qs, mem, sent, delivered) && p in ts && ts[p].flags != SENDING && t.flags != SENDING
    requires t.queue == ts[p].queue && t.next == ts[p].next && TaskOk(p, t, ts.Keys)
    requires t.flags == RECEIVING ==> forall x :: p in qs && x in qs[p] ==> !Willing(t, x)
    ensures Inv(ts[p := t], qs, mem, sent, delivered)
  {
    assert p in qs;
    hide Shape, Queued, Links, NoMissed, Logged, TaskOk, Willing;
    RetaskShape(ts, p, t);
    RetaskQueued(ts, qs, p, t);
    RetaskLinks(ts, qs, p, t);
    RetaskNoMissed(ts, qs, p, t);
    RetaskLogged(ts, mem, sent, delivered, p, t);
  }

  /** A message sent and delivered at once. */
  lemma LogBoth(ts: Tasks, mem: Memory, sent: Log, delivered: Log, s: Pid, d: Pid, m: Message)
    requires Logged(ts, mem, sent, delivered) && m.source == s && Pending(ts, mem, s, d) == []
    ensures Logged(ts, mem, Record(sent, s, d, m), Record(delivered, s, d, m))
  {
    hide Pending, Entries, Record;
    var sent2, delivered2 := Record(sent, s, d, m), Record(delivered, s, d, m);
    forall x, e
      ensures Entries(sent2, x, e) == Entries(delivered2, x, e) + Pending(ts, mem, x, e)
      ensures forall i :: 0 <= i < |Entries(sent2, x, e)| ==> Entries(sent2, x, e)[i].source == x
    {
      hide Logged;
      RecordAt(sent, s, d, m, x, e);
      RecordAt(delivered, s, d, m, x, e);
      LoggedAt(ts, mem, sent, delivered, x, e);
    }
  }

  /** A sender blocked: its message is sent and pending. */
  lemma LogSent(ts: Tasks, r: Tasks, mem: Memory, sent: Log, delivered: Log, s: Pid, d: Pid, addr: nat)
    requires Logged(ts, mem, sent, delivered) && s in ts && ts[s].flags == 0
    requires (s, addr) in mem && mem[(s, addr)].source == s
    requires ButLinks(ts, r, s, ts[s].(flags := SENDING, sendTo := d, msg := Some(addr)))
    ensures Logged(r, mem, Record(sent, s, d, mem[(s, addr)]), delivered)
  {
    hide Entries, Pending, Record;
    var m, sent2 := mem[(s, addr)], Record(sent, s, d, mem[(s, addr)]);
    forall x, e
      ensures Entries(sent2, x, e) == Entries(delivered, x, e) + Pending(r, mem, x, e)
      ensures forall i :: 0 <= i < |Entries(sent2, x, e)| ==> Entries(sent2, x, e)[i].source == x
    {
      LogSentAt(ts, r, mem, sent, delivered, s, d, addr, x, e);
    }
  }

  lemma LogSentAt(ts: Tasks, r: Tasks, mem: Memory, sent: Log, delivered: Log, s: Pid, d: Pid, addr: nat, x: Pid,
                  e: Pid)
    requires Logged(ts, mem, sent, delivered) && s in ts && ts[s].flags == 0
    requires (s, addr) in mem && mem[(s, addr)].source == s
    requires ButLinks(ts, r, s, ts[s].(flags := SENDING, sendTo := d, msg := Some(addr)))
    ensures var sent2 := Record(sent, s, d, mem[(s, addr)]);
      && Entries(sent2, x, e) == Entries(delivered, x, e) + Pending(r, mem, x, e)
      && forall i :: 0 <= i < |Entries(sent2, x, e)| ==> Entries(sent2, x, e)[i].source == x
  {
    hide Record, Entries, Pending, ButLinks;
    RecordAt(sent, s, d, mem[(s, addr)], x, e);
    PendingSent(ts, r, mem, s, d, addr, x, e);
    LoggedAt(ts, mem, sent, delivered, x, e);
  }

  lemma LoggedAt(ts: Tasks, mem: Memory, sent: Log, delivered: Log, s: Pid, d: Pid)
    requires Logged(ts, mem, sent, delivered)
    ensures Entries(sent, s, d) == Entries(delivered, s, d) + Pending(ts, mem, s, d)
    ensures forall i :: 0 <= i < |Entries(sent, s, d)| ==> Entries(sent, s, d)[i].source == s
  {
    hide Entries, Pending;
  }

  lemma PendingSent(ts: Tasks, r: Tasks, mem: Memory, s: Pid, d: Pid, addr: nat, x: Pid, e: Pid)
    requires s in ts && ts[s].flags == 0 && (s, addr) in mem
    requires ButLinks(ts, r, s, ts[s].(flags := SENDING, sendTo := d, msg := Some(addr)))
    ensures Pending(r, mem, x, e) == if (x, e) == (s, d) then [mem[(s, addr)]] else Pending(ts, mem, x, e)
    ensures Pending(ts, mem, s, d) == []
  {
  }

  lemma RecordAt(log: Log, s: Pid, d: Pid, m: Message, x: Pid, e: Pid)
    ensures Entries(Record(log, s, d, m), x, e) ==
      if (x, e) == (s, d) then Entries(log, x, e) + [m] else Entries(log, x, e)
  {
  }

  /** A sender let go: its pending message is delivered. */
  lemma LogDelivered(ts: Tasks, r: Tasks, mem: Memory, sent: Log, delivered: Log, s: Pid, d: Pid)
    requires Logged(ts, mem, sent, delivered) && s in ts && ts[s].flags == SENDING && ts[s].sendTo == d
    requires r.Keys == ts.Keys && r[s].flags == 0
    requires forall x :: x in ts && x != s ==>
      r[x].flags == ts[x].flags && r[x].sendTo == ts[x].sendTo && r[x].msg == ts[x].msg
    ensures Logged(r, mem, sent, Record(delivered, s, d, mem[(s, ts[s].msg.value)]))
  {
    var delivered2 := Record(delivered, s, d, mem[(s, ts[s].msg.value)]);
    forall x, e
      ensures Entries(sent, x, e) == Entries(delivered2, x, e) + Pending(r, mem, x, e)
    {
      assert Entries(sent, x, e) == Entries(delivered, x, e) + Pending(ts, mem, x, e);
      assert x != s ==> Pending(r, mem, x, e) == Pending(ts, mem, x, e);
    }
  }

  /** A rendezvous: `d` waits for `s`, which hands over the message `m` without blocking. */
  lemma Rendezvous(ts: Tasks, qs: Queues, mem: Memory, sent: Log, delivered: Log, s: Pid, d: Pid, m: Message)
    requires Inv(ts, qs, mem, sent, delivered) && s in ts && d in ts && s != d && m.source == s
    requires ts[s].flags == 0 && ts[d].flags == RECEIVING
    ensures ts[d].msg.Some?
    ensures Inv(ts[d := Idle(ts[d])], qs, mem[(d, ts[d].msg.value) := m],
                Record(sent, s, d, m), Record(delivered, s, d, m))
  {
    assert TaskOk(d, ts[d], ts.Keys);
    assert TaskOk(d, Idle(ts[d]), ts.Keys);
    assert Pending(ts[d := Idle(ts[d])], mem[(d, ts[d].msg.value) := m], s, d) == [];
    Retask(ts, qs, mem, sent, delivered, d, Idle(ts[d]));
    hide Shape, Queued, Links, NoMissed, Logged, Pending, TaskOk;
    var r := ts[d := Idle(ts[d])];
    WriteBuffer(r, mem, sent, delivered, d, ts[d].msg.value, m);
    LogBoth(r, mem[(d, ts[d].msg.value) := m], sent, delivered, s, d, m);
  }

  lemma AppendQueued(ts: Tasks, qs: Queues, r: Tasks, s: Pid, d: Pid)
    requires Queued(ts, qs) && s in ts && d in ts && ts[s].flags == 0
    requires r.Keys == ts.Keys && r[s].flags == SENDING && r[s].sendTo == d
    requires forall x :: x in ts && x != s ==> r[x].flags == ts[x].flags && r[x].sendTo == ts[x].sendTo
    ensures Queued(r, qs[d := qs[d] + [s]])
  {
    hide EachOnce, Rightly, AllWait;
    assert s !in qs[d] by { NotQueued(ts, qs, s, d); }
    assert NoDup(qs[d] + [s]) by { OnceAt(qs, d); AppendNoDup(qs[d], s); }
    EachOnceUpdate(qs, d, qs[d] + [s]);
    AppendRightly(ts, qs, r, s, d);
    AppendAllWait(ts, qs, r, s, d);
  }

  lemma NotQueued(ts: Tasks, qs: Queues, s: Pid, d: Pid)
    requires Rightly(ts, qs) && s in ts && ts[s].flags == 0 && d in qs
    ensures s !in qs[d]
  {
  }

  lemma AppendRightly(ts: Tasks, qs: Queues, r: Tasks, s: Pid, d: Pid)
    requires Rightly(ts, qs) && d in qs && s in ts && ts[s].flags == 0
    requires r.Keys == ts.Keys && r[s].flags == SENDING && r[s].sendTo == d
    requires forall x :: x in ts && x != s ==> r[x].flags == ts[x].flags && r[x].sendTo == ts[x].sendTo
    ensures Rightly(r, qs[d := qs[d] + [s]])
  {
    var qs2 := qs[d := qs[d] + [s]];
    forall e, p | e in qs2 && p in qs2[e]
      ensures p in r && r[p].flags == SENDING && r[p].sendTo == e
    {
      assert p in qs[e] || (e == d && p == s);
    }
  }

  lemma AppendAllWait(ts: Tasks, qs: Queues, r: Tasks, s: Pid, d: Pid)
    requires AllWait(ts, qs) && d in qs && s in ts
    requires r.Keys == ts.Keys && r[s].flags == SENDING && r[s].sendTo == d
    requires forall x :: x in ts && x != s ==> r[x].flags == ts[x].flags && r[x].sendTo == ts[x].sendTo
    ensures AllWait(r, qs[d := qs[d] + [s]])
  {
    forall p | p in r && r[p].flags == SENDING
      ensures r[p].sendTo in qs[d := qs[d] + [s]] && p in qs[d := qs[d] + [s]][r[p].sendTo]
    {
      if p != s {
        assert p in qs[ts[p].sendTo];
      } else {
        assert (qs[d] + [s])[|qs[d]|] == s;
      }
    }
  }

  lemma AppendNoDup(q: seq<Pid>, s: Pid)
    requires NoDup(q) && s !in q
    ensures NoDup(q + [s])
  {
  }

  /** A sender blocks at the end of the queue of a task that does not wait for it. */
  lemma BlockSender(ts: Tasks, qs: Queues, mem: Memory, sent: Log, delivered: Log, s: Pid, d: Pid, addr: nat)
    requires Inv(ts, qs, mem, sent, delivered) && s in ts && d in ts && s != d && ts[s].flags == 0
    requires (s, addr) in mem && mem[(s, addr)].source == s
    requires !(ts[d].flags == RECEIVING && Willing(ts[d], s))
    ensures d in qs && (qs[d] != [] ==> qs[d][|qs[d]| - 1] in ts)
    ensures Inv(Appended(ts, qs[d], s, d, addr), qs[d := qs[d] + [s]], mem,
                Record(sent, s, d, mem[(s, addr)]), delivered)
  {
    assert d in qs;
    hide Links, Logged, Linked, Appended;
    AppendLinks(ts, qs, s, d, addr);
    OneQueue(ts, qs, s, d);
    NotOwn(ts, qs, d);
    var q, r := qs[d], Appended(ts, qs[d], s, d, addr);
    forall x | x in ts
      ensures r.Keys == ts.Keys && r[x].(queue := ts[x].queue, next := ts[x].next)
              == (if x == s then ts[x].(flags := SENDING, sendTo := d, msg := Some(addr)) else ts[x])
    {
      AppendedFields(ts, q, s, d, addr, x);
    }
    SameButLinks(ts, r, s, ts[s].(flags := SENDING, sendTo := d, msg := Some(addr)));
    hide Queued, Shape, NoMissed;
    AppendQueued(ts, qs, r, s, d);
    LogSent(ts, r, mem, sent, delivered, s, d, addr);
    AppendShape(ts, r, s, d);
    AppendNoMissed(ts, qs, r, s, d);
  }

  /** `r` is `ts` with task `s` changed to `t`, links aside. */
  ghost predicate ButLinks(ts: Tasks, r: Tasks, s: Pid, t: Task) {
    && r.Keys == ts.Keys
    && forall x :: x in ts ==>
         && r[x].flags == (if x == s then t.flags else ts[x].flags)
         && r[x].sendTo == (if x == s then t.sendTo else ts[x].sendTo)
         && r[x].msg == (if x == s then t.msg else ts[x].msg)
         && r[x].recvFrom == (if x == s then t.recvFrom else ts[x].recvFrom)
  }

  lemma SameButLinks(ts: Tasks, r: Tasks, s: Pid, t: Task)
    requires r.Keys == ts.Keys
    requires forall x :: x in ts ==> r[x].(queue := ts[x].queue, next := ts[x].next) == (if x == s then t else ts[x])
    ensures ButLinks(ts, r, s, t)
  {
  }

  lemma AppendShape(ts: Tasks, r: Tasks, s: Pid, d: Pid)
    requires Shape(ts) && s in ts && d in ts && s != d && ts[s].flags == 0
    requires r.Keys == ts.Keys && r[s].flags == SENDING && r[s].sendTo == d
    requires r[s].msg.Some? && r[s].recvFrom == ts[s].recvFrom
    requires forall x :: x in ts && x != s ==> r[x].flags == ts[x].flags && r[x].sendTo == ts[x].sendTo
                                               && r[x].msg == ts[x].msg && r[x].recvFrom == ts[x].recvFrom
    ensures Shape(r)
  {
    assert TaskOk(s, ts[s], ts.Keys);
  }

  lemma AppendNoMissed(ts: Tasks, qs: Queues, r: Tasks, s: Pid, d: Pid)
    requires NoMissed(ts, qs) && s in ts && d in ts && d in qs && s != d
    requires r.Keys == ts.Keys && r[s].flags == SENDING
    requires forall x :: x in ts && x != s ==> r[x].flags == ts[x].flags && r[x].recvFrom == ts[x].recvFrom
    requires !(ts[d].flags == RECEIVING && Willing(ts[d], s))
    ensures NoMissed(r, qs[d := qs[d] + [s]])
  {
  }

  lemma TakeQueued(ts: Tasks, qs: Queues, r: Tasks, d: Pid, k: nat)
    requires Queued(ts, qs) && d in qs && k < |qs[d]|
    requires qs[d][k] in r && ButLinks(ts, r, qs[d][k], r[qs[d][k]]) && r[qs[d][k]].flags == 0
    ensures Queued(r, qs[d := qs[d][..k] + qs[d][k + 1..]])
  {
    hide EachOnce, Rightly, AllWait, ButLinks;
    var q, s := qs[d], qs[d][k];
    var q2 := q[..k] + q[k + 1..];
    assert NoDup(q) by { OnceAt(qs, d); }
    TakeMembers(q, k);
    ButLinksKeys(ts, r, s, r[s]);
    EachOnceUpdate(qs, d, q2);
    TakeRightly(ts, qs, r, d, s, q2);
    TakeAllWait(ts, qs, r, d, s, q2);
  }

  lemma OnceAt(qs: Queues, d: Pid)
    requires EachOnce(qs) && d in qs
    ensures NoDup(qs[d])
  {
  }

  lemma ButLinksKeys(ts: Tasks, r: Tasks, s: Pid, t: Task)
    requires ButLinks(ts, r, s, t)
    ensures r.Keys == ts.Keys
  {
  }

  lemma EachOnceUpdate(qs: Queues, d: Pid, q: seq<Pid>)
    requires EachOnce(qs) && NoDup(q)
    ensures EachOnce(qs[d := q])
  {
    hide NoDup;
  }

  lemma TakeRightly(ts: Tasks, qs: Queues, r: Tasks, d: Pid, s: Pid, q: seq<Pid>)
    requires Rightly(ts, qs) && d in qs && s in qs[d] && (forall p :: p in q <==> p in qs[d] && p != s)
    requires s in r && ButLinks(ts, r, s, r[s])
    ensures Rightly(r, qs[d := q])
  {
    var qs2 := qs[d := q];
    forall e, p | e in qs2 && p in qs2[e]
      ensures p in r && r[p].flags == SENDING && r[p].sendTo == e
    {
      assert p in qs[e];
    }
  }

  lemma TakeAllWait(ts: Tasks, qs: Queues, r: Tasks, d: Pid, s: Pid, q: seq<Pid>)
    requires AllWait(ts, qs) && d in qs && (forall p :: p in q <==> p in qs[d] && p != s)
    requires s in r && ButLinks(ts, r, s, r[s]) && r[s].flags == 0
    ensures AllWait(r, qs[d := q])
  {
    forall p | p in r && r[p].flags == SENDING
      ensures r[p].sendTo in qs[d := q] && p in qs[d := q][r[p].sendTo]
    {
      assert p != s && p in qs[ts[p].sendTo];
    }
  }

  lemma TakeMembers(q: seq<Pid>, k: nat)
    requires NoDup(q) && k < |q|
    ensures NoDup(q[..k] + q[k + 1..])
    ensures forall p :: p in q[..k] + q[k + 1..] <==> p in q && p != q[k]
  {
    var q2 := q[..k] + q[k + 1..];
    forall p | p in q && p != q[k]
      ensures p in q2
    {
      var i :| 0 <= i < |q| && q[i] == p;
      assert q2[if i < k then i else i - 1] == p;
    }
  }

  /** A receiver that is not blocked fetches the message of the sender at place `k` of its queue. */
  lemma Fetch(ts: Tasks, qs: Queues, mem: Memory, sent: Log, delivered: Log, d: Pid, k: nat, addr: nat)
    requires Inv(ts, qs, mem, sent, delivered) && d in qs && k < |qs[d]| && ts[d].flags == 0
    ensures forall i :: 0 <= i < |qs[d]| ==> qs[d][i] in ts
    ensures var s := qs[d][k];
      && ts[s].flags == SENDING && ts[s].sendTo == d && ts[s].recvFrom == NO_TASK
      && ts[s].msg.Some? && (s, ts[s].msg.value) in mem && mem[(s, ts[s].msg.value)].source == s
      && var m := mem[(s, ts[s].msg.value)];
         Inv(Taken(ts, qs[d], k, d), qs[d := qs[d][..k] + qs[d][k + 1..]], mem[(d, addr) := m],
             sent, Record(delivered, s, d, m))
  {
    hide Links, Logged, Taken, Queued, Shape, NoMissed, ButLinks;
    var q, s := qs[d], qs[d][k];
    Waiting(ts, qs, mem, sent, delivered, d, k);
    var m := mem[(s, ts[s].msg.value)];
    TakeLinks(ts, qs, d, k);
    TakenButLinks(ts, qs, d, k);
    var r := Taken(ts, q, k, d);
    TakeQueued(ts, qs, r, d, k) by { ButLinksAt(ts, r, s, ts[s].(msg := None, sendTo := NO_TASK, flags := 0)); }
    TakeLogged(ts, r, mem, sent, delivered, s, d, addr);
    TakeShape(ts, r, s);
    TakeNoMissed(ts, qs, r, s, d, k);
  }

  /** What is known of a task in a queue. */
  lemma Waiting(ts: Tasks, qs: Queues, mem: Memory, sent: Log, delivered: Log, d: Pid, k: nat)
    requires Shape(ts) && Queued(ts, qs) && Logged(ts, mem, sent, delivered) && d in qs && k < |qs[d]|
    ensures d in ts && forall i :: 0 <= i < |qs[d]| ==> qs[d][i] in ts
    ensures var s := qs[d][k];
      && s != d && ts[s].flags == SENDING && ts[s].sendTo == d && ts[s].recvFrom == NO_TASK
      && ts[s].msg.Some? && (s, ts[s].msg.value) in mem && mem[(s, ts[s].msg.value)].source == s
  {
    hide Queued;
    forall i | 0 <= i < |qs[d]|
      ensures qs[d][i] in ts
    {
      InQueue(ts, qs, d, i);
    }
    InQueue(ts, qs, d, k);
    assert TaskOk(qs[d][k], ts[qs[d][k]], ts.Keys);
  }

  lemma InQueue(ts: Tasks, qs: Queues, d: Pid, i: nat)
    requires Queued(ts, qs) && d in qs && i < |qs[d]|
    ensures d in ts && qs[d][i] in ts && ts[qs[d][i]].flags == SENDING && ts[qs[d][i]].sendTo == d
  {
    var p := qs[d][i];
    assert p in qs[d];
    assert forall e, x :: e in qs && x in qs[e] ==> x in ts && ts[x].flags == SENDING && ts[x].sendTo == e;
  }

  lemma TakenButLinks(ts: Tasks, qs: Queues, d: Pid, k: nat)
    requires Shape(ts) && Queued(ts, qs) && d in qs && k < |qs[d]|
    requires forall i :: 0 <= i < |qs[d]| ==> qs[d][i] in ts
    ensures ButLinks(ts, Taken(ts, qs[d], k, d), qs[d][k], ts[qs[d][k]].(msg := None, sendTo := NO_TASK, flags := 0))
  {
    hide Taken, Shape;
    var q, s := qs[d], qs[d][k];
    NotOwn(ts, qs, d);
    var r := Taken(ts, q, k, d);
    forall x | x in ts
      ensures r.Keys == ts.Keys && r[x].(queue := ts[x].queue, next := ts[x].next)
              == (if x == s then ts[x].(msg := None, sendTo := NO_TASK, flags := 0) else ts[x])
    {
      TakenFields(ts, q, k, d, x);
    }
    TakenFields(ts, q, k, d, s);
    SameButLinks(ts, r, s, ts[s].(msg := None, sendTo := NO_TASK, flags := 0));
  }

  lemma ButLinksAt(ts: Tasks, r: Tasks, s: Pid, t: Task)
    requires ButLinks(ts, r, s, t) && s in ts
    ensures s in r && ButLinks(ts, r, s, r[s]) && r[s].flags == t.flags
  {
  }

  lemma TakeLogged(ts: Tasks, r: Tasks, mem: Memory, sent: Log, delivered: Log, s: Pid, d: Pid, addr: nat)
    requires Logged(ts, mem, sent, delivered) && s in ts && d in ts && s != d
    requires ts[s].flags == SENDING && ts[s].sendTo == d && ts[d].flags == 0
    requires ButLinks(ts, r, s, ts[s].(msg := None, sendTo := NO_TASK, flags := 0))
    ensures ts[s].msg.Some? && (s, ts[s].msg.value) in mem
    ensures var m := mem[(s, ts[s].msg.value)];
      Logged(r, mem[(d, addr) := m], sent, Record(delivered, s, d, m))
  {
    LogDelivered(ts, r, mem, sent, delivered, s, d);
    var m := mem[(s, ts[s].msg.value)];
    WriteBuffer(r, mem, sent, Record(delivered, s, d, m), d, addr, m);
  }

  lemma TakeShape(ts: Tasks, r: Tasks, s: Pid)
    requires Shape(ts) && s in ts && ButLinks(ts, r, s, ts[s].(msg := None, sendTo := NO_TASK, flags := 0))
    requires ts[s].recvFrom == NO_TASK
    ensures Shape(r)
  {
  }

  lemma TakeNoMissed(ts: Tasks, qs: Queues, r: Tasks, s: Pid, d: Pid, k: nat)
    requires NoMissed(ts, qs) && s in ts && d in qs && k < |qs[d]|
    requires ButLinks(ts, r, s, ts[s].(msg := None, sendTo := NO_TASK, flags := 0))
    ensures NoMissed(r, qs[d := qs[d][..k] + qs[d][k + 1..]])
  {
    var q2 := qs[d][..k] + qs[d][k + 1..];
    assert forall p :: p in q2 ==> p in qs[d];
    var qs2 := qs[d := q2];
    forall x, p | x in r && x in qs2 && r[x].flags == RECEIVING && p in qs2[x]
      ensures !Willing(r[x], p)
    {
      assert p in qs[x] && x in ts && ts[x].flags == RECEIVING;
    }
  }
}
