/** proc/proc.c and proc/pcb.c: one ring of tasks per priority, and the choice of the next
    task to run. */
module Sched {
  import opened Common

  const PROCESS_READY: int := 0
  const PROCESS_PRIO_BUTT: nat := 5
  const HEAD_PID: int := -1

  class Pcb {
    var pid: int
    var state: int
    var next: Pcb
    var prev: Pcb

    /** A ring of one, as OS_Init and pcb_list_init make it. */
    constructor (pid: int, state: int)
      ensures this.pid == pid && this.state == state && next == this && prev == this
    {
      this.pid, this.state, this.next, this.prev := pid, state, this, this;
    }
  }

  /** The nodes in the order of their links, the head first. */
  ghost predicate Ring(ring: seq<Pcb>)
    reads ring
  {
    && |ring| > 0
    && (forall i, j :: 0 <= i < j < |ring| ==> ring[i] != ring[j])
    && (forall i :: 0 <= i < |ring| ==> ring[i].next == ring[Up(i, |ring|)])
    && (forall i :: 0 <= i < |ring| ==> ring[Up(i, |ring|)].prev == ring[i])
    && (forall i :: 0 <= i < |ring| ==> (ring[i].pid == HEAD_PID <==> i == 0))
  }

  /** pcb_list_add: link a task in behind the head. */
  method ListAdd(head: Pcb, pcb: Pcb, ghost ring: seq<Pcb>)
    requires Ring(ring) && head == ring[0] && pcb !in ring && pcb.pid != HEAD_PID
    modifies pcb`next, pcb`prev, head`next, head.next`prev
    ensures Ring([head, pcb] + ring[1..])
  {
    ghost var n := |ring|;
    assert head.next == ring[Up(0, n)];
    pcb.next := head.next;
    pcb.prev := head;
    head.next.prev := pcb;
    head.next := pcb;
    ghost var r := [head, pcb] + ring[1..];
    assert forall i :: 2 <= i < |r| ==> r[i] == ring[i - 1];
    forall i | 0 <= i < |r|
      ensures r[i].next == r[Up(i, |r|)] && r[Up(i, |r|)].prev == r[i]
    {
      if i >= 2 {
        assert ring[i - 1].next == ring[Up(i - 1, n)];
        assert ring[Up(i - 1, n)].prev == ring[i - 1];
      }
    }
  }

  // ---------- whose turn it is ----------

  /** How many tasks a pick may pass, going round from the node at `c`, to reach the task at `t`,
      itself included.  The head, at place 0, is no task. */
  function Turns(c: nat, t: nat, n: nat): nat
    requires c < n && 0 < t < n
  {
    if c < t then t - c else n - 1 - c + t
  }

  /** The task at `p` is the first ready one after `c`. */
  ghost predicate IsPick(c: nat, ready: seq<bool>, p: nat) {
    && c < |ready| && 0 < p < |ready| && ready[p]
    && forall q :: 0 < q < |ready| && ready[q] ==> Turns(c, p, |ready|) <= Turns(c, q, |ready|)
  }

  lemma PickUnique(c: nat, ready: seq<bool>, p: nat, q: nat)
    requires IsPick(c, ready, p) && IsPick(c, ready, q)
    ensures p == q
  {
  }

  /** A pick that passes a ready task by brings it nearer. */
  lemma Nearer(c: nat, ready: seq<bool>, p: nat, t: nat)
    requires IsPick(c, ready, p) && 0 < t < |ready| && ready[t] && p != t
    ensures Turns(p, t, |ready|) < Turns(c, t, |ready|)
  {
  }

  // ---------- picks over time ----------

  /** Which tasks of a ring are ready when the tasks are in these states. */
  ghost function ReadyIn(ring: seq<Pcb>, states: map<Pcb, int>): (r: seq<bool>)
    ensures |r| == |ring|
    ensures forall i :: 0 <= i < |ring| ==> r[i] == (ring[i] in states && states[ring[i]] == PROCESS_READY)
  {
    if ring == [] then []
    else [ring[0] in states && states[ring[0]] == PROCESS_READY] + ReadyIn(ring[1..], states)
  }

  /** A task picked: the next ready one of the best level that has one.  Only the cursor of that
      level moves, to it. */
  ghost predicate PickAt(rings: seq<seq<Pcb>>, states: map<Pcb, int>, cur: seq<nat>, task: Pcb, prio: nat,
                         cur2: seq<nat>)
  {
    && prio < |rings| == |cur| == |cur2|
    && IsPick(cur[prio], ReadyIn(rings[prio], states), cur2[prio]) && task == rings[prio][cur2[prio]]
    && (forall j, q :: 0 <= j < prio && 0 < q < |rings[j]| ==> !ReadyIn(rings[j], states)[q])
    && (forall j :: 0 <= j < |cur| && j != prio ==> cur2[j] == cur[j])
  }

  /** Picks, the states of the tasks at each of them, and the cursors before and after each. */
  ghost predicate Picks(rings: seq<seq<Pcb>>, states: seq<map<Pcb, int>>, cursors: seq<seq<nat>>, picked: seq<Pcb>,
                        from: seq<nat>)
  {
    && |picked| == |from| == |states| && |cursors| == |picked| + 1
    && forall i :: 0 <= i < |picked| ==> PickAt(rings, states[i], cursors[i], picked[i], from[i], cursors[i + 1])
  }

  /** The picks made of one level. */
  function Of(l: nat, picked: seq<Pcb>, from: seq<nat>): seq<Pcb>
    requires |picked| == |from|
  {
    if picked == [] then [] else (if from[0] == l then [picked[0]] else []) + Of(l, picked[1..], from[1..])
  }

  /** Whatever becomes ready or not meanwhile, a task that stays ready is picked within as many
      picks of its level as there are tasks in it. */
  lemma {:induction false} Fair(rings: seq<seq<Pcb>>, states: seq<map<Pcb, int>>, cursors: seq<seq<nat>>,
                                picked: seq<Pcb>, from: seq<nat>, l: nat, t: nat)
    requires Picks(rings, states, cursors, picked, from)
    requires l < |rings| == |cursors[0]| && 0 < t < |rings[l]| && cursors[0][l] < |rings[l]|
    requires forall i :: 0 <= i < |states| ==> ReadyIn(rings[l], states[i])[t]
    ensures Turns(cursors[0][l], t, |rings[l]|) < |rings[l]|
    ensures var n := Turns(cursors[0][l], t, |rings[l]|);
      n <= |Of(l, picked, from)| ==> rings[l][t] in Of(l, picked, from)[..n]
    decreases |picked|
  {
    hide IsPick, ReadyIn, Of;
    OfNone(l);
    if picked != [] {
      assert PickAt(rings, states[0], cursors[0], picked[0], from[0], cursors[1]);
      var rest, later := picked[1..], from[1..];
      PicksTail(rings, states, cursors, picked, from);
      PickPlace(cursors[0], rings, states[0], cursors[1], l, from[0]);
      Fair(rings, states[1..], cursors[1..], rest, later, l, t);
      OfStep(l, picked, from);
      if from[0] == l && cursors[1][l] != t {
        Nearer(cursors[0][l], ReadyIn(rings[l], states[0]), cursors[1][l], t);
        var m := Turns(cursors[1][l], t, |rings[l]|);
        if m < |Of(l, picked, from)| {
          var k :| 0 <= k < m && Of(l, rest, later)[k] == rings[l][t];
          assert Of(l, picked, from)[k + 1] == rings[l][t];
        }
      } else if from[0] == l {
        assert Of(l, picked, from)[0] == rings[l][t];
      } else {
        assert cursors[1..][0][l] == cursors[0][l];
      }
    }
  }

  lemma OfNone(l: nat)
    ensures Of(l, [], []) == []
  {
  }

  lemma OfStep(l: nat, picked: seq<Pcb>, from: seq<nat>)
    requires |picked| == |from| > 0
    ensures Of(l, picked, from) ==
      if from[0] == l then [picked[0]] + Of(l, picked[1..], from[1..]) else Of(l, picked[1..], from[1..])
  {
  }

  lemma PickPlace(cur: seq<nat>, rings: seq<seq<Pcb>>, states: map<Pcb, int>, cur2: seq<nat>, l: nat, prio: nat)
    requires l < |rings| == |cur| == |cur2| && prio < |rings| && cur[l] < |rings[l]|
    requires prio == l ==> IsPick(cur[l], ReadyIn(rings[l], states), cur2[l])
    requires prio != l ==> cur2[l] == cur[l]
    ensures cur2[l] < |rings[l]|
  {
  }

  lemma PicksTail(rings: seq<seq<Pcb>>, states: seq<map<Pcb, int>>, cursors: seq<seq<nat>>, picked: seq<Pcb>,
                  from: seq<nat>)
    requires Picks(rings, states, cursors, picked, from) && picked != []
    ensures Picks(rings, states[1..], cursors[1..], picked[1..], from[1..])
  {
    hide PickAt;
    forall i | 0 <= i < |picked[1..]|
      ensures PickAt(rings, states[1..][i], cursors[1..][i], picked[1..][i], from[1..][i], cursors[1..][i + 1])
    {
      assert PickAt(rings, states[i + 1], cursors[i + 1], picked[i + 1], from[i + 1], cursors[i + 2]);
    }
  }

  ghost function Readies(ring: seq<Pcb>): (r: seq<bool>)
    reads ring
    ensures |r| == |ring| && forall i :: 0 <= i < |ring| ==> r[i] == (ring[i].state == PROCESS_READY)
  {
    if ring == [] then [] else [ring[0].state == PROCESS_READY] + Readies(ring[1..])
  }

  /** An entry of proc_list. */
  class Level {
    const head: Pcb
    var current: Pcb
    ghost var ring: seq<Pcb>
    ghost var cur: nat        // place of `current`

    ghost predicate Valid()
      reads this, ring
    {
      Ring(ring) && head == ring[0] && cur < |ring| && current == ring[cur]
    }

    ghost predicate HasReady()
      reads this`ring, ring
    {
      exists t :: 0 < t < |ring| && ring[t].state == PROCESS_READY
    }

    constructor ()
      ensures Valid() && fresh(head) && ring == [head] && head.state == 0
    {
      var h := new Pcb(HEAD_PID, 0);
      head, current := h, h;
      ring, cur := [h], 0;
    }

    /** A task joins: the task served last stays current. */
    method Add(pcb: Pcb)
      requires Valid() && pcb !in ring && pcb.pid != HEAD_PID
      modifies this`ring, this`cur, pcb`next, pcb`prev, head`next, head.next`prev
      ensures Valid() && ring == [head, pcb] + old(ring)[1..] && current == old(current)
    {
      ListAdd(head, pcb, ring);
      ring := [head, pcb] + ring[1..];
      cur := if cur == 0 then 0 else cur + 1;
    }

    /** One round of OS_GetNextReady. */
    method NextReady() returns (task: Option<Pcb>)
      requires Valid()
      modifies this`current, this`cur
      ensures Valid() && ring == old(ring)
      ensures task.None? ==> !HasReady() && current == old(current) && cur == old(cur)
      ensures task.Some? ==> HasReady() && task.value == current && IsPick(old(cur), Readies(ring), cur)
    {
      hide Readies, IsPick;
      var tmp := current;
      ghost var at: nat, steps: nat := cur, 0;
      while true
        invariant current == old(current) && cur == old(cur)
        invariant at < |ring| && tmp == ring[at] && steps < |ring|
        invariant Reached(cur, at, steps, |ring|)
        invariant forall q: nat :: 0 < q < |ring| && Passed(cur, q, steps, |ring|) ==> ring[q].state != PROCESS_READY
        decreases |ring| - steps
      {
        Step(cur, at, steps, |ring|);
        tmp := tmp.next;
        at, steps := Up(at, |ring|), steps + 1;
        if tmp.pid == HEAD_PID {
        } else if tmp.state == PROCESS_READY {
          Picked(cur, at, steps, ring);
          current, cur := tmp, at;
          return Some(tmp);
        }
        if tmp == current {
          AllPassed(cur, at, steps, |ring|);
          return None;
        }
      }
    }
  }

  /** OS_GetNextReady: a ready task of the best priority that has one, the next in its ring; none
      when the kernel would panic. */
  method GetNextReady(levels: seq<Level>) returns (task: Option<Pcb>, prio: nat)
    requires |levels| == PROCESS_PRIO_BUTT
    requires forall i :: 0 <= i < |levels| ==> levels[i].Valid()
    requires forall i, j :: 0 <= i < j < |levels| ==> levels[i] != levels[j]
    modifies levels
    ensures forall i :: 0 <= i < |levels| ==> levels[i].Valid()
    ensures task.None? <==> forall i :: 0 <= i < |levels| ==> !levels[i].HasReady()
    ensures task.Some? ==> prio < |levels| && task.value == levels[prio].current && levels[prio].HasReady()
    ensures task.Some? ==> IsPick(old(levels[prio].cur), Readies(levels[prio].ring), levels[prio].cur)
    ensures task.Some? ==> forall i :: 0 <= i < prio ==> !levels[i].HasReady()
    ensures forall i :: 0 <= i < |levels| ==> levels[i].ring == old(levels[i].ring)
    ensures forall i :: 0 <= i < |levels| && !(task.Some? && i == prio) ==>
      levels[i].current == old(levels[i].current) && levels[i].cur == old(levels[i].cur)
  {
    hide Readies, IsPick, Ring;
    prio := 0;
    task := None;
    while prio < PROCESS_PRIO_BUTT
      invariant prio <= |levels| && task.None?
      invariant forall i :: 0 <= i < |levels| ==> levels[i].Valid()
      invariant forall i :: 0 <= i < prio ==> !levels[i].HasReady()
      invariant forall i :: 0 <= i < |levels| ==> levels[i].current == old(levels[i].current)
      invariant forall i :: 0 <= i < |levels| ==>
        levels[i].cur == old(levels[i].cur) && levels[i].ring == old(levels[i].ring)
    {
      task := levels[prio].NextReady();
      if task.Some? {
        return;
      }
      prio := prio + 1;
    }
  }

  ghost function Rings(levels: seq<Level>): (r: seq<seq<Pcb>>)
    reads levels
    ensures |r| == |levels| && forall i :: 0 <= i < |levels| ==> r[i] == levels[i].ring
  {
    if levels == [] then [] else [levels[0].ring] + Rings(levels[1..])
  }

  ghost function Cursors(levels: seq<Level>): (r: seq<nat>)
    reads levels
    ensures |r| == |levels| && forall i :: 0 <= i < |levels| ==> r[i] == levels[i].cur
  {
    if levels == [] then [] else [levels[0].cur] + Cursors(levels[1..])
  }

  /** The states after each of some changes. */
  ghost function StatesAfter(states: map<Pcb, int>, changes: seq<map<Pcb, int>>): (r: seq<map<Pcb, int>>)
    ensures |r| == |changes|
  {
    if changes == [] then []
    else
      var n := |changes| - 1;
      var before := StatesAfter(states, changes[..n]);
      before + [(if n == 0 then states else before[n - 1]) + changes[n]]
  }

  ghost function StatesOf(tasks: set<Pcb>): map<Pcb, int>
    reads tasks
  {
    map p | p in tasks :: p.state
  }

  /** The levels of proc_list, whose tasks are among `tasks`. */
  ghost predicate Runnable(levels: seq<Level>, tasks: set<Pcb>)
    reads levels, tasks
  {
    && |levels| == PROCESS_PRIO_BUTT
    && (forall i, j :: 0 <= i < j < |levels| ==> levels[i] != levels[j])
    && (forall i :: 0 <= i < |levels| ==> (forall p :: p in levels[i].ring ==> p in tasks) && levels[i].Valid())
  }

  /** Tasks wake up, go to sleep or stop. */
  method SetStates(levels: seq<Level>, tasks: set<Pcb>, change: map<Pcb, int>)
    requires Runnable(levels, tasks) && change.Keys <= tasks
    modifies change.Keys`state
    ensures Runnable(levels, tasks)
    ensures Rings(levels) == old(Rings(levels)) && Cursors(levels) == old(Cursors(levels))
    ensures StatesOf(tasks) == old(StatesOf(tasks)) + change
  {
    forall p | p in change.Keys {
      p.state := change[p];
    }
  }

  /** One pick, when some task is ready. */
  method PickNext(levels: seq<Level>, ghost tasks: set<Pcb>, ghost l: nat, ghost t: nat) returns (task: Pcb, prio: nat)
    requires Runnable(levels, tasks)
    requires l < |levels| && 0 < t < |levels[l].ring| && ReadyIn(levels[l].ring, StatesOf(tasks))[t]
    modifies levels
    ensures Runnable(levels, tasks)
    ensures Rings(levels) == old(Rings(levels))
    ensures PickAt(Rings(levels), StatesOf(tasks), old(Cursors(levels)), task, prio, Cursors(levels))
  {
    hide Ring, IsPick, ReadyIn, Readies, StatesOf, Rings, Cursors;
    assert levels[l].HasReady() by { SameReadies(levels[l].ring, tasks); }
    var found;
    found, prio := GetNextReady(levels);
    task := found.value;
    forall i | 0 <= i < |levels|
      ensures Readies(levels[i].ring) == ReadyIn(levels[i].ring, StatesOf(tasks))
    {
      SameReadies(levels[i].ring, tasks);
    }
    forall j, q | 0 <= j < prio && 0 < q < |levels[j].ring|
      ensures !ReadyIn(levels[j].ring, StatesOf(tasks))[q]
    {
      assert !levels[j].HasReady();
    }
  }

  method ChangeAndPick(levels: seq<Level>, tasks: set<Pcb>, change: map<Pcb, int>, ghost l: nat, ghost t: nat)
    returns (task: Pcb, prio: nat)
    requires Runnable(levels, tasks) && change.Keys <= tasks
    requires l < |levels| && 0 < t < |levels[l].ring|
    requires ReadyIn(levels[l].ring, StatesOf(tasks) + change)[t]
    modifies levels, tasks`state
    ensures Runnable(levels, tasks)
    ensures Rings(levels) == old(Rings(levels)) && StatesOf(tasks) == old(StatesOf(tasks)) + change
    ensures PickAt(Rings(levels), StatesOf(tasks), old(Cursors(levels)), task, prio, Cursors(levels))
  {
    hide Runnable, PickAt, ReadyIn, Rings, Cursors, StatesOf;
    SetStates(levels, tasks, change);
    assert levels[l].ring == Rings(levels)[l];
    task, prio := PickNext(levels, tasks, l, t);
  }

  lemma SameReadies(ring: seq<Pcb>, tasks: set<Pcb>)
    requires forall p :: p in ring ==> p in tasks
    ensures Readies(ring) == ReadyIn(ring, StatesOf(tasks))
  {
    hide Readies, ReadyIn;
  }

  /** The picks made as the states change. */
  method PickAll(levels: seq<Level>, tasks: set<Pcb>, changes: seq<map<Pcb, int>>, ghost l: nat, ghost t: nat)
    returns (picked: seq<Pcb>, from: seq<nat>, ghost cursors: seq<seq<nat>>)
    requires Runnable(levels, tasks) && forall i :: 0 <= i < |changes| ==> changes[i].Keys <= tasks
    requires l < |levels| && 0 < t < |levels[l].ring|
    requires var all := StatesAfter(StatesOf(tasks), changes);
      forall i :: 0 <= i < |all| ==> ReadyIn(levels[l].ring, all[i])[t]
    modifies levels, tasks`state
    ensures Runnable(levels, tasks) && Rings(levels) == old(Rings(levels)) && |cursors| == |changes| + 1
    ensures cursors[0] == old(Cursors(levels)) && cursors[|changes|] == Cursors(levels)
    ensures Picks(Rings(levels), StatesAfter(old(StatesOf(tasks)), changes), cursors, picked, from)
  {
    hide PickAt, ReadyIn, StatesAfter, Runnable, Rings, Cursors, StatesOf, Picks;
    ghost var all, rings := StatesAfter(StatesOf(tasks), changes), Rings(levels);
    picked, from, cursors := [], [], [Cursors(levels)];
    NoPicks(rings, all, cursors);
    assert levels[l].ring == rings[l];
    for i := 0 to |changes|
      invariant Runnable(levels, tasks) && Rings(levels) == rings && |picked| == i
      invariant StatesOf(tasks) == if i == 0 then old(StatesOf(tasks)) else all[i - 1]
      invariant |cursors| == i + 1 && cursors[0] == old(Cursors(levels)) && cursors[i] == Cursors(levels)
      invariant Picks(rings, all[..i], cursors, picked, from)
    {
      StatesStep(old(StatesOf(tasks)), changes, i);
      assert levels[l].ring == Rings(levels)[l];
      var task, prio := ChangeAndPick(levels, tasks, changes[i], l, t);
      PicksStep(rings, all, cursors, picked, from, task, prio, Cursors(levels));
      picked, from, cursors := picked + [task], from + [prio], cursors + [Cursors(levels)];
    }
    assert all[..|changes|] == all;
  }

  lemma NoPicks(rings: seq<seq<Pcb>>, all: seq<map<Pcb, int>>, cursors: seq<seq<nat>>)
    requires |cursors| == 1
    ensures Picks(rings, all[..0], cursors, [], [])
  {
  }

  /** Any run of picks with arbitrary changes of states between them: a task that is ready at each
      of them is itself picked within as many picks of its level as there are tasks in it. */
  method Schedule(levels: seq<Level>, tasks: set<Pcb>, changes: seq<map<Pcb, int>>, ghost l: nat, ghost t: nat)
    returns (picked: seq<Pcb>, from: seq<nat>, ghost cursors: seq<seq<nat>>)
    requires Runnable(levels, tasks) && forall i :: 0 <= i < |changes| ==> changes[i].Keys <= tasks
    requires l < |levels| && 0 < t < |levels[l].ring|
    requires var all := StatesAfter(StatesOf(tasks), changes);
      forall i :: 0 <= i < |all| ==> ReadyIn(levels[l].ring, all[i])[t]
    modifies levels, tasks`state
    ensures Runnable(levels, tasks) && Rings(levels) == old(Rings(levels)) && |cursors| == |changes| + 1
    ensures cursors[0] == old(Cursors(levels)) && cursors[|changes|] == Cursors(levels)
    ensures Picks(Rings(levels), StatesAfter(old(StatesOf(tasks)), changes), cursors, picked, from)
    ensures |picked| == |from|
    ensures |Of(l, picked, from)| >= |levels[l].ring| - 1 ==>
      levels[l].ring[t] in Of(l, picked, from)[..|levels[l].ring| - 1]
  {
    hide PickAt, ReadyIn, StatesAfter, Rings, Cursors, StatesOf, Of;
    ghost var ring := levels[l].ring;
    assert levels[l].Valid();
    picked, from, cursors := PickAll(levels, tasks, changes, l, t);
    assert ring == Rings(levels)[l] == levels[l].ring;
    Fair(Rings(levels), StatesAfter(old(StatesOf(tasks)), changes), cursors, picked, from, l, t);
    Longer(Of(l, picked, from), Turns(cursors[0][l], t, |ring|), |ring| - 1, ring[t]);
  }

  lemma Longer(s: seq<Pcb>, n: nat, k: nat, x: Pcb)
    requires n <= k && (n <= |s| ==> x in s[..n])
    ensures k <= |s| ==> x in s[..k]
  {
    if k <= |s| { assert forall i :: 0 <= i < n ==> s[..k][i] == s[..n][i]; }
  }

  lemma PicksStep(rings: seq<seq<Pcb>>, all: seq<map<Pcb, int>>, cursors: seq<seq<nat>>, picked: seq<Pcb>,
                  from: seq<nat>, task: Pcb, prio: nat, cur: seq<nat>)
    requires |picked| < |all| && Picks(rings, all[..|picked|], cursors, picked, from)
    requires PickAt(rings, all[|picked|], cursors[|picked|], task, prio, cur)
    ensures Picks(rings, all[..|picked| + 1], cursors + [cur], picked + [task], from + [prio])
  {
    hide PickAt;
  }

  lemma {:induction false} StatesStep(states: map<Pcb, int>, changes: seq<map<Pcb, int>>, i: nat)
    requires i < |changes|
    ensures var all := StatesAfter(states, changes); all[i] == (if i == 0 then states else all[i - 1]) + changes[i]
  {
    if i < |changes| - 1 { StatesStep(states, changes[..|changes| - 1], i); }
  }

  /** After `steps` steps round a ring of `n` from `c` one is at `at`. */
  ghost predicate Reached(c: nat, at: nat, steps: nat, n: nat) {
    c < n && at < n && steps <= n && at == if c + steps < n then c + steps else c + steps - n
  }

  /** Place `q` is among the `steps` places after `c`. */
  ghost predicate Passed(c: nat, q: nat, steps: nat, n: nat) {
    (c < q <= c + steps) || (c < q + n <= c + steps)
  }

  lemma Step(c: nat, at: nat, steps: nat, n: nat)
    requires Reached(c, at, steps, n) && steps < n
    ensures Reached(c, Up(at, n), steps + 1, n)
    ensures forall q: nat :: q < n ==> (Passed(c, q, steps + 1, n) <==> Passed(c, q, steps, n) || q == Up(at, n))
    ensures Up(at, n) == c <==> steps + 1 == n
  {
    forall q: nat | q < n
      ensures Passed(c, q, steps + 1, n) <==> Passed(c, q, steps, n) || q == Up(at, n)
    {
    }
  }

  lemma AllPassed(c: nat, at: nat, steps: nat, n: nat)
    requires Reached(c, at, steps, n) && steps == n
    ensures forall q: nat :: q < n ==> Passed(c, q, steps, n)
  {
  }

  lemma Picked(c: nat, at: nat, steps: nat, ring: seq<Pcb>)
    requires 0 < steps && Reached(c, at, steps, |ring|) && 0 < at && ring[at].state == PROCESS_READY
    requires forall q: nat :: 0 < q < |ring| && q != at && Passed(c, q, steps, |ring|) ==>
      ring[q].state != PROCESS_READY
    ensures IsPick(c, Readies(ring), at)
  {
    hide Readies;
    var ready := Readies(ring);
    forall q | 0 < q < |ready| && ready[q]
      ensures Turns(c, at, |ready|) <= Turns(c, q, |ready|)
    {
      assert q == at || !Passed(c, q, steps, |ring|);
    }
  }
}
