/** Whole histories of the buddy allocator. */
module BuddyRuns {
  import opened Common
  import opened Words
  import opened BuddyTheory
  import Buddy

  /** A run of pages handed out by the allocator. */
  datatype Run = Run(page: nat, order: nat) {
    ghost function Pages(): set<nat> { Interval(page, Pow2(order)) }
  }

  /** A request: allocate, or free the `k`-th run that is still held. */
  datatype Request = Alloc(order: nat) | Release(k: nat)

  ghost function Held(runs: seq<Run>): set<nat> {
    if runs == [] then {} else runs[0].Pages() + Held(runs[1..])
  }

  ghost predicate Separate(runs: seq<Run>) {
    forall i, j :: 0 <= i < j < |runs| ==> runs[i].Pages() !! runs[j].Pages()
  }

  lemma {:induction false} HeldAppend(runs: seq<Run>, r: Run)
    ensures Held(runs + [r]) == Held(runs) + r.Pages()
  {
    if runs == [] {
      assert runs + [r] == [r];
      assert Held([]) == {};
    } else {
      assert (runs + [r])[1..] == runs[1..] + [r];
      HeldAppend(runs[1..], r);
    }
  }

  lemma {:induction false} HeldConcat(a: seq<Run>, b: seq<Run>)
    ensures Held(a + b) == Held(a) + Held(b)
  {
    if a == [] {
      assert a + b == b;
    } else {
      assert (a + b)[1..] == a[1..] + b;
      HeldConcat(a[1..], b);
    }
  }

  lemma HeldRemove(runs: seq<Run>, k: nat)
    requires k < |runs| && Separate(runs)
    ensures Separate(runs[..k] + runs[k + 1..])
    ensures runs[k].Pages() <= Held(runs)
    ensures Held(runs[..k] + runs[k + 1..]) == Held(runs) - runs[k].Pages()
  {
    hide Run.Pages, Held;
    var a, b, r := runs[..k], runs[k + 1..], runs[k];
    HeldConcat(a, b);
    HeldAppend(a, r);
    HeldConcat(a + [r], b);
    assert runs == a + [r] + b;
    HeldApart(a, r);
    HeldApart(b, r);
    SeparateRemove(runs, k);
  }

  lemma SeparateRemove(runs: seq<Run>, k: nat)
    requires k < |runs| && Separate(runs)
    ensures Separate(runs[..k] + runs[k + 1..])
  {
    hide Run.Pages;
    var s := runs[..k] + runs[k + 1..];
    forall i, j | 0 <= i < j < |s|
      ensures s[i].Pages() !! s[j].Pages()
    {
      assert s[i] == runs[if i < k then i else i + 1] && s[j] == runs[if j < k then j else j + 1];
    }
  }

  lemma {:induction false} HeldApart(runs: seq<Run>, r: Run)
    requires forall i :: 0 <= i < |runs| ==> runs[i].Pages() !! r.Pages()
    ensures Held(runs) !! r.Pages()
  {
    hide Run.Pages;
    if runs != [] { HeldApart(runs[1..], r); }
  }

  lemma {:induction false} HeldContains(runs: seq<Run>, i: nat)
    requires i < |runs|
    ensures runs[i].Pages() <= Held(runs)
  {
    hide Run.Pages;
    if i > 0 { HeldContains(runs[1..], i - 1); }
  }

  /** The runs that are held never overlap, are aligned and in the zone, and the free pages
      are exactly the others of the pages `all` that were free at the start. */
  ghost predicate Partition(all: set<nat>, free: set<nat>, held: seq<Run>, size: nat) {
    && Separate(held) && Held(held) <= all && free == all - Held(held)
    && forall i :: 0 <= i < |held| ==> InZone(size, held[i])
  }

  ghost predicate Accounted(zone: Buddy.Zone, all: set<nat>, held: seq<Run>)
    reads zone, zone.bitmap
  {
    zone.Valid() && Partition(all, zone.Free(), held, zone.size)
  }

  predicate InZone(size: nat, r: Run) {
    r.order < MAX_ORDER && r.page % Pow2(r.order) == 0 && r.page + Pow2(r.order) <= size
  }

  lemma HeldMore(all: set<nat>, free: set<nat>, held: seq<Run>, size: nat, r: Run)
    requires Partition(all, free, held, size) && r.Pages() <= free && InZone(size, r)
    ensures Partition(all, free - r.Pages(), held + [r], size) && free == all - Held(held)
  {
    hide Run.Pages, InZone;
    forall i | 0 <= i < |held|
      ensures held[i].Pages() !! r.Pages()
    {
      HeldContains(held, i);
    }
    HeldAppend(held, r);
  }

  lemma HeldLess(all: set<nat>, free: set<nat>, held: seq<Run>, size: nat, k: nat)
    requires Partition(all, free, held, size) && k < |held|
    ensures InZone(size, held[k]) && held[k].Pages() !! free
    ensures Partition(all, free + held[k].Pages(), held[..k] + held[k + 1..], size)
  {
    hide Run.Pages, InZone, Held, Separate;
    HeldRemove(held, k);
  }

  /** What is held after a request, given the page the allocator answered with, if any. */
  function After(held: seq<Run>, request: Request, answer: Option<nat>): seq<Run> {
    match request
    case Alloc(order) => if answer.Some? then held + [Run(answer.value, order)] else held
    case Release(k) => if k < |held| then held[..k] + held[k + 1..] else held
  }

  /** What is held after a history, nothing being held at its start. */
  function Replay(requests: seq<Request>, answers: seq<Option<nat>>): seq<Run>
    requires |answers| == |requests|
  {
    if requests == [] then []
    else var n := |requests| - 1; After(Replay(requests[..n], answers[..n]), requests[n], answers[n])
  }

  /** A request is answered with free pages exactly when an aligned block of its order is free in
      one piece among the pages `all` that are not held. */
  ghost predicate Right(all: set<nat>, held: seq<Run>, request: Request, answer: Option<nat>) {
    match request
    case Alloc(order) =>
      && (answer.Some? <==> order < MAX_ORDER && SomeFull(all - Held(held), order))
      && (answer.Some? ==> Run(answer.value, order).Pages() <= all - Held(held))
    case Release(k) => answer.None?
  }

  /** What a request does to the lists. */
  ghost predicate Step(were: seq<seq<nat>>, lists: seq<seq<nat>>, held: seq<Run>, request: Request,
                       answer: Option<nat>)
  {
    match request
    case Alloc(order) =>
      if answer.Some? then exists o :: Buddy.Served(were, lists, order, o, answer.value)
      else lists == were && forall o :: order <= o < |were| ==> were[o] == []
    case Release(k) =>
      && answer.None?
      && if k < |held| then exists o :: Buddy.GivenBack(were, lists, held[k].page, held[k].order, o) else lists == were
  }

  /** The lists before and after every request of a history. */
  ghost predicate Steps(trace: seq<seq<seq<nat>>>, requests: seq<Request>, answers: seq<Option<nat>>) {
    && |answers| == |requests| && |trace| == |requests| + 1
    && (forall i :: 0 <= i < |trace| ==> |trace[i]| == MAX_ORDER && Buddy.Plain(trace[i]))
    && (forall i :: 0 <= i < |requests| ==>
          Step(trace[i], trace[i + 1], Replay(requests[..i], answers[..i]), requests[i], answers[i]))
  }

  lemma StepOnce(were: seq<seq<nat>>, lists: seq<seq<nat>>, lists2: seq<seq<nat>>, held: seq<Run>, request: Request,
                 answer: Option<nat>, answer2: Option<nat>)
    requires Buddy.Plain(were) && |were| == MAX_ORDER
    requires Step(were, lists, held, request, answer) && Step(were, lists2, held, request, answer2)
    ensures answer == answer2 && lists == lists2
  {
    hide Pow2, Buddy.GivenBack, Buddy.Plain;
    match request
    case Alloc(order) =>
      if answer.Some? && answer2.Some? {
        var o :| Buddy.Served(were, lists, order, o, answer.value);
        var o2 :| Buddy.Served(were, lists2, order, o2, answer2.value);
        Buddy.ServedOnce(were, order, o, answer.value, lists, o2, answer2.value, lists2);
      }
    case Release(k) =>
      if k < |held| {
        var o :| Buddy.GivenBack(were, lists, held[k].page, held[k].order, o);
        var o2 :| Buddy.GivenBack(were, lists2, held[k].page, held[k].order, o2);
        Buddy.GivenBackOnce(were, held[k].page, held[k].order, o, lists, o2, lists2);
      }
  }

  /** From equal lists, equal requests get equal answers, whatever the histories before. */
  lemma {:induction false} Deterministic(trace: seq<seq<seq<nat>>>, trace2: seq<seq<seq<nat>>>,
                                         requests: seq<Request>, answers: seq<Option<nat>>,
                                         answers2: seq<Option<nat>>, n: nat)
    requires Steps(trace, requests, answers) && Steps(trace2, requests, answers2) && trace[0] == trace2[0]
    requires |answers| == |answers2| == |requests| && |trace| == |trace2| == |requests| + 1 && n <= |requests|
    ensures answers[..n] == answers2[..n] && trace[n] == trace2[n]
  {
    hide Steps, Step, Replay, Buddy.Plain;
    if n > 0 {
      var i := n - 1;
      Deterministic(trace, trace2, requests, answers, answers2, i);
      StepsAt(trace, requests, answers, i);
      StepsAt(trace2, requests, answers2, i);
      var held := Replay(requests[..i], answers[..i]);
      StepOnce(trace[i], trace[n], trace2[n], held, requests[i], answers[i], answers2[i]);
      LastAnswer(answers, n);
      LastAnswer(answers2, n);
    }
  }

  lemma StepsAt(trace: seq<seq<seq<nat>>>, requests: seq<Request>, answers: seq<Option<nat>>, i: nat)
    requires Steps(trace, requests, answers) && i < |requests| == |answers| && |trace| == |requests| + 1
    ensures |trace[i]| == MAX_ORDER && Buddy.Plain(trace[i])
    ensures Step(trace[i], trace[i + 1], Replay(requests[..i], answers[..i]), requests[i], answers[i])
  {
    hide Step, Replay, Buddy.Plain;
  }

  lemma LastAnswer(answers: seq<Option<nat>>, n: nat)
    requires 0 < n <= |answers|
    ensures answers[..n] == answers[..n - 1] + [answers[n - 1]]
  {
  }

  method ServeAlloc(zone: Buddy.Zone, ghost all: set<nat>, ghost held: seq<Run>, order: nat)
    returns (answer: Option<nat>)
    requires Accounted(zone, all, held)
    modifies zone, zone.bitmap
    ensures Accounted(zone, all, After(held, Alloc(order), answer)) && Right(all, held, Alloc(order), answer)
    ensures Step(old(zone.freeList), zone.freeList, held, Alloc(order), answer)
  {
    hide Run.Pages, Pow2, Buddy.State, FreeSet, Partition, Held, SomeFull, Buddy.Served, Buddy.Plain, Step, Interval;
    zone.ListCount();
    if order >= MAX_ORDER {
      AllocStep(zone.freeList, zone.freeList, held, order, None);
      return None;
    }
    answer := zone.Rmqueue(order);
    AllocStep(old(zone.freeList), zone.freeList, held, order, answer);
    if answer.Some? {
      ghost var r := Run(answer.value, order);
      PagesOf(r);
      HeldMore(all, old(zone.Free()), held, zone.size, r);
    }
    assert old(zone.Free()) == all - Held(held) by { FreeIs(all, old(zone.Free()), held, zone.size); }
  }

  lemma AllocStep(were: seq<seq<nat>>, lists: seq<seq<nat>>, held: seq<Run>, order: nat, answer: Option<nat>)
    requires answer.Some? ==> exists o :: Buddy.Served(were, lists, order, o, answer.value)
    requires answer.None? ==> lists == were && forall o :: order <= o < |were| ==> were[o] == []
    ensures Step(were, lists, held, Alloc(order), answer)
  {
    hide Buddy.Served;
  }

  lemma FreeIs(all: set<nat>, free: set<nat>, held: seq<Run>, size: nat)
    requires Partition(all, free, held, size)
    ensures free == all - Held(held)
  {
  }

  lemma PagesOf(r: Run)
    ensures r.Pages() == Interval(r.page, Pow2(r.order))
  {
  }

  method ServeRelease(zone: Buddy.Zone, ghost all: set<nat>, held: seq<Run>, k: nat)
    requires Accounted(zone, all, held)
    modifies zone, zone.bitmap
    ensures Accounted(zone, all, After(held, Release(k), None))
    ensures Step(old(zone.freeList), zone.freeList, held, Release(k), None)
  {
    hide Run.Pages, Pow2, Buddy.State, FreeSet, Partition, Buddy.GivenBack;
    if k < |held| {
      HeldLess(all, zone.Free(), held, zone.size, k);
      PagesOf(held[k]);
      zone.FreePagesOk(held[k].page, held[k].order);
    }
  }

  /** Any history of requests, from any valid zone: every request is answered rightly, and the
      pages held are those the answers say. */
  method Serve(zone: Buddy.Zone, requests: seq<Request>)
    returns (answers: seq<Option<nat>>, held: seq<Run>, ghost trace: seq<seq<seq<nat>>>)
    requires zone.Valid()
    modifies zone, zone.bitmap
    ensures |answers| == |requests| && held == Replay(requests, answers)
    ensures Accounted(zone, old(zone.Free()), held)
    ensures Buddy.Lists(zone.freeList, old(zone.Free()) - Held(held))
    ensures forall i :: 0 <= i < |requests| ==>
      Right(old(zone.Free()), Replay(requests[..i], answers[..i]), requests[i], answers[i])
    ensures Steps(trace, requests, answers) && trace[0] == old(zone.freeList) && trace[|requests|] == zone.freeList
  {
    hide Accounted, Right, After, Buddy.Lists, Step, Steps, Replay;
    answers, held, trace := [], [], [zone.freeList];
    NoSteps(zone);
    ghost var all := zone.Free();
    assert Accounted(zone, all, []) by { NothingHeld(zone); }
    for n := 0 to |requests|
      invariant |answers| == n && held == Replay(requests[..n], answers)
      invariant Accounted(zone, all, held)
      invariant forall i :: 0 <= i < n ==> Right(all, Replay(requests[..i], answers[..i]), requests[i], answers[i])
      invariant Steps(trace, requests[..n], answers) && |trace| == n + 1
      invariant trace[0] == old(zone.freeList) && trace[n] == zone.freeList
    {
      var answer := None;
      match requests[n] {
        case Alloc(order) => answer := ServeAlloc(zone, all, held, order);
        case Release(k) =>
          ServeRelease(zone, all, held, k);
          assert Right(all, held, requests[n], None) by { ReleaseRight(all, held, k); }
      }
      ReplayStep(requests, answers, n, answer);
      StepsMore(zone, all, trace, requests, answers, n, held, answer);
      trace := trace + [zone.freeList];
      held := After(held, requests[n], answer);
      answers := answers + [answer];
    }
    assert requests[..|requests|] == requests;
    AccountedLists(zone, all, held);
  }

  lemma NoSteps(zone: Buddy.Zone)
    requires zone.Valid()
    ensures Steps([zone.freeList], [], []) && Replay([], []) == []
  {
    hide Buddy.Plain, Buddy.State, FreeSet;
    zone.ListCount();
  }

  lemma StepsMore(zone: Buddy.Zone, all: set<nat>, trace: seq<seq<seq<nat>>>, requests: seq<Request>,
                  answers: seq<Option<nat>>, n: nat, held: seq<Run>, answer: Option<nat>)
    requires n < |requests| && Steps(trace, requests[..n], answers) && held == Replay(requests[..n], answers)
    requires Step(trace[n], zone.freeList, held, requests[n], answer)
    requires Accounted(zone, all, After(held, requests[n], answer))
    ensures Steps(trace + [zone.freeList], requests[..n + 1], answers + [answer])
  {
    hide Step, Replay, After, Buddy.Plain, Buddy.State, FreeSet, Partition;
    zone.ListCount();
    var t, q, b := trace + [zone.freeList], requests[..n + 1], answers + [answer];
    forall i | 0 <= i <= n
      ensures Step(t[i], t[i + 1], Replay(q[..i], b[..i]), q[i], b[i])
    {
      assert q[..i] == requests[..n][..i] == requests[..i] && b[..i] == answers[..i];
      if i < n {
        assert Step(trace[i], trace[i + 1], Replay(requests[..n][..i], answers[..i]), requests[..n][i], answers[i]);
      } else {
        assert answers[..n] == answers;
      }
    }
  }

  lemma AccountedLists(zone: Buddy.Zone, all: set<nat>, held: seq<Run>)
    requires Accounted(zone, all, held)
    ensures Buddy.Lists(zone.freeList, all - Held(held))
  {
    hide Buddy.Lists, Buddy.State, FreeSet;
    zone.AllMaximal();
  }

  lemma NothingHeld(zone: Buddy.Zone)
    requires zone.Valid()
    ensures Accounted(zone, zone.Free(), [])
  {
  }

  lemma ReleaseRight(all: set<nat>, held: seq<Run>, k: nat)
    ensures Right(all, held, Release(k), None)
  {
  }

  lemma ReplayStep(requests: seq<Request>, answers: seq<Option<nat>>, n: nat, answer: Option<nat>)
    requires n < |requests| && |answers| == n
    ensures Replay(requests[..n + 1], answers + [answer]) == After(Replay(requests[..n], answers), requests[n], answer)
    ensures (answers + [answer])[..n] == answers
    ensures forall i :: 0 <= i <= n ==> (answers + [answer])[..i] == answers[..i]
  {
    hide After;
    var q, b := requests[..n + 1], answers + [answer];
    assert q[..n] == requests[..n] && b[..n] == answers;
  }

  lemma {:induction false} NoDupCount(s: seq<nat>, x: nat)
    requires NoDup(s)
    ensures multiset(s)[x] == if x in s then 1 else 0
  {
    if s != [] {
      NoDupCount(s[1..], x);
      assert s == [s[0]] + s[1..];
      assert s[0] !in s[1..];
    }
  }

  /** Two histories that leave the same pages free leave the same blocks on every list. */
  lemma HistoryIndependent(a: Buddy.Zone, b: Buddy.Zone, o: nat)
    requires a.Valid() && b.Valid() && a.size == b.size && a.Free() == b.Free()
    requires o < MAX_ORDER
    ensures multiset(a.freeList[o]) == multiset(b.freeList[o])
    ensures a.freePages == b.freePages
  {
    SamePagesSameBlocks(a.blocks, b.blocks, a.size);
    var s, t := a.freeList[o], b.freeList[o];
    assert Buddy.ListedAt(s, a.blocks[o], o) && Buddy.ListedAt(t, a.blocks[o], o);
    forall x: nat
      ensures multiset(s)[x] == multiset(t)[x]
    {
      NoDupCount(s, x);
      NoDupCount(t, x);
    }
  }
}
