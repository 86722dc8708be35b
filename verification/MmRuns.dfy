/** Runs of an address space through mapping, unmapping, brk, lookups, fork and exit. */
module MmRuns {
  import opened Words
  import opened AreaTheory
  import opened BrkTheory
  import opened Mmap

  /** do_brk, do_munmap, sys_brk and find_vma with their arguments and the outcomes of their
      allocations; a fork, after which the run goes on in the child or in the parent; exit_mmap. */
  datatype Op =
    | Map(addr: nat, len: nat, spareOk: bool, allocOk: bool)
    | Unmap(addr: nat, len: nat, spareOk: bool)
    | Brk(newEnd: nat, spareOk: bool, allocOk: bool)
    | Find(addr: nat)
    | Fork(areas: nat, copies: nat, follow: bool)
    | Exit

  /** Ranges from a page on up to 2^32, and any end of the heap. */
  predicate Sane(op: Op) {
    match op
    case Map(addr, len, _, _) => addr % PAGE_SIZE == 0 && len < WORD && addr + PageAlign(len) <= WORD
    case Unmap(addr, len, _) => addr % PAGE_SIZE == 0 && len < WORD && addr + PageAlign(len) <= WORD
    case Brk(newEnd, _, _) => newEnd < WORD
    case _ => true
  }

  /** Operations after which no area can end at 2^32. */
  predicate Safe(op: Op) {
    match op
    case Map(addr, len, _, _) => addr + PageAlign(len) < WORD
    case Brk(newEnd, _, _) => newEnd <= WORD - PAGE_SIZE
    case _ => true
  }

  /** The operation made an area end at 2^32, given the end of the heap before and what it returned. */
  predicate Broke(op: Op, brk: nat, ret: int) {
    match op
    case Map(addr, len, _, _) => PageAlign(len) > 0 && addr + PageAlign(len) == WORD && ret == addr
    case Brk(newEnd, _, _) => newEnd > brk && newEnd > WORD - PAGE_SIZE && PageAlign(brk) != 0 && ret == newEnd
    case _ => false
  }

  /** That is exactly when the list is no longer sorted. */
  lemma BrokeExactly(s: Space, op: Op, endCode: nat, flags: nat)
    requires Sorted(s.spans) && s.brk < WORD && Sane(op)
    ensures var r := Do(s, op, endCode, flags);
      (Broke(op, s.brk, r.ret) <==> !Sorted(r.space.spans)) && r.space.brk < WORD
  {
    hide Sorted, PageAlign, CutAll, NoRoom, DoBrkResult, SysBrkResult, TotalPages, LockedPages;
    match op
    case Map(addr, len, spareOk, allocOk) => MapBroke(s.spans, addr, len, flags, spareOk, allocOk);
    case Unmap(addr, len, spareOk) =>
      PageAligned(len);
      if 0 < PageAlign(len) < WORD - addr { CutAllSortedHere(s.spans, addr, addr + PageAlign(len)); }
    case Brk(newEnd, spareOk, allocOk) =>
      BrkBelow(s.spans, endCode, s.brk, newEnd, flags, spareOk, allocOk);
      BrkBroke(s.spans, endCode, s.brk, newEnd, flags, spareOk, allocOk);
    case Fork(areas, copies, _) => DupSound(s.spans, areas, copies);
    case Exit => NothingSorted();
    case Find(_) =>
  }

  lemma MapBroke(s: seq<Span>, addr: nat, len: nat, flags: nat, spareOk: bool, allocOk: bool)
    requires Sorted(s) && addr % PAGE_SIZE == 0 && len < WORD && addr + PageAlign(len) <= WORD
    ensures var r := DoBrkResult(s, addr, PageAlign(len), flags, spareOk, allocOk);
      Broke(Map(addr, len, spareOk, allocOk), 0, r.ret) <==> !Sorted(r.spans)
  {
    hide Sorted, PageAlign, CutAll, NoRoom, HasNeighbour, Extended, Adds;
    PageAligned(len);
    var n := PageAlign(len);
    if 0 < n < WORD - addr {
      DoBrkAdds(s, addr, n, flags, spareOk, allocOk);
    } else if n > 0 {
      assert Add32(addr, n) == 0;
      WrappedBreaks(s, addr, flags);
    }
  }

  lemma BrkBroke(s: seq<Span>, endCode: nat, brk: nat, newEnd: nat, flags: nat, spareOk: bool, allocOk: bool)
    requires Sorted(s) && newEnd < WORD && brk < WORD
    ensures var r := SysBrkResult(s, endCode, brk, newEnd, flags, spareOk, allocOk);
      Broke(Brk(newEnd, spareOk, allocOk), brk, r.ret) <==> !Sorted(r.spans)
  {
    hide Sorted, PageAlign, NoRoom, HasNeighbour, Extended, Meets, CutAll;
    SysBrkSorted(s, endCode, brk, newEnd, flags, spareOk, allocOk);
    PageAligned(newEnd);
    PageAligned(brk);
    var o := PageAlign(brk);
    if newEnd > WORD - PAGE_SIZE && newEnd > brk && o != 0 {
      assert PageAlign(newEnd) == 0 && Sub32(0, o) == WORD - o && Add32(0, PAGE_SIZE) == PAGE_SIZE;
    }
  }

  /** What a run is about. */
  datatype Space = Space(spans: seq<Span>, brk: nat, drift: int)

  /** The state an operation leads to, and what it returns. */
  datatype Outcome = Outcome(space: Space, ret: int)

  ghost function Do(s: Space, op: Op, endCode: nat, flags: nat): Outcome {
    match op
    case Map(addr, len, spareOk, allocOk) =>
      var r := DoBrkResult(s.spans, addr, PageAlign(len), flags, spareOk, allocOk);
      Outcome(s.(spans := r.spans), r.ret)
    case Unmap(addr, len, spareOk) =>
      var r := Munmap(s.spans, addr, PageAlign(len), spareOk);
      Outcome(s.(spans := r.spans), r.ret)
    case Brk(newEnd, spareOk, allocOk) =>
      var r := SysBrkResult(s.spans, endCode, s.brk, newEnd, flags, spareOk, allocOk);
      Outcome(s.(spans := r.spans, brk := if r.ret >= 0 then r.ret else 0), r.ret)
    case Find(addr) =>
      var k := FirstEnding(s.spans, addr + 1);
      Outcome(s, if k < |s.spans| then s.spans[k].start else -1)
    case Fork(areas, copies, follow) =>
      var r := DupResult(s.spans, areas, copies);
      Outcome(if follow && r.ret == 0
              then s.(spans := r.spans, drift := s.drift + TotalPages(s.spans) - TotalPages(r.spans)) else s, r.ret)
    case Exit => Outcome(s.(spans := [], drift := 0), 0)
  }

  ghost function Replay(start: Space, ops: seq<Op>, endCode: nat, flags: nat): Space {
    if ops == [] then start
    else Do(Replay(start, ops[..|ops| - 1], endCode, flags), ops[|ops| - 1], endCode, flags).space
  }

  /** What every operation of a run returned. */
  ghost predicate Returned(start: Space, ops: seq<Op>, rets: seq<int>, endCode: nat, flags: nat) {
    |rets| == |ops| && forall i :: 0 <= i < |ops| ==>
      rets[i] == Do(Replay(start, ops[..i], endCode, flags), ops[i], endCode, flags).ret
  }

  lemma RunStep(start: Space, ops: seq<Op>, rets: seq<int>, n: nat, ret: int, endCode: nat, flags: nat)
    requires n < |ops| && Returned(start, ops[..n], rets, endCode, flags)
    requires ret == Do(Replay(start, ops[..n], endCode, flags), ops[n], endCode, flags).ret
    ensures Returned(start, ops[..n + 1], rets + [ret], endCode, flags)
    ensures Replay(start, ops[..n + 1], endCode, flags)
            == Do(Replay(start, ops[..n], endCode, flags), ops[n], endCode, flags).space
  {
    hide Do;
    var o, r := ops[..n + 1], rets + [ret];
    assert o[..n] == ops[..n];
    forall i | 0 <= i <= n
      ensures r[i] == Do(Replay(start, o[..i], endCode, flags), o[i], endCode, flags).ret
    {
      assert o[..i] == ops[..n][..i];
      if i < n { assert rets[i] == Do(Replay(start, ops[..n][..i], endCode, flags), ops[..n][i], endCode, flags).ret; }
    }
  }

  /** A run of safe operations keeps the list sorted, whatever fails on the way. */
  lemma {:induction false} ReplaySorted(start: Space, ops: seq<Op>, endCode: nat, flags: nat)
    requires Sorted(start.spans) && start.brk < WORD && forall i :: 0 <= i < |ops| ==> Sane(ops[i]) && Safe(ops[i])
    ensures Sorted(Replay(start, ops, endCode, flags).spans) && Replay(start, ops, endCode, flags).brk < WORD
  {
    hide Do, Sorted, Sane;
    if ops != [] {
      var n := |ops| - 1;
      ReplaySorted(start, ops[..n], endCode, flags);
      BrokeExactly(Replay(start, ops[..n], endCode, flags), ops[n], endCode, flags);
    }
  }

  lemma BrkBelow(s: seq<Span>, endCode: nat, brk: nat, newEnd: nat, flags: nat, spareOk: bool, allocOk: bool)
    ensures var r := SysBrkResult(s, endCode, brk, newEnd, flags, spareOk, allocOk).ret; r == brk || r == newEnd
  {
    hide PageAlign, Munmap, DoBrkResult, Meets;
  }

  lemma NothingSorted()
    ensures Sorted([])
  {
  }

  ghost function Now(mm: Mm): Space
    reads mm, mm.mmap
  {
    Space(Spans(mm.mmap), mm.brk, mm.drift)
  }

  /** copy_mm: a child with the areas of its parent, or none, and then its areas are released. */
  method CopyMm(oldmm: Mm, areas: nat, copies: nat) returns (child: Mm, ret: int)
    requires oldmm.Valid()
    ensures fresh(child) && fresh(child.pgd) && child.Valid() && (forall a :: a in child.mmap ==> fresh(a))
    ensures child.endCode == oldmm.endCode && child.defFlags == oldmm.defFlags && child.brk == oldmm.brk
    ensures ret == DupResult(Spans(oldmm.mmap), areas, copies).ret
    ensures ret == 0 ==> Now(child) == Do(Now(oldmm), Fork(areas, copies, true), oldmm.endCode, oldmm.BrkFlags()).space
    ensures ret == 0 ==> Inherited(Spans(oldmm.mmap), Spans(child.mmap), WORD)
    ensures ret != 0 ==> child.mmap == [] && child.pool == {}
  {
    hide Mm.Valid, DupResult, TotalPages, Spans;
    child := new Mm.CopyOf(oldmm);
    assert oldmm.Valid();
    ret := child.DupMmap(oldmm, areas, copies);
    if ret != 0 {
      child.ExitMmap();
    }
  }

  /** One operation, and whether the address space is still valid. */
  method Perform(mm: Mm, op: Op) returns (now: Mm, ret: int, ok: bool)
    requires mm.Valid() && mm.brk < WORD && Sane(op)
    modifies mm, mm.mmap, mm.pgd
    ensures (ok <==> now.Valid()) && (ok <==> Sorted(Spans(now.mmap))) && now.brk < WORD
    ensures now.endCode == old(mm.endCode) && now.defFlags == old(mm.defFlags)
    ensures Outcome(Now(now), ret) == Do(old(Now(mm)), op, old(mm.endCode), old(mm.BrkFlags()))
    ensures (now == mm || (fresh(now) && fresh(now.pgd))) && forall a :: a in now.mmap ==> a in old(mm.mmap) || fresh(a)
  {
    hide Mm.Valid, DupResult, TotalPages, Spans, DoBrkResult, SysBrkResult, Munmap, PageAlign, FirstEnding, Or;
    hide HeapMoved, Promised, Apart, Sorted;
    now := mm;
    var brk := mm.brk;
    ValidSorted(mm);
    BrokeExactly(Now(mm), op, mm.endCode, mm.BrkFlags());
    match op {
      case Map(addr, len, spareOk, allocOk) => ret := mm.DoBrk(addr, len, spareOk, allocOk);
      case Unmap(addr, len, spareOk) => ret := mm.DoMunmap(addr, len, spareOk);
      case Brk(newEnd, spareOk, allocOk) => ret := mm.SysBrk(newEnd, spareOk, allocOk);
      case Find(addr) =>
        var vma := mm.FindVma(addr);
        ret := if vma == null then -1 else vma.start;
      case Fork(areas, copies, follow) =>
        var child;
        child, ret := CopyMm(mm, areas, copies);
        if follow && ret == 0 {
          now := child;
        }
      case Exit =>
        mm.ExitMmap();
        ret := 0;
    }
    ok := !Broke(op, brk, ret);
  }

  lemma ValidSorted(mm: Mm)
    requires mm.Valid()
    ensures Sorted(Spans(mm.mmap))
  {
  }

  /** Any run of operations, up to one that breaks the list, if any does: what is mapped, the end of
      the heap and the drift of total_vm are what the operations make of them, every operation
      returns what it should, and the address space stays valid until the list breaks. */
  method Run(mm: Mm, ops: seq<Op>) returns (now: Mm, rets: seq<int>, ok: bool)
    requires mm.Valid() && mm.brk < WORD && forall i :: 0 <= i < |ops| ==> Sane(ops[i])
    modifies mm, mm.mmap, mm.pgd
    ensures |rets| <= |ops| && (|rets| < |ops| ==> !ok)
    ensures (ok <==> now.Valid()) && (ok <==> Sorted(Spans(now.mmap)))
    ensures Now(now) == Replay(old(Now(mm)), ops[..|rets|], old(mm.endCode), old(mm.BrkFlags()))
    ensures Returned(old(Now(mm)), ops[..|rets|], rets, old(mm.endCode), old(mm.BrkFlags()))
    ensures forall i :: 0 <= i < |rets| ==>
      Sorted(Replay(old(Now(mm)), ops[..i], old(mm.endCode), old(mm.BrkFlags())).spans)
    ensures (forall i :: 0 <= i < |ops| ==> Safe(ops[i])) ==> ok
  {
    hide Mm.Valid, Do, Replay, Returned, Spans, Sane, Safe, Or, Sorted, Followed;
    now, rets, ok := mm, [], true;
    ghost var start, endCode, flags := Now(mm), mm.endCode, mm.BrkFlags();
    ValidSorted(mm);
    NothingDone(start, ops, endCode, flags);
    while |rets| < |ops| && ok
      invariant |rets| <= |ops| && (ok <==> now.Valid()) && (ok <==> Sorted(Spans(now.mmap)))
      invariant now.brk < WORD && now.endCode == endCode && now.BrkFlags() == flags
      invariant now == mm || (fresh(now) && fresh(now.pgd))
      invariant forall a :: a in now.mmap ==> a in old(mm.mmap) || fresh(a)
      invariant Followed(Now(now), start, ops, rets, endCode, flags)
      decreases |ops| - |rets|
    {
      assert forall j :: 0 <= j < |now.mmap| ==> now.mmap[j] in now.mmap;
      var ret;
      ghost var was := Now(now);
      now, ret, ok := Perform(now, ops[|rets|]);
      FollowedStep(was, start, ops, rets, Outcome(Now(now), ret), endCode, flags);
      rets := rets + [ret];
    }
    FollowedIs(Now(now), start, ops, rets, endCode, flags);
    if forall i :: 0 <= i < |ops| ==> Safe(ops[i]) {
      ReplaySorted(start, ops[..|rets|], endCode, flags);
    }
  }

  /** After |rets| operations: the space, the values returned, and every list met on the way. */
  ghost predicate Followed(now: Space, start: Space, ops: seq<Op>, rets: seq<int>, endCode: nat, flags: nat) {
    && |rets| <= |ops| && now == Replay(start, ops[..|rets|], endCode, flags)
    && Returned(start, ops[..|rets|], rets, endCode, flags)
    && forall i :: 0 <= i < |rets| ==> Sorted(Replay(start, ops[..i], endCode, flags).spans)
  }

  lemma NothingDone(start: Space, ops: seq<Op>, endCode: nat, flags: nat)
    ensures Followed(start, start, ops, [], endCode, flags)
  {
    hide Do, Sorted;
    assert ops[..0] == [];
  }

  lemma FollowedStep(
    now: Space, start: Space, ops: seq<Op>, rets: seq<int>, next: Outcome, endCode: nat, flags: nat)
    requires Followed(now, start, ops, rets, endCode, flags) && |rets| < |ops| && Sorted(now.spans)
    requires next == Do(now, ops[|rets|], endCode, flags)
    ensures Followed(next.space, start, ops, rets + [next.ret], endCode, flags)
  {
    hide Do, Sorted, Replay, Returned;
    RunStep(start, ops, rets, |rets|, next.ret, endCode, flags);
  }

  lemma FollowedIs(now: Space, start: Space, ops: seq<Op>, rets: seq<int>, endCode: nat, flags: nat)
    requires Followed(now, start, ops, rets, endCode, flags)
    ensures |rets| <= |ops| && now == Replay(start, ops[..|rets|], endCode, flags)
    ensures Returned(start, ops[..|rets|], rets, endCode, flags)
    ensures forall i :: 0 <= i < |rets| ==> Sorted(Replay(start, ops[..i], endCode, flags).spans)
  {
    hide Do, Sorted, Replay, Returned;
  }
}
