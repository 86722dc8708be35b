/** mm/mmap.c: the areas of an address space, with the links of the sorted list as a
    sequence.  Page tables are reduced to which page-directory slots are filled, and
    whether kmem_cache_alloc succeeds is a parameter. */
module Mmap {
  import opened Words
  import opened AreaTheory
  import opened BrkTheory

  const PGDIR_SIZE: nat := 0x10_0000
  const PGD_SLOTS: nat := 4096

  /** Page-directory slot `s` maps some address of the range. */
  predicate Touches(s: nat, lo: nat, hi: nat) {
    lo < (s + 1) * PGDIR_SIZE && s * PGDIR_SIZE < hi
  }

  /** The slots free_pgtables may clear: they touch the range that went, and no area.  None
      are when rounding the end of the range up wraps around. */
  ghost predicate Clearable(s: nat, lo: nat, hi: nat, spans: seq<Span>) {
    && hi + PGDIR_SIZE - 1 < WORD && Touches(s, lo, hi)
    && forall i :: 0 <= i < |spans| ==> !Touches(s, spans[i].start, spans[i].end)
  }

  /** do_munmap gets as far as free_pgtables, and a slot is cleared there. */
  ghost predicate Reclaims(slot: nat, spans: seq<Span>, addr: nat, len: nat, allocOk: bool) {
    && 0 < len < WORD - addr && Reached(spans, addr, addr + len)
    && Munmap(spans, addr, len, allocOk).ret == 0
    && Clearable(slot, addr, addr + len, CutAll(spans, addr, addr + len))
  }

  /** The same for sys_brk. */
  ghost predicate BrkReclaims(slot: nat, spans: seq<Span>, endCode: nat, brk: nat, newEnd: nat, spareOk: bool) {
    var n, o := PageAlign(newEnd), PageAlign(brk);
    && newEnd >= endCode && n != o
    && if newEnd <= brk then Reclaims(slot, spans, n, Sub32(o, n), spareOk)
       else !Meets(spans, o, Add32(n, PAGE_SIZE)) && Reclaims(slot, spans, o, Sub32(n, o), spareOk)
  }

  /** What free_pgtables computes: `p` spans lie below the range and the others above it. */
  ghost predicate IsBounds(spans: seq<Span>, p: nat, lo: nat, hi: nat, first: nat, last: nat) {
    var base, top := lo - lo % PGDIR_SIZE, Add32(hi, PGDIR_SIZE - 1);
    && p <= |spans|
    && (forall i :: 0 <= i < p ==> spans[i].end <= lo)
    && (forall i :: p <= i < |spans| ==> hi <= spans[i].start)
    && first == (if p > 0 && spans[p - 1].end > base then Add32(spans[p - 1].end, PGDIR_SIZE - 1) else base)
    && last == (if p < |spans| && top > spans[p].start then spans[p].start else top)
  }

  /** Below a span that ends before the range all do, from one that starts after it on all do. */
  lemma NextBelow(spans: seq<Span>, lo: nat, hi: nat, p: nat)
    requires Sorted(spans) && Apart(spans, lo, hi) && lo < hi && p < |spans| && spans[p].start < lo
    ensures spans[p].end <= lo
  {
    assert spans[p].Ok();
  }

  lemma Between(spans: seq<Span>, lo: nat, hi: nat, p: nat)
    requires Sorted(spans) && Apart(spans, lo, hi) && lo < hi && p <= |spans|
    requires p > 0 ==> spans[p - 1].end <= lo
    requires p < |spans| ==> spans[p].end > lo || spans[p].start >= lo
    ensures forall i :: 0 <= i < p ==> spans[i].end <= lo
    ensures forall i :: p <= i < |spans| ==> hi <= spans[i].start
  {
    assert forall i :: 0 <= i < |spans| ==> spans[i].Ok();
  }

  /** Slots within these bounds meet no span ... */
  lemma WithinBounds(spans: seq<Span>, p: nat, lo: nat, hi: nat, first: nat, last: nat, s: nat, i: nat)
    requires Sorted(spans) && lo < hi < WORD && IsBounds(spans, p, lo, hi, first, last)
    requires first / PGDIR_SIZE <= s < last / PGDIR_SIZE && i < |spans|
    ensures !Touches(s, spans[i].start, spans[i].end)
  {
    assert spans[i].Ok();
    if i < p {
      assert spans[p - 1].Ok() && spans[i].end <= spans[p - 1].end;
      hide Sorted;
      BehindEnd(spans[p - 1].end, lo, first, s);
    } else {
      assert spans[p].Ok() && spans[p].start <= spans[i].start;
      hide Sorted;
      BeforeStart(last, s, spans[i].start);
    }
  }

  lemma BehindEnd(end: nat, lo: nat, first: nat, s: nat)
    requires end <= lo < WORD && first / PGDIR_SIZE <= s
    requires first == if end > lo - lo % PGDIR_SIZE then Add32(end, PGDIR_SIZE - 1) else lo - lo % PGDIR_SIZE
    ensures s * PGDIR_SIZE >= end || Add32(end, PGDIR_SIZE - 1) < end
  {
  }

  lemma BeforeStart(last: nat, s: nat, start: nat)
    requires last <= start && s < last / PGDIR_SIZE
    ensures (s + 1) * PGDIR_SIZE <= start
  {
  }

  /** ... so they enclose exactly the clearable slots. */
  lemma SlotRange(spans: seq<Span>, p: nat, lo: nat, hi: nat, first: nat, last: nat, s: nat)
    requires Sorted(spans) && lo < hi < WORD && IsBounds(spans, p, lo, hi, first, last)
    ensures first / PGDIR_SIZE <= s < last / PGDIR_SIZE <==> Clearable(s, lo, hi, spans)
    ensures last < WORD
  {
    assert p > 0 ==> spans[p - 1].Ok();
    assert p < |spans| ==> spans[p].Ok();
    hide Sorted;
    if first / PGDIR_SIZE <= s < last / PGDIR_SIZE {
      forall i | 0 <= i < |spans|
        ensures !Touches(s, spans[i].start, spans[i].end)
      {
        WithinBounds(spans, p, lo, hi, first, last, s, i);
      }
    }
    if Clearable(s, lo, hi, spans) {
      assert p > 0 ==> !Touches(s, spans[p - 1].start, spans[p - 1].end);
      assert p < |spans| ==> !Touches(s, spans[p].start, spans[p].end);
    }
  }

  class Area {
    var start: nat
    var end: nat
    var flags: nat
    var pgoff: nat

    constructor () {
      start, end, flags, pgoff := 0, 0, 0, 0;
    }

    ghost function Get(): Span
      reads this
    {
      Span(start, end, flags, pgoff)
    }
  }

  ghost function Spans(s: seq<Area>): (r: seq<Span>)
    reads s
    ensures |r| == |s|
    ensures forall i :: 0 <= i < |s| ==> r[i] == s[i].Get()
  {
    seq(|s|, i requires 0 <= i < |s| reads s => s[i].Get())
  }

  lemma Splice(s: seq<Area>, k: nat, t: seq<Area>)
    requires k <= |s|
    ensures Spans(s[..k] + t + s[k..]) == Spans(s)[..k] + Spans(t) + Spans(s)[k..]
  {
    var r := s[..k] + t + s[k..];
    var v := Spans(s)[..k] + Spans(t) + Spans(s)[k..];
    assert forall i :: 0 <= i < |r| ==> Spans(r)[i] == v[i];
  }

  ghost predicate Distinct(s: seq<Area>) {
    forall i, j :: 0 <= i < j < |s| ==> s[i] != s[j]
  }

  /** Which area objects are where while an unmapping is under way: on the list, on the free
      list, or the spare one; the pool has these and no others. */
  ghost predicate Objects(mmap: seq<Area>, free: seq<Area>, extra: Area?, pool: set<Area>) {
    && Distinct(mmap) && Distinct(free) && (forall a :: a in free ==> a !in mmap)
    && (if extra == null then free == [] else extra !in mmap && extra !in free)
    && pool == (set a | a in mmap) + (set a | a in free) + (if extra == null then {} else {extra})
  }

  lemma ObjectsNext(was: seq<Area>, free: seq<Area>, extra: Area, pool: set<Area>,
                    p: nat, pieces: seq<Area>, extra': Area?)
    requires Objects(was, free, extra, pool) && free != [] && p <= |was|
    requires pieces == [] || pieces == [free[0]] || pieces == [free[0], extra]
    requires extra' == if |pieces| == 2 then null else extra
    requires |pieces| == 2 ==> |free| == 1
    ensures Objects(was[..p] + pieces + was[p..], free[1..], extra', if pieces == [] then pool - {free[0]} else pool)
  {
    var now := was[..p] + pieces + was[p..];
    assert forall a :: a in was <==> a in was[..p] || a in was[p..];
    assert forall a :: a in now <==> a in was || a in pieces;
    assert forall a :: a in free <==> a == free[0] || a in free[1..];
    assert free[0] !in free[1..];
  }

  class Mm {
    var mmap: seq<Area>
    var cache: Area?
    var mapCount: int
    var totalVm: int
    var lockedVm: int
    var defFlags: nat
    var endCode: nat
    var brk: nat
    const pgd: array<bool>      // which page-directory slots are filled
    ghost var pool: set<Area>   // areas allocated and not freed
    ghost var drift: int        // pages that total_vm counts and no area has

    /** What holds of the area objects. */
    ghost predicate Tidy()
      reads this`mmap, this`cache, this`mapCount, this`pool
    {
      && Distinct(mmap) && (cache == null || cache in mmap)
      && mapCount == |mmap| && pool == (set a | a in mmap) && pgd.Length == PGD_SLOTS
    }

    ghost predicate Valid()
      reads this, mmap
    {
      && Tidy() && Sorted(Spans(mmap))
      && totalVm == TotalPages(Spans(mmap)) + drift && lockedVm == LockedPages(Spans(mmap))
    }

    /** An address space without areas. */
    constructor (endCode: nat, brk: nat)
      ensures Valid() && mmap == [] && fresh(pgd) && this.endCode == endCode && this.brk == brk && drift == 0
      ensures defFlags == 0 && forall s :: 0 <= s < PGD_SLOTS ==> !pgd[s]
    {
      mmap, cache, mapCount, totalVm, lockedVm, defFlags := [], null, 0, 0, 0, 0;
      this.endCode, this.brk := endCode, brk;
      pgd := new bool[PGD_SLOTS](i => false);
      pool, drift := {}, 0;
    }

    /** The byte copy that copy_mm makes, with a page directory of its own. */
    constructor CopyOf(oldmm: Mm)
      ensures fresh(pgd) && pgd.Length == PGD_SLOTS && (forall s :: 0 <= s < PGD_SLOTS ==> !pgd[s])
      ensures mmap == oldmm.mmap && cache == oldmm.cache && mapCount == oldmm.mapCount
      ensures totalVm == oldmm.totalVm && lockedVm == oldmm.lockedVm && pool == {} && drift == 0
      ensures endCode == oldmm.endCode && brk == oldmm.brk && defFlags == oldmm.defFlags
    {
      mmap, cache, mapCount := oldmm.mmap, oldmm.cache, oldmm.mapCount;
      totalVm, lockedVm := oldmm.totalVm, oldmm.lockedVm;
      defFlags, endCode, brk := oldmm.defFlags, oldmm.endCode, oldmm.brk;
      pgd := new bool[PGD_SLOTS](i => false);
      pool, drift := {}, 0;
    }

    /** __insert_vm_struct: link an area after every area that starts no later. */
    method InsertVm(vmp: Area, ghost k: nat)
      requires k <= |mmap|
      requires forall i :: 0 <= i < k ==> mmap[i].start <= vmp.start
      requires forall i :: k <= i < |mmap| ==> vmp.start < mmap[i].start
      modifies this`mmap, this`mapCount
      ensures mmap == old(mmap)[..k] + [vmp] + old(mmap)[k..]
      ensures mapCount == old(mapCount) + 1
    {
      var p := 0;
      while p < |mmap| && mmap[p].start <= vmp.start
        invariant p <= k
      {
        p := p + 1;
      }
      mmap := mmap[..p] + [vmp] + mmap[p..];
      mapCount := mapCount + 1;
    }

    /** The hole lies inside the area: the part behind it becomes an area of its own. */
    method SplitOff(area: Area, addr: nat, end: nat, mpnt: Area, ghost k: nat)
      requires area !in mmap && mpnt !in mmap && mpnt != area && k <= |mmap|
      requires area.start <= addr <= end < area.end
      requires forall i :: 0 <= i < k ==> mmap[i].start < area.start
      requires forall i :: k <= i < |mmap| ==> area.end <= mmap[i].start
      modifies this`mmap, this`mapCount, area, mpnt
      ensures mmap == old(mmap)[..k] + [mpnt] + old(mmap)[k..] && mapCount == old(mapCount) + 1
      ensures area.Get() == old(area.Get()).(end := addr)
      ensures mpnt.Get() == old(area.Get()).(start := end, pgoff := old(area.Get().Offset(end)))
    {
      mpnt.start, mpnt.end, mpnt.flags := end, area.end, area.flags;
      mpnt.pgoff := (area.pgoff + (end - area.start) / PAGE_SIZE) % WORD;
      area.end := addr;
      InsertVm(mpnt, k);
    }

    /** Put back what is left of an area around the hole from `addr` to `end`. */
    method Reinsert(area: Area, addr: nat, end: nat, extra: Area?, ghost k: nat)
      returns (rest: Area?, ghost pieces: seq<Area>)
      requires area !in mmap
      requires extra != null ==> extra !in mmap && extra != area
      requires area.start <= addr <= end <= area.end && area.start < area.end
      requires addr != area.start || end != area.end
      requires addr != area.start && end != area.end ==> extra != null
      requires k <= |mmap|
      requires forall i :: 0 <= i < k ==> mmap[i].start < area.start
      requires forall i :: k <= i < |mmap| ==> area.end <= mmap[i].start
      modifies this`mmap, this`mapCount, area, if extra == null then {} else {extra}
      ensures mmap == old(mmap)[..k] + pieces + old(mmap)[k..]
      ensures pieces == if old(addr != area.start && end != area.end) then [area, extra] else [area]
      ensures old(end == area.end) ==> area.Get() == old(area.Get()).(end := addr)
      ensures old(addr == area.start) ==>
        area.Get() == old(area.Get()).(start := end, pgoff := old(area.Get().Offset(end)))
      ensures |pieces| == 2 ==>
        && area.Get() == old(area.Get()).(end := addr)
        && extra.Get() == old(area.Get()).(start := end, pgoff := old(area.Get().Offset(end)))
      ensures rest == if |pieces| == 2 then null else extra
      ensures mapCount == old(mapCount) + |pieces|
    {
      rest := extra;
      if end == area.end {
        area.end := addr;
        pieces := [area];
      } else if addr == area.start {
        area.pgoff := (area.pgoff + (end - area.start) / PAGE_SIZE) % WORD;
        area.start := end;
        pieces := [area];
      } else {
        var mpnt := extra;
        rest := null;
        SplitOff(area, addr, end, mpnt, k);
        pieces := [area, mpnt];
      }
      InsertVm(area, k);
    }

    /** `area` is off the list and belongs at place `k` of it; `lo` to `hi` is the range that
        is being unmapped, `addr` to `end` the part of it in the area; a spare area is at hand
        if something is left on both sides. */
    ghost predicate CanFixup(area: Area, addr: nat, end: nat, extra: Area?, k: nat, lo: nat, hi: nat)
      reads this`mmap, mmap, area
    {
      && area !in mmap && area.Get().Ok()
      && (extra != null ==> extra !in mmap && extra != area)
      && lo < hi < WORD && lo <= area.end && area.start < hi
      && addr == (if lo < area.start then area.start else lo)
      && end == (if hi > area.end then area.end else hi)
      && (area.start < lo && hi < area.end ==> extra != null)
      && k <= |mmap|
      && (forall i :: 0 <= i < k ==> mmap[i].start < area.start)
      && (forall i :: k <= i < |mmap| ==> area.end <= mmap[i].start)
    }

    /** The same, against the cut of the area's span. */
    method ReinsertCut(area: Area, addr: nat, end: nat, extra: Area?, ghost k: nat, ghost lo: nat, ghost hi: nat)
      returns (rest: Area?, ghost pieces: seq<Area>)
      requires CanFixup(area, addr, end, extra, k, lo, hi)
      requires addr != area.start || end != area.end
      modifies this`mmap, this`mapCount, area, if extra == null then {} else {extra}
      ensures mmap == old(mmap)[..k] + pieces + old(mmap)[k..]
      ensures Spans(mmap) == old(Spans(mmap)[..k] + Cut(area.Get(), lo, hi) + Spans(mmap)[k..])
      ensures |pieces| == old(|Cut(area.Get(), lo, hi)|)
      ensures pieces == [area] || (extra != null && pieces == [area, extra])
      ensures rest == if |pieces| == 2 then null else extra
      ensures mapCount == old(mapCount) + |pieces|
    {
      hide Cut;
      CutCases(area.Get(), lo, hi, addr, end);
      ghost var was, spans, cut := mmap, Spans(mmap), Cut(area.Get(), lo, hi);
      rest, pieces := Reinsert(area, addr, end, extra, k);
      assert Spans(was) == spans && Spans(pieces) == cut;
      Splice(was, k, pieces);
    }

    method Discount(area: Area, len: nat)
      modifies this`totalVm, this`lockedVm
      ensures totalVm == old(totalVm) - len / PAGE_SIZE
      ensures lockedVm == old(lockedVm) - (if Locked(area.Get()) then len / PAGE_SIZE else 0)
    {
      totalVm := totalVm - len / PAGE_SIZE;
      if Bit(area.flags, LOCKED_BIT) {
        lockedVm := lockedVm - len / PAGE_SIZE;
      }
    }

    lemma CutsAll(area: Area, addr: nat, end: nat, extra: Area?, k: nat, lo: nat, hi: nat)
      requires CanFixup(area, addr, end, extra, k, lo, hi)
      ensures k <= |mmap| && (addr == area.start && end == area.end ==> Cut(area.Get(), lo, hi) == [])
    {
      CutCases(area.Get(), lo, hi, addr, end);
    }

    /** unmap_fixup: fix up one area that was taken off the list. */
    method UnmapFixup(area: Area, addr: nat, len: nat, extra: Area?, ghost k: nat, ghost lo: nat, ghost hi: nat)
      returns (rest: Area?, ghost pieces: seq<Area>)
      requires CanFixup(area, addr, addr + len, extra, k, lo, hi)
      modifies this`mmap, this`mapCount, this`totalVm, this`lockedVm, this`pool
      modifies area, if extra == null then {} else {extra}
      ensures mmap == old(mmap)[..k] + pieces + old(mmap)[k..]
      ensures Spans(mmap) == old(Spans(mmap)[..k] + Cut(area.Get(), lo, hi) + Spans(mmap)[k..])
      ensures |pieces| == old(|Cut(area.Get(), lo, hi)|)
      ensures pieces == [] || pieces == [area] || (extra != null && pieces == [area, extra])
      ensures rest == if |pieces| == 2 then null else extra
      ensures mapCount == old(mapCount) + |pieces|
      ensures totalVm == old(totalVm) - len / PAGE_SIZE
      ensures lockedVm == old(lockedVm) - (if old(Locked(area.Get())) then len / PAGE_SIZE else 0)
      ensures pool == if pieces == [] then old(pool) - {area} else old(pool)
    {
      hide Cut, Locked, Spans, CanFixup;
      var end := addr + len;
      CutsAll(area, addr, end, extra, k, lo, hi);
      Discount(area, len);
      if addr == area.start && end == area.end {
        pool := pool - {area};
        pieces := [];
        Splice(mmap, k, pieces);
        return extra, pieces;
      }
      rest, pieces := ReinsertCut(area, addr, end, extra, k, lo, hi);
    }
  
    /** The first area that ends at or after `addr`; the one before it is prev. */
    method FindVmaPrev(addr: nat) returns (i: nat)
      ensures i <= |mmap|
      ensures forall j :: 0 <= j < i ==> mmap[j].end < addr
      ensures i < |mmap| ==> addr <= mmap[i].end
    {
      i := 0;
      while i < |mmap| && mmap[i].end < addr
        invariant i <= |mmap|
        invariant forall j :: 0 <= j < i ==> mmap[j].end < addr
      {
        i := i + 1;
      }
    }

    /** Move the areas from place `i` that start below `hi` to a list, last one first. */
    method Unlink(i: nat, hi: nat) returns (free: seq<Area>)
      requires i <= |mmap|
      modifies this`mmap
      ensures |old(mmap)| == |mmap| + |free| && i <= |mmap|
      ensures mmap == old(mmap)[..i] + old(mmap)[i + |free|..]
      ensures forall j :: 0 <= j < |free| ==> free[j] == old(mmap)[i + |free| - 1 - j]
      ensures forall j :: i <= j < i + |free| ==> old(mmap)[j].start < hi
      ensures i < |mmap| ==> hi <= mmap[i].start
    {
      free := [];
      while i < |mmap| && mmap[i].start < hi
        invariant |old(mmap)| == |mmap| + |free| && i <= |mmap|
        invariant mmap == old(mmap)[..i] + old(mmap)[i + |free|..]
        invariant forall j :: 0 <= j < |free| ==> free[j] == old(mmap)[i + |free| - 1 - j]
        invariant forall j :: i <= j < i + |free| ==> old(mmap)[j].start < hi
      {
        OneLess(old(mmap), i, |free|);
        free := [mmap[i]] + free;
        mmap := mmap[..i] + mmap[i + 1..];
      }
    }

  
    /** `pre`, `mid` and `suf` are the areas before, in and after the range as they were;
        those of `mid` on the free list are still to be fixed up. */
    ghost predicate Unmapping(pre: seq<Span>, mid: seq<Span>, suf: seq<Span>, lo: nat, hi: nat, free: seq<Area>,
                              extra: Area?)
      reads this`mmap, this`pool, mmap, free
    {
      && Objects(mmap, free, extra, pool) && |free| <= |mid|
      && Spans(mmap) == pre + CutAll(mid[|free|..], lo, hi) + suf
      && (forall j :: 0 <= j < |free| ==> free[j].Get() == mid[|free| - 1 - j])
    }

    ghost predicate Counted(free: seq<Area>)
      reads this, mmap, free
    {
      && mapCount == |mmap| + |free|
      && totalVm == TotalPages(Spans(mmap)) + TotalPages(Spans(free)) + drift
      && lockedVm == LockedPages(Spans(mmap)) + LockedPages(Spans(free))
    }

    lemma Ready(pre: seq<Span>, mid: seq<Span>, suf: seq<Span>, lo: nat, hi: nat, free: seq<Area>, extra: Area,
                st: nat, en: nat)
      requires Range(pre, mid, suf, lo, hi) && free != [] && Unmapping(pre, mid, suf, lo, hi, free, extra)
      requires st == (if lo < free[0].start then free[0].start else lo)
      requires en == (if hi > free[0].end then free[0].end else hi)
      ensures st <= en && CanFixup(free[0], st, en, extra, |pre|, lo, hi)
    {
      hide Sorted, CutAll;
      Place(pre, mid, suf, lo, hi, |free|, Spans(mmap));
      assert forall i :: 0 <= i < |mmap| ==> mmap[i].Get() == Spans(mmap)[i];
    }

    /** One round of the fix-up loop of do_munmap. */
    method FixupNext(free: seq<Area>, extra: Area, addr: nat, len: nat,
                     ghost pre: seq<Span>, ghost mid: seq<Span>, ghost suf: seq<Span>)
      returns (extra': Area?)
      requires Range(pre, mid, suf, addr, addr + len)
      requires free != [] && Unmapping(pre, mid, suf, addr, addr + len, free, extra) && Counted(free)
      modifies this`mmap, this`mapCount, this`totalVm, this`lockedVm, this`pool, free[0], extra
      ensures Unmapping(pre, mid, suf, addr, addr + len, free[1..], extra') && Counted(free[1..])
      ensures extra' == null || extra' == extra
      ensures pool <= old(pool)
    {
      hide Sorted, TotalPages, LockedPages, Cut, CutAll, Locked, CanFixup, Spans, Range;
      ghost var was, spans, freeSpans := mmap, Spans(mmap), Spans(free);
      var mpnt := free[0];
      var st := if addr < mpnt.start then mpnt.start else addr;
      var end := if addr + len > mpnt.end then mpnt.end else addr + len;
      Ready(pre, mid, suf, addr, addr + len, free, extra, st, end);
      mapCount := mapCount - 1;
      ghost var pieces;
      extra', pieces := UnmapFixup(mpnt, st, end - st, extra, |pre|, addr, addr + len);
      assert Spans(free[1..]) == freeSpans[1..] by {
        assert forall j :: 0 < j < |free| ==> free[j] != mpnt && free[j] != extra;
      }
      Fixed(pre, mid, suf, addr, addr + len, was, spans, free, freeSpans, extra, old(pool), pieces, extra');
      FixedCounts(pre, mid, suf, addr, addr + len, spans, freeSpans, st, end, free);
    }

    /** What the fix-up of the first area of the free list leaves to do. */
    lemma Fixed(pre: seq<Span>, mid: seq<Span>, suf: seq<Span>, lo: nat, hi: nat, was: seq<Area>, spans: seq<Span>,
                free: seq<Area>, freeSpans: seq<Span>, extra: Area, oldPool: set<Area>, pieces: seq<Area>,
                extra': Area?)
      requires Range(pre, mid, suf, lo, hi) && 0 < |free| <= |mid| && Objects(was, free, extra, oldPool)
      requires |freeSpans| == |free| && (forall j :: 0 <= j < |free| ==> freeSpans[j] == mid[|free| - 1 - j])
      requires spans == pre + CutAll(mid[|free|..], lo, hi) + suf && |pre| <= |was|
      requires mmap == was[..|pre|] + pieces + was[|pre|..]
      requires Spans(mmap) == spans[..|pre|] + Cut(freeSpans[0], lo, hi) + spans[|pre|..]
      requires Spans(free[1..]) == freeSpans[1..]
      requires |pieces| == |Cut(freeSpans[0], lo, hi)|
      requires pieces == [] || pieces == [free[0]] || pieces == [free[0], extra]
      requires extra' == if |pieces| == 2 then null else extra
      requires pool == if pieces == [] then oldPool - {free[0]} else oldPool
      ensures Unmapping(pre, mid, suf, lo, hi, free[1..], extra')
    {
      hide Sorted, Cut, CutAll, Objects, Spans;
      CutOneMore(pre, mid, suf, lo, hi, |free|, spans);
      OnlyHole(pre, mid, suf, lo, hi, |free|);
      ObjectsNext(was, free, extra, oldPool, |pre|, pieces, extra');
      assert forall j :: 0 <= j < |free| - 1 ==> free[1..][j].Get() == Spans(free[1..])[j];
    }

    lemma FixedCounts(pre: seq<Span>, mid: seq<Span>, suf: seq<Span>, lo: nat, hi: nat, spans: seq<Span>,
                      freeSpans: seq<Span>, st: nat, en: nat, free: seq<Area>)
      requires Range(pre, mid, suf, lo, hi) && 0 < |free| <= |mid|
      requires |freeSpans| == |free| && freeSpans[0] == mid[|free| - 1]
      requires var sp := freeSpans[0];
        && st == (if lo < sp.start then sp.start else lo) && en == (if hi > sp.end then sp.end else hi)
      requires |pre| <= |spans| && Spans(mmap) == spans[..|pre|] + Cut(freeSpans[0], lo, hi) + spans[|pre|..]
      requires Spans(free[1..]) == freeSpans[1..]
      requires st <= en ==> totalVm == TotalPages(spans) + TotalPages(freeSpans) + drift - (en - st) / PAGE_SIZE
      requires st <= en ==> lockedVm == LockedPages(spans) + LockedPages(freeSpans)
                            - (if Locked(freeSpans[0]) then (en - st) / PAGE_SIZE else 0)
      requires mapCount == |mmap| + |free| - 1
      ensures Counted(free[1..])
    {
      hide Sorted, Cut, TotalPages, LockedPages, Locked, Spans;
      SortedParts(pre, mid, suf, |free| - 1);
      FixupCounts(spans, freeSpans, |pre|, freeSpans[0], lo, hi, st, en);
    }

    method ClearPageTables(first: nat, nr: nat)
      requires nr > 0 && first + nr <= pgd.Length
      modifies pgd
      ensures forall s :: 0 <= s < pgd.Length ==> pgd[s] == (old(pgd[s]) && !(first <= s < first + nr))
    {
      for s := first to first + nr
        invariant forall t :: 0 <= t < pgd.Length ==> pgd[t] == (old(pgd[t]) && !(first <= t < s))
      {
        pgd[s] := false;
      }
    }

    /** The address bounds of the slots to clear, and the number of areas below the range. */
    method SlotBounds(prev: int, start: nat, end: nat) returns (first: nat, last: nat, ghost below: nat)
      requires Sorted(Spans(mmap)) && start < end < WORD && Apart(Spans(mmap), start, end)
      requires -1 <= prev < |mmap| && (prev >= 0 ==> mmap[prev].end <= start)
      ensures IsBounds(Spans(mmap), below, start, end, first, last)
    {
      hide Sorted, Apart;
      ghost var spans := Spans(mmap);
      first, last, below := start - start % PGDIR_SIZE, Add32(end, PGDIR_SIZE - 1), 0;
      var p: int := prev;
      if p == -1 {
        if |mmap| == 0 {
          Between(spans, start, end, 0);
          return;
        }
        if mmap[0].end > start {
          if last > mmap[0].start { last := mmap[0].start; }
          Between(spans, start, end, 0);
          return;
        }
        p := 0;
      }
      while p + 1 < |mmap| && mmap[p + 1].start < start
        invariant 0 <= p < |mmap| && mmap[p].end <= start
      {
        NextBelow(spans, start, end, p + 1);
        p := p + 1;
      }
      Between(spans, start, end, p + 1);
      if p + 1 < |mmap| && last > mmap[p + 1].start {
        last := mmap[p + 1].start;
      }
      if mmap[p].end > first {
        first := Add32(mmap[p].end, PGDIR_SIZE - 1);
      }
      below := p + 1;
    }

    /** Clear the page-directory slots that an unmapping left without any area.  `prev` is the
        place of an area below the range, or -1. */
    method FreePgtables(prev: int, start: nat, end: nat)
      requires Sorted(Spans(mmap)) && pgd.Length == PGD_SLOTS
      requires start < end < WORD && Apart(Spans(mmap), start, end)
      requires -1 <= prev < |mmap| && (prev >= 0 ==> mmap[prev].end <= start)
      modifies pgd
      ensures forall s :: 0 <= s < PGD_SLOTS ==>
        pgd[s] == (old(pgd[s]) && !Clearable(s, start, end, Spans(mmap)))
    {
      hide Clearable, Sorted, IsBounds;
      var first, last, below := SlotBounds(prev, start, end);
      SlotRange(Spans(mmap), below, start, end, first, last, 0);
      forall s: nat
        ensures first / PGDIR_SIZE <= s < last / PGDIR_SIZE <==> Clearable(s, start, end, Spans(mmap))
      {
        SlotRange(Spans(mmap), below, start, end, first, last, s);
      }
      var startIndex, endIndex := first / PGDIR_SIZE, last / PGDIR_SIZE;
      if endIndex > startIndex {
        ClearPageTables(startIndex, endIndex - startIndex);
      }
    }

    /** The areas unlinked, the fix-ups are to begin. */
    lemma UnmappingStarts(was: seq<Area>, i: nat, lo: nat, hi: nat, free: seq<Area>, extra: Area)
      requires Distinct(was) && Sorted(Spans(was)) && i + |free| <= |was|
      requires mmap == was[..i] + was[i + |free|..]
      requires forall j :: 0 <= j < |free| ==> free[j] == was[i + |free| - 1 - j]
      requires extra !in was && pool == (set a | a in was) + {extra}
      ensures var spans := Spans(was);
        Unmapping(spans[..i], spans[i..i + |free|], spans[i + |free|..], lo, hi, free, extra)
    {
      hide Sorted, Spans;
      var spans, n := Spans(was), |free|;
      assert spans[i..i + n][n..] == [];
      assert CutAll([], lo, hi) == [];
      assert Spans(mmap) == spans[..i] + spans[i + n..];
      Unlinked(was, i, mmap, free);
    }

    lemma CountingStarts(was: seq<Area>, i: nat, free: seq<Area>)
      requires i + |free| <= |was| && mmap == was[..i] + was[i + |free|..]
      requires forall j :: 0 <= j < |free| ==> free[j] == was[i + |free| - 1 - j]
      requires mapCount == |was| && totalVm == TotalPages(Spans(was)) + drift && lockedVm == LockedPages(Spans(was))
      ensures Counted(free)
    {
      hide Spans, TotalPages, LockedPages;
      var spans, n := Spans(was), |free|;
      var pre, mid, suf := spans[..i], spans[i..i + n], spans[i + n..];
      assert spans == (pre + mid) + suf;
      assert Spans(mmap) == pre + suf;
      TotalReverse(mid, Spans(free));
      TotalConcat(pre + mid, suf);
      TotalConcat(pre, mid);
      TotalConcat(pre, suf);
    }

    /** Nothing is left on the free list: the range is out of the list. */
    lemma UnmappingEnds(spans: seq<Span>, i: nat, n: nat, lo: nat, hi: nat, extra: Area?)
      requires Sorted(spans) && i + n <= |spans|
      requires Range(spans[..i], spans[i..i + n], spans[i + n..], lo, hi)
      requires Unmapping(spans[..i], spans[i..i + n], spans[i + n..], lo, hi, [], extra)
      ensures Spans(mmap) == CutAll(spans, lo, hi)
      ensures Sorted(Spans(mmap)) && Apart(Spans(mmap), lo, hi)
      ensures Distinct(mmap) && pool - (if extra == null then {} else {extra}) == (set a | a in mmap)
      ensures i <= |mmap| && forall j :: 0 <= j < i ==> mmap[j].end < lo
    {
      hide CutAll, Spans, Sorted, Apart, Distinct;
      var pre, mid, suf := spans[..i], spans[i..i + n], spans[i + n..];
      assert spans == pre + mid + suf;
      assert mid[0..] == mid;
      RangeCut(pre, mid, suf, lo, hi);
      CutAllSorted(spans, lo, hi, 0);
      CutIsApart(spans, lo, hi);
      assert forall j :: 0 <= j < i ==> mmap[j].Get() == pre[j];
    }

    /** The place of a range in the list: `i` is the first area that ends at or after it. */
    ghost predicate Found(i: nat, addr: nat, len: nat)
      reads this, mmap
    {
      && i < |mmap| && addr % PAGE_SIZE == 0 && len % PAGE_SIZE == 0 && 0 < len && addr + len < WORD
      && (forall j :: 0 <= j < i ==> mmap[j].end < addr)
      && addr <= mmap[i].end && mmap[i].start < addr + len
    }

    lemma FoundIs(i: nat, addr: nat, len: nat)
      requires i < |mmap| && addr % PAGE_SIZE == 0 && len % PAGE_SIZE == 0 && 0 < len && addr + len < WORD
      requires forall j :: 0 <= j < i ==> mmap[j].end < addr
      requires addr <= mmap[i].end && mmap[i].start < addr + len
      ensures Found(i, addr, len)
    {
    }

    /** Allocate the spare area, and take the areas that meet the range off the list. */
    method BeginUnmap(i: nat, addr: nat, len: nat) returns (free: seq<Area>, spare: Area)
      requires Valid() && Found(i, addr, len)
      modifies this`mmap, this`cache, this`pool
      ensures fresh(spare) && cache == null && pool == old(pool) + {spare} && i + |free| <= |old(mmap)|
      ensures forall a :: a in free ==> a in old(mmap)
      ensures var spans, n := old(Spans(mmap)), |free|;
        && Range(spans[..i], spans[i..i + n], spans[i + n..], addr, addr + len)
        && Unmapping(spans[..i], spans[i..i + n], spans[i + n..], addr, addr + len, free, spare) && Counted(free)
    {
      hide Sorted, CutAll, Range, TotalPages, LockedPages, Spans, Unmapping, Counted;
      ghost var was, spans := mmap, Spans(mmap);
      spare := new Area();
      pool := pool + {spare};
      free := Unlink(i, addr + len);
      cache := null;
      assert Spans(was) == spans;
      assert forall j :: 0 <= j < |was| ==> was[j].Get() == spans[j];
      RangeSplits(spans, i, |free|, addr, addr + len);
      UnmappingStarts(was, i, addr, addr + len, free, spare);
      CountingStarts(was, i, free);
    }

    /** The fix-up loop of do_munmap. */
    method FixupAll(free0: seq<Area>, spare: Area, addr: nat, len: nat,
                    ghost pre: seq<Span>, ghost mid: seq<Span>, ghost suf: seq<Span>)
      returns (extra: Area?)
      requires Range(pre, mid, suf, addr, addr + len)
      requires Unmapping(pre, mid, suf, addr, addr + len, free0, spare) && Counted(free0)
      modifies this`mmap, this`mapCount, this`totalVm, this`lockedVm, this`pool, free0, spare
      ensures Unmapping(pre, mid, suf, addr, addr + len, [], extra) && Counted([])
      ensures pool <= old(pool) && (extra == null || extra == spare)
    {
      hide Range, Unmapping, Counted;
      var free := free0;
      extra := spare;
      while free != []
        invariant Unmapping(pre, mid, suf, addr, addr + len, free, extra) && Counted(free)
        invariant extra == null || extra == spare
        invariant forall a :: a in free ==> a in free0
        invariant pool <= old(pool)
      {
        ExtraLeft(pre, mid, suf, addr, addr + len, free, extra);
        assert free[0] in free;
        extra := FixupNext(free, extra, addr, len, pre, mid, suf);
        free := free[1..];
      }
    }

    /** The part of do_munmap past its checks, but for the page tables. */
    method UnmapAreas(i: nat, addr: nat, len: nat)
      requires Valid() && Found(i, addr, len)
      modifies this`mmap, this`cache, this`mapCount, this`totalVm, this`lockedVm, this`pool, mmap
      ensures Valid() && cache == null && forall a :: a in mmap ==> a in old(mmap) || fresh(a)
      ensures Spans(mmap) == old(CutAll(Spans(mmap), addr, addr + len)) && Apart(Spans(mmap), addr, addr + len)
      ensures i <= |mmap| && forall j :: 0 <= j < i ==> mmap[j].end < addr
    {
      hide Sorted, CutAll, Range, Apart, TotalPages, LockedPages, Spans;
      hide Unmapping, Counted;
      ghost var spans := Spans(mmap);
      assert pgd.Length == PGD_SLOTS && Sorted(spans);
      var free, spare := BeginUnmap(i, addr, len);
      ghost var n := |free|;
      assert forall j :: 0 <= j < n ==> free[j] in free && free[j] in old(mmap);
      var extra := FixupAll(free, spare, addr, len, spans[..i], spans[i..i + n], spans[i + n..]);
      UnmappingEnds(spans, i, n, addr, addr + len, extra);
      CountingEnds();
      assert pool <= old(pool) + {spare};
      if extra != null {
        pool := pool - {extra};
      }
      assert pool == (set a | a in mmap);
      forall a | a in mmap
        ensures a in old(mmap) || fresh(a)
      {
        assert a in pool;
      }
    }

    /** The part of do_munmap past its checks. */
    method UnmapRange(i: nat, addr: nat, len: nat)
      requires Valid() && Found(i, addr, len)
      modifies this`mmap, this`cache, this`mapCount, this`totalVm, this`lockedVm, this`pool, mmap, pgd
      ensures Valid() && cache == null && forall a :: a in mmap ==> a in old(mmap) || fresh(a)
      ensures Spans(mmap) == old(CutAll(Spans(mmap), addr, addr + len))
      ensures forall s :: 0 <= s < PGD_SLOTS ==>
        pgd[s] == (old(pgd[s]) && !Clearable(s, addr, addr + len, Spans(mmap)))
    {
      hide Sorted, CutAll, Apart, Clearable, TotalPages, LockedPages, Spans, Distinct;
      UnmapAreas(i, addr, len);
      FreePgtables(i - 1, addr, addr + len);
    }

    lemma CountingEnds()
      requires Counted([])
      ensures mapCount == |mmap| && totalVm == TotalPages(Spans(mmap)) + drift && lockedVm == LockedPages(Spans(mmap))
    {
      assert Spans([]) == [];
    }

    lemma ExtraLeft(pre: seq<Span>, mid: seq<Span>, suf: seq<Span>, lo: nat, hi: nat, free: seq<Area>, extra: Area?)
      requires Unmapping(pre, mid, suf, lo, hi, free, extra) && free != []
      ensures extra != null
    {
    }

    lemma NothingThere(i: nat, lo: nat, hi: nat)
      requires Sorted(Spans(mmap)) && lo < hi < WORD && lo % PAGE_SIZE == 0 && hi % PAGE_SIZE == 0 && i <= |mmap|
      requires forall j :: 0 <= j < i ==> mmap[j].end < lo
      requires i < |mmap| ==> lo <= mmap[i].end && hi <= mmap[i].start
      ensures CutAll(Spans(mmap), lo, hi) == Spans(mmap)
    {
      hide Sorted, CutAll, Spans, Range;
      var spans := Spans(mmap);
      assert forall j :: 0 <= j < |mmap| ==> mmap[j].Get() == spans[j];
      assert spans[i..i + 0] == [] && spans == spans[..i] + [] + spans[i..];
      assert CutAll([], lo, hi) == [] by { CutAllOutside([], lo, hi); }
      RangeSplits(spans, i, 0, lo, hi);
      RangeCut(spans[..i], [], spans[i..], lo, hi);
    }

    /** do_munmap: take the page-aligned range of `len` bytes at `addr` out of every area. */
    method DoMunmap(addr: nat, len0: nat, allocOk: bool) returns (ret: int)
      requires Valid() && addr % PAGE_SIZE == 0 && len0 < WORD && addr + PageAlign(len0) <= WORD
      modifies this`mmap, this`cache, this`mapCount, this`totalVm, this`lockedVm, this`pool, mmap, pgd
      ensures Valid() && forall a :: a in mmap ==> a in old(mmap) || fresh(a)
      ensures var r := Munmap(old(Spans(mmap)), addr, PageAlign(len0), allocOk); ret == r.ret && Spans(mmap) == r.spans
      ensures ret != 0 ==> unchanged(this) && unchanged(old(mmap)) && unchanged(pgd)
      ensures ret == 0 ==>
        (Apart(Spans(mmap), addr, addr + PageAlign(len0)) <==>
          addr + PageAlign(len0) < WORD || old(Apart(Spans(mmap), addr, addr + PageAlign(len0))))
      ensures forall s :: 0 <= s < PGD_SLOTS && pgd[s] != old(pgd[s]) ==>
        Clearable(s, addr, addr + PageAlign(len0), Spans(mmap))
      ensures forall s :: 0 <= s < PGD_SLOTS ==>
        pgd[s] == (old(pgd[s]) && !Reclaims(s, old(Spans(mmap)), addr, PageAlign(len0), allocOk))
    {
      hide PageAlign, Sorted, CutAll, Clearable, TotalPages, LockedPages, Spans, Distinct, Apart, Reached, Reclaims;
      var len := PageAlign(len0);
      PageAligned(len0);
      if len == 0 {
        NothingReclaimed(Spans(mmap), addr, allocOk);
        return EINVAL;
      }
      ghost var spans := Spans(mmap);
      assert Sorted(spans) && mapCount == |mmap|;
      hide Munmap, FirstEnding, Valid, Add32, Found;
      MunmapClears(spans, addr, len, allocOk);
      var end := Add32(addr, len);
      EndOf(addr, len);
      var i := FindVmaPrev(addr);
      assert forall j :: 0 <= j < |mmap| ==> mmap[j].Get() == spans[j];
      FirstEndingIs(spans, addr, i);
      MunmapAt(spans, addr, len, allocOk, i);
      FirstReaches(spans, addr, addr + len);
      ReclaimsWhen(spans, addr, len, allocOk);
      if i == |mmap| || mmap[i].start >= end {
        if addr + len < WORD { NothingThere(i, addr, addr + len); }
        return 0;
      }
      if mmap[i].start < addr && mmap[i].end > end && mapCount >= MAX_MAP_COUNT {
        return ENOMEM;
      }
      if !allocOk {
        return ENOMEM;
      }
      assert Found(i, addr, len) by { FoundIs(i, addr, len); }
      UnmapRange(i, addr, len);
      return 0;
    }

    /** A cached area that holds an address is the one the linear scan finds. */
    lemma CacheAgrees(a: Area, addr: nat)
      requires Sorted(Spans(mmap)) && a in mmap && a.start <= addr < a.end
      ensures var k := FirstEnding(Spans(mmap), addr + 1); k < |mmap| && mmap[k] == a
    {
      var spans := Spans(mmap);
      var k :| 0 <= k < |mmap| && mmap[k] == a;
      forall j | 0 <= j < k
        ensures spans[j].end < addr + 1
      {
        assert spans[j].end <= spans[k].start;
      }
      FirstEndingIs(spans, addr + 1, k);
    }

    /** find_vma: the first area that ends after `addr`, by way of the cache. */
    method FindVma(addr: nat) returns (vma: Area?)
      requires Valid()
      modifies this`cache
      ensures Valid()
      ensures var k := FirstEnding(Spans(mmap), addr + 1);
        if k < |mmap| then vma == mmap[k] else vma == null
      ensures cache == if vma != null then vma else old(cache)
    {
      hide TotalPages, LockedPages, Sorted, Distinct, Spans, FirstEnding;
      vma := cache;
      if !(vma != null && vma.end > addr && vma.start <= addr) {
        var i := 0;
        while i < |mmap| && mmap[i].end <= addr
          invariant i <= |mmap|
          invariant forall j :: 0 <= j < i ==> mmap[j].end <= addr
        {
          i := i + 1;
        }
        FirstEndingIs(Spans(mmap), addr + 1, i);
        vma := if i < |mmap| then mmap[i] else null;
        if vma != null {
          cache := vma;
        }
      } else {
        CacheAgrees(vma, addr);
      }
    }

    /** The end of do_brk: count the new pages. */
    method Count(len: nat, flags: nat)
      modifies this`totalVm, this`lockedVm
      ensures totalVm == old(totalVm) + len / PAGE_SIZE
      ensures lockedVm == old(lockedVm) + (if Bit(flags, LOCKED_BIT) then len / PAGE_SIZE else 0)
    {
      totalVm := totalVm + len / PAGE_SIZE;
      if Bit(flags, LOCKED_BIT) {
        lockedVm := lockedVm + len / PAGE_SIZE;
      }
    }

    /** The place of an area of the list. */
    lemma PlaceIn(vma: Area, k: nat)
      requires Distinct(mmap) && k < |mmap| && mmap[k] == vma
      ensures forall i :: 0 <= i < |mmap| && i != k ==> mmap[i] != vma
    {
    }

    /** The end of an area is moved. */
    method MoveEnd(vma: Area, end: nat, ghost k: nat)
      requires Distinct(mmap) && k < |mmap| && mmap[k] == vma
      modifies vma`end
      ensures Spans(mmap) == old(Spans(mmap))[k := old(Spans(mmap))[k].(end := end)]
    {
      hide Distinct, Spans;
      ghost var spans := Spans(mmap);
      PlaceIn(vma, k);
      vma.end := end;
      assert forall i :: 0 <= i < |mmap| ==> Spans(mmap)[i] == mmap[i].Get();
      assert forall i :: 0 <= i < |mmap| && i != k ==> Spans(mmap)[i] == spans[i];
    }

    /** insert_vm_struct: link a new area. */
    method Put(vma: Area)
      requires Tidy() && Sorted(Spans(mmap)) && vma !in mmap
      modifies this`mmap, this`mapCount, this`pool
      ensures Tidy() && mmap != []
      ensures var s, k := old(Spans(mmap)), StartingBelow(old(Spans(mmap)), vma.start);
        Spans(mmap) == s[..k] + [vma.Get()] + s[k..]
      ensures forall a :: a in mmap ==> a in old(mmap) || a == vma
    {
      hide Sorted, Spans, Distinct, StartingBelow;
      ghost var was, spans, sp := mmap, Spans(mmap), vma.Get();
      ghost var k := StartingBelow(spans, vma.start);
      StartingBelowIs(spans, vma.start);
      assert forall i :: 0 <= i < |mmap| ==> mmap[i].Get() == spans[i];
      pool := pool + {vma};
      InsertVm(vma, k);
      Splice(was, k, [vma]);
      assert Spans([vma]) == [sp];
      MoreObjects(was, k, vma);
    }

    /** Link a new anonymous area. */
    method PutNew(addr: nat, end: nat, flags: nat)
      requires Tidy() && Sorted(Spans(mmap))
      modifies this`mmap, this`mapCount, this`pool
      ensures Tidy() && forall a :: a in mmap ==> a in old(mmap) || fresh(a)
      ensures var s, k := old(Spans(mmap)), StartingBelow(old(Spans(mmap)), addr);
        Spans(mmap) == s[..k] + [Span(addr, end, flags, 0)] + s[k..]
    {
      hide Sorted, Spans, Distinct, StartingBelow;
      ghost var spans := Spans(mmap);
      var vma := new Area();
      vma.start, vma.end, vma.flags, vma.pgoff := addr, end, flags, 0;
      assert Spans(mmap) == spans;
      Put(vma);
    }

    /** The new area of do_brk, or the neighbour it grows. */
    method MapRange(addr: nat, len: nat, flags: nat, allocOk: bool) returns (ok: bool)
      requires Valid() && addr % PAGE_SIZE == 0 && len % PAGE_SIZE == 0 && 0 < len && addr + len <= WORD
      modifies this`mmap, this`cache, this`mapCount, this`totalVm, this`lockedVm, this`pool, mmap
      ensures Tidy() && forall a :: a in mmap ==> a in old(mmap) || fresh(a)
      ensures ok <==> HasNeighbour(old(Spans(mmap)), addr, flags) || allocOk
      ensures Spans(mmap) == if ok then Extended(old(Spans(mmap)), addr, Add32(addr, len), flags) else old(Spans(mmap))
      ensures totalVm == old(totalVm) + if ok then len / PAGE_SIZE else 0
      ensures lockedVm == old(lockedVm) + if ok && Bit(flags, LOCKED_BIT) then len / PAGE_SIZE else 0
    {
      hide Sorted, TotalPages, LockedPages, Spans, Distinct, FirstEnding, StartingBelow, Bit, Add32;
      ok := true;
      ghost var spans := Spans(mmap);
      ghost var k := FirstEnding(spans, addr);
      NoneEndsAtZero(spans);
      if addr != 0 {
        var vma := FindVma(addr - 1);
        if vma != null && vma.end == addr && vma.flags == flags {
          MoveEnd(vma, Add32(addr, len), k);
          Count(len, flags);
          return;
        }
      }
      assert !HasNeighbour(spans, addr, flags);
      if !allocOk {
        return false;
      }
      PutNew(addr, Add32(addr, len), flags);
      Count(len, flags);
    }

    lemma NoneEndsAtZero(spans: seq<Span>)
      requires Sorted(spans)
      ensures forall i :: 0 <= i < |spans| ==> spans[i].end > 0
    {
    }

    function BrkFlags(): nat
      reads this`defFlags
    {
      Or(Or(0x77, defFlags), 0x2070)
    }

    /** Heap memory may be read, written and executed, now and by mprotect, and is locked; beyond
        that it has the default flags of the address space. */
    lemma BrkFlagBits(k: nat)
      ensures Bit(BrkFlags(), k) <==> k in {0, 1, 2, 4, 5, 6, LOCKED_BIT} || Bit(defFlags, k)
    {
      hide Bit, Or;
      OrBits(Or(0x77, defFlags), 0x2070, k);
      OrBits(0x77, defFlags, k);
      DataBits(k);
    }

    /** do_brk: map anonymous memory, clearing what was mapped there. */
    method DoBrk(addr: nat, len0: nat, spareOk: bool, allocOk: bool) returns (ret: int)
      requires Valid() && addr % PAGE_SIZE == 0 && len0 < WORD && addr + PageAlign(len0) <= WORD
      modifies this`mmap, this`cache, this`mapCount, this`totalVm, this`lockedVm, this`pool, mmap, pgd
      ensures var r := DoBrkResult(old(Spans(mmap)), addr, PageAlign(len0), BrkFlags(), spareOk, allocOk);
        ret == r.ret && Spans(mmap) == r.spans && (Valid() <==> Sorted(r.spans))
      ensures Tidy() && (addr + PageAlign(len0) < WORD ==> Valid())
      ensures 0 < PageAlign(len0) < WORD - addr && ret == addr ==>
        Adds(old(Spans(mmap)), Spans(mmap), addr, addr + PageAlign(len0), BrkFlags())
      ensures forall a :: a in mmap ==> a in old(mmap) || fresh(a)
      ensures forall s :: 0 <= s < PGD_SLOTS ==>
        pgd[s] == (old(pgd[s]) && !Reclaims(s, old(Spans(mmap)), addr, PageAlign(len0), spareOk))
    {
      hide PageAlign, Sorted, CutAll, Clearable, Adds, Apart, NoRoom, TotalPages, LockedPages, Spans, Distinct, Or;
      hide HasNeighbour, Extended, Bit, Reclaims;
      var len := PageAlign(len0);
      PageAligned(len0);
      if len == 0 {
        NothingReclaimed(Spans(mmap), addr, spareOk);
        return addr;
      }
      ghost var spans := Spans(mmap);
      var retval := DoMunmap(addr, len0, spareOk);
      if retval != 0 {
        return retval;
      }
      ghost var cut := Spans(mmap);
      if mapCount > MAX_MAP_COUNT {
        return ENOMEM;
      }
      assert forall j :: 0 <= j < |mmap| ==> mmap[j] in mmap;
      var ok := MapRange(addr, len, BrkFlags(), allocOk);
      if !ok {
        return ENOMEM;
      }
      if addr + len < WORD {
        NoWrap(addr, len);
        DoBrkAdds(spans, addr, len, BrkFlags(), spareOk, allocOk);
        CutIsApart(spans, addr, addr + len);
        ExtendedAdds(cut, addr, addr + len, BrkFlags());
      } else {
        assert Add32(addr, len) == 0;
        WrappedBreaks(cut, addr, BrkFlags());
      }
      return addr;
    }

    /** find_vma_intersection: the first area that ends after the start of a range, if it starts
        before the end. */
    method FindIntersection(start: nat, end: nat) returns (vma: Area?)
      requires Valid()
      modifies this`cache
      ensures Valid() && (vma != null <==> Meets(Spans(mmap), start, end))
      ensures vma != null ==> mmap[FirstEnding(Spans(mmap), start + 1)] == vma
      ensures start < end ==> (vma == null <==> Apart(Spans(mmap), start, end))
    {
      vma := FindVma(start);
      if start < end { FirstMeets(Spans(mmap), start, end); }
      if vma != null && end <= vma.start {
        vma := null;
      }
    }

    /** sys_brk: move the end of the heap.  What that means for the addresses mapped, and for
        which ends, is said in SysBrkMoves and SysBrkExactly. */
    method SysBrk(newEnd: nat, spareOk: bool, allocOk: bool) returns (ret: nat)
      requires Valid() && newEnd < WORD && brk < WORD
      modifies this`mmap, this`cache, this`mapCount, this`totalVm, this`lockedVm, this`pool, this`brk, mmap, pgd
      ensures var r := SysBrkResult(old(Spans(mmap)), endCode, old(brk), newEnd, BrkFlags(), spareOk, allocOk);
        ret == brk == r.ret && Spans(mmap) == r.spans && (Valid() <==> Sorted(r.spans))
      ensures Promised(old(brk), newEnd) ==>
        HeapMoved(old(Spans(mmap)), old(brk), newEnd, BrkFlags(), Result(Spans(mmap), ret))
      ensures Tidy() && brk < WORD && (newEnd <= WORD - PAGE_SIZE ==> Valid())
      ensures forall a :: a in mmap ==> a in old(mmap) || fresh(a)
      ensures forall s :: 0 <= s < PGD_SLOTS ==>
        pgd[s] == (old(pgd[s]) && !BrkReclaims(s, old(Spans(mmap)), endCode, old(brk), newEnd, spareOk))
    {
      hide PageAlign, Sorted, CutAll, Clearable, Adds, Apart, NoRoom, TotalPages, LockedPages, Spans, Distinct, Or;
      hide Reclaims;
      hide HasNeighbour, Extended, Meets, HeapMoved, DoBrkResult, Tidy, Promised;
      ghost var spans := Spans(mmap);
      SysBrkExactly(brk, newEnd, BrkFlags());
      SysBrkSorted(spans, endCode, brk, newEnd, BrkFlags(), spareOk, allocOk);
      if newEnd < endCode {
        return brk;
      }
      PageAligned(newEnd);
      PageAligned(brk);
      var newbrk, oldbrk := PageAlign(newEnd), PageAlign(brk);
      if oldbrk == newbrk {
        brk := newEnd;
        return brk;
      }
      if newEnd <= brk {
        ShrinkRange(newEnd, brk);
        var r := DoMunmap(newbrk, Sub32(oldbrk, newbrk), spareOk);
        if r == 0 {
          brk := newEnd;
        }
        return brk;
      }
      var found := FindIntersection(oldbrk, Add32(newbrk, PAGE_SIZE));
      if found != null {
        return brk;
      }
      GrowRange(brk, newEnd);
      assert Spans(mmap) == spans;
      var r := DoBrk(oldbrk, Sub32(newbrk, oldbrk), spareOk, allocOk);
      if r != oldbrk {
        return brk;
      }
      brk := newEnd;
      return brk;
    }

    /** exit_mmap: release every area. */
    method ExitMmap()
      requires Valid()
      modifies this`mmap, this`cache, this`mapCount, this`totalVm, this`lockedVm, this`pool, this`drift
      ensures Valid() && mmap == [] && pool == {} && mapCount == totalVm == lockedVm == 0 && drift == 0
    {
      var mpnt := mmap;
      mmap, cache := [], null;
      totalVm, lockedVm, drift := 0, 0, 0;
      while mpnt != []
        invariant mmap == [] && cache == null && totalVm == lockedVm == 0
        invariant mapCount == |mpnt| && Distinct(mpnt) && drift == 0
        invariant pool == (set a | a in mpnt)
      {
        assert mpnt[0] !in mpnt[1..];
        assert forall a :: a in mpnt <==> a == mpnt[0] || a in mpnt[1..];
        mapCount := mapCount - 1;
        pool := pool - {mpnt[0]};
        mpnt := mpnt[1..];
      }
    }

    /** Append an unlocked copy of an area. */
    method AppendCopy(mpnt: Area)
      requires Distinct(mmap) && pool == (set a | a in mmap)
      modifies this`mmap, this`mapCount, this`pool
      ensures |mmap| == |old(mmap)| + 1 && fresh(mmap[|old(mmap)|]) && mmap[..|old(mmap)|] == old(mmap)
      ensures Distinct(mmap) && pool == (set a | a in mmap) && mapCount == old(mapCount) + 1
      ensures Spans(mmap) == old(Spans(mmap)) + [Copy(mpnt.Get())]
    {
      hide Distinct, And, Spans;
      ghost var was, spans := mmap, Spans(mmap);
      var tmp := new Area();
      tmp.start, tmp.end, tmp.pgoff := mpnt.start, mpnt.end, mpnt.pgoff;
      tmp.flags := And(mpnt.flags, WORD - 1 - Pow2(LOCKED_BIT));
      pool := pool + {tmp};
      mmap := mmap + [tmp];
      mapCount := mapCount + 1;
      assert mmap == was[..|was|] + [tmp] + was[|was|..];
      MoreObjects(was, |was|, tmp);
      assert Spans(was) == spans;
      SpansAppend(was, tmp);
    }

    /** The loop of dup_mmap. */
    method CopyAreas(areaList: seq<Area>, areas: nat, copies: nat) returns (ret: int)
      requires mmap == [] && mapCount == 0 && pool == {}
      modifies this`mmap, this`mapCount, this`pool
      ensures Distinct(mmap) && pool == (set a | a in mmap) && mapCount == |mmap|
      ensures forall a :: a in mmap ==> fresh(a)
      ensures var r := DupResult(Spans(areaList), areas, copies); ret == r.ret && Spans(mmap) == r.spans
    {
      hide Copy, Distinct, Bit, Spans, Copies;
      ghost var spans := Spans(areaList);
      assert Distinct([]) && Copies([]) == [] by { NoCopies(); }
      for i := 0 to |areaList|
        invariant mapCount == |mmap| <= areas && |mmap| <= copies
        invariant Distinct(mmap) && pool == (set a | a in mmap)
        invariant forall a :: a in mmap ==> fresh(a)
        invariant Spans(mmap) == Copies(spans[..i]) && Spans(areaList) == spans
      {
        var mpnt := areaList[i];
        CopiesStep(spans, i);
        CopiesPrefix(spans, i);
        CopiesPrefix(spans, i + 1);
        if Bit(mpnt.flags, DONTCOPY_BIT) {
          continue;
        }
        if mapCount == areas {
          return ENOMEM;
        }
        ghost var was := mmap;
        AppendCopy(mpnt);
        assert forall a :: a in mmap ==> a in was || a == mmap[|was|];
        if mapCount > copies {
          return ENOMEM;
        }
      }
      assert spans[..|spans|] == spans;
      ret := 0;
    }

    /** dup_mmap: give a child, which so far is a byte copy of its parent, copies of the parent's
        areas.  `areas` is how many areas can be allocated, `copies` of how many the pages can be
        copied.  A call that fails leaves a valid list of the first areas. */
    method DupMmap(parent: Mm, areas: nat, copies: nat) returns (ret: int)
      requires parent != this && parent.Valid() && totalVm == parent.totalVm && pgd.Length == PGD_SLOTS
      modifies this`mmap, this`cache, this`mapCount, this`lockedVm, this`pool, this`drift
      ensures Valid() && lockedVm == 0 && cache == null && forall a :: a in mmap ==> fresh(a)
      ensures var r := DupResult(Spans(parent.mmap), areas, copies); ret == r.ret && Spans(mmap) == r.spans
      ensures drift == parent.drift + TotalPages(Spans(parent.mmap)) - TotalPages(Spans(mmap))
      ensures ret == 0 ==>
        (drift == parent.drift <==> forall i :: 0 <= i < |parent.mmap| ==> !Bit(parent.mmap[i].flags, DONTCOPY_BIT))
      ensures var n := |CopiedPlaces(Spans(parent.mmap), |parent.mmap|)|;
        && (ret == 0 <==> n <= areas && n <= copies)
        && |mmap| == if ret == 0 then n else if areas <= copies then areas else copies + 1
      ensures exists b :: Inherited(Spans(parent.mmap), Spans(mmap), b)
      ensures ret == 0 ==> Inherited(Spans(parent.mmap), Spans(mmap), WORD)
    {
      hide Distinct, Sorted, TotalPages, LockedPages, Bit, Spans, DupResult, Inherited, CopiedPlaces, Valid;
      parent.ValidCounts();
      ghost var spans := Spans(parent.mmap);
      lockedVm, mmap, cache, mapCount, pool := 0, [], null, 0, {};
      ret := CopyAreas(parent.mmap, areas, copies);
      DupSound(spans, areas, copies);
      parent.SpanFlags();
      drift := totalVm - TotalPages(Spans(mmap));
      assert Valid() by { Filled(); }
    }

    lemma ValidCounts()
      requires Valid()
      ensures Sorted(Spans(mmap)) && totalVm == TotalPages(Spans(mmap)) + drift && |Spans(mmap)| == |mmap|
    {
    }

    lemma SpanFlags()
      ensures |Spans(mmap)| == |mmap| && forall i :: 0 <= i < |mmap| ==> Spans(mmap)[i].flags == mmap[i].flags
    {
    }

    lemma Filled()
      requires Distinct(mmap) && pool == (set a | a in mmap) && mapCount == |mmap| && pgd.Length == PGD_SLOTS
      requires cache == null && Sorted(Spans(mmap)) && LockedPages(Spans(mmap)) == lockedVm
      requires totalVm == TotalPages(Spans(mmap)) + drift
      ensures Valid()
    {
    }
  }

  lemma SpansAppend(s: seq<Area>, a: Area)
    ensures Spans(s + [a]) == Spans(s) + [a.Get()]
  {
  }

  lemma NoCopies()
    ensures Distinct([]) && Copies([]) == []
  {
  }

  /** VM_DATA_DEFAULT_FLAGS, and the flags or-ed to them. */
  lemma DataBits(k: nat)
    ensures Bit(0x77, k) <==> k in {0, 1, 2, 4, 5, 6}
    ensures Bit(0x2070, k) <==> k in {4, 5, 6, LOCKED_BIT}
  {
    if k >= 14 {
      BitAbove(0x77, 14, k);
      BitAbove(0x2070, 14, k);
    } else if k < 7 {
      assert Bit(0x77, 0) && Bit(0x77, 1) && Bit(0x77, 2) && !Bit(0x77, 3);
      assert Bit(0x77, 4) && Bit(0x77, 5) && Bit(0x77, 6);
      assert !Bit(0x2070, 0) && !Bit(0x2070, 1) && !Bit(0x2070, 2) && !Bit(0x2070, 3);
      assert Bit(0x2070, 4) && Bit(0x2070, 5) && Bit(0x2070, 6);
    } else {
      assert Pow2(7) == 128;
      BitAbove(0x77, 7, k);
      assert !Bit(0x2070, 7) && !Bit(0x2070, 8) && !Bit(0x2070, 9) && !Bit(0x2070, 10);
      assert !Bit(0x2070, 11) && !Bit(0x2070, 12) && Bit(0x2070, 13);
    }
  }

  lemma NothingReclaimed(spans: seq<Span>, addr: nat, allocOk: bool)
    ensures forall s :: !Reclaims(s, spans, addr, 0, allocOk)
  {
  }

  lemma ReclaimsWhen(spans: seq<Span>, addr: nat, len: nat, allocOk: bool)
    ensures addr + len >= WORD || !Reached(spans, addr, addr + len) || Munmap(spans, addr, len, allocOk).ret != 0 ==>
      forall s :: !Reclaims(s, spans, addr, len, allocOk)
    ensures 0 < len < WORD - addr && Reached(spans, addr, addr + len) && Munmap(spans, addr, len, allocOk).ret == 0 ==>
      forall s :: Reclaims(s, spans, addr, len, allocOk)
                  <==> Clearable(s, addr, addr + len, CutAll(spans, addr, addr + len))
  {
    hide Munmap, Reached, Clearable;
  }

  /** The ranges that sys_brk asks for are whole pages and do not go beyond 2^32. */
  lemma ShrinkRange(newEnd: nat, brk: nat)
    requires newEnd <= brk < WORD && PageAlign(newEnd) != PageAlign(brk)
    ensures var n, o := PageAlign(newEnd), PageAlign(brk);
      && n % PAGE_SIZE == 0 && Sub32(o, n) < WORD && PageAlign(Sub32(o, n)) == Sub32(o, n) && n + Sub32(o, n) <= WORD
  {
    hide PageAlign;
    PageAligned(newEnd);
    PageAligned(brk);
    var n, o := PageAlign(newEnd), PageAlign(brk);
    if o > 0 { AlignMono(newEnd, brk); }
    SubPages(o, n);
    AlignAgain(Sub32(o, n));
  }

  lemma GrowRange(brk: nat, newEnd: nat)
    requires brk < newEnd < WORD && PageAlign(newEnd) != PageAlign(brk)
    ensures var n, o := PageAlign(newEnd), PageAlign(brk);
      && o % PAGE_SIZE == 0 && Sub32(n, o) < WORD && PageAlign(Sub32(n, o)) == Sub32(n, o) && o + Sub32(n, o) <= WORD
  {
    hide PageAlign;
    PageAligned(newEnd);
    PageAligned(brk);
    var n, o := PageAlign(newEnd), PageAlign(brk);
    if n > 0 { AlignMono(brk, newEnd); }
    SubPages(n, o);
    AlignAgain(Sub32(n, o));
  }

  lemma SubPages(x: nat, y: nat)
    requires x < WORD && y < WORD && x % PAGE_SIZE == 0 && y % PAGE_SIZE == 0
    ensures Sub32(x, y) % PAGE_SIZE == 0 && Sub32(x, y) < WORD
    ensures Sub32(x, y) == if y <= x then x - y else WORD - (y - x)
  {
  }

  /** The areas split into those still linked and those not. */
  lemma Unlinked(was: seq<Area>, i: nat, linked: seq<Area>, free: seq<Area>)
    requires Distinct(was) && i + |free| <= |was| && linked == was[..i] + was[i + |free|..]
    requires forall j :: 0 <= j < |free| ==> free[j] == was[i + |free| - 1 - j]
    ensures forall a :: a in was <==> a in linked || a in free
    ensures Distinct(linked) && Distinct(free) && forall a :: a in free ==> a !in linked
  {
    var n := |free|;
    forall a | a in was
      ensures a in linked || a in free
    {
      var j :| 0 <= j < |was| && was[j] == a;
      if j < i { assert linked[j] == a; }
      else if j < i + n { assert free[i + n - 1 - j] == a; }
      else { assert linked[j - n] == a; }
    }
    assert forall j :: 0 <= j < |linked| ==> linked[j] == was[if j < i then j else j + n];
  }

  lemma MoreObjects(s: seq<Area>, k: nat, x: Area)
    requires k <= |s| && Distinct(s) && x !in s
    ensures Distinct(s[..k] + [x] + s[k..])
    ensures (set a | a in s[..k] + [x] + s[k..]) == (set a | a in s) + {x}
    ensures forall a :: a in s ==> a in s[..k] + [x] + s[k..]
  {
    assert forall a :: a in s <==> a in s[..k] || a in s[k..];
  }

  ghost predicate Range(pre: seq<Span>, mid: seq<Span>, suf: seq<Span>, lo: nat, hi: nat) {
    && lo < hi < WORD && lo % PAGE_SIZE == 0 && hi % PAGE_SIZE == 0
    && Sorted(pre + mid + suf)
    && (forall i :: 0 <= i < |pre| ==> pre[i].end < lo)
    && (forall i :: 0 <= i < |mid| ==> lo <= mid[i].end && mid[i].start < hi)
    && (forall i :: 0 <= i < |suf| ==> hi <= suf[i].start)
  }

  lemma OneLess(s: seq<Area>, i: nat, n: nat)
    requires i + n < |s|
    ensures var t := s[..i] + s[i + n..]; t[i] == s[i + n] && t[..i] + t[i + 1..] == s[..i] + s[i + n + 1..]
  {
  }

  lemma Rejoined(spans: seq<Span>, i: nat, n: nat)
    requires i + n <= |spans|
    ensures spans == spans[..i] + spans[i..i + n] + spans[i + n..]
  {
  }

  lemma RangeSplits(spans: seq<Span>, i: nat, n: nat, lo: nat, hi: nat)
    requires Sorted(spans) && i + n <= |spans|
    requires lo < hi < WORD && lo % PAGE_SIZE == 0 && hi % PAGE_SIZE == 0
    requires forall j :: 0 <= j < i ==> spans[j].end < lo
    requires i < |spans| ==> lo <= spans[i].end
    requires forall j :: i <= j < i + n ==> spans[j].start < hi
    requires i + n < |spans| ==> hi <= spans[i + n].start
    ensures Range(spans[..i], spans[i..i + n], spans[i + n..], lo, hi)
  {
    hide Sorted;
    var pre, mid, suf := spans[..i], spans[i..i + n], spans[i + n..];
    Rejoined(spans, i, n);
    if i < |spans| { SortedFrom(spans, i); }
    forall j | 0 <= j < |mid|
      ensures lo <= mid[j].end && mid[j].start < hi
    {
      assert mid[j] == spans[i + j];
    }
    if i + n < |spans| { SortedFrom(spans, i + n); }
    forall j | 0 <= j < |suf|
      ensures hi <= suf[j].start
    {
      assert suf[j] == spans[i + n + j];
    }
  }

  lemma RangeOk(pre: seq<Span>, mid: seq<Span>, suf: seq<Span>)
    requires Sorted(pre + mid + suf)
    ensures forall i :: 0 <= i < |pre| ==> pre[i].Ok()
    ensures forall i :: 0 <= i < |mid| ==> mid[i].Ok()
    ensures forall i :: 0 <= i < |suf| ==> suf[i].Ok()
  {
    var all := pre + mid + suf;
    assert forall i :: 0 <= i < |pre| ==> pre[i] == all[i];
    assert forall i :: 0 <= i < |mid| ==> mid[i] == all[|pre| + i];
    assert forall i :: 0 <= i < |suf| ==> suf[i] == all[|pre| + |mid| + i];
  }

  lemma RangeCut(pre: seq<Span>, mid: seq<Span>, suf: seq<Span>, lo: nat, hi: nat)
    requires Range(pre, mid, suf, lo, hi)
    ensures CutAll(pre + mid + suf, lo, hi) == pre + CutAll(mid, lo, hi) + suf
  {
    hide CutAll;
    RangeOk(pre, mid, suf);
    CutAllOutside(pre, lo, hi);
    CutAllOutside(suf, lo, hi);
    CutAllConcat(pre + mid, suf, lo, hi);
    CutAllConcat(pre, mid, lo, hi);
  }

  lemma CutOneMore(pre: seq<Span>, mid: seq<Span>, suf: seq<Span>, lo: nat, hi: nat, k: nat, r: seq<Span>)
    requires 0 < k <= |mid| && r == pre + CutAll(mid[k..], lo, hi) + suf
    ensures r[..|pre|] + Cut(mid[k - 1], lo, hi) + r[|pre|..] == pre + CutAll(mid[k - 1..], lo, hi) + suf
  {
    hide Cut;
    var cut, rest := Cut(mid[k - 1], lo, hi), CutAll(mid[k..], lo, hi);
    assert mid[k - 1..][1..] == mid[k..];
    assert CutAll(mid[k - 1..], lo, hi) == cut + rest;
    assert r[..|pre|] == pre && r[|pre|..] == rest + suf;
    assert (pre + cut) + (rest + suf) == pre + (cut + rest) + suf;
  }

  /** An area with something left on both sides of the range is the only one in it. */
  lemma OnlyHole(pre: seq<Span>, mid: seq<Span>, suf: seq<Span>, lo: nat, hi: nat, k: nat)
    requires Sorted(pre + mid + suf) && 0 < k <= |mid|
    requires forall i :: 0 <= i < |mid| ==> lo <= mid[i].end
    ensures |Cut(mid[k - 1], lo, hi)| == 2 ==> k == 1
  {
    if k > 1 {
      var all := pre + mid + suf;
      assert all[|pre| + k - 1] == mid[k - 1] && all[|pre| + k - 2] == mid[k - 2];
    }
  }

  lemma FixupCounts(s: seq<Span>, free: seq<Span>, p: nat, sp: Span, lo: nat, hi: nat, st: nat, en: nat)
    requires p <= |s| && free != [] && free[0] == sp
    requires sp.Ok() && lo < hi && lo % PAGE_SIZE == 0 && hi % PAGE_SIZE == 0
    requires lo <= sp.end && sp.start < hi
    requires st == (if lo < sp.start then sp.start else lo) && en == (if hi > sp.end then sp.end else hi)
    ensures st <= en
    ensures var r := s[..p] + Cut(sp, lo, hi) + s[p..];
      && TotalPages(r) + TotalPages(free[1..]) == TotalPages(s) + TotalPages(free) - (en - st) / PAGE_SIZE
      && LockedPages(r) + LockedPages(free[1..])
         == LockedPages(s) + LockedPages(free) - (if Locked(sp) then (en - st) / PAGE_SIZE else 0)
  {
    hide Cut, Locked;
    TotalInsert(s, p, Cut(sp, lo, hi));
    CutPages(sp, lo, hi, st, en);
    TotalConcat([sp], free[1..]);
    assert [sp] + free[1..] == free;
  }

  lemma SortedParts(pre: seq<Span>, mid: seq<Span>, suf: seq<Span>, k: nat)
    requires Sorted(pre + mid + suf) && k < |mid|
    ensures Sorted(mid) && mid[k].Ok()
    ensures forall i :: 0 <= i < |pre| ==> pre[i].end <= mid[k].start && pre[i].Ok()
    ensures forall i :: 0 <= i < |suf| ==> mid[k].end <= suf[i].start && suf[i].Ok()
  {
    var all := pre + mid + suf;
    assert forall i :: 0 <= i < |mid| ==> all[|pre| + i] == mid[i];
    assert forall i :: 0 <= i < |pre| ==> all[i] == pre[i];
    assert forall i :: 0 <= i < |suf| ==> all[|pre| + |mid| + i] == suf[i];
  }

  /** Where the next area to fix up belongs. */
  lemma Place(pre: seq<Span>, mid: seq<Span>, suf: seq<Span>, lo: nat, hi: nat, k: nat, r: seq<Span>)
    requires lo < hi < WORD && lo % PAGE_SIZE == 0 && hi % PAGE_SIZE == 0
    requires Sorted(pre + mid + suf) && 0 < k <= |mid|
    requires r == pre + CutAll(mid[k..], lo, hi) + suf
    ensures mid[k - 1].Ok()
    ensures forall i :: 0 <= i < |pre| ==> r[i].start < mid[k - 1].start
    ensures forall i :: |pre| <= i < |r| ==> mid[k - 1].end <= r[i].start
  {
    hide CutAll;
    SortedParts(pre, mid, suf, k - 1);
    assert Sorted(mid[k..]);
    CutAllSorted(mid[k..], lo, hi, mid[k - 1].end);
    var c := CutAll(mid[k..], lo, hi);
    assert forall i :: 0 <= i < |c| ==> r[|pre| + i] == c[i];
  }
}
