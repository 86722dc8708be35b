/** What do_munmap, do_brk and sys_brk make of the spans of an address space, in 32-bit
    arithmetic, and what that means for the addresses mapped. */
module BrkTheory {
  import opened Words
  import opened AreaTheory

  const MAX_MAP_COUNT: nat := 65536
  const EINVAL: int := -22
  const ENOMEM: int := -12

  function PageAlign(x: nat): (r: nat)
    ensures r < WORD
  {
    PageMask(Add32(x, PAGE_SIZE - 1));
    And(Add32(x, PAGE_SIZE - 1), WORD - PAGE_SIZE)
  }

  /** Rounding up to whole pages gives zero for nothing, and for what would wrap around. */
  lemma PageAligned(x: nat)
    requires x < WORD
    ensures PageAlign(x) % PAGE_SIZE == 0 && PageAlign(x) <= WORD - PAGE_SIZE
    ensures x + PAGE_SIZE <= WORD ==> x <= PageAlign(x) < x + PAGE_SIZE
    ensures x + PAGE_SIZE > WORD ==> PageAlign(x) == 0
  {
    var y := Add32(x, PAGE_SIZE - 1);
    PageMask(y);
    hide And;
  }

  lemma PageMask(y: nat)
    requires y < WORD
    ensures And(y, WORD - PAGE_SIZE) == y / PAGE_SIZE * PAGE_SIZE
  {
    hide And, Shr;
    WordIsPow2();
    assert Pow2(12) == PAGE_SIZE;
    AndHighMask(y, 12, 32);
    ShrIsDiv(y, 12);
  }

  lemma AlignMono(x: nat, y: nat)
    requires x <= y && y + PAGE_SIZE <= WORD
    ensures PageAlign(x) <= PageAlign(y)
  {
    hide PageAlign;
    PageAligned(x);
    PageAligned(y);
  }

  lemma AlignAgain(x: nat)
    requires x % PAGE_SIZE == 0 && x < WORD
    ensures PageAlign(x) == x
  {
    hide PageAlign;
    PageAligned(x);
  }

  /** No span meets the range. */
  ghost predicate Apart(spans: seq<Span>, lo: nat, hi: nat) {
    forall i :: 0 <= i < |spans| ==> spans[i].end <= lo || hi <= spans[i].start
  }

  /** do_munmap has no memory for the range: its first area needs a spare one that is not
      there, or would be split when there are too many already. */
  ghost predicate NoRoom(spans: seq<Span>, lo: nat, hi: nat, allocOk: bool) {
    var i := FirstEnding(spans, lo);
    && i < |spans| && spans[i].start < hi
    && (!allocOk || (spans[i].start < lo && hi < spans[i].end && |spans| >= MAX_MAP_COUNT))
  }

  /** The spans a call leaves, and what it returns. */
  datatype Result = Result(spans: seq<Span>, ret: int)

  /** do_munmap of `len` bytes, a multiple of the page size: a range that ends at 2^32 has the
      end 0, and nothing is taken out. */
  ghost function Munmap(s: seq<Span>, addr: nat, len: nat, allocOk: bool): Result {
    if len == 0 then Result(s, EINVAL)
    else if addr + len >= WORD then Result(s, 0)
    else if NoRoom(s, addr, addr + len, allocOk) then Result(s, ENOMEM)
    else Result(CutAll(s, addr, addr + len), 0)
  }

  /** Some area ends at `addr` and may be grown. */
  ghost predicate HasNeighbour(s: seq<Span>, addr: nat, flags: nat) {
    var k := FirstEnding(s, addr);
    k < |s| && s[k].end == addr && s[k].flags == flags
  }

  /** How many spans start at or below `a`. */
  function StartingBelow(s: seq<Span>, a: nat): (n: nat)
    ensures n <= |s|
  {
    if s == [] || s[0].start > a then 0 else 1 + StartingBelow(s[1..], a)
  }

  /** Anonymous memory from `addr` to `end` is mapped: by growing the neighbour, or else as an
      area of its own, behind those that start no later. */
  ghost function Extended(s: seq<Span>, addr: nat, end: nat, flags: nat): seq<Span> {
    if HasNeighbour(s, addr, flags) then
      var k := FirstEnding(s, addr);
      s[k := s[k].(end := end)]
    else
      var k := StartingBelow(s, addr);
      s[..k] + [Span(addr, end, flags, 0)] + s[k..]
  }

  /** do_brk of `len` bytes, a multiple of the page size. */
  ghost function DoBrkResult(s: seq<Span>, addr: nat, len: nat, flags: nat, spareOk: bool, allocOk: bool): Result {
    var u := Munmap(s, addr, len, spareOk);
    if len == 0 then Result(s, addr)
    else if u.ret != 0 then u
    else if |u.spans| > MAX_MAP_COUNT || (!HasNeighbour(u.spans, addr, flags) && !allocOk) then Result(u.spans, ENOMEM)
    else Result(Extended(u.spans, addr, Add32(addr, len), flags), addr)
  }

  /** find_vma_intersection finds an area. */
  ghost predicate Meets(s: seq<Span>, lo: nat, hi: nat) {
    var k := FirstEnding(s, lo + 1);
    k < |s| && s[k].start < hi
  }

  /** sys_brk; what is returned is the end of the heap afterwards. */
  ghost function SysBrkResult(s: seq<Span>, endCode: nat, brk: nat, newEnd: nat, flags: nat, spareOk: bool,
                              allocOk: bool): Result
  {
    var n, o := PageAlign(newEnd), PageAlign(brk);
    if newEnd < endCode then Result(s, brk)
    else if o == n then Result(s, newEnd)
    else if newEnd <= brk then
      var u := Munmap(s, n, Sub32(o, n), spareOk);
      u.(ret := if u.ret == 0 then newEnd else brk)
    else if Meets(s, o, Add32(n, PAGE_SIZE)) then Result(s, brk)
    else
      var u := DoBrkResult(s, o, Sub32(n, o), flags, spareOk, allocOk);
      u.(ret := if u.ret == o then newEnd else brk)
  }

  // ---------- unmapping ----------

  lemma CutIsApart(s: seq<Span>, lo: nat, hi: nat)
    requires Sorted(s) && lo < hi
    ensures Apart(CutAll(s, lo, hi), lo, hi)
  {
    CutAllApart(s, lo, hi);
    var r := CutAll(s, lo, hi);
    assert forall i :: 0 <= i < |r| ==> r[i] in r;
  }

  /** Taking a range out changes the list just when some span meets the range. */
  lemma CutChanges(s: seq<Span>, lo: nat, hi: nat)
    requires Sorted(s) && lo < hi
    ensures CutAll(s, lo, hi) == s <==> Apart(s, lo, hi)
  {
    hide CutAll;
    if Apart(s, lo, hi) { CutAllOutside(s, lo, hi); }
    CutIsApart(s, lo, hi);
  }

  /** A call that returns 0 leaves nothing mapped in the range if and only if the range ends below
      2^32 or nothing was mapped there. */
  lemma MunmapClears(s: seq<Span>, addr: nat, len: nat, allocOk: bool)
    requires Sorted(s) && 0 < len && addr + len <= WORD
    ensures var r := Munmap(s, addr, len, allocOk);
      r.ret == 0 ==> (Apart(r.spans, addr, addr + len) <==> addr + len < WORD || Apart(s, addr, addr + len))
  {
    hide CutAll, NoRoom, Apart;
    CutIsApart(s, addr, addr + len);
  }

  /** Some area meets the range or ends where it starts. */
  ghost predicate Reached(s: seq<Span>, lo: nat, hi: nat) {
    exists i :: 0 <= i < |s| && lo <= s[i].end && s[i].start < hi
  }

  /** Some area goes on at both ends of the range. */
  ghost predicate Holed(s: seq<Span>, lo: nat, hi: nat) {
    exists i :: 0 <= i < |s| && s[i].start < lo && hi < s[i].end
  }

  /** When do_munmap fails, without the order in which it looks. */
  lemma MunmapFails(s: seq<Span>, addr: nat, len: nat, allocOk: bool)
    requires Sorted(s)
    ensures var hi, ret := addr + len, Munmap(s, addr, len, allocOk).ret;
      && (ret == EINVAL <==> len == 0)
      && (ret == ENOMEM <==> 0 < len && hi < WORD && Reached(s, addr, hi)
                             && (!allocOk || (Holed(s, addr, hi) && |s| >= MAX_MAP_COUNT)))
      && (ret == 0 || ret == EINVAL || ret == ENOMEM)
  {
    hide CutAll, Sorted;
    FirstReaches(s, addr, addr + len);
  }

  lemma FirstReaches(s: seq<Span>, lo: nat, hi: nat)
    requires Sorted(s)
    ensures var k := FirstEnding(s, lo);
      && k <= |s| && (Reached(s, lo, hi) <==> k < |s| && s[k].start < hi)
      && (lo < hi && k < |s| ==> (Holed(s, lo, hi) <==> s[k].start < lo && hi < s[k].end))
      && (lo < hi && k == |s| ==> !Holed(s, lo, hi))
  {
    hide FirstEnding, Reached, Holed, Sorted;
    EndingFirst(s, lo);
    ReachedAt(s, lo, hi, FirstEnding(s, lo));
    if lo < hi { HoledAt(s, lo, hi, FirstEnding(s, lo)); }
  }

  lemma ReachedAt(s: seq<Span>, lo: nat, hi: nat, k: nat)
    requires Sorted(s) && k <= |s| && (forall j :: 0 <= j < k ==> s[j].end < lo) && (k < |s| ==> lo <= s[k].end)
    ensures Reached(s, lo, hi) <==> k < |s| && s[k].start < hi
  {
    if i :| 0 <= i < |s| && lo <= s[i].end && s[i].start < hi {
      assert k <= i && s[i].Ok() && s[k].Ok();
    }
  }

  lemma HoledAt(s: seq<Span>, lo: nat, hi: nat, k: nat)
    requires Sorted(s) && k <= |s| && (forall j :: 0 <= j < k ==> s[j].end < lo) && (k < |s| ==> lo <= s[k].end)
    requires lo < hi
    ensures Holed(s, lo, hi) <==> k < |s| && s[k].start < lo && hi < s[k].end
  {
    if i :| 0 <= i < |s| && s[i].start < lo && hi < s[i].end {
      assert k <= i && s[i].Ok() && s[k].Ok();
    }
  }

  lemma {:induction false} EndingFirst(s: seq<Span>, a: nat)
    ensures var k := FirstEnding(s, a);
      k <= |s| && (forall j :: 0 <= j < k ==> s[j].end < a) && (k < |s| ==> a <= s[k].end)
  {
    if s != [] { EndingFirst(s[1..], a); }
  }

  /** Which area may grow, and whether the list gets longer. */
  lemma NeighbourIs(s: seq<Span>, addr: nat, end: nat, flags: nat)
    requires Sorted(s)
    ensures HasNeighbour(s, addr, flags) <==> exists i :: 0 <= i < |s| && s[i].end == addr && s[i].flags == flags
    ensures |Extended(s, addr, end, flags)| == |s| + if HasNeighbour(s, addr, flags) then 0 else 1
  {
    EndingFirst(s, addr);
    var k := FirstEnding(s, addr);
    if i :| 0 <= i < |s| && s[i].end == addr && s[i].flags == flags {
      assert s[i].Ok() && s[k].Ok();
    }
  }

  lemma EndOf(addr: nat, len: nat)
    requires addr + len <= WORD
    ensures Add32(addr, len) == if addr + len == WORD then 0 else addr + len
  {
  }

  lemma MunmapAt(s: seq<Span>, addr: nat, len: nat, allocOk: bool, i: nat)
    requires 0 < len && addr + len <= WORD && i == FirstEnding(s, addr) && i <= |s|
    ensures var r := Munmap(s, addr, len, allocOk);
      if addr + len == WORD then r == Result(s, 0)
      else if i == |s| || s[i].start >= addr + len then r == Result(CutAll(s, addr, addr + len), 0)
      else if s[i].start < addr && s[i].end > addr + len && |s| >= MAX_MAP_COUNT then r == Result(s, ENOMEM)
      else r == if allocOk then Result(CutAll(s, addr, addr + len), 0) else Result(s, ENOMEM)
  {
    hide CutAll;
  }

  /** With two pages mapped below the last one, and the range from the second of them up to 2^32,
      the call returns 0 and both stay mapped. */
  lemma MunmapMisses()
    ensures var s := [Span(0xFFFF_D000, 0xFFFF_F000, 0, 0)];
      Sorted(s) && Munmap(s, 0xFFFF_E000, 0x2000, true) == Result(s, 0) && !Apart(s, 0xFFFF_E000, WORD)
  {
    var s := [Span(0xFFFF_D000, 0xFFFF_F000, 0, 0)];
    assert !(s[0].end <= 0xFFFF_E000 || WORD <= s[0].start);
  }

  /** If any span meets a range, the first one that ends after its start does. */
  lemma FirstMeets(s: seq<Span>, lo: nat, hi: nat)
    requires Sorted(s) && lo < hi
    ensures Meets(s, lo, hi) <==> !Apart(s, lo, hi)
  {
    var k := FirstEnding(s, lo + 1);
    FirstEndingFacts(s, lo + 1);
    if k < |s| && hi <= s[k].start {
      assert forall j :: k < j < |s| ==> s[k].end <= s[j].start && s[k].Ok();
    }
    if k < |s| && s[k].start < hi { assert !(s[k].end <= lo || hi <= s[k].start); }
  }

  lemma {:induction false} FirstEndingFacts(s: seq<Span>, a: nat)
    ensures var k := FirstEnding(s, a);
      k <= |s| && (forall j :: 0 <= j < k ==> s[j].end < a) && (k < |s| ==> a <= s[k].end)
  {
    if s != [] && s[0].end < a { FirstEndingFacts(s[1..], a); }
  }

  // ---------- mapping ----------

  lemma {:induction false} StartingBelowIs(s: seq<Span>, a: nat)
    requires Sorted(s)
    ensures var k := StartingBelow(s, a);
      (forall i :: 0 <= i < k ==> s[i].start <= a) && (forall i :: k <= i < |s| ==> a < s[i].start)
  {
    if s != [] {
      if s[0].start <= a {
        StartingBelowIs(s[1..], a);
      } else {
        assert s[0].Ok();
        assert forall i :: 0 < i < |s| ==> s[0].end <= s[i].start;
      }
    }
  }

  /** Mapping a free range adds exactly that range, and its pages. */
  lemma ExtendedAdds(s: seq<Span>, lo: nat, hi: nat, flags: nat)
    requires Sorted(s) && Apart(s, lo, hi) && lo < hi < WORD && lo % PAGE_SIZE == 0 && hi % PAGE_SIZE == 0
    ensures var r := Extended(s, lo, hi, flags);
      && Sorted(r) && Adds(s, r, lo, hi, flags)
      && TotalPages(r) == TotalPages(s) + (hi - lo) / PAGE_SIZE
      && LockedPages(r) == LockedPages(s) + (if Bit(flags, LOCKED_BIT) then (hi - lo) / PAGE_SIZE else 0)
  {
    hide TotalPages, LockedPages, Adds, Bit, Sorted, FirstEnding, StartingBelow, Apart;
    if HasNeighbour(s, lo, flags) {
      var k := FirstEnding(s, lo);
      Above(s, k, lo, hi);
      GrowAdds(s, k, hi);
    } else {
      var k, sp := StartingBelow(s, lo), Span(lo, hi, flags, 0);
      StartingBelowIs(s, lo);
      Around(s, k, sp);
      PutAdds(s, k, sp);
    }
  }

  lemma Above(s: seq<Span>, k: nat, lo: nat, hi: nat)
    requires Sorted(s) && Apart(s, lo, hi) && k < |s| && s[k].end == lo && lo < hi
    ensures forall j :: k < j < |s| ==> hi <= s[j].start
  {
    SortedFrom(s, k);
  }

  lemma Around(s: seq<Span>, k: nat, sp: Span)
    requires Sorted(s) && Apart(s, sp.start, sp.end) && sp.Ok() && k <= |s|
    requires (forall i :: 0 <= i < k ==> s[i].start <= sp.start) && forall i :: k <= i < |s| ==> sp.start < s[i].start
    ensures forall i :: 0 <= i < k ==> s[i].end <= sp.start
    ensures forall i :: k <= i < |s| ==> sp.end <= s[i].start
  {
    assert forall i :: 0 <= i < |s| ==> s[i].Ok();
  }

  /** An area whose end wraps around to 0 breaks the list. */
  lemma WrappedBreaks(s: seq<Span>, addr: nat, flags: nat)
    ensures !Sorted(Extended(s, addr, 0, flags))
  {
    var r := Extended(s, addr, 0, flags);
    if HasNeighbour(s, addr, flags) {
      assert !r[FirstEnding(s, addr)].Ok();
    } else {
      assert !r[StartingBelow(s, addr)].Ok();
    }
  }

  // ---------- do_brk ----------

  /** A range that does not reach 2^32: a call that succeeds adds exactly the range. */
  lemma DoBrkAdds(s: seq<Span>, addr: nat, len: nat, flags: nat, spareOk: bool, allocOk: bool)
    requires Sorted(s) && addr % PAGE_SIZE == 0 && len % PAGE_SIZE == 0 && 0 < len && addr + len < WORD
    ensures var r := DoBrkResult(s, addr, len, flags, spareOk, allocOk);
      && Sorted(r.spans) && (r.ret == addr || r.ret == ENOMEM)
      && (r.ret == addr ==> Adds(s, r.spans, addr, addr + len, flags))
  {
    hide Sorted, CutAll, Apart, Adds, NoRoom, HasNeighbour, Extended, TotalPages, LockedPages, Bit;
    var hi := addr + len;
    CutAllSortedHere(s, addr, hi);
    CutIsApart(s, addr, hi);
    NoWrap(addr, len);
    ExtendedAdds(CutAll(s, addr, hi), addr, hi, flags);
    AddsAfterCut(s, Extended(CutAll(s, addr, hi), addr, hi, flags), addr, hi, flags);
  }

  /** When do_brk below 2^32 succeeds: do_munmap does not fail, the areas left are not too many, and
      an area that ends where the range starts can grow, or a new one can be had. */
  lemma DoBrkWhen(s: seq<Span>, addr: nat, len: nat, flags: nat, spareOk: bool, allocOk: bool)
    requires Sorted(s) && addr % PAGE_SIZE == 0 && len % PAGE_SIZE == 0 && 0 < len && addr + len < WORD
    ensures var hi, cut := addr + len, CutAll(s, addr, addr + len);
      DoBrkResult(s, addr, len, flags, spareOk, allocOk).ret == addr <==>
        && !(Reached(s, addr, hi) && (!spareOk || (Holed(s, addr, hi) && |s| >= MAX_MAP_COUNT)))
        && |cut| <= MAX_MAP_COUNT
        && (allocOk || exists i :: 0 <= i < |cut| && cut[i].end == addr && cut[i].flags == flags)
  {
    hide Sorted, CutAll, NoRoom, HasNeighbour, Extended, Reached, Holed;
    var hi := addr + len;
    MunmapFails(s, addr, len, spareOk);
    CutAllSortedHere(s, addr, hi);
    NeighbourIs(CutAll(s, addr, hi), addr, hi, flags);
  }

  lemma CutAllSortedHere(s: seq<Span>, lo: nat, hi: nat)
    requires Sorted(s) && lo < hi < WORD && lo % PAGE_SIZE == 0 && hi % PAGE_SIZE == 0
    ensures Sorted(CutAll(s, lo, hi))
  {
    CutAllSorted(s, lo, hi, 0);
  }

  /** A call that fails changes the mapping just when something was mapped in the range, do_munmap
      could take it out, and then the areas are too many or no area can be had for the new memory. */
  lemma DoBrkLoses(s: seq<Span>, addr: nat, len: nat, flags: nat, spareOk: bool, allocOk: bool)
    requires Sorted(s) && addr % PAGE_SIZE == 0 && len % PAGE_SIZE == 0 && 0 < len && addr + len < WORD
    ensures var r, cut := DoBrkResult(s, addr, len, flags, spareOk, allocOk), CutAll(s, addr, addr + len);
      r.ret != addr && r.spans != s <==>
        && !Apart(s, addr, addr + len) && !NoRoom(s, addr, addr + len, spareOk)
        && (|cut| > MAX_MAP_COUNT || (!HasNeighbour(cut, addr, flags) && !allocOk))
  {
    hide CutAll, Apart, NoRoom, HasNeighbour, Extended;
    CutChanges(s, addr, addr + len);
  }

  /** It does: when two pages are mapped, the first is asked for again, and no area can be had. */
  lemma DoBrkLosesHere(flags: nat)
    ensures DoBrkResult([Span(0x1000, 0x3000, 0, 0)], 0x1000, 0x1000, flags, true, false)
      == Result([Span(0x2000, 0x3000, 0, 1)], ENOMEM)
  {
    var s := [Span(0x1000, 0x3000, 0, 0)];
    assert FirstEnding(s, 0x1000) == 0;
    assert CutAll(s[1..], 0x1000, 0x2000) == [];
    assert Cut(s[0], 0x1000, 0x2000) == [Span(0x2000, 0x3000, 0, 1)];
    assert CutAll(s, 0x1000, 0x2000) == [Span(0x2000, 0x3000, 0, 1)];
    assert FirstEnding([Span(0x2000, 0x3000, 0, 1)], 0x1000) == 0;
  }

  // ---------- sys_brk ----------

  /** The end of the heap moves and with it exactly the pages between the old end and the new one,
      none of which was mapped before; or nothing changes. */
  ghost predicate HeapMoved(s: seq<Span>, brk: nat, newEnd: nat, flags: nat, r: Result) {
    var n, o := PageAlign(newEnd), PageAlign(brk);
    && Sorted(r.spans) && (r.ret == newEnd || r.ret == brk)
    && if r.ret != newEnd || n == o then r.spans == s
       else if n < o then r.spans == CutAll(s, n, o)
       else Apart(s, o, n) && Adds(s, r.spans, o, n, flags)
  }

  /** When the heap grows. */
  ghost predicate CanGrow(s: seq<Span>, o: nat, n: nat, flags: nat, spareOk: bool, allocOk: bool) {
    && Apart(s, o, n + PAGE_SIZE) && !NoRoom(s, o, n, spareOk) && |s| <= MAX_MAP_COUNT
    && (HasNeighbour(s, o, flags) || allocOk)
  }

  /** For ends at least two pages below 2^32 the heap moves as promised, and it moves just when it
      may: to any page above the code when shrinking if do_munmap has room, and when growing if the
      pages up to one behind the new end are free and there is room for the area. */
  lemma SysBrkMoves(s: seq<Span>, endCode: nat, brk: nat, newEnd: nat, flags: nat, spareOk: bool, allocOk: bool)
    requires Sorted(s) && newEnd <= WORD - 2 * PAGE_SIZE && brk <= WORD - PAGE_SIZE
    ensures var r := SysBrkResult(s, endCode, brk, newEnd, flags, spareOk, allocOk);
      var n, o := PageAlign(newEnd), PageAlign(brk);
      && HeapMoved(s, brk, newEnd, flags, r)
      && (newEnd != brk ==>
            (r.ret == newEnd <==>
               && newEnd >= endCode
               && (n < o ==> !NoRoom(s, n, o, spareOk))
               && (o < n ==> CanGrow(s, o, n, flags, spareOk, allocOk))))
  {
    hide PageAlign, Sorted, Apart, Adds, NoRoom, HasNeighbour, Extended, Meets, CutAll;
    PageAligned(newEnd);
    PageAligned(brk);
    var n, o := PageAlign(newEnd), PageAlign(brk);
    if newEnd <= brk { AlignMono(newEnd, brk); } else { AlignMono(brk, newEnd); }
    if n < o {
      NoBorrow(o, n);
      CutAllSortedHere(s, n, o);
    } else if o < n {
      NoBorrow(n, o);
      FirstMeets(s, o, n + PAGE_SIZE);
      if Apart(s, o, n + PAGE_SIZE) {
        ApartWithin(s, o, n, n + PAGE_SIZE);
        DoBrkAdds(s, o, n - o, flags, spareOk, allocOk);
      }
    }
  }

  lemma FromZero(y: nat)
    requires 0 < y < WORD
    ensures Sub32(0, y) == WORD - y && Add32(y, WORD - y) == 0 && Add32(0, PAGE_SIZE) == PAGE_SIZE
  {
  }

  lemma NoBorrow(x: nat, y: nat)
    requires y <= x < WORD
    ensures Sub32(x, y) == x - y
  {
  }

  lemma ApartWithin(s: seq<Span>, lo: nat, hi: nat, hi2: nat)
    requires Sorted(s) && Apart(s, lo, hi2) && lo < hi <= hi2
    ensures Apart(s, lo, hi) && CutAll(s, lo, hi) == s
  {
    CutAllOutside(s, lo, hi);
  }

  /** Growing to an end in the last page but one: the look for areas in the way is given the end 0
      and finds none, so whatever is mapped there goes.  Here, from any end, a mapped page goes. */
  lemma SysBrkOverMapped(brk: nat, newEnd: nat, flags: nat)
    requires WORD - 2 * PAGE_SIZE < newEnd <= WORD - PAGE_SIZE && PageAlign(brk) < PageAlign(newEnd) && brk < newEnd
    ensures var o := PageAlign(brk);
      var s := [Span(o, o + PAGE_SIZE, 0, 0)];
      var r := SysBrkResult(s, 0, brk, newEnd, flags, true, true);
      Sorted(s) && r.ret == newEnd && !Apart(s, o, PageAlign(newEnd)) && !HeapMoved(s, brk, newEnd, flags, r)
  {
    var o, n := PageAlign(brk), PageAlign(newEnd);
    var s := [Span(o, o + PAGE_SIZE, 0, 0)];
    hide PageAlign, CutAll, HasNeighbour, Extended, NoRoom, Meets, Apart, Sorted, Add32, Sub32;
    PageAligned(newEnd);
    PageAligned(brk);
    assert n == WORD - PAGE_SIZE;
    LastPage();
    NoBorrow(n, o);
    OneMapped(o, n);
    assert Munmap(s, o, n - o, true) == Result(CutAll(s, o, n), 0);
  }

  lemma LastPage()
    ensures Add32(WORD - PAGE_SIZE, PAGE_SIZE) == 0
  {
  }

  lemma OneMapped(o: nat, n: nat)
    requires o % PAGE_SIZE == 0 && o + PAGE_SIZE <= n < WORD
    ensures var s := [Span(o, o + PAGE_SIZE, 0, 0)];
      && Sorted(s) && CutAll(s, o, n) == [] && !NoRoom(s, o, n, true) && !Meets(s, o, 0) && !Apart(s, o, n)
  {
    var s := [Span(o, o + PAGE_SIZE, 0, 0)];
    assert s[0].Ok();
    CutNone(s[0], o, n);
    hide CutAll;
    assert FirstEnding(s, o) == 0 && FirstEnding(s, o + 1) == 0;
    assert !(s[0].end <= o || n <= s[0].start);
  }

  lemma CutNone(sp: Span, lo: nat, hi: nat)
    requires lo <= sp.start && sp.end <= hi
    ensures CutAll([sp], lo, hi) == []
  {
    assert [sp][1..] == [];
    assert CutAll([sp][1..], lo, hi) == [];
    assert Cut(sp, lo, hi) == [];
  }

  /** Growing to an end in the last page: the new end is rounded up to 0, nothing is taken out, and
      the heap gets an area that ends at 0.  Here in an address space without areas. */
  lemma SysBrkWrapped(brk: nat, newEnd: nat, flags: nat)
    requires 0 < brk <= WORD - PAGE_SIZE < newEnd < WORD
    ensures var o := PageAlign(brk);
      && SysBrkResult([], 0, brk, newEnd, flags, true, true) == Result([Span(o, 0, flags, 0)], newEnd)
      && !Sorted([Span(o, 0, flags, 0)])
      && !HeapMoved([], brk, newEnd, flags, SysBrkResult([], 0, brk, newEnd, flags, true, true))
  {
    hide PageAlign;
    PageAligned(newEnd);
    PageAligned(brk);
    var o := PageAlign(brk);
    assert PageAlign(newEnd) == 0 && o > 0;
    assert Sub32(0, o) == WORD - o && Add32(o, WORD - o) == 0;
    assert ![Span(o, 0, flags, 0)][0].Ok();
    assert Extended([], o, 0, flags) == [Span(o, 0, flags, 0)];
  }

  /** Once the end of the heap is in the last page, lowering it unmaps nothing. */
  lemma SysBrkFromWrapped(s: seq<Span>, endCode: nat, brk: nat, newEnd: nat, flags: nat, spareOk: bool, allocOk: bool)
    requires WORD - PAGE_SIZE < brk < WORD && endCode <= newEnd <= WORD - PAGE_SIZE
    ensures SysBrkResult(s, endCode, brk, newEnd, flags, spareOk, allocOk) == Result(s, newEnd)
    ensures newEnd > 0 ==> !HeapMoved(s, brk, newEnd, flags, Result(s, newEnd))
  {
    hide PageAlign;
    PageAligned(newEnd);
    PageAligned(brk);
    var n := PageAlign(newEnd);
    assert n > 0 ==> Sub32(0, n) == WORD - n;
    if newEnd > 0 && Apart(s, 0, n) { Unmoved(s, n, flags); }
  }

  lemma Unmoved(s: seq<Span>, n: nat, flags: nat)
    requires Apart(s, 0, n) && n > 0
    ensures !Adds(s, s, 0, n, flags)
  {
    LookupNone(s, 0);
    assert Lookup(s, 0) == Unmapped;
  }

  /** When the promise holds, whatever is mapped: the new end is at least two pages below 2^32 and
      the old one is not in the last page, or both are rounded up to the same page. */
  predicate Promised(brk: nat, newEnd: nat) {
    || (newEnd <= WORD - 2 * PAGE_SIZE && brk <= WORD - PAGE_SIZE)
    || PageAlign(newEnd) == PageAlign(brk)
  }

  /** For every old and new end the heap moves as promised in all address spaces if and only if
      that is so. */
  lemma SysBrkExactly(brk: nat, newEnd: nat, flags: nat)
    requires brk < WORD && newEnd < WORD
    ensures Promised(brk, newEnd) <==>
      forall s, endCode, spareOk, allocOk :: Sorted(s) ==>
        HeapMoved(s, brk, newEnd, flags, SysBrkResult(s, endCode, brk, newEnd, flags, spareOk, allocOk))
  {
    hide SysBrkResult, HeapMoved, PageAlign;
    if Promised(brk, newEnd) {
      forall s, endCode, spareOk, allocOk | Sorted(s)
        ensures HeapMoved(s, brk, newEnd, flags, SysBrkResult(s, endCode, brk, newEnd, flags, spareOk, allocOk))
      {
        if newEnd <= WORD - 2 * PAGE_SIZE && brk <= WORD - PAGE_SIZE {
          SysBrkMoves(s, endCode, brk, newEnd, flags, spareOk, allocOk);
        } else {
          SysBrkSamePage(s, endCode, brk, newEnd, flags, spareOk, allocOk);
        }
      }
    } else {
      PageAligned(newEnd);
      PageAligned(brk);
      if brk > WORD - PAGE_SIZE {
        SysBrkFromWrapped([], 0, brk, newEnd, flags, true, true);
        assert Sorted([]);
      } else if newEnd <= WORD - PAGE_SIZE {
        SysBrkOverMapped(brk, newEnd, flags);
      } else {
        SysBrkWrapped(brk, newEnd, flags);
        assert Sorted([]);
      }
    }
  }

  lemma SysBrkSamePage(s: seq<Span>, endCode: nat, brk: nat, newEnd: nat, flags: nat, spareOk: bool, allocOk: bool)
    requires Sorted(s) && PageAlign(newEnd) == PageAlign(brk)
    ensures HeapMoved(s, brk, newEnd, flags, SysBrkResult(s, endCode, brk, newEnd, flags, spareOk, allocOk))
  {
    hide PageAlign, Sorted;
  }

  /** The list stays sorted in every call but one that makes an area end at 0. */
  lemma SysBrkSorted(s: seq<Span>, endCode: nat, brk: nat, newEnd: nat, flags: nat, spareOk: bool, allocOk: bool)
    requires Sorted(s) && newEnd < WORD && brk < WORD
    ensures var r, o := SysBrkResult(s, endCode, brk, newEnd, flags, spareOk, allocOk), PageAlign(brk);
      !Sorted(r.spans) <==>
        && newEnd > WORD - PAGE_SIZE && newEnd >= endCode && newEnd > brk && o != 0
        && !Meets(s, o, PAGE_SIZE) && |s| <= MAX_MAP_COUNT && (HasNeighbour(s, o, flags) || allocOk)
  {
    hide PageAlign, Sorted, NoRoom, HasNeighbour, Extended, Meets, CutAll, Adds, Add32, Sub32;
    PageAligned(newEnd);
    PageAligned(brk);
    var n, o := PageAlign(newEnd), PageAlign(brk);
    if newEnd >= endCode && n != o {
      if newEnd <= brk {
        if o > 0 {
          AlignMono(newEnd, brk);
          NoBorrow(o, n);
          CutAllSortedHere(s, n, o);
        } else {
          FromZero(n);
        }
      } else if n > 0 {
        AlignMono(brk, newEnd);
        NoBorrow(n, o);
        DoBrkAdds(s, o, n - o, flags, spareOk, allocOk);
      } else {
        FromZero(o);
        WrappedBreaks(s, o, flags);
      }
    }
  }

  /** dup_mmap, when so many areas can be allocated and of so many the pages can be copied: the
      area whose pages could not be copied is linked all the same. */
  ghost function DupResult(s: seq<Span>, areas: nat, copies: nat): Result {
    var c := Copies(s);
    if |c| <= areas && |c| <= copies then Result(c, 0)
    else Result(c[..if areas <= copies then areas else copies + 1], ENOMEM)
  }

  /** Below `b` the spans `t` of a child have what the parent's spans `s` have, and nothing from
      there on. */
  ghost predicate Inherited(s: seq<Span>, t: seq<Span>, b: nat) {
    forall a: nat :: if a < b then Inherits(Lookup(s, a), Lookup(t, a)) else Lookup(t, a) == Unmapped
  }

  /** Copying succeeds just when an area and the pages can be had for every area that is copied;
      then the child has at every address what its parent has, and the parent's pages just when no
      area is marked not to be copied.  Else it has so up to some address, in as many areas as
      could be had.  Either way its list is sorted and unlocked. */
  lemma DupSound(s: seq<Span>, areas: nat, copies: nat)
    requires Sorted(s)
    ensures var r, n := DupResult(s, areas, copies), |CopiedPlaces(s, |s|)|;
      && Sorted(r.spans) && LockedPages(r.spans) == 0
      && (r.ret == 0 || r.ret == ENOMEM) && (r.ret == 0 <==> n <= areas && n <= copies)
      && |r.spans| == (if r.ret == 0 then n else if areas <= copies then areas else copies + 1)
      && (r.ret == 0 ==> Inherited(s, r.spans, WORD)) && (exists b :: Inherited(s, r.spans, b))
      && (r.ret == 0 ==>
            (TotalPages(r.spans) == TotalPages(s) <==> forall i :: 0 <= i < |s| ==> !Bit(s[i].flags, DONTCOPY_BIT)))
  {
    hide Sorted, LockedPages, TotalPages, Bit, Copies, Inherited, CopiedPlaces;
    var r, c := DupResult(s, areas, copies), Copies(s);
    assert c[..|c|] == c && s[..|s|] == s;
    CopiesPart(s, |r.spans|);
    CopiesCount(s);
    CopiesNumber(s, |s|);
    DupInherits(s, |r.spans|);
  }

  lemma DupInherits(s: seq<Span>, n: nat)
    requires Sorted(s) && n <= |Copies(s)|
    ensures var c := Copies(s); Inherited(s, c[..n], if n < |c| then c[n].start else WORD)
  {
    hide Copies, Inherits, Lookup;
    var c := Copies(s);
    CopiesSorted(s, 0);
    forall a: nat
      ensures if a < (if n < |c| then c[n].start else WORD) then Inherits(Lookup(s, a), Lookup(c[..n], a))
              else Lookup(c[..n], a) == Unmapped
    {
      CopiesLookup(s, a);
      if n < |c| {
        PrefixLookup(c, n, a);
      } else {
        assert c[..n] == c;
        if a >= WORD {
          assert forall i :: 0 <= i < |c| ==> c[i].Ok();
          LookupNone(c, a);
        }
      }
    }
  }

  /** An area that is not copied: the child has no area, and total_vm, copied from the parent,
      counts a page too many. */
  lemma DupDrifts(areas: nat, copies: nat)
    ensures var s := [Span(0x1000, 0x2000, 0x2_0000, 0)];
      Sorted(s) && TotalPages(s) == 1 && DupResult(s, areas, copies) == Result([], 0)
  {
    var s := [Span(0x1000, 0x2000, 0x2_0000, 0)];
    assert Bit(0x100, 8);
    assert Bit(0x1000, 12);
    assert Bit(0x2_0000, 17);
    assert s[1..] == [] && Copies(s[1..]) == [] && TotalPages(s[1..]) == 0;
    assert Copies(s) == [] + [];
  }
}
