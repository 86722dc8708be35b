/** The simple view of an address space: a sorted sequence of disjoint page-aligned spans,
    read address by address. */
module AreaTheory {
  import opened Common
  import opened Words

  const PAGE_SIZE: nat := 4096

  /** The fields of a vm_area_struct that say what it maps. */
  datatype Span = Span(start: nat, end: nat, flags: nat, pgoff: nat) {
    predicate Covers(a: nat) { start <= a < end }

    predicate Ok() {
      start < end < WORD && start % PAGE_SIZE == 0 && end % PAGE_SIZE == 0 && pgoff < WORD
    }

    /** The page offset that address `a` has in the mapping. */
    function Offset(a: nat): nat
      requires start <= a
    {
      (pgoff + (a - start) / PAGE_SIZE) % WORD
    }
  }

  /** What an address is mapped to. */
  datatype Cell = Unmapped | Mapped(flags: nat, pgoff: nat)

  function Lookup(s: seq<Span>, a: nat): Cell {
    if s == [] then Unmapped
    else if s[0].Covers(a) then Mapped(s[0].flags, s[0].Offset(a))
    else Lookup(s[1..], a)
  }

  ghost predicate Sorted(s: seq<Span>) {
    && (forall i :: 0 <= i < |s| ==> s[i].Ok())
    && (forall i, j :: 0 <= i < j < |s| ==> s[i].end <= s[j].start)
  }

  const LOCKED_BIT: nat := 13

  predicate Locked(sp: Span) { Bit(sp.flags, LOCKED_BIT) }

  const DONTCOPY_BIT: nat := 17

  function TotalPages(s: seq<Span>): int {
    if s == [] then 0 else (s[0].end - s[0].start) / PAGE_SIZE + TotalPages(s[1..])
  }

  function LockedPages(s: seq<Span>): int {
    if s == [] then 0
    else (if Locked(s[0]) then (s[0].end - s[0].start) / PAGE_SIZE else 0) + LockedPages(s[1..])
  }

  // ---------- taking an address range out ----------

  function Left(sp: Span, lo: nat): seq<Span> {
    if sp.start < lo then [sp.(end := if sp.end < lo then sp.end else lo)] else []
  }

  function Right(sp: Span, hi: nat): seq<Span> {
    if hi < sp.end then
      var st := if sp.start < hi then hi else sp.start;
      [sp.(start := st, pgoff := sp.Offset(st))]
    else []
  }

  /** What is left of a span when the addresses from `lo` up to `hi` go. */
  function Cut(sp: Span, lo: nat, hi: nat): seq<Span> {
    Left(sp, lo) + Right(sp, hi)
  }

  function CutAll(s: seq<Span>, lo: nat, hi: nat): seq<Span> {
    if s == [] then [] else Cut(s[0], lo, hi) + CutAll(s[1..], lo, hi)
  }

  lemma {:induction false} LookupConcat(s: seq<Span>, t: seq<Span>, a: nat)
    ensures Lookup(s + t, a) == if Lookup(s, a).Mapped? then Lookup(s, a) else Lookup(t, a)
  {
    if s == [] {
      assert s + t == t;
    } else {
      assert (s + t)[1..] == s[1..] + t;
      LookupConcat(s[1..], t, a);
    }
  }

  lemma OffsetShift(sp: Span, st: nat, a: nat)
    requires sp.Ok() && sp.start <= st <= a && st % PAGE_SIZE == 0
    ensures sp.(start := st, pgoff := sp.Offset(st)).Offset(a) == sp.Offset(a)
  {
    var x, y := (st - sp.start) / PAGE_SIZE, (a - st) / PAGE_SIZE;
    assert (a - sp.start) / PAGE_SIZE == x + y by { PagesApart(sp.start, st, a); }
    AddTwice(sp.pgoff, x, y);
  }

  lemma PagesApart(start: nat, st: nat, a: nat)
    requires start <= st <= a && start % PAGE_SIZE == 0 && st % PAGE_SIZE == 0
    ensures (a - start) / PAGE_SIZE == (st - start) / PAGE_SIZE + (a - st) / PAGE_SIZE
  {
  }

  lemma AddTwice(p: nat, x: nat, y: nat)
    ensures ((p + x) % WORD + y) % WORD == (p + x + y) % WORD
  {
  }

  lemma CutLookup(sp: Span, lo: nat, hi: nat, a: nat)
    requires sp.Ok() && lo < hi && lo % PAGE_SIZE == 0 && hi % PAGE_SIZE == 0
    ensures Lookup(Cut(sp, lo, hi), a) == if lo <= a < hi then Unmapped else Lookup([sp], a)
  {
    LookupConcat(Left(sp, lo), Right(sp, hi), a);
    if hi < sp.end {
      var st := if sp.start < hi then hi else sp.start;
      if st <= a { OffsetShift(sp, st, a); }
    }
  }

  lemma {:induction false} CutAllLookup(s: seq<Span>, lo: nat, hi: nat, a: nat)
    requires Sorted(s) && lo < hi && lo % PAGE_SIZE == 0 && hi % PAGE_SIZE == 0
    ensures Lookup(CutAll(s, lo, hi), a) == if lo <= a < hi then Unmapped else Lookup(s, a)
  {
    hide Cut, Span.Offset;
    if s != [] {
      CutLookup(s[0], lo, hi, a);
      CutAllLookup(s[1..], lo, hi, a);
      LookupConcat(Cut(s[0], lo, hi), CutAll(s[1..], lo, hi), a);
      LookupConcat([s[0]], s[1..], a);
      assert [s[0]] + s[1..] == s;
    }
  }

  // ---------- order and counts ----------

  lemma {:induction false} CutAllConcat(s: seq<Span>, t: seq<Span>, lo: nat, hi: nat)
    ensures CutAll(s + t, lo, hi) == CutAll(s, lo, hi) + CutAll(t, lo, hi)
  {
    hide Cut;
    if s == [] {
      assert s + t == t;
    } else {
      assert (s + t)[1..] == s[1..] + t;
      CutAllConcat(s[1..], t, lo, hi);
    }
  }

  /** A span outside the range is left as it is. */
  lemma CutOutside(sp: Span, lo: nat, hi: nat)
    requires sp.Ok() && lo <= hi && (sp.end <= lo || hi <= sp.start)
    ensures Cut(sp, lo, hi) == [sp]
  {
    assert sp.(end := sp.end) == sp;
    assert sp.Offset(sp.start) == sp.pgoff;
    assert sp.(start := sp.start, pgoff := sp.pgoff) == sp;
  }

  lemma {:induction false} CutAllOutside(s: seq<Span>, lo: nat, hi: nat)
    requires lo <= hi && forall i :: 0 <= i < |s| ==> s[i].Ok() && (s[i].end <= lo || hi <= s[i].start)
    ensures CutAll(s, lo, hi) == s
  {
    if s != [] {
      CutOutside(s[0], lo, hi);
      CutAllOutside(s[1..], lo, hi);
    }
  }

  /** What is left of a sorted sequence is sorted, within the bounds of the sequence. */
  lemma {:induction false} CutAllSorted(s: seq<Span>, lo: nat, hi: nat, b: nat)
    requires Sorted(s) && lo < hi < WORD && lo % PAGE_SIZE == 0 && hi % PAGE_SIZE == 0
    requires forall i :: 0 <= i < |s| ==> b <= s[i].start
    ensures Sorted(CutAll(s, lo, hi))
    ensures forall i :: 0 <= i < |CutAll(s, lo, hi)| ==> b <= CutAll(s, lo, hi)[i].start
  {
    hide Cut;
    if s != [] {
      CutAllSorted(s[1..], lo, hi, s[0].end);
      CutSorted(s[0], lo, hi);
      SortedConcat(Cut(s[0], lo, hi), CutAll(s[1..], lo, hi), s[0].end);
    }
  }

  lemma CutSorted(sp: Span, lo: nat, hi: nat)
    requires sp.Ok() && lo < hi < WORD && lo % PAGE_SIZE == 0 && hi % PAGE_SIZE == 0
    ensures Sorted(Cut(sp, lo, hi))
    ensures forall x :: x in Cut(sp, lo, hi) ==> sp.start <= x.start && x.end <= sp.end
  {
  }

  lemma SortedConcat(s: seq<Span>, t: seq<Span>, m: nat)
    requires Sorted(s) && Sorted(t)
    requires forall x :: x in s ==> x.end <= m
    requires forall i :: 0 <= i < |t| ==> m <= t[i].start
    ensures Sorted(s + t)
  {
  }

  lemma {:induction false} TotalConcat(s: seq<Span>, t: seq<Span>)
    ensures TotalPages(s + t) == TotalPages(s) + TotalPages(t)
    ensures LockedPages(s + t) == LockedPages(s) + LockedPages(t)
  {
    if s == [] {
      assert s + t == t;
    } else {
      assert (s + t)[1..] == s[1..] + t;
      TotalConcat(s[1..], t);
    }
  }

  lemma TotalInsert(s: seq<Span>, k: nat, c: seq<Span>)
    requires k <= |s|
    ensures TotalPages(s[..k] + c + s[k..]) == TotalPages(s) + TotalPages(c)
    ensures LockedPages(s[..k] + c + s[k..]) == LockedPages(s) + LockedPages(c)
  {
    hide TotalPages, LockedPages;
    TotalConcat(s[..k] + c, s[k..]);
    TotalConcat(s[..k], c);
    TotalConcat(s[..k], s[k..]);
    assert s[..k] + s[k..] == s;
  }

  /** The pages that go are the pages of the overlap, which may be empty. */
  lemma CutPages(sp: Span, lo: nat, hi: nat, st: nat, en: nat)
    requires sp.Ok() && lo < hi && lo % PAGE_SIZE == 0 && hi % PAGE_SIZE == 0
    requires lo <= sp.end && sp.start < hi
    requires st == (if lo < sp.start then sp.start else lo) && en == (if hi > sp.end then sp.end else hi)
    ensures st <= en
    ensures TotalPages(Cut(sp, lo, hi)) == TotalPages([sp]) - (en - st) / PAGE_SIZE
    ensures LockedPages(Cut(sp, lo, hi)) == LockedPages([sp]) - (if Locked(sp) then (en - st) / PAGE_SIZE else 0)
  {
    hide Locked, TotalPages, LockedPages;
    var l, r := Left(sp, lo), Right(sp, hi);
    LeftPages(sp, lo);
    RightPages(sp, hi);
    hide Left, Right;
    TotalConcat(l, r);
    TotalOne(sp);
    PageDiff(sp.start, sp.end);
    PageDiff(st, en);
    if sp.start < lo { PageDiff(sp.start, if sp.end < lo then sp.end else lo); }
    if hi < sp.end { PageDiff(if sp.start < hi then hi else sp.start, sp.end); }
  }

  lemma PageDiff(x: nat, y: nat)
    requires x % PAGE_SIZE == 0 && y % PAGE_SIZE == 0 && x <= y
    ensures (y - x) / PAGE_SIZE == y / PAGE_SIZE - x / PAGE_SIZE
  {
  }

  lemma LeftPages(sp: Span, lo: nat)
    requires sp.Ok() && lo % PAGE_SIZE == 0
    ensures var n := if sp.start < lo then ((if sp.end < lo then sp.end else lo) - sp.start) / PAGE_SIZE else 0;
      TotalPages(Left(sp, lo)) == n && LockedPages(Left(sp, lo)) == if Locked(sp) then n else 0
  {
    hide Locked, TotalPages, LockedPages;
    TotalNone();
    LockedByFlags();
    if sp.start < lo { TotalOne(Left(sp, lo)[0]); }
  }

  lemma RightPages(sp: Span, hi: nat)
    requires sp.Ok() && hi % PAGE_SIZE == 0
    ensures var n := if hi < sp.end then (sp.end - (if sp.start < hi then hi else sp.start)) / PAGE_SIZE else 0;
      TotalPages(Right(sp, hi)) == n && LockedPages(Right(sp, hi)) == if Locked(sp) then n else 0
  {
    hide Locked, TotalPages, LockedPages, Span.Offset;
    TotalNone();
    LockedByFlags();
    if hi < sp.end { TotalOne(Right(sp, hi)[0]); }
  }

  lemma TotalOne(sp: Span)
    ensures TotalPages([sp]) == (sp.end - sp.start) / PAGE_SIZE
    ensures LockedPages([sp]) == if Locked(sp) then (sp.end - sp.start) / PAGE_SIZE else 0
  {
    assert [sp][1..] == [];
  }

  lemma TotalNone()
    ensures TotalPages([]) == LockedPages([]) == 0
  {
  }

  lemma LockedByFlags()
    ensures forall x: Span, y: Span :: x.flags == y.flags ==> Locked(x) == Locked(y)
  {
  }

  /** The four cases of a fix-up; `st` to `en` is the part of the range in the span. */
  lemma CutCases(sp: Span, lo: nat, hi: nat, st: nat, en: nat)
    requires sp.Ok() && lo < hi && lo <= sp.end && sp.start < hi
    requires st == (if lo < sp.start then sp.start else lo) && en == (if hi > sp.end then sp.end else hi)
    ensures Cut(sp, lo, hi) ==
      if st == sp.start && en == sp.end then []
      else if en == sp.end then [sp.(end := st)]
      else if st == sp.start then [sp.(start := en, pgoff := sp.Offset(en))]
      else [sp.(end := st), sp.(start := en, pgoff := sp.Offset(en))]
  {
  }

  /** The spans that are left do not meet the range. */
  lemma {:induction false} CutAllApart(s: seq<Span>, lo: nat, hi: nat)
    requires lo < hi && forall i :: 0 <= i < |s| ==> s[i].Ok()
    ensures forall x :: x in CutAll(s, lo, hi) ==> x.end <= lo || hi <= x.start
  {
    if s != [] { CutAllApart(s[1..], lo, hi); }
  }

  lemma {:induction false} TotalReverse(s: seq<Span>, t: seq<Span>)
    requires |s| == |t| && forall j :: 0 <= j < |t| ==> t[j] == s[|s| - 1 - j]
    ensures TotalPages(s) == TotalPages(t) && LockedPages(s) == LockedPages(t)
  {
    if s != [] {
      var n := |s| - 1;
      assert s == [s[0]] + s[1..] && t == t[..n] + [s[0]];
      TotalReverse(s[1..], t[..n]);
      TotalConcat([s[0]], s[1..]);
      TotalConcat(t[..n], [s[0]]);
    }
  }

  // ---------- linear scans ----------

  /** The first span that ends at or after `a`. */
  function FirstEnding(s: seq<Span>, a: nat): nat {
    if s == [] || a <= s[0].end then 0 else 1 + FirstEnding(s[1..], a)
  }

  lemma {:induction false} FirstEndingIs(s: seq<Span>, a: nat, i: nat)
    requires i <= |s| && (forall j :: 0 <= j < i ==> s[j].end < a) && (i < |s| ==> a <= s[i].end)
    ensures FirstEnding(s, a) == i
  {
    if i > 0 {
      assert s[0].end < a;
      FirstEndingIs(s[1..], a, i - 1);
    }
  }

  lemma {:induction false} LookupAt(s: seq<Span>, i: nat, a: nat)
    requires Sorted(s) && i < |s| && s[i].Covers(a)
    ensures Lookup(s, a) == Mapped(s[i].flags, s[i].Offset(a))
  {
    if i > 0 {
      assert s[0].end <= s[i].start;
      LookupAt(s[1..], i - 1, a);
    }
  }

  lemma {:induction false} LookupNone(s: seq<Span>, a: nat)
    requires forall i :: 0 <= i < |s| ==> !s[i].Covers(a)
    ensures Lookup(s, a) == Unmapped
  {
    if s != [] { LookupNone(s[1..], a); }
  }

  lemma LookupParts(s: seq<Span>, x: Span, t: seq<Span>, a: nat)
    ensures Lookup(s + [x] + t, a) ==
      if Lookup(s, a).Mapped? then Lookup(s, a)
      else if x.Covers(a) then Mapped(x.flags, x.Offset(a))
      else Lookup(t, a)
  {
    LookupConcat(s + [x], t, a);
    LookupConcat(s, [x], a);
  }

  lemma {:induction false} SortedParts3(s: seq<Span>, x: Span, t: seq<Span>)
    requires Sorted(s) && Sorted(t) && x.Ok()
    requires forall i :: 0 <= i < |s| ==> s[i].end <= x.start
    requires forall i :: 0 <= i < |t| ==> x.end <= t[i].start
    ensures Sorted(s + [x] + t)
  {
    SortedConcat(s, [x], x.start);
    SortedConcat(s + [x], t, x.end);
  }

  /** Growing a span into free space maps exactly the addresses it grows over. */
  lemma GrowLookup(s: seq<Span>, k: nat, hi: nat, a: nat)
    requires Sorted(s) && k < |s| && s[k].end < hi < WORD && hi % PAGE_SIZE == 0
    requires forall j :: k < j < |s| ==> hi <= s[j].start
    ensures var r := s[k := s[k].(end := hi)];
      && Sorted(r)
      && Lookup(r, a) == (if s[k].end <= a < hi then Mapped(s[k].flags, s[k].Offset(a)) else Lookup(s, a))
  {
    hide Lookup;
    var x, p, t := s[k].(end := hi), s[..k], s[k + 1..];
    assert s == p + [s[k]] + t && s[k := x] == p + [x] + t;
    LookupParts(p, s[k], t, a);
    LookupParts(p, x, t, a);
    SortedParts3(p, x, t);
    if s[k].start <= a { LookupNone(p, a); }
  }

  /** Putting a span into free space maps exactly its addresses. */
  lemma PutLookup(s: seq<Span>, k: nat, sp: Span, a: nat)
    requires Sorted(s) && k <= |s| && sp.Ok()
    requires forall i :: 0 <= i < k ==> s[i].end <= sp.start
    requires forall i :: k <= i < |s| ==> sp.end <= s[i].start
    ensures var r := s[..k] + [sp] + s[k..];
      && Sorted(r)
      && Lookup(r, a) == (if sp.Covers(a) then Mapped(sp.flags, sp.Offset(a)) else Lookup(s, a))
  {
    hide Lookup, Span.Offset;
    var p, t := s[..k], s[k..];
    assert s == p + t;
    LookupConcat(p, t, a);
    LookupParts(p, sp, t, a);
    SortedParts3(p, sp, t);
    if sp.start <= a { LookupNone(p, a); }
  }

  /** Between `before` and `after` exactly the addresses from `lo` to `hi` were mapped, with
      the given flags; every other address is mapped as it was. */
  ghost predicate Adds(before: seq<Span>, after: seq<Span>, lo: nat, hi: nat, flags: nat) {
    forall a: nat ::
      if lo <= a < hi then Lookup(after, a).Mapped? && Lookup(after, a).flags == flags
      else Lookup(after, a) == Lookup(before, a)
  }

  lemma SortedFrom(s: seq<Span>, k: nat)
    requires Sorted(s) && k < |s|
    ensures s[k].Ok()
    ensures forall j :: k < j < |s| ==> s[k].end <= s[j].start && s[j].Ok()
  {
  }

  lemma GrowAdds(s: seq<Span>, k: nat, hi: nat)
    requires Sorted(s) && k < |s| && s[k].end < hi < WORD && hi % PAGE_SIZE == 0
    requires forall j :: k < j < |s| ==> hi <= s[j].start
    ensures var r := s[k := s[k].(end := hi)];
      && Sorted(r) && Adds(s, r, s[k].end, hi, s[k].flags)
      && TotalPages(r) == TotalPages(s) + (hi - s[k].end) / PAGE_SIZE
      && LockedPages(r) == LockedPages(s) + (if Locked(s[k]) then (hi - s[k].end) / PAGE_SIZE else 0)
  {
    hide Lookup, TotalPages, LockedPages, Locked, Span.Offset, Sorted;
    var r := s[k := s[k].(end := hi)];
    SortedFrom(s, k);
    forall a: nat
      ensures Lookup(r, a) == (if s[k].end <= a < hi then Mapped(s[k].flags, s[k].Offset(a)) else Lookup(s, a))
    {
      GrowLookup(s, k, hi, a);
    }
    GrowLookup(s, k, hi, 0);
    GrowCounts(s, k, hi);
  }

  lemma GrowCounts(s: seq<Span>, k: nat, hi: nat)
    requires k < |s| && s[k].Ok() && s[k].end < hi && hi % PAGE_SIZE == 0
    ensures var r := s[k := s[k].(end := hi)];
      && TotalPages(r) == TotalPages(s) + (hi - s[k].end) / PAGE_SIZE
      && LockedPages(r) == LockedPages(s) + (if Locked(s[k]) then (hi - s[k].end) / PAGE_SIZE else 0)
  {
    hide TotalPages, LockedPages, Locked;
    var x, p, t := s[k].(end := hi), s[..k], s[k + 1..];
    assert s == p + [s[k]] + t && s[k := x] == p + [x] + t;
    TotalMiddle(p, s[k], t);
    TotalMiddle(p, x, t);
    PagesApart(s[k].start, s[k].end, hi);
    assert Locked(x) == Locked(s[k]) by { LockedByFlags(); }
  }

  lemma TotalMiddle(p: seq<Span>, x: Span, t: seq<Span>)
    ensures TotalPages(p + [x] + t) == TotalPages(p) + (x.end - x.start) / PAGE_SIZE + TotalPages(t)
    ensures LockedPages(p + [x] + t)
      == LockedPages(p) + (if Locked(x) then (x.end - x.start) / PAGE_SIZE else 0) + LockedPages(t)
  {
    hide TotalPages, LockedPages, Locked;
    TotalConcat(p + [x], t);
    TotalConcat(p, [x]);
    TotalOne(x);
  }

  lemma PutAdds(s: seq<Span>, k: nat, sp: Span)
    requires Sorted(s) && k <= |s| && sp.Ok()
    requires forall i :: 0 <= i < k ==> s[i].end <= sp.start
    requires forall i :: k <= i < |s| ==> sp.end <= s[i].start
    ensures var r := s[..k] + [sp] + s[k..];
      && Sorted(r) && Adds(s, r, sp.start, sp.end, sp.flags)
      && TotalPages(r) == TotalPages(s) + (sp.end - sp.start) / PAGE_SIZE
      && LockedPages(r) == LockedPages(s) + (if Locked(sp) then (sp.end - sp.start) / PAGE_SIZE else 0)
  {
    hide Lookup, TotalPages, LockedPages, Locked, Span.Offset;
    var r := s[..k] + [sp] + s[k..];
    forall a: nat
      ensures Lookup(r, a) == (if sp.Covers(a) then Mapped(sp.flags, sp.Offset(a)) else Lookup(s, a))
    {
      PutLookup(s, k, sp, a);
    }
    PutLookup(s, k, sp, 0);
    TotalInsert(s, k, [sp]);
    TotalOne(sp);
  }

  /** Clearing a range and then mapping it maps exactly the range. */
  lemma AddsAfterCut(s: seq<Span>, r: seq<Span>, lo: nat, hi: nat, flags: nat)
    requires Sorted(s) && lo < hi && lo % PAGE_SIZE == 0 && hi % PAGE_SIZE == 0
    requires Adds(CutAll(s, lo, hi), r, lo, hi, flags)
    ensures Adds(s, r, lo, hi, flags)
  {
    hide Lookup, CutAll, Sorted;
    forall a: nat | !(lo <= a < hi)
      ensures Lookup(r, a) == Lookup(s, a)
    {
      CutAllLookup(s, lo, hi, a);
    }
  }

  // ---------- what the counters count ----------

  /** The pages that are mapped, or those of them that are locked. */
  ghost function MappedPages(s: seq<Span>, locked: bool): set<nat> {
    set p: nat | p < WORD / PAGE_SIZE && Counts(Lookup(s, p * PAGE_SIZE), locked)
  }

  predicate Counts(c: Cell, locked: bool) { c.Mapped? && (locked ==> Bit(c.flags, LOCKED_BIT)) }

  function CountOf(s: seq<Span>, locked: bool): int { if locked then LockedPages(s) else TotalPages(s) }

  lemma CountFirst(s: seq<Span>, locked: bool)
    ensures s == [] ==> CountOf(s, locked) == 0
    ensures s != [] ==> CountOf(s, locked) == CountOf(s[1..], locked)
                        + if locked && !Locked(s[0]) then 0 else (s[0].end - s[0].start) / PAGE_SIZE
  {
    hide Locked;
  }

  /** total_vm counts the mapped pages, and locked_vm those of them that are locked. */
  lemma PagesCounted(s: seq<Span>)
    requires Sorted(s)
    ensures |MappedPages(s, false)| == TotalPages(s) && |MappedPages(s, true)| == LockedPages(s)
  {
    hide MappedPages, Sorted;
    KindCounted(s, false);
    KindCounted(s, true);
  }

  lemma {:induction false} KindCounted(s: seq<Span>, locked: bool)
    requires Sorted(s)
    ensures |MappedPages(s, locked)| == CountOf(s, locked)
  {
    hide Locked, CountOf, MappedPages;
    CountFirst(s, locked);
    if s == [] {
      NoneMapped(s);
    } else {
      assert s[0].Ok();
      KindCounted(s[1..], locked);
      MappedFirst(s, locked);
      hide Interval, Sorted;
      var lo, n := s[0].start / PAGE_SIZE, (s[0].end - s[0].start) / PAGE_SIZE;
      IntervalSize(lo, n);
      UnionSize(Interval(lo, n), MappedPages(s[1..], locked));
    }
  }

  lemma NoneMapped(s: seq<Span>)
    requires s == []
    ensures MappedPages(s, false) == {} && MappedPages(s, true) == {}
  {
  }

  lemma WholePages(start: nat, end: nat)
    requires start <= end && start % PAGE_SIZE == 0 && end % PAGE_SIZE == 0
    ensures (end - start) / PAGE_SIZE == end / PAGE_SIZE - start / PAGE_SIZE
  {
  }

  lemma MappedFirst(s: seq<Span>, locked: bool)
    requires Sorted(s) && s != []
    ensures var range := Interval(s[0].start / PAGE_SIZE, (s[0].end - s[0].start) / PAGE_SIZE);
      && range !! MappedPages(s[1..], locked)
      && MappedPages(s, locked) == (if locked && !Locked(s[0]) then {} else range) + MappedPages(s[1..], locked)
  {
    hide Bit, Span.Offset;
    var x, rest := s[0], s[1..];
    assert x.Ok();
    WholePages(x.start, x.end);
    forall p: nat
      ensures x.start / PAGE_SIZE <= p < x.end / PAGE_SIZE <==> x.Covers(p * PAGE_SIZE)
      ensures x.Covers(p * PAGE_SIZE) ==> p < WORD / PAGE_SIZE && Lookup(rest, p * PAGE_SIZE) == Unmapped
    {
      PageCovered(x, p);
      if x.Covers(p * PAGE_SIZE) { LookupNone(rest, p * PAGE_SIZE); }
    }
  }

  lemma PageCovered(x: Span, p: nat)
    requires x.Ok()
    ensures x.start / PAGE_SIZE <= p < x.end / PAGE_SIZE <==> x.Covers(p * PAGE_SIZE)
    ensures x.Covers(p * PAGE_SIZE) ==> p < WORD / PAGE_SIZE
  {
  }

  // ---------- copying an address space ----------

  /** The copy of a span that a child gets. */
  function Copy(sp: Span): Span {
    sp.(flags := And(sp.flags, WORD - 1 - Pow2(LOCKED_BIT)))
  }

  /** The spans of a child: all but those marked not to be copied. */
  function Copies(s: seq<Span>): seq<Span> {
    if s == [] then []
    else (if Bit(s[0].flags, DONTCOPY_BIT) then [] else [Copy(s[0])]) + Copies(s[1..])
  }

  lemma {:induction false} CopiesConcat(s: seq<Span>, t: seq<Span>)
    ensures Copies(s + t) == Copies(s) + Copies(t)
  {
    if s == [] {
      assert s + t == t;
    } else {
      assert (s + t)[1..] == s[1..] + t && (s + t)[0] == s[0];
      CopiesConcat(s[1..], t);
      var c := if Bit(s[0].flags, DONTCOPY_BIT) then [] else [Copy(s[0])];
      hide Copy, Bit;
      assert c + (Copies(s[1..]) + Copies(t)) == (c + Copies(s[1..])) + Copies(t);
    }
  }

  /** The mask ~(1 << j) has every bit but one. */
  lemma {:induction false} MaskBits(n: nat, j: nat, k: nat)
    requires j < n
    ensures Pow2(j) < Pow2(n) && (Bit(Pow2(n) - 1 - Pow2(j), k) <==> k < n && k != j)
    decreases n
  {
    if j == 0 {
      assert Pow2(n) == 2 * Pow2(n - 1);
      assert (Pow2(n) - 2) / 2 == Pow2(n - 1) - 1;
      if k > 0 { OnesBits(n - 1, k - 1); }
    } else {
      assert (Pow2(n) - 1 - Pow2(j)) / 2 == Pow2(n - 1) - 1 - Pow2(j - 1);
      MaskBits(n - 1, j - 1, if k > 0 then k - 1 else 0);
    }
  }

  lemma {:induction false} OnesBits(n: nat, k: nat)
    ensures Pow2(n) > 0 && (Bit(Pow2(n) - 1, k) <==> k < n)
    decreases n
  {
    if n == 0 {
      ZeroBits(k);
    } else {
      assert (Pow2(n) - 1) / 2 == Pow2(n - 1) - 1;
      OnesBits(n - 1, if k > 0 then k - 1 else 0);
    }
  }

  /** A copy has the bounds, the offset and all the flags of the original but the lock. */
  lemma CopyIs(sp: Span, k: nat)
    ensures var c := Copy(sp);
      && c.start == sp.start && c.end == sp.end && c.pgoff == sp.pgoff
      && (Bit(c.flags, k) <==> Bit(sp.flags, k) && k < 32 && k != LOCKED_BIT)
  {
    hide And, Bit, Pow2;
    WordIsPow2();
    MaskBits(32, LOCKED_BIT, k);
    AndBits(sp.flags, WORD - 1 - Pow2(LOCKED_BIT), k);
  }

  lemma CopyUnlocked(sp: Span)
    ensures !Locked(Copy(sp))
  {
    hide And, Bit;
    CopyIs(sp, LOCKED_BIT);
  }

  /** What a child finds at an address, given what its parent finds there. */
  ghost predicate Inherits(parent: Cell, child: Cell) {
    if parent.Unmapped? || Bit(parent.flags, DONTCOPY_BIT) then child.Unmapped?
    else
      && child.Mapped? && child.pgoff == parent.pgoff
      && forall k: nat :: k < 32 ==> (Bit(child.flags, k) <==> Bit(parent.flags, k) && k != LOCKED_BIT)
  }

  /** Address by address, a child has what its parent has, unlocked, but what is not copied. */
  lemma {:induction false} CopiesLookup(s: seq<Span>, a: nat)
    requires Sorted(s)
    ensures Inherits(Lookup(s, a), Lookup(Copies(s), a))
  {
    hide Copy, Bit, Span.Offset;
    if s != [] {
      var x, rest := s[0], s[1..];
      CopiesLookup(rest, a);
      var c := if Bit(x.flags, DONTCOPY_BIT) then [] else [Copy(x)];
      LookupConcat(c, Copies(rest), a);
      if x.Covers(a) {
        LookupNone(rest, a);
        if !Bit(x.flags, DONTCOPY_BIT) { CopyCell(x, a); }
      } else {
        CopyIs(x, 0);
        assert Lookup(c, a) == Unmapped by { LookupNone(c, a); }
      }
    }
  }

  lemma CopyCell(x: Span, a: nat)
    requires x.Covers(a) && !Bit(x.flags, DONTCOPY_BIT)
    ensures Inherits(Mapped(x.flags, x.Offset(a)), Lookup([Copy(x)], a))
  {
    hide Copy, Bit;
    CopyIs(x, 0);
    forall k: nat | k < 32
      ensures Bit(Copy(x).flags, k) <==> Bit(x.flags, k) && k != LOCKED_BIT
    {
      CopyIs(x, k);
    }
  }

  /** The first so many spans of a list have what it has, up to some address. */
  lemma PrefixLookup(s: seq<Span>, n: nat, a: nat)
    requires Sorted(s) && n < |s|
    ensures Lookup(s[..n], a) == if a < s[n].start then Lookup(s, a) else Unmapped
  {
    assert s == s[..n] + s[n..];
    LookupConcat(s[..n], s[n..], a);
    assert s[n].Ok();
    if a < s[n].start { LookupNone(s[n..], a); } else { LookupNone(s[..n], a); }
  }

  /** The places of the spans that are copied, of the first `n`. */
  ghost function CopiedPlaces(s: seq<Span>, n: nat): set<nat>
    requires n <= |s|
  {
    set i: nat | i < n && !Bit(s[i].flags, DONTCOPY_BIT)
  }

  lemma {:induction false} CopiesNumber(s: seq<Span>, n: nat)
    requires n <= |s|
    ensures |Copies(s[..n])| == |CopiedPlaces(s, n)|
  {
    hide Copy, Bit, Copies;
    if n == 0 {
      assert s[..0] == [] && CopiedPlaces(s, 0) == {};
      CopiesNone();
    } else {
      var i := n - 1;
      CopiesNumber(s, i);
      CopiesStep(s, i);
      var t := CopiedPlaces(s, i);
      assert CopiedPlaces(s, n) == if Bit(s[i].flags, DONTCOPY_BIT) then t else t + {i};
    }
  }

  lemma CopiesNone()
    ensures Copies([]) == []
  {
  }

  /** One more span: its copy comes next, unless it is not to be copied. */
  lemma CopiesStep(s: seq<Span>, i: nat)
    requires i < |s|
    ensures Copies(s[..i + 1]) == Copies(s[..i]) + (if Bit(s[i].flags, DONTCOPY_BIT) then [] else [Copy(s[i])])
    ensures |Copies(s[..i + 1])| <= |Copies(s)|
  {
    hide Copy, Bit;
    assert s[..i + 1] == s[..i] + [s[i]];
    CopiesConcat(s[..i], [s[i]]);
    assert Copies([s[i]]) == (if Bit(s[i].flags, DONTCOPY_BIT) then [] else [Copy(s[i])]) + Copies([]);
    assert s == s[..i + 1] + s[i + 1..];
    CopiesConcat(s[..i + 1], s[i + 1..]);
  }

  lemma {:induction false} CopiesSorted(s: seq<Span>, b: nat)
    requires Sorted(s) && forall i :: 0 <= i < |s| ==> b <= s[i].start
    ensures Sorted(Copies(s))
    ensures forall i :: 0 <= i < |Copies(s)| ==> b <= Copies(s)[i].start
  {
    if s != [] {
      assert s[0].Ok();
      CopiesSorted(s[1..], s[0].end);
      var c := if Bit(s[0].flags, DONTCOPY_BIT) then [] else [Copy(s[0])];
      SortedConcat(c, Copies(s[1..]), s[0].end);
    }
  }

  /** The copies are unlocked, and have as many pages as the originals exactly when nothing
      was marked not to be copied. */
  lemma {:induction false} CopiesCount(s: seq<Span>)
    requires Sorted(s)
    ensures LockedPages(Copies(s)) == 0
    ensures TotalPages(Copies(s)) <= TotalPages(s)
    ensures TotalPages(Copies(s)) == TotalPages(s) <==> forall i :: 0 <= i < |s| ==> !Bit(s[i].flags, DONTCOPY_BIT)
  {
    hide Bit, Locked, And, TotalPages, LockedPages;
    TotalNone();
    if s != [] {
      var rest, c := s[1..], Copy(s[0]);
      CopiesCount(rest);
      assert s[0].Ok();
      assert forall i :: 0 <= i < |rest| ==> rest[i] == s[i + 1];
      CopyUnlocked(s[0]);
      assert s == [s[0]] + rest;
      TotalOne(s[0]);
      TotalConcat([s[0]], rest);
      PagesOf(s[0]);
      if Bit(s[0].flags, DONTCOPY_BIT) {
        assert Copies(s) == Copies(rest);
      } else {
        hide Copy;
        assert c.start == s[0].start && c.end == s[0].end by { CopyIs(s[0], 0); }
        assert Copies(s) == [c] + Copies(rest);
        TotalOne(c);
        TotalConcat([c], Copies(rest));
      }
    }
  }

  lemma PagesOf(sp: Span)
    requires sp.Ok()
    ensures (sp.end - sp.start) / PAGE_SIZE > 0
  {
  }

  lemma CopiesPrefix(s: seq<Span>, i: nat)
    requires i <= |s|
    ensures Copies(s[..i]) <= Copies(s)
  {
    hide Copies;
    var a, b := s[..i], s[i..];
    CopiesConcat(a, b);
    assert a + b == s;
    assert Copies(a) <= Copies(a) + Copies(b);
  }

  /** The first so many copies are sorted and unlocked. */
  lemma CopiesPart(s: seq<Span>, n: nat)
    requires Sorted(s) && n <= |Copies(s)|
    ensures Sorted(Copies(s)[..n]) && LockedPages(Copies(s)[..n]) == 0
  {
    hide Copies, LockedPages, Sorted, TotalPages, Bit;
    var c := Copies(s);
    CopiesSorted(s, 0);
    CopiesCount(s);
    assert c == c[..n] + c[n..];
    TotalConcat(c[..n], c[n..]);
    SortedSplit(c, n);
    LockedNotNegative(c[..n]);
    LockedNotNegative(c[n..]);
  }

  lemma SortedSplit(s: seq<Span>, n: nat)
    requires Sorted(s) && n <= |s|
    ensures Sorted(s[..n]) && Sorted(s[n..])
  {
  }

  lemma {:induction false} LockedNotNegative(s: seq<Span>)
    requires Sorted(s)
    ensures LockedPages(s) >= 0
  {
    hide Locked;
    if s != [] {
      assert s[0].Ok();
      LockedNotNegative(s[1..]);
    }
  }
}
