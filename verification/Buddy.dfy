/** The buddy page allocator of mm/page_alloc.c.  A page is named by its index in the
    zone.  The source's BUG() checks appear as assertions. */
module Buddy {
  import opened Common
  import opened Words
  import opened BuddyTheory
  import Bitmap

  /** The list without element `x`: list_del of a node wherever it is linked. */
  function Without(s: seq<nat>, x: nat): seq<nat> {
    if s == [] then [] else if s[0] == x then s[1..] else [s[0]] + Without(s[1..], x)
  }

  lemma {:induction false} WithoutMembers(s: seq<nat>, x: nat)
    requires NoDup(s)
    ensures NoDup(Without(s, x))
    ensures forall y :: y in Without(s, x) <==> y in s && y != x
  {
    if s != [] {
      var t := s[1..];
      WithoutMembers(t, x);
      assert forall y :: y in s <==> y == s[0] || y in t;
      assert s[0] !in t;
      assert s[0] !in Without(t, x);
    }
  }

  /** The free lists hold the first pages of the free blocks, each once. */
  ghost predicate ListedAt(list: seq<nat>, bs: set<nat>, o: nat) {
    && NoDup(list)
    && (forall p :: p in list ==> Shr(p, o) in bs && p == Shr(p, o) * Pow2(o))
    && (forall b :: b in bs ==> b * Pow2(o) in list)
  }

  ghost predicate Listed(lists: seq<seq<nat>>, bs: Blocks) {
    && |lists| == |bs| == MAX_ORDER
    && forall o :: 0 <= o < MAX_ORDER ==> ListedAt(lists[o], bs[o], o)
  }

  lemma ListedUpdate(lists: seq<seq<nat>>, bs: Blocks, o: nat, list: seq<nat>, b: set<nat>)
    requires Listed(lists, bs) && o < MAX_ORDER && ListedAt(list, b, o)
    ensures Listed(lists[o := list], bs[o := b])
  {
    hide ListedAt;
  }

  lemma ListedOf(lists: seq<seq<nat>>, bs: Blocks, o: nat)
    requires Listed(lists, bs) && o < MAX_ORDER
    ensures |lists| == |bs| == MAX_ORDER && ListedAt(lists[o], bs[o], o)
  {
  }

  lemma ListedAdd(list: seq<nat>, bs: set<nat>, o: nat, b: nat, page: nat)
    requires ListedAt(list, bs, o) && b !in bs && page == b * Pow2(o)
    ensures ListedAt([page] + list, bs + {b}, o)
  {
    FirstPage(o, b);
    var r := [page] + list;
    assert forall p :: p in r <==> p == page || p in list;
  }

  lemma ListedDel(list: seq<nat>, bs: set<nat>, o: nat, b: nat)
    requires ListedAt(list, bs, o)
    ensures ListedAt(Without(list, b * Pow2(o)), bs - {b}, o)
  {
    FirstPage(o, b);
    WithoutMembers(list, b * Pow2(o));
    forall c | c in bs && c != b
      ensures c * Pow2(o) != b * Pow2(o)
    {
      FirstPage(o, c);
    }
  }

  lemma WithoutHead(list: seq<nat>)
    requires list != []
    ensures Without(list, list[0]) == list[1..]
  {
  }

  /** The part of the bitmap memory handed to one order: free_area[o].map. */
  datatype Extent = Extent(base: nat, bytes: nat) {
    function End(): nat { base + bytes }

    predicate Holds(bit: nat) { bit / 8 < bytes }
  }

  /** The extents follow one another, and every bit index an order uses falls in its own. */
  ghost predicate Layout(maps: seq<Extent>, size: nat) {
    && |maps| == MAX_ORDER
    && (forall o, o2 :: 0 <= o < o2 < MAX_ORDER ==> maps[o].End() <= maps[o2].base)
    && (forall o, p :: 0 <= o < MAX_ORDER && 0 <= p < size ==> maps[o].Holds(Shr(p, o) / 2))
  }

  /** A pair bit below the top order is set exactly when one buddy of the pair is free. */
  ghost predicate PairBits(m: seq<Byte>, maps: seq<Extent>, bs: Blocks) {
    && |maps| == |bs| == MAX_ORDER
    && (forall o :: 0 <= o < MAX_ORDER ==> maps[o].End() <= |m|)
    && (forall o, i: nat :: 0 <= o < MAX_ORDER - 1 && maps[o].Holds(i) ==>
          (Bitmap.Test(m, 8 * maps[o].base + i) <==> (2 * i in bs[o]) != (2 * i + 1 in bs[o])))
  }

  ghost predicate Toggles(m: seq<Byte>, m': seq<Byte>, bit: nat) {
    && |m'| == |m|
    && forall i: nat :: i / 8 < |m| ==> (Bitmap.Test(m', i) <==> Bitmap.Test(m, i) != (i == bit))
  }

  /** Toggling a block's pair bit while it enters or leaves the free blocks. */
  lemma PairBitsToggle(m: seq<Byte>, m': seq<Byte>, maps: seq<Extent>, size: nat, bs: Blocks, bs': Blocks, o: nat,
                       b: nat)
    requires Layout(maps, size) && PairBits(m, maps, bs)
    requires o < MAX_ORDER && maps[o].Holds(b / 2)
    requires Toggles(m, m', 8 * maps[o].base + b / 2)
    requires |bs'| == MAX_ORDER
    requires forall o2 :: 0 <= o2 < MAX_ORDER && o2 != o ==> bs'[o2] == bs[o2]
    requires forall c :: c in bs'[o] <==> (c in bs[o]) != (c == b)
    ensures PairBits(m', maps, bs')
  {
    forall o2, i: nat | 0 <= o2 < MAX_ORDER - 1 && maps[o2].Holds(i)
      ensures Bitmap.Test(m', 8 * maps[o2].base + i) <==> (2 * i in bs'[o2]) != (2 * i + 1 in bs'[o2])
    {
      hide PairBits, Layout;
      PairBitAt(m, maps, bs, o2, i);
      OtherBit(maps, size, o, b / 2, o2, i);
      ToggledAt(m, m', 8 * maps[o].base + b / 2, 8 * maps[o2].base + i);
      assert o2 == o && i == b / 2 ==> b == 2 * i || b == 2 * i + 1;
    }
  }

  lemma PairBitAt(m: seq<Byte>, maps: seq<Extent>, bs: Blocks, o: nat, i: nat)
    requires PairBits(m, maps, bs) && o < MAX_ORDER - 1 && maps[o].Holds(i)
    ensures (8 * maps[o].base + i) / 8 < |m|
    ensures Bitmap.Test(m, 8 * maps[o].base + i) <==> (2 * i in bs[o]) != (2 * i + 1 in bs[o])
  {
    assert (8 * maps[o].base + i) / 8 == maps[o].base + i / 8;
    assert maps[o].End() <= |m|;
  }

  /** Different bits of the maps are different bits of memory. */
  lemma OtherBit(maps: seq<Extent>, size: nat, o: nat, i: nat, o2: nat, j: nat)
    requires Layout(maps, size) && o < MAX_ORDER && o2 < MAX_ORDER && maps[o].Holds(i) && maps[o2].Holds(j)
    ensures 8 * maps[o].base + i == 8 * maps[o2].base + j <==> o == o2 && i == j
  {
    if o2 < o {
      assert maps[o2].End() <= maps[o].base;
    } else if o < o2 {
      assert maps[o].End() <= maps[o2].base;
    }
  }

  lemma ToggledAt(m: seq<Byte>, m': seq<Byte>, nr: nat, i: nat)
    requires Toggles(m, m', nr) && i / 8 < |m|
    ensures i / 8 < |m'| && (Bitmap.Test(m', i) <==> Bitmap.Test(m, i) != (i == nr))
  {
  }

  /** The two halves of a block. */
  lemma Halves(o: nat, c: nat, size: nat)
    requires o > 0
    ensures Region(o, c, size) == Region(o - 1, 2 * c, size) + Region(o - 1, 2 * c + 1, size)
    ensures Region(o - 1, 2 * c, size) !! Region(o - 1, 2 * c + 1, size)
    ensures Inside(o, c, size) <==> Inside(o - 1, 2 * c, size) && Inside(o - 1, 2 * c + 1, size)
  {
    forall p: nat
      ensures Shr(p, o) == c <==> Shr(p, o - 1) == 2 * c || Shr(p, o - 1) == 2 * c + 1
    {
      ShrStep(p, o - 1);
    }
    var n := o - 1;
    if Inside(o, c, size) {
      assert forall p: nat :: Shr(p, n) == 2 * c ==> Shr(p, o) == c;
      assert forall p: nat :: Shr(p, n) == 2 * c + 1 ==> Shr(p, o) == c;
    }
  }

  lemma HalfPages(o: nat, c: nat)
    requires o > 0
    ensures (2 * c) * Pow2(o - 1) == c * Pow2(o)
    ensures (2 * c + 1) * Pow2(o - 1) == c * Pow2(o) + Pow2(o - 1)
    ensures Pow2(o) / 2 == Pow2(o - 1)
  {
    var d := Pow2(o - 1);
    assert c * (2 * d) == (2 * c) * d;
  }

  lemma TwiceHalf(o: nat)
    requires o > 0
    ensures Pow2(o) == 2 * Pow2(o - 1)
  {
  }

  lemma PairBitIndex(maps: seq<Extent>, size: nat, o: nat, b: nat)
    requires Layout(maps, size) && o < MAX_ORDER && Inside(o, b, size)
    ensures b * Pow2(o) < size
    ensures (b * Pow2(o)) / Pow2(o + 1) == b / 2
    ensures maps[o].Holds(b / 2)
  {
    var p := b * Pow2(o);
    FirstPage(o, b);
    ShrStep(p, o);
    ShrIsDiv(p, o + 1);
  }

  /** The allocator's whole state but the page counter. */
  ghost predicate State(size: nat, maps: seq<Extent>, m: seq<Byte>, lists: seq<seq<nat>>, bs: Blocks) {
    && size <= 0x10_0000
    && Layout(maps, size)
    && Inv(bs, size)
    && Listed(lists, bs)
    && PairBits(m, maps, bs)
  }

  lemma StateAdd(size: nat, maps: seq<Extent>, m': seq<Byte>, lists: seq<seq<nat>>, bs: Blocks, o: nat, b: nat,
                 page: nat)
    requires Layout(maps, size) && Inv(bs, size) && Listed(lists, bs) && size <= 0x10_0000
    requires o < MAX_ORDER && Inside(o, b, size) && Region(o, b, size) !! FreeSet(bs, size)
    requires o < MAX_ORDER - 1 ==> Buddy(b) !in bs[o]
    requires PairBits(m', maps, bs[o := bs[o] + {b}])
    requires page == b * Pow2(o)
    ensures State(size, maps, m', lists[o := [page] + lists[o]], bs[o := bs[o] + {b}])
    ensures FreeSet(bs[o := bs[o] + {b}], size) == FreeSet(bs, size) + Region(o, b, size)
  {
    hide Inv, ListedAt, Listed, PairBits, Layout, Inside, Region, FreeSet, Pow2, Buddy;
    AddBlock(bs, size, o, b);
    ListedOf(lists, bs, o);
    ListedAdd(lists[o], bs[o], o, b, page);
    ListedUpdate(lists, bs, o, [page] + lists[o], bs[o] + {b});
  }

  lemma AddToggles(size: nat, maps: seq<Extent>, m: seq<Byte>, m': seq<Byte>, bs: Blocks, o: nat, b: nat)
    requires Layout(maps, size) && PairBits(m, maps, bs)
    requires o < MAX_ORDER && Inside(o, b, size) && b !in bs[o]
    requires Toggles(m, m', 8 * maps[o].base + b / 2)
    ensures PairBits(m', maps, bs[o := bs[o] + {b}])
  {
    PairBitIndex(maps, size, o, b);
    PairBitsToggle(m, m', maps, size, bs, bs[o := bs[o] + {b}], o, b);
  }

  lemma StateRemove(size: nat, maps: seq<Extent>, m': seq<Byte>, lists: seq<seq<nat>>, bs: Blocks, o: nat, b: nat)
    requires Layout(maps, size) && Inv(bs, size) && Listed(lists, bs) && size <= 0x10_0000
    requires o < MAX_ORDER && b in bs[o]
    requires PairBits(m', maps, bs[o := bs[o] - {b}])
    ensures State(size, maps, m', lists[o := Without(lists[o], b * Pow2(o))], bs[o := bs[o] - {b}])
    ensures Inside(o, b, size) && Region(o, b, size) <= FreeSet(bs, size)
    ensures FreeSet(bs[o := bs[o] - {b}], size) == FreeSet(bs, size) - Region(o, b, size)
  {
    hide ListedAt, Listed, PairBits, Layout, Region, FreeSet, InRange, Disjoint, Merged, Pow2;
    RemoveBlock(bs, size, o, b);
    ListedOf(lists, bs, o);
    ListedDel(lists[o], bs[o], o, b);
    ListedUpdate(lists, bs, o, Without(lists[o], b * Pow2(o)), bs[o] - {b});
    BlockIsFree(bs, size, o, b);
  }

  lemma RemoveToggles(size: nat, maps: seq<Extent>, m: seq<Byte>, m': seq<Byte>, bs: Blocks, o: nat, b: nat)
    requires Layout(maps, size) && PairBits(m, maps, bs)
    requires o < MAX_ORDER && Inside(o, b, size) && b in bs[o]
    requires Toggles(m, m', 8 * maps[o].base + b / 2)
    ensures PairBits(m', maps, bs[o := bs[o] - {b}])
  {
    PairBitIndex(maps, size, o, b);
    PairBitsToggle(m, m', maps, size, bs, bs[o := bs[o] - {b}], o, b);
  }

  /** The lists after an allocation: order `o` is the least from `order` on with a block on its
      list; the first block there is taken, its last 2^order pages are the ones handed out, and
      the halves split off in front of them are alone on the lists in between. */
  ghost predicate Served(were: seq<seq<nat>>, lists: seq<seq<nat>>, order: nat, o: nat, page: nat) {
    && |were| == |lists| == MAX_ORDER && order <= o < MAX_ORDER && were[o] != []
    && (forall j :: order <= j < o ==> were[j] == [])
    && page + Pow2(order) == were[o][0] + Pow2(o)
    && lists[o] == were[o][1..]
    && (forall j :: order <= j < o ==> lists[j] == [were[o][0] + Pow2(o) - Pow2(j + 1)])
    && (forall j :: 0 <= j < MAX_ORDER && !(order <= j <= o) ==> lists[j] == were[j])
  }

  /** The halves split off at every order from `low` up to `high` are linked first. */
  ghost predicate Split(were: seq<seq<nat>>, lists: seq<seq<nat>>, page: nat, low: nat, high: nat) {
    && |were| == |lists| == MAX_ORDER
    && (forall j :: low <= j < high && j < MAX_ORDER ==> lists[j] == [page + Pow2(high) - Pow2(j + 1)] + were[j])
    && (forall j :: 0 <= j < MAX_ORDER && !(low <= j < high) ==> lists[j] == were[j])
  }

  lemma SplitNone(lists: seq<seq<nat>>, page: nat, high: nat)
    requires |lists| == MAX_ORDER
    ensures Split(lists, lists, page, high, high)
  {
  }

  lemma SplitMore(were: seq<seq<nat>>, lists: seq<seq<nat>>, page: nat, order: nat, high: nat, index: nat)
    requires Split(were, lists, page, order, high) && 0 < order <= high && order <= MAX_ORDER
    requires index + Pow2(order) == page + Pow2(high)
    ensures Split(were, lists[order - 1 := [index] + lists[order - 1]], page, order - 1, high)
  {
    hide Pow2;
  }

  lemma SplitServes(were: seq<seq<nat>>, lists: seq<seq<nat>>, order: nat, from: nat, r: nat)
    requires |were| == MAX_ORDER && order <= from < MAX_ORDER && were[from] != []
    requires Split(were[from := were[from][1..]], lists, were[from][0], order, from)
    requires r + Pow2(order) == were[from][0] + Pow2(from)
    ensures (forall j :: order <= j < from ==> were[j] == []) ==> Served(were, lists, order, from, r)
  {
    hide Pow2;
  }

  /** The list `t` is `s` without one place of it, which holds `x`. */
  ghost predicate Dropped(s: seq<nat>, t: seq<nat>, x: nat) {
    exists i :: 0 <= i < |s| && s[i] == x && t == s[..i] + s[i + 1..]
  }

  /** The lists after a free of 2^order pages: the block that holds them grows to order `o`, the
      least at which its buddy is not listed; the buddies up to there leave their lists, and the
      block goes to the head of its list. */
  ghost predicate GivenBack(were: seq<seq<nat>>, lists: seq<seq<nat>>, page: nat, order: nat, o: nat) {
    && |were| == |lists| == MAX_ORDER && order <= o < MAX_ORDER
    && (forall j :: order <= j < o ==> Dropped(were[j], lists[j], BuddyPage(page, j)))
    && (o == MAX_ORDER - 1 || BuddyPage(page, o) !in were[o])
    && lists[o] == [page - page % Pow2(o)] + were[o]
    && (forall j :: 0 <= j < MAX_ORDER && !(order <= j <= o) ==> lists[j] == were[j])
  }

  /** The first page of the buddy of the block of order `j` that holds a page. */
  ghost function BuddyPage(page: nat, j: nat): nat { Buddy(Shr(page, j)) * Pow2(j) }

  /** The same while the block still grows. */
  ghost predicate Growing(were: seq<seq<nat>>, lists: seq<seq<nat>>, page: nat, order: nat, o: nat) {
    && |were| == |lists| == MAX_ORDER && order <= o
    && (forall j :: order <= j < o && j < MAX_ORDER ==> Dropped(were[j], lists[j], BuddyPage(page, j)))
    && (forall j :: 0 <= j < MAX_ORDER && !(order <= j < o) ==> lists[j] == were[j])
  }

  lemma GrowingStarts(lists: seq<seq<nat>>, page: nat, order: nat, first: nat)
    requires |lists| == MAX_ORDER && page == first * Pow2(order)
    ensures Growing(lists, lists, page, order, order) && first == Shr(page, order)
  {
    FirstPage(order, first);
  }

  lemma GrowingStep(were: seq<seq<nat>>, lists: seq<seq<nat>>, page: nat, order: nat, o: nat)
    requires Growing(were, lists, page, order, o) && o < MAX_ORDER
    ensures Shr(page, o + 1) == Shr(page, o) / 2
    ensures BuddyPage(page, o) == Buddy(Shr(page, o)) * Pow2(o)
    ensures BuddyPage(page, o) in lists[o] ==>
      Growing(were, lists[o := Without(lists[o], BuddyPage(page, o))], page, order, o + 1)
  {
    hide Dropped, Without, Pow2;
    ShrStep(page, o);
    if BuddyPage(page, o) in lists[o] { WithoutDrops(lists[o], BuddyPage(page, o)); }
  }

  lemma GrowingEnds(were: seq<seq<nat>>, lists: seq<seq<nat>>, page: nat, order: nat, o: nat)
    requires Growing(were, lists, page, order, o) && o < MAX_ORDER
    requires o == MAX_ORDER - 1 || BuddyPage(page, o) !in lists[o]
    ensures GivenBack(were, lists[o := [Shr(page, o) * Pow2(o)] + lists[o]], page, order, o)
  {
    hide Dropped, Pow2, BuddyPage;
    BlockStart(page, o);
  }

  lemma BlockStart(page: nat, j: nat)
    ensures Pow2(j) > 0 && page - page % Pow2(j) == Shr(page, j) * Pow2(j)
  {
    ShrIsDiv(page, j);
  }

  lemma {:induction false} WithoutDrops(s: seq<nat>, x: nat)
    requires x in s
    ensures Dropped(s, Without(s, x), x)
  {
    if s[0] == x {
      assert Without(s, x) == s[..0] + s[0 + 1..];
    } else {
      WithoutDrops(s[1..], x);
      DroppedBehind(s, Without(s[1..], x), x);
    }
  }

  lemma DroppedBehind(s: seq<nat>, t: seq<nat>, x: nat)
    requires s != [] && Dropped(s[1..], t, x)
    ensures Dropped(s, [s[0]] + t, x)
  {
    var u := s[1..];
    var i :| 0 <= i < |u| && u[i] == x && t == u[..i] + u[i + 1..];
    hide Dropped;
    DropLater(s, i);
    DroppedAt(s, [s[0]] + t, i + 1);
  }

  lemma DropLater(s: seq<nat>, i: nat)
    requires i + 1 < |s|
    ensures [s[0]] + (s[1..][..i] + s[1..][i + 1..]) == s[..i + 1] + s[i + 2..]
  {
  }

  lemma DroppedAt(s: seq<nat>, t: seq<nat>, i: nat)
    requires i < |s| && t == s[..i] + s[i + 1..]
    ensures Dropped(s, t, s[i])
  {
  }

  /** A block as the callers see it: an aligned run of 2^o pages. */
  lemma BlockAsPages(size: nat, o: nat, p: nat)
    requires p == Shr(p, o) * Pow2(o)
    ensures p % Pow2(o) == 0
    ensures Inside(o, Shr(p, o), size) <==> p + Pow2(o) <= size
    ensures p + Pow2(o) <= size ==> Region(o, Shr(p, o), size) == Interval(p, Pow2(o))
  {
    hide Inside, Region;
    var b := Shr(p, o);
    InsideIffFits(o, b, size);
    if Inside(o, b, size) { RegionIsInterval(o, b, size); }
    assert (b + 1) * Pow2(o) == p + Pow2(o);
    DivModUnique(p, Pow2(o), b, 0);
  }

  lemma AlignedBlock(o: nat, p: nat)
    requires p % Pow2(o) == 0
    ensures p == Shr(p, o) * Pow2(o)
  {
    ShrIsDiv(p, o);
  }

  lemma EntryIndex(o: nat, p: nat)
    ensures p / Pow2(1 + o) == Shr(p, o) / 2
  {
    ShrStep(p, o);
    ShrIsDiv(p, o + 1);
  }

  lemma FreeCount(bs: Blocks, size: nat)
    ensures |FreeSet(bs, size)| <= size
  {
    IntervalSize(0, size);
    SubsetCount(FreeSet(bs, size), Interval(0, size));
  }

  lemma {:induction false} SubsetCount(s: set<nat>, t: set<nat>)
    requires s <= t
    ensures |s| <= |t|
  {
    assert t == s + (t - s);
  }

  lemma InitialMask(o: nat)
    requires o < MAX_ORDER
    ensures Pow2(o) <= 512
    ensures Shl32(WORD - 1, o) == WORD - Pow2(o)
  {
    hide Pow2;
    SmallPow2(o);
    ShiftedMask(Pow2(o));
  }

  lemma SmallPow2(o: nat)
    requires o < MAX_ORDER
    ensures 0 < Pow2(o) <= 512
  {
    assert Pow2(9) == 512;
    if o < 9 { Pow2Mono(o, 9); }
  }

  lemma Pow2Positive(o: nat)
    ensures Pow2(o) > 0
  {
  }

  lemma GaveBack(free: set<nat>, without: set<nat>, now: set<nat>, high: set<nat>, low: set<nat>)
    requires low <= high <= free && without == free - high && now == without + (high - low)
    ensures low <= free && now == free - low
  {
  }

  lemma TakenCount(s: set<nat>, lo: nat, n: nat)
    requires Interval(lo, n) <= s
    ensures |s - Interval(lo, n)| == |s| - n && n <= |s|
  {
    hide Interval;
    IntervalSize(lo, n);
    CountWithout(s, Interval(lo, n));
  }

  lemma CountWithout(s: set<nat>, t: set<nat>)
    requires t <= s
    ensures |s - t| == |s| - |t|
  {
    assert |s| == |s - t| + |t|;
  }

  lemma ShiftedMask(d: nat)
    requires 0 < d <= 512
    ensures ((WORD - 1) * d) % WORD == WORD - d
  {
    assert (WORD - 1) * d == (d - 1) * WORD + (WORD - d);
    DivModUnique((WORD - 1) * d, WORD, d - 1, WORD - d);
  }

  /** The mask of the merging loop moves up with the order, and reaches its end exactly at
      the top order.  Subtracting or negating it adds or gives the block size. */
  lemma MaskStep(o: nat, mask: nat)
    requires o < MAX_ORDER && mask == WORD - Pow2(o)
    ensures 0 < mask && Pow2(o) <= 512
    ensures Add32(mask, 512) == 0 <==> o == MAX_ORDER - 1
    ensures Sub32(0, mask) == Pow2(o)
    ensures o < MAX_ORDER - 1 ==> Shl32(mask, 1) == WORD - Pow2(o + 1)
    ensures forall f: nat :: f <= 0x10_0000 ==> Sub32(f, mask) == f + Pow2(o)
  {
    if o < 9 { Pow2Mono(o, 9); }
    assert Pow2(9) == 512;
    assert Pow2(1) == 2;
  }

  /** XOR with the block size gives the buddy. */
  lemma BuddyByXor(o: nat, b: nat)
    ensures Xor(b * Pow2(o), Pow2(o)) == Buddy(b) * Pow2(o)
  {
    var p, d := b * Pow2(o), Pow2(o);
    BitIsQuotient(p, o);
    DivModUnique(p, d, b, 0);
    XorPow2(p, o);
    assert (b + 1) * d == p + d;
    assert (b - 1) * d == p - d;
  }

  /** Masking with the next mask gives the merged block. */
  lemma MergeByMask(o: nat, b: nat)
    requires o < MAX_ORDER - 1 && b * Pow2(o) < WORD
    ensures Pow2(o + 1) <= 512
    ensures And(b * Pow2(o), WORD - Pow2(o + 1)) == (b / 2) * Pow2(o + 1)
  {
    hide And, Shr, Pow2;
    InitialMask(o + 1);
    var p := b * Pow2(o);
    WordIsPow2();
    AndHighMask(p, o + 1, 32);
    FirstPage(o, b);
    ShrStep(p, o);
  }

  lemma PairBitOf(m: seq<Byte>, maps: seq<Extent>, bs: Blocks, o: nat, b: nat)
    requires PairBits(m, maps, bs) && o < MAX_ORDER - 1 && maps[o].Holds(b / 2)
    ensures (8 * maps[o].base + b / 2) / 8 < |m|
    ensures Bitmap.Test(m, 8 * maps[o].base + b / 2) <==> (b in bs[o]) != (Buddy(b) in bs[o])
  {
    var i := b / 2;
    assert b == 2 * i || b == 2 * i + 1;
    assert (8 * maps[o].base + i) / 8 == maps[o].base + i / 8;
    assert maps[o].End() <= |m|;
  }

  /** Pages rounded up to whole pairs of order `i`: (size + ~mask) & mask. */
  function PairsUp(size: nat, mask: nat): nat
    requires mask < WORD
  {
    And(Add32(size, WORD - 1 - mask), mask)
  }

  lemma RoundUp(size: nat, i: nat, mask: nat)
    requires i < MAX_ORDER && size <= 0x20_0000 && mask == WORD - Pow2(i + 1)
    ensures PairsUp(size, mask) % Pow2(i) == 0
    ensures size <= PairsUp(size, mask) < size + 1024
  {
    hide And, Shr, Pow2;
    MaskDouble(i);
    Pow2Positive(i);
    Pow2Step(i + 1);
    var d, e := Pow2(i), Pow2(i + 1);
    var x := size + e - 1;
    NoWrap(size, e - 1);
    WordIsPow2();
    AndHighMask(x, i + 1, 32);
    ShrBounds(x, i + 1);
    WholePairs(Shr(x, i + 1), d, e);
  }

  lemma WholePairs(q: nat, d: nat, e: nat)
    requires e == 2 * d && d > 0
    ensures (q * e) % d == 0
  {
    TwiceMul(q, d);
    MultipleMod(2 * q, d);
  }

  lemma ShrBounds(x: nat, k: nat)
    ensures Shr(x, k) * Pow2(k) <= x < Shr(x, k) * Pow2(k) + Pow2(k)
  {
    hide Shr;
    ShrIsDiv(x, k);
    Pow2Positive(k);
    hide Pow2;
    DivBounds(x, Pow2(k));
  }

  lemma DivBounds(x: nat, d: nat)
    requires d > 0
    ensures x / d * d <= x < x / d * d + d
  {
  }

  lemma QuotientBelow(p: nat, r: nat, d: nat)
    requires d > 0 && p < r && r % d == 0
    ensures p / d < r / d
  {
    var q, n := p / d, r / d;
    assert r == n * d && q * d <= p;
    if n < q { MulSpread(n, q, d); }
  }

  /** Every pair bit of a zone fits a bitmap of one bit per block of the rounded zone. */
  lemma BitsSuffice(size: nat, rounded: nat, i: nat, bytes: nat)
    requires size <= rounded && rounded % Pow2(i) == 0
    requires Shr(rounded, i) <= 8 * bytes
    ensures forall p: nat :: p < size ==> Shr(p, i) / 2 < 8 * bytes
  {
    forall p: nat | p < size
      ensures Shr(p, i) / 2 < 8 * bytes
    {
      ShrIsDiv(p, i);
      ShrIsDiv(rounded, i);
      QuotientBelow(p, rounded, Pow2(i));
    }
  }

  lemma MaskDouble(i: nat)
    requires i < MAX_ORDER
    ensures Pow2(i + 1) <= 1024
    ensures Add32(WORD - Pow2(i), WORD - Pow2(i)) == WORD - Pow2(i + 1)
  {
    if i + 1 < 10 { Pow2Mono(i + 1, 10); }
    assert Pow2(10) == 1024;
  }

  /** The bytes of a bitmap of `bits` bits, in whole 32-bit words. */
  function BitmapBytes(bits: nat): (r: nat)
    ensures bits <= 8 * r < bits + 40 && r % 4 == 0
  {
    var bytes := (bits + 7) / 8;
    bytes + 3 - (bytes + 3) % 4
  }

  /** free_area_init_core: the bitmaps of a zone, handed out one after the other. */
  method InitMaps(zoneSize: nat) returns (maps: seq<Extent>, total: nat)
    requires zoneSize <= 0x10_0000
    ensures Layout(maps, zoneSize) && Packed(maps, total)
    ensures forall o :: 0 <= o < MAX_ORDER ==> maps[o].End() <= total
  {
    maps, total := [], 0;
    var mask: nat, size: nat := WORD - 1, zoneSize;
    assert Pow2(0) == 1;
    hide Laid, Packed, PairsUp, Add32, Pow2, BitmapBytes, Shr;
    NoneLaid(zoneSize);
    for i := 0 to MAX_ORDER
      invariant |maps| == i && mask == WORD - Pow2(i)
      invariant zoneSize <= size <= zoneSize + 1024 * i
      invariant Laid(maps, zoneSize, total) && Packed(maps, total)
    {
      MaskDouble(i);
      mask := Add32(mask, mask);
      RoundUp(size, i, mask);
      size := PairsUp(size, mask);
      var bytes := BitmapBytes(Shr(size, i));
      BitsSuffice(zoneSize, size, i, bytes);
      LaidStep(maps, zoneSize, total, bytes);
      PackedStep(maps, total, bytes);
      maps, total := maps + [Extent(total, bytes)], total + bytes;
    }
    AllLaid(maps, zoneSize, total);
  }

  /** The maps of the first orders, handed out up to byte `total`. */
  /** The maps fill the memory taken for them, one right behind the other. */
  ghost predicate Packed(maps: seq<Extent>, total: nat) {
    && (maps == [] ==> total == 0) && (maps != [] ==> maps[0].base == 0 && maps[|maps| - 1].End() == total)
    && (forall o :: 0 <= o < |maps| - 1 ==> maps[o + 1].base == maps[o].End())
  }

  ghost predicate Laid(maps: seq<Extent>, zoneSize: nat, total: nat) {
    && (forall o :: 0 <= o < |maps| ==> maps[o].End() <= total)
    && (forall o, o2 :: 0 <= o < o2 < |maps| ==> maps[o].End() <= maps[o2].base)
    && (forall o, p :: 0 <= o < |maps| && 0 <= p < zoneSize ==> maps[o].Holds(Shr(p, o) / 2))
  }

  lemma NoneLaid(zoneSize: nat)
    ensures Laid([], zoneSize, 0) && Packed([], 0)
  {
  }

  lemma PackedStep(maps: seq<Extent>, total: nat, bytes: nat)
    requires Packed(maps, total)
    ensures Packed(maps + [Extent(total, bytes)], total + bytes)
  {
    var more := maps + [Extent(total, bytes)];
    forall o | 0 <= o < |more| - 1
      ensures more[o + 1].base == more[o].End()
    {
      if o + 1 < |maps| { assert maps[o + 1].base == maps[o].End(); }
    }
  }

  lemma LaidStep(maps: seq<Extent>, zoneSize: nat, total: nat, bytes: nat)
    requires Laid(maps, zoneSize, total) && forall p: nat :: p < zoneSize ==> Shr(p, |maps|) / 2 < 8 * bytes
    ensures Laid(maps + [Extent(total, bytes)], zoneSize, total + bytes)
  {
    hide Shr;
    var more := maps + [Extent(total, bytes)];
    assert forall o :: 0 <= o < |maps| ==> more[o] == maps[o];
    forall o, p | 0 <= o < |more| && 0 <= p < zoneSize
      ensures more[o].Holds(Shr(p, o) / 2)
    {
      assert o < |maps| ==> maps[o].Holds(Shr(p, o) / 2);
    }
  }

  lemma AllLaid(maps: seq<Extent>, zoneSize: nat, total: nat)
    requires Laid(maps, zoneSize, total) && |maps| == MAX_ORDER
    ensures Layout(maps, zoneSize) && forall o :: 0 <= o < MAX_ORDER ==> maps[o].End() <= total
  {
    hide Shr;
  }

  /** The list of each order holds the first page of exactly the maximal free blocks of that order. */
  ghost predicate Lists(lists: seq<seq<nat>>, free: set<nat>) {
    && |lists| == MAX_ORDER
    && forall o, b: nat :: 0 <= o < MAX_ORDER ==> (b * Pow2(o) in lists[o] <==> Maximal(free, o, b))
  }

  /** No list holds a block twice. */
  ghost predicate Plain(lists: seq<seq<nat>>) {
    forall o :: 0 <= o < |lists| ==> NoDup(lists[o])
  }

  /** The lists alone decide where an allocation comes from and what it leaves. */
  lemma ServedOnce(were: seq<seq<nat>>, order: nat, o: nat, page: nat, lists: seq<seq<nat>>, o2: nat, page2: nat,
                   lists2: seq<seq<nat>>)
    requires Served(were, lists, order, o, page) && Served(were, lists2, order, o2, page2)
    ensures page == page2 && lists == lists2
  {
    hide Pow2;
    assert o == o2;
    assert forall j :: 0 <= j < MAX_ORDER ==> lists[j] == lists2[j];
  }

  lemma DroppedOnce(s: seq<nat>, t: seq<nat>, t2: seq<nat>, x: nat)
    requires NoDup(s) && Dropped(s, t, x) && Dropped(s, t2, x)
    ensures t == t2
  {
  }

  /** And what a free leaves. */
  lemma GivenBackOnce(were: seq<seq<nat>>, page: nat, order: nat, o: nat, lists: seq<seq<nat>>, o2: nat,
                      lists2: seq<seq<nat>>)
    requires Plain(were) && GivenBack(were, lists, page, order, o) && GivenBack(were, lists2, page, order, o2)
    ensures lists == lists2
  {
    hide Pow2, BuddyPage, NoDup, Dropped;
    if o < o2 { DroppedIn(were[o], lists2[o], BuddyPage(page, o)); }
    if o2 < o { DroppedIn(were[o2], lists[o2], BuddyPage(page, o2)); }
    forall j | 0 <= j < MAX_ORDER
      ensures lists[j] == lists2[j]
    {
      if order <= j < o { DroppedOnce(were[j], lists[j], lists2[j], BuddyPage(page, j)); }
    }
  }

  lemma DroppedIn(s: seq<nat>, t: seq<nat>, x: nat)
    requires Dropped(s, t, x)
    ensures x in s
  {
  }

  class Zone {
    const size: nat
    const bitmap: array<Byte>
    const maps: seq<Extent>
    var freeList: seq<seq<nat>>
    var freePages: nat
    ghost var blocks: Blocks

    /** A zone all of whose pages are reserved. */
    constructor (n: nat)
      requires n <= 0x10_0000
      ensures Valid() && size == n && Free() == {} && fresh(bitmap)
    {
      var ms, total := InitMaps(n);
      size, maps := n, ms;
      bitmap := new Byte[total](_ => 0);
      freeList, freePages := seq(MAX_ORDER, _ => []), 0;
      blocks := seq(MAX_ORDER, _ => {});
      new;
      forall i: nat | i / 8 < total
        ensures !Bitmap.Test(bitmap[..], i)
      {
        ZeroBits(i % 8);
      }
    }

    /** All of the invariant but the page counter, which lags during an operation. */
    ghost predicate Core()
      reads this, bitmap
    {
      State(size, maps, bitmap[..], freeList, blocks)
    }

    ghost function Free(): set<nat>
      reads this
    {
      FreeSet(blocks, size)
    }

    ghost predicate Valid()
      reads this, bitmap
    {
      Core() && freePages == |Free()|
    }

    method MarkUsed(index: nat, order: nat, ghost b: nat)
      requires Core() && order < MAX_ORDER && Inside(order, b, size) && index == b * Pow2(order)
      modifies bitmap
      ensures Toggles(old(bitmap[..]), bitmap[..], 8 * maps[order].base + b / 2)
    {
      PairBitIndex(maps, size, order, b);
      Bitmap.ChangeBit(index / Pow2(1 + order), bitmap, maps[order].base);
    }

    /** Give back one block: link it and toggle its pair bit. */
    method AddHead(page: nat, order: nat, ghost b: nat)
      requires Core() && order < MAX_ORDER && page == b * Pow2(order)
      requires Inside(order, b, size) && Region(order, b, size) !! Free()
      requires order < MAX_ORDER - 1 ==> Buddy(b) !in blocks[order]
      modifies this`freeList, this`blocks, bitmap
      ensures Core()
      ensures Free() == old(Free()) + Region(order, b, size)
      ensures freeList == old(freeList)[order := [page] + old(freeList)[order]]
    {
      NoneAround(blocks, size, order, b, order);
      MarkUsed(page, order, b);
      AddToggles(size, maps, old(bitmap[..]), bitmap[..], blocks, order, b);
      StateAdd(size, maps, bitmap[..], freeList, blocks, order, b, page);
      freeList := freeList[order := [page] + freeList[order]];
      blocks := blocks[order := blocks[order] + {b}];
    }

    /** Block `b` of order `o` lies in the zone and none of its pages is free. */
    ghost predicate Off(o: nat, b: nat)
      reads this
    {
      o < MAX_ORDER && Inside(o, b, size) && Region(o, b, size) !! Free()
    }

    /** One round of the splitting loop: give back the lower half of a block. */
    method SplitOnce(index: nat, order: nat, ghost c: nat)
      requires Core() && 0 < order && Off(order, c) && index == c * Pow2(order)
      modifies this`freeList, this`blocks, bitmap
      ensures Core() && Off(order - 1, 2 * c + 1)
      ensures Free() == old(Free()) + (Region(order, c, size) - Region(order - 1, 2 * c + 1, size))
      ensures Region(order - 1, 2 * c + 1, size) <= Region(order, c, size)
      ensures |old(freeList)| == MAX_ORDER && freeList == old(freeList)[order - 1 := [index] + old(freeList)[order - 1]]
    {
      hide State, Region, Inside, FreeSet;
      ListCount();
      Halves(order, c, size);
      HalfPages(order, c);
      OffListNotFree(order - 1, 2 * c + 1);
      AddHead(index, order - 1, 2 * c);
    }

    /** Split a block of order `high` that is off the lists down to order `low`, giving
        back the lower half at every step.  Returns the block that is left. */
    method Expand(page: nat, low: nat, high: nat, ghost b: nat) returns (r: nat)
      requires Core() && low <= high && Off(high, b) && page == b * Pow2(high)
      modifies this`freeList, this`blocks, bitmap
      ensures Core() && Off(low, Shr(r, low)) && r == Shr(r, low) * Pow2(low)
      ensures r + Pow2(low) == page + Pow2(high)
      ensures Region(low, Shr(r, low), size) <= Region(high, b, size)
      ensures Free() == old(Free()) + (Region(high, b, size) - Region(low, Shr(r, low), size))
      ensures Split(old(freeList), freeList, page, low, high)
    {
      hide State, Region, Inside, FreeSet, Pow2, Split;
      ListCount();
      SplitNone(freeList, page, high);
      var index: nat, order: nat, half: nat := page, high, Pow2(high);
      ghost var c: nat := b;
      while order > low
        invariant low <= order <= high && half == Pow2(order) && index + half == page + Pow2(high)
        invariant Core() && Off(order, c) && index == c * Pow2(order)
        invariant Region(order, c, size) <= Region(high, b, size)
        invariant Free() == old(Free()) + (Region(high, b, size) - Region(order, c, size))
        invariant Split(old(freeList), freeList, page, order, high)
      {
        SplitMore(old(freeList), freeList, page, order, high, index);
        OffListInRange(order, c);
        assert index < size;
        HalfPages(order, c);
        TwiceHalf(order);
        SplitOnce(index, order, c);
        order, half, c := order - 1, half / 2, 2 * c + 1;
        index := index + half;
      }
      OffListInRange(order, c);
      assert index < size;
      FirstPage(low, c);
      r := index;
    }

    lemma OffListInRange(o: nat, b: nat)
      requires Core() && o < MAX_ORDER && Inside(o, b, size)
      ensures b * Pow2(o) < size <= 0x10_0000
    {
      PairBitIndex(maps, size, o, b);
    }

    lemma OffListNotFree(o: nat, b: nat)
      requires Core() && o < MAX_ORDER && Inside(o, b, size) && Region(o, b, size) !! Free()
      ensures b !in blocks[o] && (b % 2 == 1 ==> Buddy(b - 1) !in blocks[o])
    {
      hide Inv, Layout, PairBits, ListedAt, Region, Inside, FreeSet;
      NoneAround(blocks, size, o, b, o);
      assert Shr(b, 0) == b;
    }

    /** Unlink the first block of an order and toggle its pair bit. */
    method TakeHead(order: nat) returns (index: nat)
      requires Core() && order < MAX_ORDER && freeList[order] != []
      modifies this`freeList, this`blocks, bitmap
      ensures index == old(freeList[order][0]) && freeList == old(freeList)[order := old(freeList)[order][1..]]
      ensures Core() && Off(order, Shr(index, order)) && index == Shr(index, order) * Pow2(order)
      ensures Region(order, Shr(index, order), size) <= old(Free())
      ensures Free() == old(Free()) - Region(order, Shr(index, order), size)
    {
      hide Inv, Layout, PairBits, Region, Inside, FreeSet;
      var list := freeList[order];
      index := list[0];
      ghost var b := Shr(index, order);
      BlockInside(order, b);
      OffListInRange(order, b);
      assert index < size;
      MarkUsed(index, order, b);
      RemoveToggles(size, maps, old(bitmap[..]), bitmap[..], blocks, order, b);
      StateRemove(size, maps, bitmap[..], freeList, blocks, order, b);
      WithoutHead(list);
      freeList := freeList[order := list[1..]];
      blocks := blocks[order := blocks[order] - {b}];
    }

    lemma BlockInside(o: nat, b: nat)
      requires Core() && o < MAX_ORDER && b in blocks[o]
      ensures Inside(o, b, size)
    {
    }

    /** Take the first block of order `from` and split it down to order `order`. */
    method AllocFrom(order: nat, from: nat) returns (r: nat)
      requires Valid() && order <= from < MAX_ORDER && freeList[from] != []
      modifies this, bitmap
      ensures Valid() && r % Pow2(order) == 0 && r + Pow2(order) <= size && r == Shr(r, order) * Pow2(order)
      ensures Interval(r, Pow2(order)) <= old(Free())
      ensures Free() == old(Free()) - Interval(r, Pow2(order))
      ensures (forall j :: order <= j < from ==> old(freeList)[j] == []) ==>
        Served(old(freeList), freeList, order, from, r)
    {
      hide State, Region, Inside, FreeSet, Pow2, Shr, Interval, Split, Served;
      ListCount();
      ghost var were, free := freeList, Free();
      var index := TakeHead(from);
      ghost var without := Free();
      r := Expand(index, order, from, Shr(index, from));
      SplitServes(were, freeList, order, from, r);
      GaveBack(free, without, Free(), Region(from, Shr(index, from), size), Region(order, Shr(r, order), size));
      BlockAsPages(size, order, r);
      TakenCount(old(Free()), r, Pow2(order));
      freePages := freePages - Pow2(order);
    }

    /** Allocate 2^order pages: take the first block of the smallest order that has one,
        and split it.  NULL is returned only if no block is large enough. */
    method Rmqueue(order: nat) returns (page: Option<nat>)
      requires Valid() && order < MAX_ORDER
      modifies this, bitmap
      ensures Valid()
      ensures page.None? <==> forall o :: order <= o < MAX_ORDER ==> old(freeList)[o] == []
      ensures page.None? <==> !SomeFull(old(Free()), order)
      ensures page.None? ==> Free() == old(Free()) && freeList == old(freeList)
      ensures page.Some? ==>
        && page.value % Pow2(order) == 0 && page.value + Pow2(order) <= size
        && Interval(page.value, Pow2(order)) <= old(Free())
        && Free() == old(Free()) - Interval(page.value, Pow2(order))
      ensures page.Some? ==> exists o :: Served(old(freeList), freeList, order, o, page.value)
    {
      hide Inv, Layout, PairBits, ListedAt, FreeSet, SomeFull, Pow2, Shr, Served;
      var currOrder := order;
      while currOrder < MAX_ORDER
        invariant order <= currOrder <= MAX_ORDER
        invariant unchanged(this) && unchanged(bitmap)
        invariant forall o :: order <= o < currOrder ==> freeList[o] == []
      {
        if freeList[currOrder] != [] {
          var r := AllocFrom(order, currOrder);
          RunIsFull(old(Free()), order, r);
          return Some(r);
        }
        currOrder := currOrder + 1;
      }
      NothingListed(order);
      return None;
    }

    /** The list of each order holds exactly the maximal free blocks of that order. */
    lemma ListedMaximal(o: nat, b: nat)
      requires Core() && o < MAX_ORDER
      ensures b * Pow2(o) in freeList[o] <==> Maximal(Free(), o, b)
    {
      ListedOf(freeList, blocks, o);
      FirstPage(o, b);
      Canonical(blocks, size, o, b);
    }

    lemma AllMaximal()
      requires Core()
      ensures Lists(freeList, Free())
    {
      hide Maximal, State;
      assert |freeList| == MAX_ORDER by { ListCount(); }
      forall o, b: nat | 0 <= o < MAX_ORDER
        ensures b * Pow2(o) in freeList[o] <==> Maximal(Free(), o, b)
      {
        ListedMaximal(o, b);
      }
    }

    lemma ListCount()
      requires Core()
      ensures |freeList| == MAX_ORDER && Plain(freeList)
    {
      hide Inv, Layout, PairBits;
    }

    lemma NothingListed(order: nat)
      requires Core() && order < MAX_ORDER && forall o :: order <= o < MAX_ORDER ==> freeList[o] == []
      ensures !SomeFull(Free(), order)
    {
      forall o | order <= o < MAX_ORDER
        ensures blocks[o] == {}
      {
        ListedOf(freeList, blocks, o);
        assert forall b :: b in blocks[o] ==> b * Pow2(o) in freeList[o];
      }
      NoneListed(blocks, size, order);
    }

    /** What the pair bit says to the merging loop. */
    lemma PairBitMeaning(o: nat, b: nat)
      requires Core() && o < MAX_ORDER - 1 && Off(o, b)
      ensures |maps| == |blocks| == MAX_ORDER
      ensures b !in blocks[o] && maps[o].Holds(b / 2) && maps[o].base + (b / 2) / 8 < bitmap.Length
      ensures Bitmap.Test(bitmap[..], 8 * maps[o].base + b / 2) <==> Buddy(b) in blocks[o]
    {
      hide Inv, PairBits, ListedAt, Region, Inside, FreeSet;
      OffListNotFree(o, b);
      PairBitIndex(maps, size, o, b);
      PairBitOf(bitmap[..], maps, blocks, o, b);
    }

    /** Block `b` of order `o` may be linked: its pair bit has been toggled already. */
    ghost predicate ReadyToLink(o: nat, b: nat)
      reads this, bitmap
    {
      && size <= 0x10_0000 && Layout(maps, size) && Inv(blocks, size) && Listed(freeList, blocks)
      && Off(o, b) && (o < MAX_ORDER - 1 ==> Buddy(b) !in blocks[o])
      && PairBits(bitmap[..], maps, blocks[o := blocks[o] + {b}])
    }

    lemma TopIsReady(b: nat)
      requires Core() && Off(MAX_ORDER - 1, b)
      ensures ReadyToLink(MAX_ORDER - 1, b)
    {
    }

    /** One round of the merging loop: toggle the pair bit, and if it was set unlink the
        free buddy, so that the block twice as large is off the lists. */
    method TryMerge(pageIdx: nat, index: nat, mask: nat, o: nat, ghost b: nat) returns (merged: bool)
      requires Core() && o < MAX_ORDER - 1 && Off(o, b)
      requires pageIdx == b * Pow2(o) && index == b / 2 && mask == WORD - Pow2(o)
      modifies this`freeList, this`blocks, bitmap
      ensures merged == old(Buddy(b) in blocks[o]) == (Buddy(b) * Pow2(o) in old(freeList[o]))
      ensures !merged ==> ReadyToLink(o, b) && Free() == old(Free()) && freeList == old(freeList)
      ensures merged ==> freeList == old(freeList)[o := Without(old(freeList)[o], Buddy(b) * Pow2(o))]
      ensures merged ==> Core() && Off(o + 1, b / 2)
      ensures merged ==> Free() + Region(o + 1, b / 2, size) == old(Free()) + Region(o, b, size)
    {
      hide Inv, Layout, PairBits, ListedAt, Region, Inside, FreeSet, Pow2, Xor, Shr;
      PairBitMeaning(o, b);
      BuddyListed(o, b);
      MaskStep(o, mask);
      var was := Bitmap.TestAndChangeBit(index, bitmap, maps[o].base);
      if was == 0 {
        AddToggles(size, maps, old(bitmap[..]), bitmap[..], blocks, o, b);
        return false;
      }
      BuddyByXor(o, b);
      var buddy := Xor(pageIdx, Sub32(0, mask));
      BuddyOffList(o, b);
      assert buddy < size && pageIdx < size;
      RemoveToggles(size, maps, old(bitmap[..]), bitmap[..], blocks, o, Buddy(b));
      StateRemove(size, maps, bitmap[..], freeList, blocks, o, Buddy(b));
      Halves(o + 1, b / 2, size);
      freeList := freeList[o := Without(freeList[o], buddy)];
      blocks := blocks[o := blocks[o] - {Buddy(b)}];
      return true;
    }

    lemma BuddyListed(o: nat, b: nat)
      requires Core() && o < MAX_ORDER
      ensures Buddy(b) * Pow2(o) in freeList[o] <==> Buddy(b) in blocks[o]
    {
      ListedOf(freeList, blocks, o);
      FirstPage(o, Buddy(b));
    }

    lemma BuddyOffList(o: nat, b: nat)
      requires Inv(blocks, size) && o < MAX_ORDER && Inside(o, b, size) && Buddy(b) in blocks[o]
      ensures Inside(o, Buddy(b), size) && Buddy(b) * Pow2(o) < size && b * Pow2(o) < size
    {
      FirstPage(o, b);
      FirstPage(o, Buddy(b));
    }

    /** Free 2^order pages: merge with the buddy as long as it is free, then link. */
    method FreePagesOk(page: nat, order: nat)
      requires Valid() && order < MAX_ORDER
      requires page % Pow2(order) == 0 && page + Pow2(order) <= size
      requires Interval(page, Pow2(order)) !! Free()
      modifies this, bitmap
      ensures Valid()
      ensures Free() == old(Free()) + Interval(page, Pow2(order))
      ensures exists o :: GivenBack(old(freeList), freeList, page, order, o)
    {
      hide State, Region, Inside, FreeSet, Inv, Layout, PairBits, Listed, ReadyToLink, GivenBack;
      hide Pow2, Add32, Sub32, Shl32;
      AlignedBlock(order, page);
      BlockAsPages(size, order, page);
      OffListInRange(order, Shr(page, order));
      InitialMask(order);
      AndLowMask(page, order);
      FreeCount(blocks, size);
      EntryIndex(order, page);
      var mask: nat := Shl32(WORD - 1, order);
      assert And(page, WORD - 1 - mask) == 0;
      var index: nat := page / Pow2(1 + order);
      MaskStep(order, mask);
      freePages := Sub32(freePages, mask);
      MergeAndLink(page, index, mask, order, Shr(page, order));
      IntervalSize(page, Pow2(order));
      UnionSize(old(Free()), Interval(page, Pow2(order)));
    }

    /** The merging loop, and the linking of the block it arrives at. */
    method MergeAndLink(page: nat, firstIndex: nat, firstMask: nat, order: nat, ghost first: nat)
      requires Core() && Off(order, first)
      requires page == first * Pow2(order) && firstIndex == first / 2 && firstMask == WORD - Pow2(order)
      modifies this`freeList, this`blocks, bitmap
      ensures Core() && Free() == old(Free()) + Region(order, first, size)
      ensures exists o :: GivenBack(old(freeList), freeList, page, order, o)
    {
      hide State, Region, Inside, FreeSet, Inv, Layout, PairBits, Listed, ReadyToLink, Growing, GivenBack;
      hide Pow2, Add32, Sub32, Shl32, Shr;
      ListCount();
      GrowingStarts(freeList, page, order, first);
      var pageIdx: nat, index: nat, mask: nat, o: nat := page, firstIndex, firstMask, order;
      ghost var b: nat := first;
      while Add32(mask, 512) != 0
        invariant o < MAX_ORDER && mask == WORD - Pow2(o)
        invariant pageIdx == b * Pow2(o) && index == b / 2
        invariant Core() && Off(o, b)
        invariant Free() + Region(o, b, size) == old(Free()) + Region(order, first, size)
        invariant b == Shr(page, o) && Growing(old(freeList), freeList, page, order, o)
        decreases MAX_ORDER - o
      {
        MaskStep(o, mask);
        OffListInRange(o, b);
        GrowingStep(old(freeList), freeList, page, order, o);
        var merged := TryMerge(pageIdx, index, mask, o, b);
        if !merged {
          break;
        }
        MergeByMask(o, b);
        mask := Shl32(mask, 1);
        o, index, b := o + 1, index / 2, b / 2;
        pageIdx := And(pageIdx, mask);
      }
      MaskStep(o, mask);
      if o == MAX_ORDER - 1 { TopIsReady(b); }
      GrowingEnds(old(freeList), freeList, page, order, o);
      Link(pageIdx, o, b);
    }

    method Link(page: nat, o: nat, ghost b: nat)
      requires ReadyToLink(o, b) && page == b * Pow2(o)
      modifies this`freeList, this`blocks
      ensures Core() && Free() == old(Free()) + Region(o, b, size)
      ensures |old(freeList)| == MAX_ORDER && freeList == old(freeList)[o := [page] + old(freeList)[o]]
    {
      hide Inv, Layout, PairBits, ListedAt, Region, Inside, FreeSet;
      StateAdd(size, maps, bitmap[..], freeList, blocks, o, b, page);
      freeList := freeList[o := [page] + freeList[o]];
      blocks := blocks[o := blocks[o] + {b}];
    }
  }
}
