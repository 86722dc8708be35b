/** The simple view of the page allocator: for every order a set of free block
    numbers, where block `b` of order `o` is the pages `b * 2^o .. (b + 1) * 2^o`.
    Everything here is independent of lists, bitmaps and mask arithmetic.  Page `p` lies in block
    `Shr(p, o)` of order `o`, and block `b` in block `Shr(b, k)` of `k` orders above. */
module BuddyTheory {
  import opened Common
  import opened Words

  const MAX_ORDER: nat := 10

  type Blocks = seq<set<nat>>

  function Buddy(b: nat): nat {
    if b % 2 == 0 then b + 1 else b - 1
  }

  ghost predicate IsFree(bs: Blocks, p: nat) {
    exists o :: 0 <= o < |bs| && Shr(p, o) in bs[o]
  }

  /** The free pages of a zone of `size` pages. */
  ghost function FreeSet(bs: Blocks, size: nat): set<nat> {
    set p: nat | p < size && IsFree(bs, p)
  }

  /** The pages of block `b` of order `o` that lie in the zone. */
  ghost function Region(o: nat, b: nat, size: nat): set<nat> {
    set p: nat | p < size && Shr(p, o) == b
  }

  /** Every page of block `b` of order `o` is a page of the zone. */
  ghost predicate Inside(o: nat, b: nat, size: nat) {
    forall p: nat :: Shr(p, o) == b ==> p < size
  }

  ghost predicate InRange(bs: Blocks, size: nat)
    requires |bs| == MAX_ORDER
  {
    forall o, b :: 0 <= o < MAX_ORDER && b in bs[o] ==> Inside(o, b, size)
  }

  ghost predicate Disjoint(bs: Blocks)
    requires |bs| == MAX_ORDER
  {
    forall o1, o2, b :: 0 <= o1 < o2 < MAX_ORDER && b in bs[o1] ==> Shr(b, o2 - o1) !in bs[o2]
  }

  /** Below the top order two buddies are never both free: they would have merged. */
  ghost predicate Merged(bs: Blocks)
    requires |bs| == MAX_ORDER
  {
    forall o, b :: 0 <= o < MAX_ORDER - 1 && b in bs[o] ==> Buddy(b) !in bs[o]
  }

  ghost predicate Inv(bs: Blocks, size: nat) {
    |bs| == MAX_ORDER && InRange(bs, size) && Disjoint(bs) && Merged(bs)
  }

  // ---------- block numbers ----------

  lemma BlockPages(o: nat, b: nat, p: nat)
    ensures Shr(p, o) == b <==> b * Pow2(o) <= p < (b + 1) * Pow2(o)
  {
    hide Shr, Pow2;
    ShrIsDiv(p, o);
    var d := Pow2(o);
    assert (b + 1) * d == b * d + d;
    if b * d <= p < b * d + d {
      DivModUnique(p, d, b, p - b * d);
    }
  }

  lemma FirstPage(o: nat, b: nat)
    ensures Shr(b * Pow2(o), o) == b
  {
    assert (b + 1) * Pow2(o) == b * Pow2(o) + Pow2(o);
    BlockPages(o, b, b * Pow2(o));
  }

  lemma InsideIffFits(o: nat, b: nat, size: nat)
    ensures Inside(o, b, size) <==> (b + 1) * Pow2(o) <= size
  {
    var last := (b + 1) * Pow2(o) - 1;
    assert (b + 1) * Pow2(o) == b * Pow2(o) + Pow2(o);
    BlockPages(o, b, last);
    forall p: nat | Shr(p, o) == b
      ensures p < (b + 1) * Pow2(o)
    {
      BlockPages(o, b, p);
    }
  }

  lemma RegionIsInterval(o: nat, b: nat, size: nat)
    requires Inside(o, b, size)
    ensures Region(o, b, size) == Interval(b * Pow2(o), Pow2(o))
  {
    assert (b + 1) * Pow2(o) == b * Pow2(o) + Pow2(o);
    InsideIffFits(o, b, size);
    forall p: nat
      ensures p in Region(o, b, size) <==> p in Interval(b * Pow2(o), Pow2(o))
    {
      BlockPages(o, b, p);
    }
  }

  // ---------- adding and removing one block ----------

  lemma BlockIsFree(bs: Blocks, size: nat, o: nat, b: nat)
    requires Inv(bs, size) && o < MAX_ORDER && b in bs[o]
    ensures forall p: nat :: Shr(p, o) == b ==> p < size && IsFree(bs, p)
  {
    forall p: nat | Shr(p, o) == b
      ensures p < size && IsFree(bs, p)
    {
      assert Inside(o, b, size);
    }
  }

  /** A block none of whose pages is free lies in no free block ... */
  lemma NoneAround(bs: Blocks, size: nat, o: nat, b: nat, o2: nat)
    requires Inv(bs, size) && o <= o2 < MAX_ORDER
    requires Inside(o, b, size) && Region(o, b, size) !! FreeSet(bs, size)
    ensures Shr(b, o2 - o) !in bs[o2]
  {
    var p := b * Pow2(o);
    FirstPage(o, b);
    ShrShr(p, o, o2 - o);
    assert p in Region(o, b, size);
  }

  /** ... and contains none. */
  lemma NoneWithin(bs: Blocks, size: nat, o: nat, b: nat, o1: nat, c: nat)
    requires Inv(bs, size) && o1 < o < MAX_ORDER && c in bs[o1]
    requires Region(o, b, size) !! FreeSet(bs, size)
    ensures Shr(c, o - o1) != b
  {
    var p := c * Pow2(o1);
    FirstPage(o1, c);
    ShrShr(p, o1, o - o1);
    assert Inside(o1, c, size);
    assert p in FreeSet(bs, size);
  }

  lemma AddBlock(bs: Blocks, size: nat, o: nat, b: nat)
    requires Inv(bs, size) && o < MAX_ORDER
    requires Inside(o, b, size)
    requires Region(o, b, size) !! FreeSet(bs, size)
    requires o < MAX_ORDER - 1 ==> Buddy(b) !in bs[o]
    ensures b !in bs[o]
    ensures Inv(bs[o := bs[o] + {b}], size)
    ensures FreeSet(bs[o := bs[o] + {b}], size) == FreeSet(bs, size) + Region(o, b, size)
  {
    var r := bs[o := bs[o] + {b}];
    assert b !in bs[o] by { NoneAround(bs, size, o, b, o); }
    forall o1, o2, c | 0 <= o1 < o2 < MAX_ORDER && c in r[o1]
      ensures Shr(c, o2 - o1) !in r[o2]
    {
      if o1 == o && c == b { NoneAround(bs, size, o, b, o2); }
      if o2 == o { NoneWithin(bs, size, o, b, o1, c); }
    }
    assert Merged(r);
    forall p: nat | p < size
      ensures IsFree(r, p) <==> IsFree(bs, p) || Shr(p, o) == b
    {
      if IsFree(bs, p) {
        var j :| 0 <= j < MAX_ORDER && Shr(p, j) in bs[j];
        assert Shr(p, j) in r[j];
      }
      if Shr(p, o) == b { assert Shr(p, o) in r[o]; }
    }
  }

  lemma RemoveBlock(bs: Blocks, size: nat, o: nat, b: nat)
    requires Inv(bs, size) && o < MAX_ORDER && b in bs[o]
    ensures Inv(bs[o := bs[o] - {b}], size)
    ensures Region(o, b, size) <= FreeSet(bs, size)
    ensures FreeSet(bs[o := bs[o] - {b}], size) == FreeSet(bs, size) - Region(o, b, size)
  {
    var r := bs[o := bs[o] - {b}];
    BlockIsFree(bs, size, o, b);
    forall p: nat | p < size
      ensures IsFree(r, p) <==> IsFree(bs, p) && Shr(p, o) != b
    {
      if IsFree(r, p) {
        var j :| 0 <= j < MAX_ORDER && Shr(p, j) in r[j];
        assert Shr(p, j) in bs[j];
        if Shr(p, o) == b { OneOrder(bs, size, p, o, j); }
      }
      if IsFree(bs, p) && Shr(p, o) != b {
        var j :| 0 <= j < MAX_ORDER && Shr(p, j) in bs[j];
        assert Shr(p, j) in r[j];
      }
    }
  }

  /** A page is covered by free blocks of one order only. */
  lemma {:induction false} OneOrder(bs: Blocks, size: nat, p: nat, o1: nat, o2: nat)
    requires Inv(bs, size) && o1 < MAX_ORDER && o2 < MAX_ORDER
    requires Shr(p, o1) in bs[o1] && Shr(p, o2) in bs[o2]
    ensures o1 == o2
  {
    if o2 < o1 {
      OneOrder(bs, size, p, o2, o1);
    } else if o1 < o2 {
      ShrShr(p, o1, o2 - o1);
    }
  }

  // ---------- the decomposition is canonical ----------

  ghost predicate Full(free: set<nat>, o: nat, b: nat) {
    forall p: nat :: Shr(p, o) == b ==> p in free
  }

  /** Some aligned block of order `o` is free in one piece. */
  ghost predicate SomeFull(free: set<nat>, o: nat) {
    exists b: nat :: Full(free, o, b)
  }

  /** Block `b` of order `o` is free in one piece and not part of a larger such block. */
  ghost predicate Maximal(free: set<nat>, o: nat, b: nat) {
    Full(free, o, b) && (o < MAX_ORDER - 1 ==> !Full(free, o + 1, b / 2))
  }

  lemma FullHalves(free: set<nat>, o: nat, b: nat)
    requires Full(free, o + 1, b)
    ensures Full(free, o, 2 * b) && Full(free, o, 2 * b + 1)
  {
    forall p: nat | Shr(p, o) == 2 * b || Shr(p, o) == 2 * b + 1
      ensures p in free
    {
      ShrStep(p, o);
    }
  }

  lemma {:induction false} FullIsCovered(bs: Blocks, size: nat, o: nat, b: nat) returns (j: nat)
    requires Inv(bs, size) && o < MAX_ORDER && Full(FreeSet(bs, size), o, b)
    ensures o <= j < MAX_ORDER && Shr(b, j - o) in bs[j]
    decreases o
  {
    hide Full, FreeSet, InRange, Disjoint, Merged;
    if o == 0 {
      j := PageIsCovered(bs, size, b);
    } else {
      FullHalves(FreeSet(bs, size), o - 1, b);
      j := FullIsCovered(bs, size, o - 1, 2 * b);
      if j == o - 1 {
        assert Shr(2 * b, 0) == 2 * b;
        j := FullIsCovered(bs, size, o - 1, 2 * b + 1);
        if j == o - 1 {
          assert Shr(2 * b + 1, 0) == 2 * b + 1;
          NotBoth(bs, o - 1, b);
        }
      }
      assert Shr(2 * b, j - (o - 1)) == Shr(b, j - o) == Shr(2 * b + 1, j - (o - 1));
    }
  }

  lemma PageIsCovered(bs: Blocks, size: nat, p: nat) returns (j: nat)
    requires |bs| == MAX_ORDER && Full(FreeSet(bs, size), 0, p)
    ensures j < MAX_ORDER && Shr(p, j) in bs[j]
  {
    assert Shr(p, 0) == p;
    assert IsFree(bs, p);
    j :| 0 <= j < MAX_ORDER && Shr(p, j) in bs[j];
  }

  /** Two buddies below the top order are never both listed. */
  lemma NotBoth(bs: Blocks, o: nat, b: nat)
    requires |bs| == MAX_ORDER && Merged(bs) && o < MAX_ORDER - 1
    ensures !(2 * b in bs[o] && 2 * b + 1 in bs[o])
  {
    assert Buddy(2 * b) == 2 * b + 1;
  }

  /** With no block listed from order `o` on, no aligned block of order `o` is free in one piece. */
  lemma NoneListed(bs: Blocks, size: nat, o: nat)
    requires Inv(bs, size) && o < MAX_ORDER && forall j :: o <= j < MAX_ORDER ==> bs[j] == {}
    ensures !SomeFull(FreeSet(bs, size), o)
  {
    hide Full, Inv, FreeSet;
    if b: nat :| Full(FreeSet(bs, size), o, b) {
      var j := FullIsCovered(bs, size, o, b);
    }
  }

  /** An aligned run of free pages is such a block. */
  lemma RunIsFull(free: set<nat>, o: nat, p: nat)
    requires p == Shr(p, o) * Pow2(o) && Interval(p, Pow2(o)) <= free
    ensures SomeFull(free, o)
  {
    hide Shr, Pow2, Interval;
    var b := Shr(p, o);
    NextBlock(b, Pow2(o));
    forall q: nat | Shr(q, o) == b
      ensures q in free
    {
      BlockPages(o, b, q);
      InInterval(p, Pow2(o), q);
    }
    assert Full(free, o, b);
  }

  lemma NextBlock(b: nat, d: nat)
    ensures (b + 1) * d == b * d + d
  {
  }

  lemma InInterval(p: nat, n: nat, q: nat)
    ensures q in Interval(p, n) <==> p <= q < p + n
  {
  }

  /** The free blocks are exactly the maximal aligned blocks of free pages. */
  lemma Canonical(bs: Blocks, size: nat, o: nat, b: nat)
    requires Inv(bs, size) && o < MAX_ORDER
    ensures b in bs[o] <==> Maximal(FreeSet(bs, size), o, b)
  {
    var f := FreeSet(bs, size);
    if b in bs[o] {
      BlockIsFree(bs, size, o, b);
      if o < MAX_ORDER - 1 && Full(f, o + 1, b / 2) {
        var j := FullIsCovered(bs, size, o + 1, b / 2);
        assert false;
      }
    }
    if Maximal(f, o, b) {
      var j := FullIsCovered(bs, size, o, b);
      if o < j {
        forall p: nat | Shr(p, o + 1) == b / 2
          ensures p in f
        {
          ShrShr(p, o + 1, j - o - 1);
          BlockIsFree(bs, size, j, Shr(b, j - o));
        }
      }
    }
  }

  /** Two states with the same free pages have the same blocks at every order. */
  lemma SamePagesSameBlocks(bs: Blocks, cs: Blocks, size: nat)
    requires Inv(bs, size) && Inv(cs, size)
    requires FreeSet(bs, size) == FreeSet(cs, size)
    ensures bs == cs
  {
    forall o | 0 <= o < MAX_ORDER
      ensures bs[o] == cs[o]
    {
      forall b: nat
        ensures b in bs[o] <==> b in cs[o]
      {
        Canonical(bs, size, o, b);
        Canonical(cs, size, o, b);
      }
    }
  }
}
