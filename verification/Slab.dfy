/** mm/slab.c at run time: the free chain of a slab, the order of a cache's slabs, and
    allocation and freeing of objects. */
module Slab {
  import opened Common
  import opened Words
  import opened SlabLayout

  const BUFCTL_END: nat := 0xFFFF_FFFF

  // ---------- the free chain ----------

  function At(chain: seq<nat>, i: nat): nat {
    if i < |chain| then chain[i] else BUFCTL_END
  }

  /** The links spell out a chain of distinct objects from `free` to the end mark, and there
      are as many of them as objects not in use. */
  ghost predicate Chained(bufctl: seq<nat>, free: nat, inuse: nat, chain: seq<nat>) {
    && |bufctl| <= SLAB_LIMIT && NoDup(chain) && |chain| + inuse == |bufctl|
    && (forall i :: 0 <= i < |chain| ==> chain[i] < |bufctl|)
    && free == At(chain, 0)
    && (forall i :: 0 <= i < |chain| ==> bufctl[chain[i]] == At(chain, i + 1))
  }

  lemma ChainPop(bufctl: seq<nat>, free: nat, inuse: nat, chain: seq<nat>)
    requires Chained(bufctl, free, inuse, chain) && chain != []
    ensures free < |bufctl| && free == chain[0] && free !in chain[1..]
    ensures Chained(bufctl, bufctl[free], inuse + 1, chain[1..])
  {
    var c := chain[1..];
    forall i | 0 <= i < |c|
      ensures c[i] < |bufctl| && bufctl[c[i]] == At(c, i + 1)
    {
      assert c[i] == chain[i + 1];
      assert bufctl[chain[i + 1]] == At(chain, i + 1 + 1);
    }
  }

  lemma ChainPush(bufctl: seq<nat>, free: nat, inuse: nat, chain: seq<nat>, k: nat)
    requires Chained(bufctl, free, inuse, chain) && k < |bufctl| && k !in chain && inuse > 0
    ensures Chained(bufctl[k := free], k, inuse - 1, [k] + chain)
  {
    var c, b := [k] + chain, bufctl[k := free];
    forall i | 0 <= i < |c|
      ensures c[i] < |b| && b[c[i]] == At(c, i + 1)
    {
      if i > 0 { assert c[i] == chain[i - 1]; }
    }
  }

  lemma ChainInit(bufctl: seq<nat>, num: nat, chain: seq<nat>)
    requires |bufctl| == |chain| == num && 0 < num <= SLAB_LIMIT
    requires forall k :: 0 <= k < num ==> chain[k] == k && bufctl[k] == if k + 1 < num then k + 1 else BUFCTL_END
    ensures Chained(bufctl, 0, 0, chain) && forall k :: 0 <= k < num ==> k in chain
  {
    forall k | 0 <= k < num
      ensures k in chain
    {
      assert chain[k] == k;
    }
  }

  /** A full slab has no free object; with none in use all are free. */
  lemma ChainEnds(bufctl: seq<nat>, free: nat, inuse: nat, chain: seq<nat>)
    requires Chained(bufctl, free, inuse, chain)
    ensures chain == [] <==> inuse == |bufctl|
    ensures free == BUFCTL_END <==> chain == []
  {
  }

  /** The changing fields of a slab as a value. */
  datatype Rec = Rec(inuse: nat, free: nat, bufctl: seq<nat>, chain: seq<nat>)

  type Recs = map<SlabObj, Rec>

  ghost predicate RecOk(r: Rec, num: nat) {
    |r.bufctl| == num && Chained(r.bufctl, r.free, r.inuse, r.chain)
  }

  ghost function Snapshots(list: seq<SlabObj>): Recs
    reads list
  {
    map s | s in list :: s.Snapshot()
  }

  /** A slab_t with its array of links.  `page` is the number of its first page, `sMem` the
      address of its first object, `colour` its colour, and `born` the attempt to grow the cache
      that made it. */
  class SlabObj {
    const page: nat
    const sMem: nat
    ghost const colour: nat
    ghost const born: nat
    var inuse: nat
    var free: nat
    var bufctl: seq<nat>
    ghost var chain: seq<nat>

    ghost function Snapshot(): Rec
      reads this
    {
      Rec(inuse, free, bufctl, chain)
    }

    ghost predicate Ok(num: nat)
      reads this
    {
      RecOk(Snapshot(), num)
    }

    /** kmem_cache_init_objs, on a slab set up by kmem_cache_slabmgmt. */
    constructor (page: nat, sMem: nat, num: nat, ghost colour: nat, ghost born: nat)
      requires 0 < num <= SLAB_LIMIT
      ensures Ok(num) && inuse == 0 && this.page == page && this.sMem == sMem && this.colour == colour
      ensures this.born == born && |chain| == num && forall k :: 0 <= k < num ==> chain[k] == k
    {
      this.page, this.sMem, this.colour, this.born, this.inuse := page, sMem, colour, born, 0;
      new;
      var b: seq<nat> := [];
      var i: nat := 0;
      while i < num
        invariant i <= num && |b| == i && forall k :: 0 <= k < i ==> b[k] == k + 1
      {
        b := b + [i + 1];
        i := i + 1;
      }
      b := b[i - 1 := BUFCTL_END];
      this.bufctl, this.free := b, 0;
      this.chain := seq(num, k requires 0 <= k < num => k);
      ChainInit(b, num, chain);
    }

    /** The slab's part of kmem_cache_alloc_one_tail. */
    method TakeObject(num: nat) returns (k: nat)
      requires Ok(num) && inuse < num
      modifies this
      ensures Ok(num) && inuse == old(inuse) + 1 && k < num
      ensures old(chain) == [k] + chain && k !in chain
      ensures free == BUFCTL_END <==> inuse == num
    {
      ChainEnds(bufctl, free, inuse, chain);
      ChainPop(bufctl, free, inuse, chain);
      inuse := inuse + 1;
      k := free;
      free := bufctl[free];
      chain := chain[1..];
      ChainEnds(bufctl, free, inuse, chain);
    }

    /** The slab's part of kmem_cache_free_one. */
    method PutObject(k: nat, num: nat)
      requires Ok(num) && k < num && k !in chain && inuse > 0
      modifies this
      ensures Ok(num) && inuse == old(inuse) - 1
      ensures chain == [k] + old(chain)
    {
      ChainPush(bufctl, free, inuse, chain, k);
      bufctl := bufctl[k := free];
      free := k;
      chain := [k] + chain;
      inuse := inuse - 1;
    }
  }

  // ---------- the list of slabs: a circle through its head, here null ----------

  function Index(list: seq<SlabObj>, s: SlabObj): (i: nat)
    requires s in list
    ensures i < |list| && list[i] == s
  {
    if list[0] == s then 0 else 1 + Index(list[1..], s)
  }

  function Succ(list: seq<SlabObj>, s: SlabObj?): SlabObj?
    requires s == null || s in list
  {
    var i := if s == null then 0 else Index(list, s) + 1;
    if i < |list| then list[i] else null
  }

  function Pred(list: seq<SlabObj>, s: SlabObj?): SlabObj?
    requires s == null || s in list
  {
    var i := if s == null then |list| else Index(list, s);
    if i > 0 then list[i - 1] else null
  }

  /** list_del. */
  function Without(list: seq<SlabObj>, s: SlabObj): seq<SlabObj>
    requires s in list
  {
    var i := Index(list, s);
    list[..i] + list[i + 1..]
  }

  /** list_add_tail: insert before `t`. */
  function InsertBefore(list: seq<SlabObj>, s: SlabObj, t: SlabObj?): seq<SlabObj>
    requires t == null || t in list
  {
    var i := if t == null then |list| else Index(list, t);
    list[..i] + [s] + list[i..]
  }

  /** `list` with the element at `i` moved to just before the one at `j`. */
  function Moved<T>(list: seq<T>, i: nat, j: nat, x: T): seq<T>
    requires i < j <= |list|
  {
    list[..i] + list[i + 1..j] + [x] + list[j..]
  }

  lemma MovedAt<T>(list: seq<T>, i: nat, j: nat, x: T, k: nat)
    requires i < j <= |list| && k < |list|
    ensures |Moved(list, i, j, x)| == |list|
    ensures Moved(list, i, j, x)[k] ==
      if k < i || k >= j then list[k] else if k < j - 1 then list[k + 1] else x
  {
  }

  /** The slab `s` of a list is taken out and put in before place `j`; the others keep their order. */
  ghost predicate Relinked(list: seq<SlabObj>, now: seq<SlabObj>, s: SlabObj, j: nat) {
    exists i :: 0 <= i < j <= |list| && list[i] == s && now == list[..i] + list[i + 1..j] + [s] + list[j..]
  }

  lemma MovedRelinks(list: seq<SlabObj>, i: nat, j: nat)
    requires i < j <= |list|
    ensures Relinked(list, Moved(list, i, j, list[i]), list[i], j)
  {
  }

  /** The same slabs, in another order. */
  ghost predicate Kept(a: seq<SlabObj>, b: seq<SlabObj>) {
    |a| == |b| && (forall s :: s in a ==> s in b) && (forall s :: s in b ==> s in a)
  }

  lemma MovedSame(list: seq<SlabObj>, i: nat, j: nat)
    requires NoDup(list) && i < j <= |list|
    ensures NoDup(Moved(list, i, j, list[i])) && Kept(Moved(list, i, j, list[i]), list)
  {
    var m := Moved(list, i, j, list[i]);
    assert list == list[..i] + [list[i]] + list[i + 1..j] + list[j..];
    hide Moved;
    forall a, b | 0 <= a < b < |list|
      ensures |m| == |list| && m[a] != m[b]
    {
      MovedAt(list, i, j, list[i], a);
      MovedAt(list, i, j, list[i], b);
    }
  }

  lemma IndexIs(list: seq<SlabObj>, i: nat)
    requires NoDup(list) && i < |list|
    ensures list[i] in list && Index(list, list[i]) == i
  {
    hide Index;
    var k := Index(list, list[i]);
    assert !(k < i) && !(i < k);
  }

  /** Deleting and inserting again is a move. */
  lemma MoveIs(list: seq<SlabObj>, i: nat, j: nat)
    requires NoDup(list) && i < j <= |list|
    ensures list[i] in list
    ensures var t := if j < |list| then list[j] else null;
      && (t == null || t in Without(list, list[i]))
      && InsertBefore(Without(list, list[i]), list[i], t) == Moved(list, i, j, list[i])
  {
    hide Index;
    IndexIs(list, i);
    var w := list[..i] + list[i + 1..];
    assert Without(list, list[i]) == w;
    if j < |list| {
      assert w[j - 1] == list[j];
      WithoutNoDup(list, i);
      IndexIs(w, j - 1);
    }
    hide Without;
    Spliced(list, i, j);
  }

  lemma Spliced(list: seq<SlabObj>, i: nat, j: nat)
    requires i < j <= |list|
    ensures var w := list[..i] + list[i + 1..]; w[..j - 1] + [list[i]] + w[j - 1..] == Moved(list, i, j, list[i])
  {
    var w := list[..i] + list[i + 1..];
    assert w[..j - 1] == list[..i] + list[i + 1..j];
    assert w[j - 1..] == list[j..];
  }

  lemma WithoutNoDup(list: seq<SlabObj>, i: nat)
    requires NoDup(list) && i < |list|
    ensures NoDup(list[..i] + list[i + 1..])
  {
  }

  // ---------- full slabs first, then partial, then empty ----------

  ghost function Uses(list: seq<SlabObj>, recs: Recs): (u: seq<nat>)
    requires forall s :: s in list ==> s in recs
    ensures |u| == |list| && forall i :: 0 <= i < |list| ==> u[i] == recs[list[i]].inuse
  {
    if list == [] then [] else [recs[list[0]].inuse] + Uses(list[1..], recs)
  }

  predicate InClass(use: nat, i: nat, num: nat, full: nat, busy: nat) {
    if i < full then use == num else if i < busy then 0 < use < num else use == 0
  }

  ghost predicate Ordered(uses: seq<nat>, num: nat, full: nat, busy: nat) {
    full <= busy <= |uses| && forall i :: 0 <= i < |uses| ==> InClass(uses[i], i, num, full, busy)
  }

  lemma AllocOrdered(uses: seq<nat>, num: nat, full: nat, busy: nat)
    requires Ordered(uses, num, full, busy) && full < |uses| && num > 0
    ensures uses[full] < num
    ensures Ordered(uses[full := uses[full] + 1], num, if uses[full] + 1 == num then full + 1 else full,
                    if busy > full then busy else full + 1)
  {
    assert InClass(uses[full], full, num, full, busy);
  }

  /** A full slab that loses an object goes in front of the slabs that are not full. */
  lemma FullOrdered(uses: seq<nat>, num: nat, full: nat, busy: nat, i: nat, left: nat)
    requires Ordered(uses, num, full, busy) && i < full && left + 1 == num
    ensures uses[i] == num
    ensures Ordered(Moved(uses, i, full, left), num, full - 1, if num == 1 then full - 1 else busy)
  {
    assert InClass(uses[i], i, num, full, busy);
    var m, b := Moved(uses, i, full, left), if num == 1 then full - 1 else busy;
    hide Moved;
    MovedAt(uses, i, full, left, 0);
    forall k | 0 <= k < |m|
      ensures InClass(m[k], k, num, full - 1, b)
    {
      MovedAt(uses, i, full, left, k);
      assert InClass(uses[k], k, num, full, busy);
      if k < full - 1 { assert InClass(uses[k + 1], k + 1, num, full, busy); }
    }
  }

  /** A slab that becomes empty goes last. */
  lemma EmptyOrdered(uses: seq<nat>, num: nat, full: nat, busy: nat, i: nat)
    requires Ordered(uses, num, full, busy) && full <= i < busy
    ensures Ordered(Moved(uses, i, |uses|, 0), num, full, busy - 1)
  {
    var m := Moved(uses, i, |uses|, 0);
    hide Moved;
    MovedAt(uses, i, |uses|, 0, 0);
    forall k | 0 <= k < |m|
      ensures InClass(m[k], k, num, full, busy - 1)
    {
      MovedAt(uses, i, |uses|, 0, k);
      assert InClass(uses[k], k, num, full, busy);
      if k < |uses| - 1 { assert InClass(uses[k + 1], k + 1, num, full, busy); }
    }
  }

  // ---------- where a slab lies ----------

  /** The objects of a slab lie on its own pages, behind its management area. */
  ghost predicate Inside(l: Layout, page: nat, sMem: nat) {
    && PAGE_SIZE * page + Header(l) <= sMem
    && sMem + Times(l.num, l.objsize) <= PAGE_SIZE * page + SlabBytes(l.order)
  }

  function Address(l: Layout, s: SlabObj, k: nat): nat {
    s.sMem + Times(k, l.objsize)
  }

  /** The first object of a slab of this colour is where the layout puts it. */
  ghost predicate Seated(l: Layout, page: nat, colour: nat, sMem: nat) {
    colour <= l.colour && sMem == PAGE_SIZE * page + Offset(l, colour, 0)
  }

  lemma SeatedInside(l: Layout, page: nat, colour: nat, sMem: nat)
    requires Sound(l) && Seated(l, page, colour, sMem)
    ensures Inside(l, page, sMem)
  {
    hide Times, Pow2, Header, SlabBytes;
    Placement(l, colour, 0, l.num);
    TimesAtLeast(0, l.objsize);
  }

  /** Objects are aligned. */
  lemma AddressAligned(l: Layout, s: SlabObj, k: nat)
    requires Sound(l) && Seated(l, s.page, s.colour, s.sMem) && k < l.num
    ensures Alignment(l.align) && Multiple(Address(l, s, k), l.align)
  {
    hide Times, Pow2, Header, SlabBytes, Multiple;
    Placement(l, s.colour, k, k + 1);
    TimesAtLeast(0, l.objsize);
    MultipleOnPage(s.page, Offset(l, s.colour, k), l.align);
  }

  /** On the pages of a slab, behind its colour and its management area. */
  ghost predicate InSlab(l: Layout, s: SlabObj, a: nat) {
    && PAGE_SIZE * s.page + Times(s.colour, l.colourOff) + Header(l) <= a
    && a + l.objsize <= PAGE_SIZE * (s.page + Pow2(l.order))
  }

  lemma BehindManagement(l: Layout, s: SlabObj, k: nat)
    requires Sound(l) && Seated(l, s.page, s.colour, s.sMem) && k < l.num
    ensures PAGE_SIZE * s.page + Times(s.colour, l.colourOff) + Header(l) <= Address(l, s, k)
  {
    hide Times, Header;
    TimesAtLeast(0, l.objsize);
  }

  /** The page of an object is one of its slab's. */
  lemma PageOf(l: Layout, s: SlabObj, k: nat)
    requires Sound(l) && Seated(l, s.page, s.colour, s.sMem) && k < l.num
    ensures s.page <= Address(l, s, k) / PAGE_SIZE < s.page + Pow2(l.order)
    ensures Address(l, s, k) + l.objsize <= PAGE_SIZE * (s.page + Pow2(l.order))
  {
    hide Times, Pow2, Header;
    SeatedInside(l, s.page, s.colour, s.sMem);
    TimesStep(k, l.num, l.objsize);
  }

  lemma ObjectNumber(l: Layout, k: nat)
    requires l.objsize > 0
    ensures Times(k, l.objsize) / l.objsize == k
  {
    MultipleMod(k, l.objsize);
  }

  // ---------- what holds of a cache between calls ----------

  type Live = set<(SlabObj, nat)>

  /** The objects handed out are exactly those not on a free chain. */
  ghost predicate LiveIs(live: Live, recs: Recs, num: nat) {
    && (forall o :: o in live ==> o.0 in recs && o.1 < num && o.1 !in recs[o.0].chain)
    && (forall s, k :: s in recs && 0 <= k < num && k !in recs[s].chain ==> (s, k) in live)
  }

  ghost predicate RecsOk(list: seq<SlabObj>, recs: Recs, num: nat) {
    && NoDup(list) && (forall s :: s in recs ==> s in list) && (forall s :: s in list ==> s in recs)
    && (forall s :: s in recs ==> RecOk(recs[s], num))
  }

  /** Each slab lies on its own pages, and each of these pages names it. */
  ghost predicate Placed(l: Layout, pages: map<nat, SlabObj>, s: SlabObj) {
    && Seated(l, s.page, s.colour, s.sMem)
    && forall p :: s.page <= p < s.page + Pow2(l.order) ==> p in pages && pages[p] == s
  }

  ghost predicate PagesOk(l: Layout, list: seq<SlabObj>, pages: map<nat, SlabObj>) {
    forall s :: s in list ==> Placed(l, pages, s)
  }

  /** The slabs are in order and `first` is the first that is not full. */
  ghost predicate ListOk(num: nat, list: seq<SlabObj>, first: SlabObj?, recs: Recs, full: nat, busy: nat) {
    && RecsOk(list, recs, num) && Ordered(Uses(list, recs), num, full, busy)
    && first == if full < |list| then list[full] else null
  }

  lemma LiveTaken(live: Live, recs: Recs, num: nat, s: SlabObj, k: nat, r: Rec)
    requires LiveIs(live, recs, num) && s in recs && k < num && recs[s].chain == [k] + r.chain && k !in r.chain
    ensures (s, k) !in live && LiveIs(live + {(s, k)}, recs[s := r], num)
  {
    assert recs[s].chain[0] == k;
    assert forall j :: j in recs[s].chain <==> j in r.chain || j == k;
  }

  lemma LivePut(live: Live, recs: Recs, num: nat, s: SlabObj, k: nat, r: Rec)
    requires LiveIs(live, recs, num) && (s, k) in live && s in recs && r.chain == [k] + recs[s].chain
    ensures LiveIs(live - {(s, k)}, recs[s := r], num)
  {
    assert forall j :: j in r.chain <==> j in recs[s].chain || j == k;
  }

  /** Changing the count of one slab. */
  lemma UsesUpdate(list: seq<SlabObj>, recs: Recs, num: nat, i: nat, r: Rec)
    requires RecsOk(list, recs, num) && i < |list| && RecOk(r, num)
    ensures RecsOk(list, recs[list[i] := r], num)
    ensures Uses(list, recs[list[i] := r]) == Uses(list, recs)[i := r.inuse]
  {
    hide Uses, Chained;
    assert list[i] in list;
  }

  lemma RecsMove(list: seq<SlabObj>, recs: Recs, num: nat, i: nat, j: nat, r: Rec)
    requires RecsOk(list, recs, num) && i < j <= |list| && RecOk(r, num)
    ensures RecsOk(Moved(list, i, j, list[i]), recs[list[i] := r], num)
  {
    assert list[i] in list;
    hide RecOk, Moved;
    MovedSame(list, i, j);
  }

  lemma UsesMove(list: seq<SlabObj>, recs: Recs, i: nat, j: nat, r: Rec)
    requires NoDup(list) && (forall s :: s in list ==> s in recs) && i < j <= |list|
    requires forall s :: s in Moved(list, i, j, list[i]) ==> s in recs[list[i] := r]
    ensures Uses(Moved(list, i, j, list[i]), recs[list[i] := r]) == Moved(Uses(list, recs), i, j, r.inuse)
  {
    var m, u, recs2 := Moved(list, i, j, list[i]), Moved(Uses(list, recs), i, j, r.inuse), recs[list[i] := r];
    hide Uses, Moved;
    MovedAt(Uses(list, recs), i, j, r.inuse, 0);
    MovedAt(list, i, j, list[i], 0);
    var u2 := Uses(m, recs2);
    forall k | 0 <= k < |list|
      ensures u2[k] == u[k]
    {
      MovedAt(list, i, j, list[i], k);
      MovedAt(Uses(list, recs), i, j, r.inuse, k);
    }
  }

  /** Allocation from the first slab that is not full. */
  lemma ListAlloc(num: nat, list: seq<SlabObj>, first: SlabObj?, recs: Recs, full: nat, busy: nat, r: Rec)
    requires ListOk(num, list, first, recs, full, busy) && first != null && RecOk(r, num) && num > 0
    requires first in recs && r.inuse == recs[first].inuse + 1
    ensures first in list
    ensures ListOk(num, list, if r.inuse == num then Succ(list, first) else first, recs[first := r],
                   if r.inuse == num then full + 1 else full, if busy > full then busy else full + 1)
  {
    hide Ordered, Index, Uses, RecOk, Succ;
    FirstPlace(list, recs, num, full);
    UsesUpdate(list, recs, num, full, r);
    AllocOrdered(Uses(list, recs), num, full, busy);
  }

  lemma FirstPlace(list: seq<SlabObj>, recs: Recs, num: nat, full: nat)
    requires RecsOk(list, recs, num) && full < |list|
    ensures list[full] in list && Succ(list, list[full]) == if full + 1 < |list| then list[full + 1] else null
  {
    hide Index, RecOk;
    IndexIs(list, full);
  }

  /** Freeing into a full slab: it moves in front of the first that is not full. */
  lemma ListFull(num: nat, list: seq<SlabObj>, first: SlabObj?, recs: Recs, full: nat, busy: nat, s: SlabObj, r: Rec)
    requires ListOk(num, list, first, recs, full, busy) && s in recs && RecOk(r, num) && num > 0
    requires recs[s].inuse == num && r.inuse == num - 1
    ensures s in list && 0 < full
    ensures (Succ(list, s) == first) ==>
      ListOk(num, list, s, recs[s := r], full - 1, if num == 1 then full - 1 else busy)
    ensures (first == null || first in Without(list, s))
    ensures ListOk(num, InsertBefore(Without(list, s), s, first), s, recs[s := r], full - 1,
                   if num == 1 then full - 1 else busy)
    ensures Kept(InsertBefore(Without(list, s), s, first), list)
    ensures Relinked(list, InsertBefore(Without(list, s), s, first), s, full)
    ensures Succ(list, s) == first ==> Relinked(list, list, s, full)
  {
    var i := ListFullMoved(num, list, first, recs, full, busy, s, r);
    hide ListOk, Moved, Succ, Without, InsertBefore, Kept, Relinked;
    MovedRelinks(list, i, full);
    MoveIs(list, i, full);
    MovedSame(list, i, full);
    if Succ(list, s) == first {
      NextIs(list, i, full);
      MovedNowhere(list, i);
    }
  }

  lemma ListFullMoved(num: nat, list: seq<SlabObj>, first: SlabObj?, recs: Recs, full: nat, busy: nat, s: SlabObj,
                      r: Rec)
    returns (i: nat)
    requires ListOk(num, list, first, recs, full, busy) && s in recs && RecOk(r, num) && num > 0
    requires recs[s].inuse == num && r.inuse == num - 1
    ensures i < full <= |list| && list[i] == s && NoDup(list) && first == if full < |list| then list[full] else null
    ensures ListOk(num, Moved(list, i, full, s), s, recs[s := r], full - 1, if num == 1 then full - 1 else busy)
  {
    hide Index, Uses, RecOk, Ordered, Moved;
    i := Index(list, s);
    var u := Uses(list, recs);
    OrderedAt(u, num, full, busy, i);
    RecsMove(list, recs, num, i, full, r);
    UsesMove(list, recs, i, full, r);
    FullOrdered(u, num, full, busy, i, r.inuse);
    MovedAt(list, i, full, s, full - 1);
  }

  lemma OrderedAt(uses: seq<nat>, num: nat, full: nat, busy: nat, i: nat)
    requires Ordered(uses, num, full, busy) && i < |uses| && num > 0
    ensures full <= busy <= |uses| && InClass(uses[i], i, num, full, busy)
  {
  }

  lemma MovedNowhere<T>(list: seq<T>, i: nat)
    requires i < |list|
    ensures Moved(list, i, i + 1, list[i]) == list
  {
  }

  /** The slab behind the last full one is the first that is not full. */
  lemma NextIs(list: seq<SlabObj>, i: nat, full: nat)
    requires NoDup(list) && i < full <= |list|
    requires Succ(list, list[i]) == if full < |list| then list[full] else null
    ensures i == full - 1
  {
    IndexIs(list, i);
  }

  /** Freeing the last object of a slab: it moves to the end. */
  lemma ListEmpty(num: nat, list: seq<SlabObj>, first: SlabObj?, recs: Recs, full: nat, busy: nat, s: SlabObj, r: Rec)
    requires ListOk(num, list, first, recs, full, busy) && s in recs && RecOk(r, num) && num > 1
    requires recs[s].inuse == 1 && r.inuse == 0
    ensures s in list && first != null && first in list && busy > 0
    ensures var list2 := InsertBefore(Without(list, s), s, null); var t := Pred(list, first);
      && (first == s ==> t == null || t in list2)
      && ListOk(num, list2, if first == s then Succ(list2, t) else first, recs[s := r], full, busy - 1)
      && Kept(list2, list) && Relinked(list, list2, s, |list|)
  {
    var i := ListEmptyMoved(num, list, first, recs, full, busy, s, r);
    hide ListOk, Moved, Succ, Pred, Without, InsertBefore, Kept, Relinked;
    MovedRelinks(list, i, |list|);
    MoveIs(list, i, |list|);
    MovedSame(list, i, |list|);
    FirstAgain(list, i, full);
  }

  lemma ListEmptyMoved(num: nat, list: seq<SlabObj>, first: SlabObj?, recs: Recs, full: nat, busy: nat, s: SlabObj,
                       r: Rec)
    returns (i: nat)
    requires ListOk(num, list, first, recs, full, busy) && s in recs && RecOk(r, num) && num > 1
    requires recs[s].inuse == 1 && r.inuse == 0
    ensures full <= i < |list| && list[i] == s && NoDup(list) && first == list[full] && busy > 0
    ensures var m := Moved(list, i, |list|, s);
      |m| == |list| && ListOk(num, m, m[full], recs[s := r], full, busy - 1) && (i > full ==> m[full] == first)
  {
    hide Index, Uses, RecOk, Ordered, Moved;
    i := Index(list, s);
    var u := Uses(list, recs);
    OrderedAt(u, num, full, busy, i);
    RecsMove(list, recs, num, i, |list|, r);
    UsesMove(list, recs, i, |list|, r);
    EmptyOrdered(u, num, full, busy, i);
    MovedAt(list, i, |list|, s, full);
  }

  /** The first slab that is not full is the one behind the slab that was before it. */
  lemma FirstAgain(list: seq<SlabObj>, i: nat, full: nat)
    requires NoDup(list) && full <= i < |list|
    ensures list[full] in list
    ensures var m := Moved(list, i, |list|, list[i]); var t := Pred(list, list[full]);
      |m| == |list| && (t == null || t in m) && Succ(m, t) == m[full]
  {
    hide Index, Moved;
    var m := Moved(list, i, |list|, list[i]);
    IndexIs(list, full);
    MovedSame(list, i, |list|);
    MovedAt(list, i, |list|, list[i], full);
    if full > 0 {
      MovedAt(list, i, |list|, list[i], full - 1);
      IndexIs(m, full - 1);
    }
  }

  lemma ListPartial(num: nat, list: seq<SlabObj>, first: SlabObj?, recs: Recs, full: nat, busy: nat, s: SlabObj, r: Rec)
    requires ListOk(num, list, first, recs, full, busy) && s in recs && RecOk(r, num)
    requires 1 < recs[s].inuse < num && r.inuse == recs[s].inuse - 1
    ensures ListOk(num, list, first, recs[s := r], full, busy)
  {
    var i := Index(list, s);
    var u := Uses(list, recs);
    assert InClass(u[i], i, num, full, busy);
    hide Index, Uses, RecOk, Chained;
    UsesUpdate(list, recs, num, i, r);
  }

  /** Changing one slab of a list changes one snapshot. */
  method TakeFrom(list: seq<SlabObj>, s: SlabObj, num: nat) returns (k: nat)
    requires s in list && RecOk(s.Snapshot(), num) && s.inuse < num
    modifies s
    ensures Snapshots(list) == old(Snapshots(list))[s := s.Snapshot()]
    ensures RecOk(s.Snapshot(), num) && s.inuse == old(s.inuse) + 1 && k < num
    ensures old(s.chain) == [k] + s.chain && k !in s.chain
    ensures s.free == BUFCTL_END <==> s.inuse == num
  {
    k := s.TakeObject(num);
  }

  method PutInto(list: seq<SlabObj>, s: SlabObj, k: nat, num: nat)
    requires s in list && RecOk(s.Snapshot(), num) && k < num && k !in s.chain && s.inuse > 0
    modifies s
    ensures Snapshots(list) == old(Snapshots(list))[s := s.Snapshot()]
    ensures RecOk(s.Snapshot(), num) && s.inuse == old(s.inuse) - 1 && s.chain == [k] + old(s.chain)
  {
    s.PutObject(k, num);
  }

  /** The colour of the `t`-th attempt: one after the other, and round again. */
  function Cycle(t: nat, colours: nat): nat { if colours == 0 then 0 else t % colours }

  lemma CycleStep(t: nat, colours: nat)
    ensures Cycle(t + 1, colours) == if Cycle(t, colours) + 1 < colours then Cycle(t, colours) + 1 else 0
    ensures Cycle(t, colours) == 0 || Cycle(t, colours) < colours
  {
    if colours > 0 {
      var q, c := t / colours, t % colours;
      if c + 1 < colours {
        DivModUnique(t + 1, colours, q, c + 1);
      } else {
        NextMultiple(q, colours);
        DivModUnique(t + 1, colours, q + 1, 0);
      }
    }
  }

  lemma NextMultiple(q: nat, d: nat)
    ensures (q + 1) * d == q * d + d
  {
  }

  /** Every slab has the colour of its attempt. */
  ghost predicate Coloured(colours: nat, slabs: seq<SlabObj>, tries: nat) {
    && (forall s :: s in slabs ==> s.born < tries && s.colour == Cycle(s.born, colours))
    && (forall s, t :: s in slabs && t in slabs && s != t ==> s.born != t.born)
  }

  /** A kmem_cache_t in use.  `pages` is the slab recorded in each page's descriptor. */
  class Cache {
    const layout: Layout
    var slabs: seq<SlabObj>
    var firstNotFull: SlabObj?
    var colourNext: nat
    var pages: map<nat, SlabObj>
    ghost var full: nat     // slabs[..full] are full
    ghost var busy: nat     // slabs[full..busy] are partial, the rest empty
    ghost var live: Live    // objects handed out
    ghost var tries: nat    // attempts to add a slab

    ghost predicate Valid()
      reads this, slabs
    {
      && Sound(layout) && colourNext == Cycle(tries, layout.colour) && Coloured(layout.colour, slabs, tries)
      && ListOk(layout.num, slabs, firstNotFull, Snapshots(slabs), full, busy)
      && PagesOk(layout, slabs, pages) && LiveIs(live, Snapshots(slabs), layout.num)
    }

    constructor (l: Layout)
      requires Sound(l)
      ensures Valid() && layout == l && live == {} && slabs == [] && colourNext == tries == 0
    {
      layout, slabs, firstNotFull, colourNext, pages := l, [], null, 0, map[];
      full, busy, live, tries := 0, 0, {}, 0;
    }

    /** kmem_cache_alloc_one_tail on the first slab that is not full. */
    method AllocOne() returns (addr: nat, ghost s: SlabObj, ghost k: nat)
      requires Valid() && firstNotFull != null
      modifies this`firstNotFull, this`full, this`busy, this`live, slabs
      ensures Valid()
      ensures (s, k) !in old(live) && live == old(live) + {(s, k)} && addr == Address(layout, s, k)
      ensures s == old(firstNotFull) && old(s.chain) == [k] + s.chain
      ensures s in slabs && k < layout.num
    {
      hide Sound, Times, PagesOk, LiveIs, ListOk, RecOk, Succ, Snapshots;
      var slabp := firstNotFull;
      s := slabp;
      ghost var recs := Snapshots(slabs);
      FirstOk(layout, slabs, slabp, recs, full, busy);
      SnapshotAt(slabs, slabp);
      var objnr := TakeFrom(slabs, slabp, layout.num);
      k := objnr;
      ghost var r := slabp.Snapshot();
      ListAlloc(layout.num, slabs, s, recs, full, busy, r);
      LiveTaken(live, recs, layout.num, s, k, r);
      addr := slabp.sMem + Times(objnr, layout.objsize);
      if slabp.free == BUFCTL_END {
        firstNotFull := Succ(slabs, slabp);
      }
      busy, full, live := if busy > full then busy else full + 1, if r.inuse == layout.num then full + 1 else full,
        live + {(s, k)};
    }

    /** Two live objects never overlap. */
    lemma Apart(s: SlabObj, k: nat, t: SlabObj, j: nat)
      requires Valid() && (s, k) in live && (t, j) in live && (s, k) != (t, j)
      ensures Address(layout, s, k) + layout.objsize <= Address(layout, t, j)
              || Address(layout, t, j) + layout.objsize <= Address(layout, s, k)
    {
      hide Times, Pow2, Header, ListOk;
      assert s in slabs && t in slabs;
      if s == t {
        if k < j { TimesStep(k, j, layout.objsize); } else { TimesStep(j, k, layout.objsize); }
      } else {
        PageOf(layout, s, k);
        PageOf(layout, t, j);
        var n := Pow2(layout.order);
        assert t.page in pages && pages[t.page] == t && s.page in pages && pages[s.page] == s;
        assert !(s.page <= t.page < s.page + n) && !(t.page <= s.page < t.page + n);
      }
    }

    /** moveslab_partial: a slab that was full goes in front of the first that is not. */
    method MoveFromFull(slabp: SlabObj, ghost recs: Recs, ghost r: Rec)
      requires ListOk(layout.num, slabs, firstNotFull, recs, full, busy) && slabp in recs && layout.num > 0
      requires recs[slabp].inuse == layout.num && RecOk(r, layout.num) && r.inuse == layout.num - 1
      modifies this`slabs, this`firstNotFull, this`full, this`busy
      ensures ListOk(layout.num, slabs, firstNotFull, recs[slabp := r], full, busy) && Kept(slabs, old(slabs))
      ensures firstNotFull == slabp && Relinked(old(slabs), slabs, slabp, old(full))
    {
      hide RecOk, ListOk, Succ, Without, InsertBefore, Relinked;
      ListFull(layout.num, slabs, firstNotFull, recs, full, busy, slabp, r);
      var t := firstNotFull;
      firstNotFull := slabp;
      full, busy := full - 1, if layout.num == 1 then full - 1 else busy;
      if Succ(slabs, slabp) == t {
        return;
      }
      slabs := InsertBefore(Without(slabs, slabp), slabp, t);
    }

    /** moveslab_free: a slab that becomes empty goes last. */
    method MoveToEmpty(slabp: SlabObj, ghost recs: Recs, ghost r: Rec)
      requires ListOk(layout.num, slabs, firstNotFull, recs, full, busy) && slabp in recs && layout.num > 1
      requires recs[slabp].inuse == 1 && RecOk(r, layout.num) && r.inuse == 0
      modifies this`slabs, this`firstNotFull, this`busy
      ensures ListOk(layout.num, slabs, firstNotFull, recs[slabp := r], full, busy) && Kept(slabs, old(slabs))
      ensures Relinked(old(slabs), slabs, slabp, |old(slabs)|)
    {
      hide RecOk, ListOk, Succ, Pred, Without, InsertBefore, Kept, Relinked;
      ListEmpty(layout.num, slabs, firstNotFull, recs, full, busy, slabp, r);
      var t := Pred(slabs, firstNotFull);
      slabs := InsertBefore(Without(slabs, slabp), slabp, null);
      if firstNotFull == slabp {
        firstNotFull := Succ(slabs, t);
      }
      busy := busy - 1;
    }

    /** kmem_cache_free_one: the slab and the object's number are found from its address. */
    method FreeOne(addr: nat, ghost s: SlabObj, ghost k: nat)
      requires Valid() && (s, k) in live && addr == Address(layout, s, k)
      modifies this`slabs, this`firstNotFull, this`full, this`busy, this`live, slabs
      ensures Valid() && live == old(live) - {(s, k)}
      ensures Kept(slabs, old(slabs))
      ensures s.chain == [k] + old(s.chain) && Snapshots(slabs) == old(Snapshots(slabs))[s := s.Snapshot()]
      ensures if old(s.inuse) == layout.num then Relinked(old(slabs), slabs, s, old(full))
              else if s.inuse == 0 then Relinked(old(slabs), slabs, s, |old(slabs)|) else slabs == old(slabs)
    {
      hide Sound, Times, PagesOk, LiveIs, ListOk, RecOk, Succ, Pred, Without, InsertBefore, Snapshots, Relinked;
      ghost var recs := Snapshots(slabs);
      LiveFacts(layout, slabs, firstNotFull, recs, full, busy, pages, live, s, k);
      var slabp := pages[addr / PAGE_SIZE];
      var objnr := (addr - slabp.sMem) / layout.objsize;
      assert slabp == s && objnr == k;
      SnapshotAt(slabs, s);
      var wasFull := slabp.inuse == layout.num;
      PutInto(slabs, slabp, objnr, layout.num);
      ghost var r := slabp.Snapshot();
      LivePut(live, recs, layout.num, s, k, r);
      live := live - {(s, k)};
      if wasFull {
        MoveFromFull(slabp, recs, r);
      } else if slabp.inuse == 0 {
        MoveToEmpty(slabp, recs, r);
      } else {
        ListPartial(layout.num, slabs, firstNotFull, recs, full, busy, s, r);
      }
      SnapshotsKept(slabs, old(slabs));
      PagesKept(layout, slabs, old(slabs), pages);
    }

    predicate FreshPages(page: nat)
      reads this`pages
    {
      forall p :: page <= p < page + Pow2(layout.order) ==> p !in pages
    }

    /** Record the slab in the descriptors of its pages. */
    method MarkPages(slabp: SlabObj)
      requires forall p :: slabp.page <= p < slabp.page + Pow2(layout.order) ==> p !in pages
      modifies this`pages
      ensures forall p :: slabp.page <= p < slabp.page + Pow2(layout.order) ==> p in pages && pages[p] == slabp
      ensures forall p :: p in old(pages) ==> p in pages && pages[p] == old(pages)[p]
      ensures pages.Keys == old(pages.Keys) + Interval(slabp.page, Pow2(layout.order))
    {
      hide Pow2;
      var page, i := slabp.page, Pow2(layout.order);
      while i > 0
        invariant 0 <= i && page == slabp.page + Pow2(layout.order) - i
        invariant forall p :: slabp.page <= p < page ==> p in pages && pages[p] == slabp
        invariant forall p :: p in old(pages) ==> p in pages && pages[p] == old(pages)[p]
        invariant forall p :: p in pages ==> p in old(pages) || slabp.page <= p < page
      {
        pages := pages[page := slabp];
        page, i := page + 1, i - 1;
      }
    }

    /** The colour of the next slab, cycling through the colours. */
    method NextColour() returns (offset: nat)
      requires Sound(layout) && colourNext == Cycle(tries, layout.colour)
      modifies this`colourNext, this`tries
      ensures tries == old(tries) + 1 && colourNext == Cycle(tries, layout.colour)
      ensures colourNext == if old(colourNext) + 1 < layout.colour then old(colourNext) + 1 else 0
      ensures old(colourNext) <= layout.colour
      ensures offset == Times(old(colourNext), layout.colourOff)
    {
      hide Times, Pow2, L1Align, Cycle;
      CycleStep(tries, layout.colour);
      offset := colourNext;
      colourNext := colourNext + 1;
      if colourNext >= layout.colour {
        colourNext := 0;
      }
      offset := Times(offset, layout.colourOff);
      tries := tries + 1;
    }

    /** Where the objects of a slab start, seen from its first page. */
    function Shift(s: SlabObj): int { s.sMem - PAGE_SIZE * s.page }

    /** Two slabs start at the same place of their pages just when their attempts are a multiple of
        the number of colours apart: of so many attempts in a row no two give the same place. */
    lemma ColoursDiffer(s: SlabObj, t: SlabObj)
      requires Valid() && s in slabs && t in slabs && s.born < t.born
      ensures Shift(s) == Shift(t) <==> layout.colour == 0 || (t.born - s.born) % layout.colour == 0
      ensures t.born < s.born + layout.colour ==> Shift(s) != Shift(t)
    {
      hide ListOk, LiveIs, Times, Pow2, Header;
      assert Placed(layout, pages, s) && Placed(layout, pages, t);
      ColourPlaces(layout, s.colour, t.colour);
      CyclesApart(s.born, t.born, layout.colour);
    }

    /** kmem_cache_grow, given the pages the page allocator returns (or none) and whether the
        off-slab descriptor could be allocated. */
    method Grow(noGrow: bool, supply: Option<nat>, mgmt: bool) returns (ok: bool)
      requires Valid()
      requires supply.Some? ==> FreshPages(supply.value)
      modifies this
      ensures Valid() && live == old(live)
      ensures ok <==> !noGrow && supply.Some? && (layout.off ==> mgmt)
      ensures !ok ==> slabs == old(slabs) && firstNotFull == old(firstNotFull) && pages == old(pages)
      ensures ok ==> |slabs| == |old(slabs)| + 1 && slabs[..|old(slabs)|] == old(slabs) && firstNotFull != null
      ensures ok ==> fresh(slabs[|old(slabs)|]) && slabs[|old(slabs)|].page == supply.value
      ensures ok ==> slabs[|old(slabs)|].sMem
                     == PAGE_SIZE * supply.value + Times(old(colourNext), layout.colourOff) + Header(layout)
      ensures ok ==> pages.Keys == old(pages.Keys) + Interval(supply.value, Pow2(layout.order))
      ensures noGrow ==> colourNext == old(colourNext) && tries == old(tries)
      ensures !noGrow ==> colourNext == if old(colourNext) + 1 < layout.colour then old(colourNext) + 1 else 0
      ensures !noGrow ==> tries == old(tries) + 1
      ensures ok ==> slabs[|old(slabs)|].born == old(tries) && |slabs[|old(slabs)|].chain| == layout.num
      ensures ok ==> forall k :: 0 <= k < layout.num ==> slabs[|old(slabs)|].chain[k] == k
      ensures firstNotFull == if old(firstNotFull) == null && ok then slabs[|old(slabs)|] else old(firstNotFull)
    {
      hide Times, Pow2, PagesOk, LiveIs, ListOk, RecOk, Sound, Header, Cycle;
      ghost var colour, born := colourNext, tries;
      CycleStep(tries, layout.colour);
      if noGrow {
        return false;
      }
      var offset := NextColour();
      if supply.None? {
        return false;
      }
      var objp := PAGE_SIZE * supply.value;
      if layout.off && !mgmt {
        return false;
      }
      var sMem := objp + offset;
      if !layout.off {
        sMem := sMem + L1Align(BUFCTL * layout.num + SLAB_STRUCT);
      }
      assert sMem == objp + offset + Header(layout) by { HeaderIs(layout); }
      TimesZero(layout.objsize);
      AddSlab(supply.value, sMem, colour, born);
      ok := true;
    }

    method AddSlab(page: nat, sMem: nat, ghost colour: nat, ghost born: nat)
      requires Valid() && Seated(layout, page, colour, sMem) && FreshPages(page)
      requires born < tries && colour == Cycle(born, layout.colour) && forall s :: s in slabs ==> s.born < born
      modifies this`slabs, this`firstNotFull, this`pages
      ensures Valid() && firstNotFull != null
      ensures |slabs| == |old(slabs)| + 1 && slabs[..|old(slabs)|] == old(slabs)
      ensures fresh(slabs[|old(slabs)|]) && slabs[|old(slabs)|].page == page && slabs[|old(slabs)|].sMem == sMem
      ensures slabs[|old(slabs)|].born == born && |slabs[|old(slabs)|].chain| == layout.num
      ensures forall k :: 0 <= k < layout.num ==> slabs[|old(slabs)|].chain[k] == k
      ensures firstNotFull == if old(firstNotFull) == null then slabs[|old(slabs)|] else old(firstNotFull)
      ensures pages.Keys == old(pages.Keys) + Interval(page, Pow2(layout.order))
    {
      hide Times, Pow2, PagesOk, LiveIs, ListOk, RecOk, Sound, Seated, Snapshots, Interval;
      SoundFacts(layout);
      var slabp := new SlabObj(page, sMem, layout.num, colour, born);
      AllOnChain(slabp.chain, layout.num);
      ghost var recs, list, r := Snapshots(slabs), slabs, slabp.Snapshot();
      assert slabp !in list;
      ghost var were := pages;
      MarkPages(slabp);
      slabs := slabs + [slabp];
      if firstNotFull == null {
        firstNotFull := slabp;
      }
      SnapshotsGrow(list, slabp);
      Grown(layout, list, old(firstNotFull), recs, full, busy, live, were, pages, slabp, r);
    }

    /** kmem_cache_alloc: an aligned object from a slab that is not full, or from a new one. */
    method Alloc(noGrow: bool, supply: Option<nat>, mgmt: bool)
      returns (addr: Option<nat>, ghost s: SlabObj?, ghost k: nat)
      requires Valid()
      requires supply.Some? ==> FreshPages(supply.value)
      modifies this, slabs
      ensures Valid()
      ensures addr.None? <==> old(firstNotFull) == null && (noGrow || supply.None? || (layout.off && !mgmt))
      ensures addr.None? ==> live == old(live) && slabs == old(slabs)
      ensures addr.Some? ==> s != null && (s, k) !in old(live) && live == old(live) + {(s, k)}
                             && addr.value == Address(layout, s, k) && Lies(layout, addr.value, pages.Keys)
                             && s in slabs && InSlab(layout, s, addr.value)
      ensures addr.None? || old(firstNotFull) != null ==> |slabs| == |old(slabs)| && pages.Keys == old(pages.Keys)
      ensures addr.Some? && old(firstNotFull) == null ==>
        |slabs| == |old(slabs)| + 1 && pages.Keys == old(pages.Keys) + Interval(supply.value, Pow2(layout.order))
      ensures forall x :: x in slabs ==> x in old(slabs) || fresh(x)
      ensures tries == old(tries) + if old(firstNotFull) == null && !noGrow then 1 else 0
      ensures addr.Some? && old(firstNotFull) != null ==>
        s == old(firstNotFull) && old(s.chain) == [k] + s.chain && slabs == old(slabs)
      ensures addr.Some? && old(firstNotFull) == null ==>
        k == 0 && addr.value == PAGE_SIZE * supply.value + Times(old(colourNext), layout.colourOff) + Header(layout)
    {
      hide Valid, Pow2, Address, Interval, Lies, InSlab, Times, Header;
      addr, s, k := None, null, 0;
      if firstNotFull == null {
        var ok := Grow(noGrow, supply, mgmt);
        if !ok {
          return;
        }
        assert slabs == slabs[..|old(slabs)|] + [slabs[|old(slabs)|]];
      }
      var a;
      ghost var chain := firstNotFull.chain;
      a, s, k := AllocOne();
      if old(firstNotFull) == null { FirstObject(layout, s, chain, k); }
      ObjectLies(s, k);
      addr := Some(a);
    }

    /** An object is aligned and on pages of the cache. */
    lemma ObjectLies(s: SlabObj, k: nat)
      requires Valid() && s in slabs && k < layout.num
      ensures Lies(layout, Address(layout, s, k), pages.Keys) && InSlab(layout, s, Address(layout, s, k))
    {
      hide ListOk, LiveIs, Times, Pow2, Sound, Multiple, Seated, Header;
      assert Placed(layout, pages, s);
      AddressAligned(layout, s, k);
      PageOf(layout, s, k);
      BehindManagement(layout, s, k);
      PagesUpTo(Address(layout, s, k), layout, s.page, Pow2(layout.order), pages.Keys);
    }

    /** There is a slab that is not full just when fewer objects are handed out than the slabs
        hold. */
    lemma Vacancy()
      requires Valid()
      ensures |live| <= Times(|slabs|, layout.num)
      ensures firstNotFull == null <==> |live| == Times(|slabs|, layout.num)
    {
      hide PagesOk, Chained, Times;
      SoundFacts(layout);
      var recs := Snapshots(slabs);
      CountLive(slabs, recs, live, layout.num);
      TotalFull(Uses(slabs, recs), layout.num, full, busy);
    }

    /** Whatever the clients hold is aligned, on pages of the cache, and apart. */
    lemma AllApart(held: seq<nat>, objs: seq<(SlabObj, nat)>, were: Live, a: nat, s: SlabObj, k: nat)
      requires Valid() && Holding(layout, held, objs, were) && (s, k) !in were && live == were + {(s, k)}
      requires a == Address(layout, s, k)
      ensures forall i :: 0 <= i < |held| ==> held[i] + layout.objsize <= a || a + layout.objsize <= held[i]
    {
      hide Valid, Address;
      forall i | 0 <= i < |held|
        ensures held[i] + layout.objsize <= a || a + layout.objsize <= held[i]
      {
        assert objs[i] in objs;
        Apart(objs[i].0, objs[i].1, s, k);
      }
    }

    /** The cache as its clients see it, who hold these objects. */
    ghost function Seen(held: seq<nat>): Model
      reads this`slabs, this`pages, this`tries
    {
      Model(held, |slabs|, pages.Keys, tries)
    }

    /** A client allocates. */
    method ServeAlloc(op: Op, held: seq<nat>, ghost objs: seq<(SlabObj, nat)>)
      returns (answer: Option<nat>, now: seq<nat>, ghost objs2: seq<(SlabObj, nat)>)
      requires Valid() && Holding(layout, held, objs, live) && op.Allocate?
      modifies this, slabs
      ensures Valid() && Holding(layout, now, objs2, live)
      ensures Right(layout, old(Seen(held)), op, answer)
      ensures Seen(now) == After(layout, old(Seen(held)), op, answer)
      ensures forall x :: x in slabs ==> x in old(slabs) || fresh(x)
    {
      hide Valid, Pow2, Address, Lies, Interval, Times, Holding, Untaken;
      Vacancy();
      HoldCount(layout, held, objs, live);
      now, objs2 := held, objs;
      var usable := if op.supply.Some? && FreshPages(op.supply.value) then op.supply else None;
      if op.supply.Some? { FreshIs(op.supply.value); }
      ghost var s, k;
      answer, s, k := Alloc(op.noGrow, usable, op.mgmt);
      if answer.Some? {
        HoldMore(layout, held, objs, old(live), answer.value, s, k);
        AllApart(held, objs, old(live), answer.value, s, k);
        now, objs2 := held + [answer.value], objs + [(s, k)];
      }
    }

    /** A client frees. */
    method ServeFree(op: Op, held: seq<nat>, ghost objs: seq<(SlabObj, nat)>)
      returns (now: seq<nat>, ghost objs2: seq<(SlabObj, nat)>)
      requires Valid() && Holding(layout, held, objs, live) && op.Free?
      modifies this`slabs, this`firstNotFull, this`full, this`busy, this`live, slabs
      ensures Valid() && Holding(layout, now, objs2, live)
      ensures Seen(now) == After(layout, old(Seen(held)), op, None)
      ensures forall x :: x in slabs ==> x in old(slabs)
    {
      hide Valid, Pow2, Address, Times;
      now, objs2 := held, objs;
      if op.i < |held| {
        HoldLess(layout, held, objs, live, op.i);
        FreeOne(held[op.i], objs[op.i].0, objs[op.i].1);
        now, objs2 := held[..op.i] + held[op.i + 1..], objs[..op.i] + objs[op.i + 1..];
      }
    }

    lemma FreshIs(page: nat)
      ensures FreshPages(page) <==> Untaken(layout, page, pages.Keys)
    {
      hide Pow2;
    }

    /** Any run of allocations and frees on a cache with nothing handed out, by clients that free
        only what they hold.  Every request has its answer: an object if one is free or a slab can
        be added, and then it is aligned, on pages of the cache, and apart from all that is held. */
    method Run(ops: seq<Op>) returns (answers: seq<Option<nat>>, held: seq<nat>)
      requires Valid() && live == {}
      modifies this, slabs
      ensures Valid() && |answers| == |ops|
      ensures Seen(held) == Replay(layout, old(Seen([])), ops, answers)
      ensures AllRight(layout, old(Seen([])), ops, answers)
      ensures forall i, j :: 0 <= i < j < |held| ==>
        held[i] + layout.objsize <= held[j] || held[j] + layout.objsize <= held[i]
      ensures forall s, t :: s in slabs && t in slabs && s.born < t.born < s.born + layout.colour ==>
        Shift(s) != Shift(t)
    {
      hide Valid, Pow2, Address, Right, After, Replay, AllRight, Holding, Shift;
      answers, held := [], [];
      ghost var objs: seq<(SlabObj, nat)> := [];
      ghost var start := Seen([]);
      Nothing(layout, start, ops);
      for n := 0 to |ops|
        invariant Valid() && Holding(layout, held, objs, live) && |answers| == n
        invariant Seen(held) == Replay(layout, start, ops[..n], answers)
        invariant AllRight(layout, start, ops[..n], answers)
        invariant forall x :: x in slabs ==> x in old(slabs) || fresh(x)
      {
        assert forall j :: 0 <= j < |slabs| ==> slabs[j] in slabs;
        assert forall j :: 0 <= j < |slabs| ==> slabs[j] in old(slabs) || fresh(slabs[j]);
        var answer := None;
        if ops[n].Allocate? {
          answer, held, objs := ServeAlloc(ops[n], held, objs);
        } else {
          FreeRight(layout, Replay(layout, start, ops[..n], answers), ops[n]);
          held, objs := ServeFree(ops[n], held, objs);
        }
        RightStep(layout, start, ops, answers, n, answer);
        answers := answers + [answer];
      }
      assert ops[..|ops|] == ops;
      HeldApart(held, objs);
      forall s, t | s in slabs && t in slabs && s.born < t.born < s.born + layout.colour
        ensures Shift(s) != Shift(t)
      {
        ColoursDiffer(s, t);
      }
    }

    lemma HeldApart(held: seq<nat>, objs: seq<(SlabObj, nat)>)
      requires Valid() && Holding(layout, held, objs, live)
      ensures forall i, j :: 0 <= i < j < |held| ==>
        held[i] + layout.objsize <= held[j] || held[j] + layout.objsize <= held[i]
    {
      hide Valid, Address;
      forall i, j | 0 <= i < j < |held|
        ensures held[i] + layout.objsize <= held[j] || held[j] + layout.objsize <= held[i]
      {
        assert objs[i] in objs && objs[j] in objs;
        Apart(objs[i].0, objs[i].1, objs[j].0, objs[j].1);
      }
    }
  }

  lemma AllOnChain(chain: seq<nat>, num: nat)
    requires |chain| == num && forall k :: 0 <= k < num ==> chain[k] == k
    ensures forall k :: 0 <= k < num ==> k in chain
  {
    forall k | 0 <= k < num
      ensures k in chain
    {
      assert chain[k] == k;
    }
  }

  lemma FirstObject(l: Layout, s: SlabObj, chain: seq<nat>, k: nat)
    requires chain != [] && chain[0] == 0 && k == chain[0]
    ensures Address(l, s, k) == s.sMem
  {
    hide Times;
    TimesZero(l.objsize);
  }

  lemma ColourPlaces(l: Layout, c: nat, d: nat)
    requires Sound(l)
    ensures Offset(l, c, 0) == Offset(l, d, 0) <==> c == d
  {
    hide Times, Pow2, Header;
    SoundFacts(l);
    if c < d { TimesStep(c, d, l.colourOff); }
    if d < c { TimesStep(d, c, l.colourOff); }
  }

  lemma CyclesApart(x: nat, y: nat, colours: nat)
    requires x < y
    ensures Cycle(x, colours) == Cycle(y, colours) <==> colours == 0 || (y - x) % colours == 0
    ensures y < x + colours ==> Cycle(x, colours) != Cycle(y, colours)
  {
    if colours > 0 {
      ModDiff(x, y, colours);
      if y < x + colours { DivModUnique(y - x, colours, 0, y - x); }
    }
  }

  lemma ModDiff(x: nat, y: nat, d: nat)
    requires d > 0 && x <= y
    ensures x % d == y % d <==> (y - x) % d == 0
  {
    if (y - x) % d == 0 { RestsAgree(x, y, d); }
    if x % d == y % d { MultipleApart(x, y, d); }
  }

  lemma RestsAgree(x: nat, y: nat, d: nat)
    requires d > 0 && x <= y && (y - x) % d == 0
    ensures x % d == y % d
  {
    Euclid(x, d);
    Euclid(y - x, d);
    SameRest(x, y, d, x / d, (y - x) / d, x % d);
  }

  lemma MultipleApart(x: nat, y: nat, d: nat)
    requires d > 0 && x <= y && x % d == y % d
    ensures (y - x) % d == 0
  {
    Euclid(x, d);
    Euclid(y, d);
    SameMultiple(x, y, d, x / d, y / d, x % d);
  }

  lemma Euclid(x: nat, d: nat)
    requires d > 0
    ensures x == x / d * d + x % d && x % d < d
  {
  }

  lemma SameRest(x: nat, y: nat, d: nat, q: nat, n: nat, c: nat)
    requires c < d && x == q * d + c && y == x + n * d
    ensures y % d == c
  {
    SumTimes(q, n, d);
    DivModUnique(y, d, q + n, c);
  }

  lemma SameMultiple(x: nat, y: nat, d: nat, q: nat, p: nat, c: nat)
    requires c < d && x == q * d + c && y == p * d + c && x <= y
    ensures (y - x) % d == 0
  {
    if p < q { MulSpread(p, q, d); }
    SumTimes(q, p - q, d);
    DivModUnique(y - x, d, p - q, 0);
  }

  lemma SumTimes(q: nat, n: nat, d: nat)
    ensures (q + n) * d == q * d + n * d
  {
  }

  // ---------- what the clients see ----------

  /** A client allocates, when these pages or none could be had and this was the outcome of
      allocating a descriptor, or frees the object it got `i`-th of those it holds. */
  datatype Op = Allocate(noGrow: bool, supply: Option<nat>, mgmt: bool) | Free(i: nat)

  /** What is held, how many slabs there are, the pages they take, and how often a slab was to be
      added. */
  datatype Model = Model(held: seq<nat>, slabs: nat, taken: set<nat>, tries: nat)

  /** On pages of the cache, and aligned. */
  ghost predicate Lies(l: Layout, a: nat, taken: set<nat>) {
    && l.align > 0 && Multiple(a, l.align)
    && forall p :: a / PAGE_SIZE <= p && PAGE_SIZE * p < a + l.objsize ==> p in taken
  }

  ghost predicate Untaken(l: Layout, page: nat, taken: set<nat>) {
    forall p :: p in taken ==> p < page || page + Pow2(l.order) <= p
  }

  predicate Full(l: Layout, m: Model) { |m.held| == Times(m.slabs, l.num) }

  ghost predicate CanGrow(l: Layout, m: Model, op: Op)
    requires op.Allocate?
  {
    !op.noGrow && op.supply.Some? && Untaken(l, op.supply.value, m.taken) && (l.off ==> op.mgmt)
  }

  /** The answer to a request: none just when every object is handed out and no slab can be added;
      an object else, aligned, on pages of the cache, and apart from those held. */
  ghost predicate Right(l: Layout, m: Model, op: Op, answer: Option<nat>) {
    match op
    case Allocate(_, _, _) =>
      && (answer.None? <==> Full(l, m) && !CanGrow(l, m, op))
      && (answer.Some? ==>
            && Lies(l, answer.value, After(l, m, op, answer).taken)
            && forall i :: 0 <= i < |m.held| ==>
                 m.held[i] + l.objsize <= answer.value || answer.value + l.objsize <= m.held[i])
    case Free(_) => answer == None
  }

  function After(l: Layout, m: Model, op: Op, answer: Option<nat>): Model {
    match op
    case Allocate(noGrow, supply, _) =>
      var tries := if Full(l, m) && !noGrow then m.tries + 1 else m.tries;
      if answer.None? then m.(tries := tries)
      else if Full(l, m) && supply.Some? then
        Model(m.held + [answer.value], m.slabs + 1, m.taken + Interval(supply.value, Pow2(l.order)), tries)
      else m.(held := m.held + [answer.value], tries := tries)
    case Free(i) => if i < |m.held| then m.(held := m.held[..i] + m.held[i + 1..]) else m
  }

  function Replay(l: Layout, start: Model, ops: seq<Op>, answers: seq<Option<nat>>): Model
    requires |ops| == |answers|
  {
    if ops == [] then start
    else
      var n := |ops| - 1;
      After(l, Replay(l, start, ops[..n], answers[..n]), ops[n], answers[n])
  }

  /** Every answer is right for what was held when the request was made. */
  ghost predicate AllRight(l: Layout, start: Model, ops: seq<Op>, answers: seq<Option<nat>>)
    requires |ops| == |answers|
  {
    forall i :: 0 <= i < |ops| ==> Right(l, Replay(l, start, ops[..i], answers[..i]), ops[i], answers[i])
  }

  lemma Nothing(l: Layout, start: Model, ops: seq<Op>)
    ensures Replay(l, start, ops[..0], []) == start && AllRight(l, start, ops[..0], []) && Holding(l, [], [], {})
  {
  }

  lemma FreeRight(l: Layout, m: Model, op: Op)
    requires op.Free?
    ensures Right(l, m, op, None)
  {
  }

  lemma RightStep(l: Layout, start: Model, ops: seq<Op>, answers: seq<Option<nat>>, n: nat, answer: Option<nat>)
    requires n == |answers| < |ops| && AllRight(l, start, ops[..n], answers)
    requires Right(l, Replay(l, start, ops[..n], answers), ops[n], answer)
    ensures AllRight(l, start, ops[..n + 1], answers + [answer])
    ensures Replay(l, start, ops[..n + 1], answers + [answer])
            == After(l, Replay(l, start, ops[..n], answers), ops[n], answer)
  {
    var o, a := ops[..n + 1], answers + [answer];
    assert o[..n] == ops[..n] && a[..n] == answers;
    assert Replay(l, start, o, a) == After(l, Replay(l, start, ops[..n], answers), ops[n], answer);
    hide After, Right, Replay;
    forall i | 0 <= i < |o|
      ensures Right(l, Replay(l, start, o[..i], a[..i]), o[i], a[i])
    {
      if i < n {
        assert o[..i] == ops[..n][..i] && a[..i] == answers[..i];
        assert Right(l, Replay(l, start, ops[..n][..i], answers[..i]), ops[..n][i], answers[i]);
      }
    }
  }

  lemma PagesUpTo(a: nat, l: Layout, page: nat, n: nat, taken: set<nat>)
    requires page <= a / PAGE_SIZE && a + l.objsize <= PAGE_SIZE * (page + n)
    requires forall p :: page <= p < page + n ==> p in taken
    ensures forall p :: a / PAGE_SIZE <= p && PAGE_SIZE * p < a + l.objsize ==> p in taken
  {
  }

  function Total(uses: seq<nat>): nat {
    if uses == [] then 0 else Total(uses[..|uses| - 1]) + uses[|uses| - 1]
  }

  /** All slabs are full just when as much is in use as they hold. */
  lemma TotalFull(uses: seq<nat>, num: nat, full: nat, busy: nat)
    requires Ordered(uses, num, full, busy) && num > 0
    ensures Total(uses) <= Times(|uses|, num) && (full == |uses| <==> Total(uses) == Times(|uses|, num))
  {
    forall i | 0 <= i < |uses|
      ensures uses[i] <= num && (uses[i] == num <==> i < full)
    {
      assert InClass(uses[i], i, num, full, busy);
    }
    TotalBound(uses, num);
    assert full < |uses| ==> uses[full] < num;
  }

  lemma {:induction false} TotalBound(uses: seq<nat>, num: nat)
    requires forall i :: 0 <= i < |uses| ==> uses[i] <= num
    ensures Total(uses) <= Times(|uses|, num)
    ensures Total(uses) == Times(|uses|, num) <==> forall i :: 0 <= i < |uses| ==> uses[i] == num
  {
    if uses != [] {
      var n := |uses| - 1;
      TotalBound(uses[..n], num);
      assert Times(n + 1, num) == Times(n, num) + num;
      assert forall i :: 0 <= i < n ==> uses[..n][i] == uses[i];
    }
  }

  /** The objects handed out of the first `n` slabs. */
  ghost function LiveIn(live: Live, list: seq<SlabObj>): Live {
    set o | o in live && o.0 in list
  }

  /** As many objects are handed out as the slabs count in use. */
  lemma CountLive(list: seq<SlabObj>, recs: Recs, live: Live, num: nat)
    requires RecsOk(list, recs, num) && LiveIs(live, recs, num)
    ensures |live| == Total(Uses(list, recs))
  {
    hide RecOk, Uses;
    CountIn(list, recs, live, num, |list|);
    assert list[..|list|] == list;
    assert LiveIn(live, list) == live;
    assert Uses(list, recs)[..|list|] == Uses(list, recs);
  }

  lemma {:induction false} CountIn(list: seq<SlabObj>, recs: Recs, live: Live, num: nat, n: nat)
    requires RecsOk(list, recs, num) && LiveIs(live, recs, num) && n <= |list|
    ensures |LiveIn(live, list[..n])| == Total(Uses(list, recs)[..n])
  {
    hide RecOk, Uses, LiveIs, LiveIn, Total;
    if n > 0 {
      CountIn(list, recs, live, num, n - 1);
      var s := list[n - 1];
      assert s in list;
      CountSlab(recs, live, num, s);
      LiveSplit(live, list[..n - 1], s);
      assert list[..n] == list[..n - 1] + [s];
      TotalStep(Uses(list, recs), n - 1);
    } else {
      NoneIn(live, Uses(list, recs));
    }
  }

  lemma NoneIn(live: Live, uses: seq<nat>)
    ensures LiveIn(live, []) == {} && Total(uses[..0]) == 0
  {
  }

  lemma LiveSplit(live: Live, list: seq<SlabObj>, s: SlabObj)
    requires s !in list
    ensures |LiveIn(live, list + [s])| == |LiveIn(live, list)| + |set o | o in live && o.0 == s|
  {
    var mine := set o | o in live && o.0 == s;
    assert LiveIn(live, list + [s]) == LiveIn(live, list) + mine;
    assert LiveIn(live, list) !! mine;
  }

  lemma TotalStep(uses: seq<nat>, n: nat)
    requires n < |uses|
    ensures Total(uses[..n + 1]) == Total(uses[..n]) + uses[n]
  {
    assert uses[..n + 1][..n] == uses[..n];
  }

  ghost function Pairs(s: SlabObj, ks: set<nat>): (r: Live)
    ensures (forall k :: k in ks ==> (s, k) in r) && forall o :: o in r ==> o.0 == s && o.1 in ks
  {
    set k: nat | k in ks :: (s, k)
  }

  lemma CountSlab(recs: Recs, live: Live, num: nat, s: SlabObj)
    requires LiveIs(live, recs, num) && s in recs && RecOk(recs[s], num)
    ensures |set o | o in live && o.0 == s| == recs[s].inuse
  {
    var chain := recs[s].chain;
    var used := CountUsed(chain, num);
    hide Chained, Pairs;
    CountPairs(s, used);
    assert (set o | o in live && o.0 == s) == Pairs(s, used);
  }

  lemma CountUsed(chain: seq<nat>, num: nat) returns (used: set<nat>)
    requires NoDup(chain) && forall i :: 0 <= i < |chain| ==> chain[i] < num
    ensures |used| == num - |chain| && forall k: nat :: k in used <==> k < num && k !in chain
  {
    var free := set i | 0 <= i < |chain| :: chain[i];
    used := Below(num) - free;
    CountImage(chain);
    assert free <= Below(num);
    assert |Below(num)| == |used| + |free|;
  }

  lemma {:induction false} CountPairs(s: SlabObj, ks: set<nat>)
    ensures |Pairs(s, ks)| == |ks|
  {
    hide Pairs;
    if ks == {} {
      assert Pairs(s, ks) == {};
    } else {
      var k :| k in ks;
      CountPairs(s, ks - {k});
      assert Pairs(s, ks) == Pairs(s, ks - {k}) + {(s, k)};
      assert (s, k) !in Pairs(s, ks - {k});
    }
  }

  /** The clients hold exactly the live objects, each once, by their addresses. */
  ghost predicate Holding(l: Layout, held: seq<nat>, objs: seq<(SlabObj, nat)>, live: Live) {
    && |held| == |objs| && NoDup(objs) && (forall o :: o in objs ==> o in live) && (forall o :: o in live ==> o in objs)
    && forall i :: 0 <= i < |held| ==> held[i] == Address(l, objs[i].0, objs[i].1)
  }

  lemma {:induction false} HoldCount(l: Layout, held: seq<nat>, objs: seq<(SlabObj, nat)>, live: Live)
    requires Holding(l, held, objs, live)
    ensures |held| == |live|
  {
    CountImage(objs);
    assert (set i | 0 <= i < |objs| :: objs[i]) == live;
  }

  lemma HoldMore(l: Layout, held: seq<nat>, objs: seq<(SlabObj, nat)>, live: Live, a: nat, s: SlabObj, k: nat)
    requires Holding(l, held, objs, live) && (s, k) !in live && a == Address(l, s, k)
    ensures Holding(l, held + [a], objs + [(s, k)], live + {(s, k)})
  {
    hide Address;
  }

  lemma HoldLess(l: Layout, held: seq<nat>, objs: seq<(SlabObj, nat)>, live: Live, i: nat)
    requires Holding(l, held, objs, live) && i < |held|
    ensures objs[i] in live && Holding(l, held[..i] + held[i + 1..], objs[..i] + objs[i + 1..], live - {objs[i]})
  {
    hide Address;
    var objs2 := objs[..i] + objs[i + 1..];
    assert objs[i] in objs;
    assert forall j :: 0 <= j < |objs2| ==> objs2[j] == objs[if j < i then j else j + 1];
    forall o | o in objs2
      ensures o in live && o != objs[i]
    {
      var j :| 0 <= j < |objs2| && objs2[j] == o;
      assert o in objs;
    }
  }

  lemma FirstOk(l: Layout, list: seq<SlabObj>, first: SlabObj, recs: Recs, full: nat, busy: nat)
    requires Sound(l) && ListOk(l.num, list, first, recs, full, busy)
    ensures first in list && first in recs && RecOk(recs[first], l.num) && recs[first].inuse < l.num && l.num > 0
  {
    assert list[full] in list;
    AllocOrdered(Uses(list, recs), l.num, full, busy);
  }

  lemma SnapshotAt(list: seq<SlabObj>, s: SlabObj)
    requires s in list
    ensures s in Snapshots(list) && Snapshots(list)[s] == s.Snapshot()
  {
  }

  lemma SnapshotsKept(a: seq<SlabObj>, b: seq<SlabObj>)
    requires Kept(a, b)
    ensures Snapshots(a) == Snapshots(b)
  {
  }

  lemma PagesKept(l: Layout, a: seq<SlabObj>, b: seq<SlabObj>, pages: map<nat, SlabObj>)
    requires Kept(a, b) && PagesOk(l, b, pages)
    ensures PagesOk(l, a, pages)
  {
  }

  /** What is known of a live object. */
  lemma LiveFacts(l: Layout, list: seq<SlabObj>, first: SlabObj?, recs: Recs, full: nat, busy: nat,
                  pages: map<nat, SlabObj>, live: Live, s: SlabObj, k: nat)
    requires Sound(l) && ListOk(l.num, list, first, recs, full, busy) && PagesOk(l, list, pages)
    requires LiveIs(live, recs, l.num) && (s, k) in live
    ensures s in list && s in recs && RecOk(recs[s], l.num) && k < l.num && k !in recs[s].chain
    ensures 0 < recs[s].inuse <= l.num && l.objsize > 0
    ensures var a := Address(l, s, k); var p := a / PAGE_SIZE;
      p in pages && pages[p] == s && a >= s.sMem && (a - s.sMem) / l.objsize == k
  {
    hide Times, Pow2, Chained, Seated, Ordered, Uses;
    assert Placed(l, pages, s);
    PageOf(l, s, k);
    ObjectNumber(l, k);
    InUse(recs[s], l.num, k);
  }

  lemma InUse(r: Rec, num: nat, k: nat)
    requires RecOk(r, num) && k < num && k !in r.chain
    ensures 0 < r.inuse <= num
  {
    if r.inuse == 0 { AllFree(r.chain, num, k); }
  }

  /** A chain of `num` distinct numbers below `num` holds them all. */
  lemma AllFree(chain: seq<nat>, num: nat, k: nat)
    requires NoDup(chain) && |chain| == num && k < num && forall i :: 0 <= i < |chain| ==> chain[i] < num
    ensures k in chain
  {
    var used := set i | 0 <= i < |chain| :: chain[i];
    CountImage(chain);
    SubsetFull(used, Below(num));
    assert k in used;
  }

  ghost function Below(n: nat): (s: set<nat>)
    ensures |s| == n && forall k: nat :: k in s <==> k < n
  {
    if n == 0 then {} else Below(n - 1) + {n - 1}
  }

  lemma {:induction false} CountImage<T>(s: seq<T>)
    requires NoDup(s)
    ensures |set i | 0 <= i < |s| :: s[i]| == |s|
  {
    if s != [] {
      var t := s[..|s| - 1];
      CountImage(t);
      assert (set i | 0 <= i < |s| :: s[i]) == (set i | 0 <= i < |t| :: t[i]) + {s[|s| - 1]};
    }
  }

  lemma SubsetFull(a: set<nat>, b: set<nat>)
    requires a <= b && |a| == |b|
    ensures a == b
  {
    assert |b - a| == |b| - |a|;
  }

  lemma TimesZero(x: nat)
    ensures Times(0, x) == 0
  {
  }

  lemma HeaderIs(l: Layout)
    ensures Header(l) == if l.off then 0 else L1Align(BUFCTL * l.num + SLAB_STRUCT)
  {
  }

  lemma ListGrow(num: nat, list: seq<SlabObj>, first: SlabObj?, recs: Recs, full: nat, busy: nat, s: SlabObj, r: Rec)
    requires ListOk(num, list, first, recs, full, busy) && s !in list && RecOk(r, num) && r.inuse == 0
    ensures s !in recs
    ensures ListOk(num, list + [s], if first == null then s else first, recs[s := r], full, busy)
  {
    var list2, recs2 := list + [s], recs[s := r];
    hide RecOk, Uses;
    assert NoDup(list2);
    assert Uses(list2, recs2) == Uses(list, recs) + [0];
    assert forall i :: 0 <= i < |list| ==> list2[i] == list[i];
  }

  lemma SnapshotsGrow(list: seq<SlabObj>, s: SlabObj)
    ensures Snapshots(list + [s]) == Snapshots(list)[s := s.Snapshot()]
  {
  }

  /** A new slab, all of whose objects are free. */
  lemma Grown(l: Layout, list: seq<SlabObj>, first: SlabObj?, recs: Recs, full: nat, busy: nat, live: Live,
              were: map<nat, SlabObj>, pages: map<nat, SlabObj>, s: SlabObj, r: Rec)
    requires ListOk(l.num, list, first, recs, full, busy) && s !in list && RecOk(r, l.num) && r.inuse == 0
    requires LiveIs(live, recs, l.num) && forall k :: 0 <= k < l.num ==> k in r.chain
    requires PagesOk(l, list, were) && Placed(l, pages, s)
    requires forall p :: p in were ==> p in pages && pages[p] == were[p]
    ensures ListOk(l.num, list + [s], if first == null then s else first, recs[s := r], full, busy)
    ensures LiveIs(live, recs[s := r], l.num) && PagesOk(l, list + [s], pages)
  {
    hide ListOk, LiveIs, PagesOk, Placed, RecOk;
    ListGrow(l.num, list, first, recs, full, busy, s, r);
    LiveGrow(live, recs, l.num, s, r);
    PagesGrow(l, list, were, pages, s);
  }

  lemma LiveGrow(live: Live, recs: Recs, num: nat, s: SlabObj, r: Rec)
    requires LiveIs(live, recs, num) && s !in recs && forall k :: 0 <= k < num ==> k in r.chain
    ensures LiveIs(live, recs[s := r], num)
  {
  }

  lemma PagesGrow(l: Layout, list: seq<SlabObj>, were: map<nat, SlabObj>, pages: map<nat, SlabObj>, s: SlabObj)
    requires PagesOk(l, list, were) && Placed(l, pages, s)
    requires forall p :: p in were ==> p in pages && pages[p] == were[p]
    ensures PagesOk(l, list + [s], pages)
  {
    hide Pow2, Seated;
    forall t | t in list + [s]
      ensures Placed(l, pages, t)
    {
      if t != s { assert t in list; assert Placed(l, were, t); }
    }
  }
}
