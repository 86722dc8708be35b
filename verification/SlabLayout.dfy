/** mm/slab.c: how many objects a slab holds, how many pages it takes, and where the objects
    lie in it (kmem_cache_estimate, kmem_cache_create, kmem_cache_sizes_init). */
module SlabLayout {
  import opened Common
  import opened Words

  const PAGE_SIZE: nat := 4096
  const BYTES_PER_WORD: nat := 4
  const L1_CACHE_BYTES: nat := 32
  const SLAB_STRUCT: nat := 24        // sizeof(slab_t)
  const BUFCTL: nat := 4              // sizeof(kmem_bufctl_t)
  const MAX_GFP_ORDER: nat := 5
  const MAX_SIZE: nat := 131072       // (1 << MAX_OBJ_ORDER) * PAGE_SIZE
  const SLAB_LIMIT: nat := 0xFFFF_FFFE

  // ---------- rounding up ----------

  predicate Alignment(a: nat) { a == 4 || a == 8 || a == 16 || a == 32 }

  predicate Multiple(x: nat, a: nat)
    requires a > 0
  {
    x % a == 0
  }

  function RoundUp(x: nat, a: nat): (r: nat)
    requires a > 0
    ensures x <= r < x + a && Multiple(r, a)
  {
    Rounding(x, a);
    (x + a - 1) / a * a
  }

  /** Rounding up gives the least multiple. */
  lemma RoundUpLeast(x: nat, a: nat, m: nat)
    requires a > 0 && x <= m && Multiple(m, a)
    ensures RoundUp(x, a) <= m
  {
    var r := RoundUp(x, a);
    hide RoundUp;
    var p, q := r / a, m / a;
    Divided(r, a);
    Divided(m, a);
    hide Multiple;
    if q < p { MulSpread(q, p, a); }
  }

  lemma Divided(x: nat, a: nat)
    requires a > 0 && Multiple(x, a)
    ensures x == x / a * a
  {
  }

  lemma Rounding(x: nat, a: nat)
    requires a > 0
    ensures var r := (x + a - 1) / a * a; x <= r < x + a && Multiple(r, a)
  {
    var y := x + a - 1;
    assert y == y / a * a + y % a;
    MultipleMod(y / a, a);
  }

  /** L1_CACHE_ALIGN. */
  function L1Align(x: nat): (r: nat)
    ensures x <= r < x + 32 && r % 32 == 0
  {
    (x + 31) / 32 * 32
  }

  method L1MaskUp(x: nat) returns (r: nat)
    requires x + 32 <= WORD
    ensures r == L1Align(x)
  {
    r := MaskUp(x, 32);
  }

  /** The masking idiom `(x + a - 1) & ~(a - 1)` rounds up. */
  method MaskUp(x: nat, a: nat) returns (r: nat)
    requires Alignment(a) && x + a <= WORD
    ensures r == RoundUp(x, a)
  {
    r := And(x + a - 1, WORD - a);
    ghost var k := if a == 4 then 2 else if a == 8 then 3 else if a == 16 then 4 else 5;
    assert Pow2(2) == 4 && Pow2(3) == 8 && Pow2(4) == 16 && Pow2(5) == 32;
    WordIsPow2();
    hide And;
    AndHighMask(x + a - 1, k, 32);
    ShrIsDiv(x + a - 1, k);
  }

  function Times(a: nat, b: nat): nat { a * b }

  lemma TimesStep(a: nat, b: nat, c: nat)
    requires a < b
    ensures Times(a, c) + c <= Times(b, c)
  {
    MulSpread(a, b, c);
  }

  lemma TimesAtLeast(a: nat, b: nat)
    requires b > 0
    ensures a <= Times(a, b) && Times(0, b) == 0 && Times(1, b) == b
  {
    MulSpread(0, b, a);
  }

  // ---------- kmem_cache_estimate ----------

  /** Bytes of slab descriptor and object links in front of `i` objects. */
  function Management(off: bool, i: nat): (r: nat)
    ensures r % 32 == 0
  {
    if off then 0 else L1Align(SLAB_STRUCT + BUFCTL * i)
  }

  predicate Fits(bytes: nat, size: nat, off: bool, i: nat) {
    Times(i, size) + Management(off, i) <= bytes
  }

  /** The most objects that fit: `Most` fits, and one more does not. */
  ghost predicate Most(bytes: nat, size: nat, off: bool, num: nat) {
    Fits(bytes, size, off, num) && !Fits(bytes, size, off, num + 1)
  }

  lemma {:induction false} FitsDown(bytes: nat, size: nat, off: bool, i: nat, j: nat)
    requires Fits(bytes, size, off, j) && i <= j
    ensures Fits(bytes, size, off, i)
  {
    hide Times;
    if i < j { TimesStep(i, j, size); }
  }

  /** There is only one largest number. */
  lemma MostUnique(bytes: nat, size: nat, off: bool, m: nat, n: nat)
    requires Most(bytes, size, off, m) && Most(bytes, size, off, n)
    ensures m == n
  {
    if m < n { FitsDown(bytes, size, off, m + 1, n); }
    if n < m { FitsDown(bytes, size, off, n + 1, m); }
  }

  method Estimate(bytes: nat, size: nat, off: bool) returns (num: nat, left: nat)
    requires 0 < size && 32 <= bytes <= MAX_SIZE
    ensures Most(bytes, size, off, num) && num <= bytes
    ensures left == bytes - Times(num, size) - Management(off, num)
  {
    hide L1Align, Times;
    var base, extra := if off then 0 else SLAB_STRUCT, if off then 0 else BUFCTL;
    var i: nat := 0;
    TimesAtLeast(0, size);
    var aligned := L1MaskUp(base);
    while Times(i, size) + aligned <= bytes
      invariant aligned == Management(off, i) && i <= bytes + 1
      invariant i > 0 ==> Fits(bytes, size, off, i - 1)
      decreases bytes + 1 - i
    {
      TimesAtLeast(i, size);
      i := i + 1;
      aligned := L1MaskUp(base + i * extra);
    }
    assert i > 0;
    if i > 0 {
      i := i - 1;
    }
    if i > SLAB_LIMIT {
      i := SLAB_LIMIT;
    }
    num := i;
    aligned := L1MaskUp(base + i * extra);
    left := bytes - Times(i, size) - aligned;
  }

  // ---------- kmem_cache_create ----------

  function SlabBytes(order: nat): nat {
    PAGE_SIZE * Pow2(order)
  }

  /** The layout of a cache's slabs. */
  datatype Layout = Layout(num: nat, objsize: nat, align: nat, order: nat, off: bool, colour: nat, colourOff: nat)

  /** Bytes of management in front of the objects in each slab. */
  function Header(l: Layout): nat {
    Management(l.off, l.num)
  }

  /** Objects and colours step by multiples of the alignment. */
  ghost predicate Aligned(l: Layout) {
    Alignment(l.align) && Multiple(l.objsize, l.align) && Multiple(l.colourOff, l.align)
  }

  /** Objects of the last colour still fit. */
  ghost predicate Roomy(l: Layout) {
    && 0 < l.num <= MAX_SIZE && 0 < l.objsize && 0 < l.colourOff && l.order <= MAX_GFP_ORDER
    && Times(l.colour, l.colourOff) + Header(l) + Times(l.num, l.objsize) <= SlabBytes(l.order)
  }

  ghost predicate Sound(l: Layout) {
    Aligned(l) && Roomy(l)
  }

  /** Where object `i` of a slab of colour `c` starts, from the start of the slab. */
  function Offset(l: Layout, c: nat, i: nat): nat {
    Times(c, l.colourOff) + Header(l) + Times(i, l.objsize)
  }

  /** Objects lie behind the management area, inside the slab, aligned, and apart. */
  lemma Placement(l: Layout, c: nat, i: nat, j: nat)
    requires Sound(l) && c <= l.colour && i < j <= l.num
    ensures Times(c, l.colourOff) + Header(l) <= Offset(l, c, i)
    ensures Offset(l, c, i) + l.objsize <= Offset(l, c, j) <= SlabBytes(l.order)
    ensures Multiple(Offset(l, c, i), l.align)
  {
    hide Multiple, Pow2, Times, L1Align;
    TimesStep(i, j, l.objsize);
    if j < l.num { TimesStep(j, l.num, l.objsize); }
    if c < l.colour { TimesStep(c, l.colour, l.colourOff); }
    MultipleProduct(c, l.colourOff, l.align);
    MultipleProduct(i, l.objsize, l.align);
    MultipleSum(Times(c, l.colourOff), Header(l), Times(i, l.objsize), l.align);
  }

  lemma MultipleProduct(n: nat, x: nat, a: nat)
    requires a > 0 && Multiple(x, a)
    ensures Multiple(Times(n, x), a)
  {
    var q := x / a;
    assert x == q * a;
    assert n * x == (n * q) * a;
    MultipleMod(n * q, a);
  }

  /** What is aligned to a cache line is aligned. */
  lemma MultipleSum(x: nat, h: nat, y: nat, a: nat)
    requires Alignment(a) && Multiple(x, a) && h % 32 == 0 && Multiple(y, a)
    ensures Multiple(x + h + y, a)
  {
    var t := if a == 4 then 8 else if a == 8 then 4 else if a == 16 then 2 else 1;
    LinesMultiple(h, a, t);
    MultipleAdd(x, h, a);
    MultipleAdd(x + h, y, a);
  }

  lemma LinesMultiple(h: nat, a: nat, t: nat)
    requires h % 32 == 0 && a > 0 && t * a == 32
    ensures Multiple(h, a)
  {
    var q := h / 32;
    assert h == q * (t * a) == (q * t) * a;
    MultipleMod(q * t, a);
  }

  lemma MultipleAdd(x: nat, y: nat, a: nat)
    requires a > 0 && Multiple(x, a) && Multiple(y, a)
    ensures Multiple(x + y, a)
  {
    var p, q := x / a, y / a;
    assert x == p * a && y == q * a;
    assert x + y == (p + q) * a;
    MultipleMod(p + q, a);
  }

  lemma MultipleOnPage(page: nat, x: nat, a: nat)
    requires Alignment(a) && Multiple(x, a)
    ensures Multiple(PAGE_SIZE * page + x, a)
  {
    assert PAGE_SIZE * page == 32 * (128 * page);
    MultipleMod(128 * page, 32);
    MultipleSum(0, PAGE_SIZE * page, x, a);
  }

  /** An order is acceptable: an object fits, and the order is high enough or little is wasted. */
  ghost predicate Acceptable(order: nat, size: nat, off: bool, breakOrder: nat, num: nat) {
    && Most(SlabBytes(order), size, off, num) && num > 0
    && (order >= breakOrder || 8 * (SlabBytes(order) - Times(num, size) - Management(off, num)) <= SlabBytes(order))
  }

  /** The size and alignment an object gets. */
  /** The least power of two from 8 up to a cache line that is larger than the size, or the line. */
  predicate Snug(size: nat, align: nat) {
    (align == 8 || align == 16 || align == 32) && align <= 2 * size && (align == 32 || size < align)
  }

  method ObjectSize(size: nat, hwAlign: bool) returns (objsize: nat, align: nat, off: bool)
    requires BYTES_PER_WORD <= size <= MAX_SIZE
    ensures Alignment(align) && Multiple(objsize, align) && size <= objsize <= MAX_SIZE
    ensures !hwAlign ==> align == BYTES_PER_WORD && objsize == RoundUp(size, 4)
    ensures hwAlign ==> objsize == RoundUp(RoundUp(size, 4), align) && (align == 32 || objsize == align)
    ensures hwAlign ==> Snug(RoundUp(size, 4), align)
    ensures off <==> RoundUp(size, 4) >= 512
    ensures off ==> objsize >= 512
    ensures !off ==> objsize <= 512
  {
    hide RoundUp, Multiple;
    var s: nat := size;
    Multiples(size);
    if size % BYTES_PER_WORD != 0 {
      s := MaskUp(size, BYTES_PER_WORD);
    }
    align := BYTES_PER_WORD;
    if hwAlign {
      align := L1_CACHE_BYTES;
    }
    off := s >= PAGE_SIZE / 8;
    if hwAlign {
      while s < align / 2
        invariant s == RoundUp(size, 4) && Multiple(s, 4)
        invariant Alignment(align) && align > 4 && (align == 32 || s < align)
      {
        align := align / 2;
      }
      RoundUpLimits(s, align);
      s := MaskUp(s, align);
    }
    objsize := s;
  }

  lemma Multiples(size: nat)
    requires size <= MAX_SIZE
    ensures size % 4 == 0 ==> RoundUp(size, 4) == size
    ensures RoundUp(size, 4) <= MAX_SIZE && (RoundUp(size, 4) < 512 ==> RoundUp(size, 4) <= 508)
  {
  }

  lemma RoundUpLimits(s: nat, a: nat)
    requires Alignment(a) && 0 < s <= MAX_SIZE
    ensures RoundUp(s, a) <= MAX_SIZE && (s < 512 ==> RoundUp(s, a) <= 512) && (s < a ==> RoundUp(s, a) == a)
  {
    assert Multiple(MAX_SIZE, a) && Multiple(512, a) && Multiple(a, a) && Multiple(0, a);
    RoundUpLeast(s, a, MAX_SIZE);
    if s < 512 { RoundUpLeast(s, a, 512); }
    if s < a { RoundUpLeast(s, a, a); MultipleBelow(RoundUp(s, a), a); }
  }

  lemma MultipleBelow(x: nat, a: nat)
    requires a > 0 && Multiple(x, a) && 0 < x <= a
    ensures x == a
  {
    if x < a { DivModUnique(x, a, 0, x); }
  }

  /** More objects fit than an off-slab descriptor may have links. */
  ghost predicate Crowded(order: nat, size: nat, limit: nat) {
    forall n: nat :: Most(SlabBytes(order), size, true, n) ==> n > limit
  }

  /** No object fits the order that the search falls back to, when no link at all is allowed. */
  ghost predicate Hopeless(size: nat, off: bool, limit: nat) {
    off && limit == 0 && size <= SlabBytes(MAX_GFP_ORDER - 1)
  }

  /** The order of a slab: no lower one is acceptable or too crowded; it is acceptable itself, or the
      next one is too crowded, or there is none above. */
  ghost predicate Chosen(order: nat, size: nat, off: bool, breakOrder: nat, limit: nat, num: nat) {
    && (forall o, n :: 0 <= o < order ==> !Acceptable(o, size, off, breakOrder, n))
    && (off ==> forall o :: 0 <= o <= order && o < MAX_GFP_ORDER ==> !Crowded(o, size, limit))
    && (order == MAX_GFP_ORDER || Acceptable(order, size, off, breakOrder, num)
        || (off && Crowded(order + 1, size, limit)))
    && (off && order < MAX_GFP_ORDER ==> num <= limit)
  }

  lemma Choose(order: nat, size: nat, off: bool, breakOrder: nat, limit: nat, num: nat)
    requires forall o, n :: 0 <= o < order ==> !Acceptable(o, size, off, breakOrder, n)
    requires off ==> forall o :: 0 <= o < order ==> !Crowded(o, size, limit)
    requires off && order < MAX_GFP_ORDER ==> !Crowded(order, size, limit) && num <= limit
    requires order == MAX_GFP_ORDER || Acceptable(order, size, off, breakOrder, num)
             || (off && Crowded(order + 1, size, limit))
    ensures Chosen(order, size, off, breakOrder, limit, num)
  {
    hide Acceptable, Crowded;
  }

  lemma NotCrowded(order: nat, size: nat, limit: nat, num: nat)
    requires Most(SlabBytes(order), size, true, num)
    ensures num <= limit <==> !Crowded(order, size, limit)
  {
    hide Most;
    if n: nat :| Most(SlabBytes(order), size, true, n) && n <= limit {
      MostUnique(SlabBytes(order), size, true, num, n);
    }
  }

  /** kmem_cache_create's search for the number of pages per slab: the least acceptable order, or
      the one before, when an off-slab descriptor could not have a link for every object. */
  method FindOrder(size: nat, off: bool, breakOrder: nat, limit: nat) returns (order: nat, num: nat, left: nat)
    requires 0 < size <= MAX_SIZE && (!off ==> size <= 512) && (off ==> size >= 512 && PAGE_SIZE / size <= limit)
    requires breakOrder == 1 || breakOrder == 2
    ensures order <= MAX_GFP_ORDER && Most(SlabBytes(order), size, off, num) && num <= MAX_SIZE
    ensures num == 0 <==> Hopeless(size, off, limit)
    ensures left == SlabBytes(order) - Times(num, size) - Management(off, num)
    ensures Chosen(order, size, off, breakOrder, limit, num)
    ensures off ==> num <= 32
  {
    hide Times, L1Align, Pow2, Fits, SlabBytes, Crowded, Most, Chosen;
    order := 0;
    var breakFlag := false;
    while true
      invariant order <= MAX_GFP_ORDER
      invariant forall o, n :: 0 <= o < order ==> !Acceptable(o, size, off, breakOrder, n)
      invariant off ==> forall o :: 0 <= o < (if breakFlag then order + 1 else order) ==> !Crowded(o, size, limit)
      invariant order > breakOrder ==> SlabBytes(order) < 2 * size
      invariant off && limit == 0 && order > 0 ==> size > SlabBytes(order - 1)
      invariant breakFlag ==> off && order + 1 < MAX_GFP_ORDER && Crowded(order + 1, size, limit)
      invariant breakFlag && limit == 0 ==> size > SlabBytes(order)
      decreases !breakFlag, MAX_GFP_ORDER - order
    {
      OrderBytes(order);
      num, left := Estimate(SlabBytes(order), size, off);
      OneFits(order, size, off, num);
      if off { FewFit(order, size, off, breakOrder, num); }
      if off { NotCrowded(order, size, limit, num); }
      if breakFlag {
        HalfFits(order, size, limit, num);
        break;
      }
      if order >= MAX_GFP_ORDER {
        break;
      }
      if num != 0 {
        if off && num > limit {
          CrowdedHere(order, size, limit, num);
          order := order - 1;
          OrderBytes(order);
          if order > 0 { OrderBytes(order - 1); }
          breakFlag := true;
          continue;
        }
        if order >= breakOrder || left * 8 <= SlabBytes(order) {
          break;
        }
      }
      NotAcceptable(order, size, off, breakOrder, num);
      order := order + 1;
    }
    Choose(order, size, off, breakOrder, limit, num);
  }

  lemma NotAcceptable(order: nat, size: nat, off: bool, breakOrder: nat, num: nat)
    requires Most(SlabBytes(order), size, off, num) && !Acceptable(order, size, off, breakOrder, num)
    ensures forall n :: !Acceptable(order, size, off, breakOrder, n)
  {
    hide Most;
    forall n
      ensures !Acceptable(order, size, off, breakOrder, n)
    {
      if Acceptable(order, size, off, breakOrder, n) { MostUnique(SlabBytes(order), size, off, num, n); }
    }
  }

  /** On one page they are never too many. */
  lemma CrowdedHere(order: nat, size: nat, limit: nat, num: nat)
    requires Most(SlabBytes(order), size, true, num) && num > limit && size > 0 && PAGE_SIZE / size <= limit
    ensures Crowded(order, size, limit) && order > 0
  {
    forall n: nat | Most(SlabBytes(order), size, true, n)
      ensures n > limit
    {
      MostUnique(SlabBytes(order), size, true, num, n);
    }
    if order == 0 {
      assert SlabBytes(0) == PAGE_SIZE;
      DivBound(num, size, PAGE_SIZE);
    }
  }

  lemma DivBound(n: nat, d: nat, x: nat)
    requires d > 0 && Times(n, d) <= x
    ensures n <= x / d
  {
    var q := x / d;
    assert x == q * d + x % d;
    if n > q { TimesStep(q, n, d); }
  }

  /** When more objects than allowed fit into a slab, one fits into half of it if any is allowed. */
  lemma HalfFits(order: nat, size: nat, limit: nat, num: nat)
    requires order + 1 < MAX_GFP_ORDER && size >= 512 && Crowded(order + 1, size, limit)
    requires Most(SlabBytes(order), size, true, num)
    requires limit == 0 ==> size > SlabBytes(order)
    ensures num == 0 <==> Hopeless(size, true, limit)
  {
    hide Times, Pow2, SlabBytes;
    OrderBytes(order);
    TimesTwo(size);
    assert !Most(SlabBytes(order + 1), size, true, 0) && (limit > 0 ==> !Most(SlabBytes(order + 1), size, true, 1));
    SlabBytesUp(order + 1);
    if num > 0 { FitsDown(SlabBytes(order), size, true, 1, num); }
  }

  lemma TimesTwo(size: nat)
    ensures Times(0, size) == 0 && Times(1, size) == size && Times(2, size) == 2 * size
  {
  }

  lemma SlabBytesUp(order: nat)
    requires order < MAX_GFP_ORDER
    ensures SlabBytes(order) <= SlabBytes(MAX_GFP_ORDER - 1)
  {
    assert Pow2(1) == 2 && Pow2(2) == 4 && Pow2(3) == 8 && Pow2(4) == 16;
  }

  lemma OrderBytes(order: nat)
    requires order <= MAX_GFP_ORDER
    ensures PAGE_SIZE <= SlabBytes(order) <= MAX_SIZE
    ensures order == MAX_GFP_ORDER ==> SlabBytes(order) == MAX_SIZE
    ensures order <= 2 ==> SlabBytes(order) <= 16384
    ensures SlabBytes(order + 1) == 2 * SlabBytes(order)
  {
    assert Pow2(1) == 2 && Pow2(2) == 4 && Pow2(3) == 8 && Pow2(4) == 16 && Pow2(5) == 32;
  }

  /** Small objects fit on one page, and any object at the highest order. */
  lemma OneFits(order: nat, size: nat, off: bool, num: nat)
    requires order <= MAX_GFP_ORDER && 0 < size <= MAX_SIZE && (!off ==> size <= 512)
    requires Most(SlabBytes(order), size, off, num)
    ensures (order == MAX_GFP_ORDER || !off) ==> num > 0
    ensures num == 0 && off ==> size > SlabBytes(order)
    ensures Times(num, size) + Management(off, num) <= SlabBytes(order)
  {
    OrderBytes(order);
  }

  /** Few objects of at least 512 bytes fit a slab that the search looks at. */
  lemma FewFit(order: nat, size: nat, off: bool, breakOrder: nat, num: nat)
    requires order <= MAX_GFP_ORDER && off && size >= 512 && Most(SlabBytes(order), size, off, num)
    requires breakOrder <= 2 && (order > breakOrder ==> SlabBytes(order) < 2 * size)
    ensures num <= 32
  {
    OrderBytes(order);
    hide Times;
    TimesAtLeast(1, size);
    assert Times(33, size) == 33 * size && Times(2, size) == 2 * size;
    if num > 33 { TimesStep(33, num, size); }
    if num > 2 { TimesStep(2, num, size); }
  }

  /** Off-slab objects leave too little room for the management on the slab. */
  ghost predicate Tight(order: nat, num: nat, objsize: nat) {
    SlabBytes(order) - Times(num, objsize) < L1Align(SLAB_STRUCT + BUFCTL * num)
  }

  /** Bytes of the slab descriptor and the object links. */
  function Descriptor(l: Layout): nat {
    L1Align(BUFCTL * l.num + SLAB_STRUCT)
  }

  const GENERAL: nat := 13            // entries of cache_sizes

  /** kmem_find_general_cachep: the first general cache whose objects are large enough. */
  method FindGeneral(size: nat) returns (i: nat)
    ensures i <= GENERAL && (i < GENERAL ==> size <= 32 * Pow2(i)) && forall j :: 0 <= j < i ==> size > 32 * Pow2(j)
  {
    i := 0;
    var csSize: nat := 32;
    while i < GENERAL
      invariant i <= GENERAL && csSize == 32 * Pow2(i)
      invariant forall j :: 0 <= j < i ==> size > 32 * Pow2(j)
    {
      if size <= csSize {
        return;
      }
      i, csSize := i + 1, 2 * csSize;
    }
  }

  /** The layout of a cache: sound, for objects of the size asked for, and wasting less than one
      step of colour. */
  ghost predicate LaidOut(l: Layout, size: nat, offset: nat, hwAlign: bool) {
    && Sound(l) && size <= l.objsize
    && (!hwAlign ==> l.align == 4 && l.objsize == RoundUp(size, 4))
    && (hwAlign ==> Snug(RoundUp(size, 4), l.align) && l.objsize == RoundUp(RoundUp(size, 4), l.align))
    && (hwAlign ==> l.align == 32 || l.objsize == l.align)
    && l.colourOff == (if offset == 0 then L1_CACHE_BYTES else RoundUp(offset, l.align))
    && (l.off <==> size > 508 && Tight(l.order, l.num, l.objsize))
    && Most(SlabBytes(l.order), l.objsize, size > 508, l.num)
    && SlabBytes(l.order) - Offset(l, l.colour, l.num) < l.colourOff
  }

  /** kmem_cache_create.  `home` is the general cache that off-slab descriptors come from.  It
      gives up just when no general cache sets a limit yet and the objects, too large for a page,
      need no slab of the highest order. */
  method Create(size: nat, offset: nat, hwAlign: bool, breakOrder: nat, limit: nat)
    returns (cache: Option<Layout>, home: Option<nat>)
    requires BYTES_PER_WORD <= size <= MAX_SIZE && offset <= size
    requires breakOrder == 1 || breakOrder == 2
    requires size > 508 ==> PAGE_SIZE / RoundUp(size, 4) <= limit
    ensures cache.None? <==> size > 508 && limit == 0 && size <= SlabBytes(MAX_GFP_ORDER - 1)
    ensures cache.Some? ==> LaidOut(cache.value, size, offset, hwAlign)
    ensures cache.Some? ==>
      Chosen(cache.value.order, cache.value.objsize, size > 508, breakOrder, limit, cache.value.num)
    ensures home.Some? <==> cache.Some? && cache.value.off
    ensures home.Some? ==> home.value <= 3 && Descriptor(cache.value) <= 32 * Pow2(home.value)
  {
    var objsize, align, off := ObjectSize(size, hwAlign);
    Multiples(size);
    RoundedSize(size, objsize, align, hwAlign);
    hide Times, Pow2, RoundUp, L1Align, SlabBytes, Multiple, Chosen, LaidOut, Most, Management;
    cache, home := None, None;
    if off { MoreFit(RoundUp(size, 4), objsize); }
    var order, num, left := FindOrder(objsize, off, breakOrder, limit);
    if num == 0 {
      return;
    }
    var l := Colour(size, offset, hwAlign, objsize, align, order, num, left);
    cache := Some(l);
    if l.off {
      OffSize(l, size, offset, hwAlign);
      var i := FindHome(num);
      home := Some(i);
    }
  }

  /** The general cache that holds the descriptors of a slab of num objects. */
  method FindHome(num: nat) returns (i: nat)
    requires num <= 32
    ensures i <= 3 && L1Align(BUFCTL * num + SLAB_STRUCT) <= 32 * Pow2(i)
  {
    hide Pow2, L1Align;
    var slabSize := L1MaskUp(num * BUFCTL + SLAB_STRUCT);
    i := FindGeneral(slabSize);
    FewLines(num, i);
  }

  /** The end of kmem_cache_create: where the management goes, and the colours. */
  method Colour(size: nat, offset: nat, ghost hwAlign: bool, objsize: nat, align: nat, order: nat, num: nat, left0: nat)
    returns (l: Layout)
    requires Alignment(align) && Multiple(objsize, align) && size <= objsize <= MAX_SIZE && 0 < objsize
    requires offset <= MAX_SIZE && order <= MAX_GFP_ORDER && 0 < num <= MAX_SIZE
    requires !hwAlign ==> align == 4 && objsize == RoundUp(size, 4)
    requires hwAlign ==> objsize == RoundUp(RoundUp(size, 4), align) && (align == 32 || objsize == align)
    requires hwAlign ==> Snug(RoundUp(size, 4), align)
    requires Most(SlabBytes(order), objsize, size > 508, num)
    requires left0 == SlabBytes(order) - Times(num, objsize) - Management(size > 508, num)
    ensures LaidOut(l, size, offset, hwAlign) && l.num == num && l.order == order && l.objsize == objsize
  {
    hide Times, Pow2, RoundUp, L1Align, SlabBytes, Multiple;
    OrderBytes(order);
    var off, left := size > 508, left0;
    var slabSize := L1MaskUp(num * BUFCTL + SLAB_STRUCT);
    if off && left >= slabSize {
      off := false;
      left := left - slabSize;
    }
    var colourOff: nat := ColourStep(offset, align);
    l := Layout(num, objsize, align, order, off, Quotient(left, colourOff), colourOff);
  }

  lemma RoundedSize(size: nat, objsize: nat, align: nat, hwAlign: bool)
    requires size <= MAX_SIZE && Alignment(align)
    requires objsize == if hwAlign then RoundUp(RoundUp(size, 4), align) else RoundUp(size, 4)
    ensures RoundUp(size, 4) <= objsize
    ensures objsize <= SlabBytes(MAX_GFP_ORDER - 1) <==> size <= SlabBytes(MAX_GFP_ORDER - 1)
    ensures RoundUp(size, 4) >= 512 <==> size > 508
  {
    assert Pow2(4) == 16;
    assert SlabBytes(4) == 65536;
    assert Multiple(65536, align) && Multiple(65536, 4);
    if size <= 65536 {
      RoundUpLeast(size, 4, 65536);
      RoundUpLeast(RoundUp(size, 4), align, 65536);
    }
  }

  lemma MoreFit(x: nat, y: nat)
    requires 0 < x <= y
    ensures PAGE_SIZE / y <= PAGE_SIZE / x
  {
    var q := PAGE_SIZE / y;
    assert PAGE_SIZE == q * y + PAGE_SIZE % y;
    MulSpread2(q, x, y);
    DivBound(q, x, PAGE_SIZE);
  }

  lemma MulSpread2(q: nat, x: nat, y: nat)
    requires x <= y
    ensures Times(q, x) <= q * y
  {
    if x < y { MulSpread(x, y, q); }
  }

  lemma OffSize(l: Layout, size: nat, offset: nat, hwAlign: bool)
    requires LaidOut(l, size, offset, hwAlign) && l.off
    ensures size > 508
  {
    hide Sound, Tight, Most, RoundUp;
  }

  lemma FewLines(num: nat, i: nat)
    requires num <= 32 && (i > 3 ==> L1Align(BUFCTL * num + SLAB_STRUCT) > 32 * Pow2(3))
    ensures i <= 3
  {
    assert Pow2(3) == 8;
  }

  lemma RoundUpZero(align: nat)
    requires Alignment(align)
    ensures RoundUp(0, align) == 0
  {
  }

  method ColourStep(offset: nat, align: nat) returns (colourOff: nat)
    requires Alignment(align) && offset <= MAX_SIZE
    ensures colourOff > 0 && Multiple(colourOff, align)
    ensures colourOff == if offset == 0 then L1_CACHE_BYTES else RoundUp(offset, align)
  {
    RoundUpZero(align);
    colourOff := MaskUp(offset, align);
    if colourOff == 0 {
      colourOff := L1_CACHE_BYTES;
    }
  }

  function Quotient(x: nat, d: nat): (q: nat)
    requires d > 0
    ensures Times(q, d) <= x < Times(q, d) + d
  {
    assert x == (x / d) * d + x % d;
    x / d
  }

  /** A power of two below the slab's bytes packs without waste, so it stays off-slab. */
  lemma PowersPack(order: nat, j: nat, num: nat)
    requires Most(SlabBytes(order), 32 * Pow2(j), true, num) && num > 0
    ensures Tight(order, num, 32 * Pow2(j))
  {
    hide Times;
    var size, n := 32 * Pow2(j), order + 7;
    TimesAtLeast(1, size);
    FitsDown(SlabBytes(order), size, true, 1, num);
    assert Pow2(7) == 128;
    hide Pow2;
    Pow2Add(order, 7);
    assert SlabBytes(order) == 32 * Pow2(n);
    if n < j { Pow2Mono(n, j); }
    Pow2Add(n - j, j);
    var m := Pow2(n - j);
    TimesAssoc(m, 32, Pow2(j));
    TimesStep(m, m + 1, size);
    MostUnique(SlabBytes(order), size, true, num, m);
  }

  lemma TimesAssoc(a: nat, b: nat, c: nat)
    ensures Times(a, b * c) == b * (a * c)
  {
  }

  lemma SizeSteps(j: nat)
    ensures 32 * Pow2(j) <= 131072 <==> j <= 12
    ensures 32 * Pow2(j) >= 32 && (32 * Pow2(j) > 256 <==> j > 3) && (32 * Pow2(j) > 508 <==> j > 3)
    ensures j < 3 ==> 32 * Pow2(j) <= 128
    ensures Pow2(j + 1) == 2 * Pow2(j) && (j == 3 ==> 32 * Pow2(j) == 256)
  {
    assert Pow2(3) == 8 && Pow2(4) == 16;
    Pow2Add(8, 4);
    assert Pow2(8) == 256;
    if j < 12 { Pow2Mono(j, 12); }
    if j > 12 { Pow2Mono(12, j); }
    if j < 2 { Pow2Mono(j, 2); }
    assert Pow2(2) == 4;
    if j > 4 { Pow2Mono(4, j); }
  }

  lemma LinesStay(n: nat)
    ensures RoundUp(RoundUp(32 * n, 4), 32) == 32 * n
  {
    hide RoundUp;
    RoundUpMultiple(8 * n, 4);
    RoundUpMultiple(n, 32);
  }

  lemma RoundUpMultiple(n: nat, a: nat)
    requires a > 0
    ensures RoundUp(n * a, a) == n * a
  {
    MultipleMod(n, a);
    RoundUpLeast(n * a, a, n * a);
  }

  lemma SmallQuotient(size: nat)
    requires size >= 32
    ensures size > 508 ==> PAGE_SIZE / RoundUp(size, 4) <= 32
  {
    if size > 508 {
      var r := RoundUp(size, 4);
      MoreFit(128, r);
    }
  }

  /** One general cache, and the off-slab limit after it. */
  method GeneralCache(size: nat, breakOrder: nat, limit: nat, ghost j: nat)
    returns (l: Layout, home: Option<nat>, after: nat)
    requires size == 32 * Pow2(j) <= MAX_SIZE && (breakOrder == 1 || breakOrder == 2)
    requires size > 508 ==> limit >= 32
    ensures GeneralAt(l, home, j) && Chosen(l.order, size, size > 508, breakOrder, limit, l.num)
    ensures after == if size <= 508 then (size - SLAB_STRUCT) / 2 else limit
  {
    SizeSteps(j);
    LinesStay(Pow2(j));
    hide Pow2, Sound, RoundUp, Most, Tight, Times, SlabBytes, Offset;
    SmallQuotient(size);
    var cache;
    cache, home := Create(size, 0, true, breakOrder, limit);
    l := cache.value;
    SoundFacts(l);
    assert l.objsize == size;
    if size > 508 { PowersPack(l.order, j, l.num); }
    after := if l.off then limit else (size - SLAB_STRUCT) / 2;
  }

  /** The general caches hold objects of 32, 64, 128, ... bytes, and those that keep their
      descriptors off the slabs keep them in an earlier one, in which they fit. */
  ghost predicate General(layouts: seq<Layout>, homes: seq<Option<nat>>) {
    |homes| == |layouts| && forall i :: 0 <= i < |layouts| ==> GeneralAt(layouts[i], homes[i], i)
  }

  ghost predicate GeneralAt(l: Layout, home: Option<nat>, i: nat) {
    && LaidOut(l, 32 * Pow2(i), 0, true) && l.objsize == 32 * Pow2(i) && (home.Some? <==> l.off)
    && (home.Some? ==> home.value < i && Descriptor(l) <= 32 * Pow2(home.value))
  }

  lemma NoCaches()
    ensures General([], []) && Pow2(0) == 1
  {
  }

  lemma GeneralStep(layouts: seq<Layout>, homes: seq<Option<nat>>, l: Layout, home: Option<nat>)
    requires General(layouts, homes) && GeneralAt(l, home, |layouts|)
    ensures General(layouts + [l], homes + [home])
  {
    hide GeneralAt;
  }

  /** kmem_cache_sizes_init: the caches behind kmalloc, and the off-slab limit they leave. */
  method SizesInit(breakOrder: nat) returns (layouts: seq<Layout>, homes: seq<Option<nat>>, limit: nat)
    requires breakOrder == 1 || breakOrder == 2
    ensures |layouts| == GENERAL && General(layouts, homes)
    ensures limit == 116
  {
    hide Pow2, Sound, General, LaidOut, Chosen, Descriptor, GeneralAt;
    layouts, homes, limit := [], [], 0;
    var size: nat := 32;
    NoCaches();
    while size <= 131072
      invariant size == 32 * Pow2(|layouts|) && |layouts| <= 13
      invariant General(layouts, homes)
      invariant size > 256 ==> limit == 116
      decreases 13 - |layouts|
    {
      ghost var j: nat := |layouts|;
      SizeSteps(j);
      var l, home;
      l, home, limit := GeneralCache(size, breakOrder, limit, j);
      GeneralStep(layouts, homes, l, home);
      layouts, homes := layouts + [l], homes + [home];
      size := 2 * size;
    }
    SizeSteps(|layouts|);
  }

  lemma SoundFacts(l: Layout)
    requires Sound(l)
    ensures 0 < l.num <= MAX_SIZE && Alignment(l.align)
  {
  }
}
