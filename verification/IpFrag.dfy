/** net/inet/ip.c and inet.c: cutting a datagram into fragments, the header checksum, and
    reassembly as section 3.2 of RFC 791 describes it. */
module IpFrag {
  import opened Common
  import opened Words

  const ETH_HEADER: nat := 14
  const IP_HEADER: nat := 20
  const IP_MF: nat := 0x2000
  const ENOMEM: int := 12
  const EIO: int := 5

  // ---------- the checksum ----------

  function Word(low: nat, high: nat): nat { low + 256 * high }

  /** The 16-bit words of a buffer, low byte first, added up. */
  function Sum(b: seq<Byte>): nat {
    if |b| < 2 then 0 else Word(b[0], b[1]) + Sum(b[2..])
  }

  /** The end-around carry of __inet_chksum. */
  function Fold(s: nat): nat {
    var c := s / 0x1_0000 + s % 0x1_0000;
    (c + c / 0x1_0000) % 0x1_0000
  }

  /** Folding keeps a sum modulo 2^16 - 1, and gives zero only for zero. */
  lemma FoldMod(s: nat)
    requires s < WORD
    ensures Fold(s) % 0xFFFF == s % 0xFFFF
    ensures Fold(s) == 0 <==> s == 0
    ensures Fold(s) <= 0xFFFF
  {
    var h, l := s / 0x1_0000, s % 0x1_0000;
    var c := h + l;
    assert s == h * 0xFFFF + c;
    assert c <= 2 * 0xFFFF;
  }

  /** __inet_chksum.  It adds up whole words: when the size is odd the last one takes in the byte
      behind the data. */
  method Checksum(buffer: seq<Byte>, size0: nat) returns (r: nat)
    requires size0 < 0x1_0000 && size0 + size0 % 2 <= |buffer|
    ensures r == 0xFFFF - Fold(Sum(buffer[..size0 + size0 % 2]))
  {
    hide Fold, Sum, Add32, Word;
    ghost var b := buffer[..size0 + size0 % 2];
    var size: nat, cksum: nat, i: nat := size0, 0, 0;
    assert b[0..] == b;
    while size > 1
      invariant size + i == size0 && i % 2 == 0
      invariant cksum + Sum(b[i..]) == Sum(b) && 2 * cksum <= 0xFFFF * i
    {
      SumStep(b, i);
      NoWrap(cksum, Word(buffer[i], buffer[i + 1]));
      cksum := Add32(cksum, Word(buffer[i], buffer[i + 1]));
      size := size - 2;
      i := i + 2;
    }
    SumStep(b, i);
    SumStep(b, |b|);
    if size != 0 {
      NoWrap(cksum, Word(buffer[i], buffer[i + 1]));
      cksum := Add32(cksum, Word(buffer[i], buffer[i + 1]));
    }
    r := Complement(cksum);
  }

  /** So for odd sizes it is the checksum of the data padded with a zero byte, as RFC 1071 has it,
      exactly when the byte behind the data is zero. */
  lemma OddChecksum(data: seq<Byte>, behind: Byte)
    requires |data| % 2 == 1 && |data| < 0x1_0000
    ensures Fold(Sum(data + [behind])) == Fold(Sum(data + [0])) <==> behind == 0
  {
    hide Sum, Fold;
    var n := |data| - 1;
    assert data == data[..n] + [data[n]];
    SumPadded(data[..n], data[n], behind);
    SumPadded(data[..n], data[n], 0);
    SumBound(data[..n]);
    FoldApart(Sum(data[..n]) + data[n], behind);
  }

  lemma SumPadded(front: seq<Byte>, x: Byte, y: Byte)
    requires |front| % 2 == 0
    ensures Sum(front + [x] + [y]) == Sum(front) + x + 256 * y
  {
    SumConcat(front, [x, y]);
    assert front + [x] + [y] == front + [x, y];
    assert [x, y][2..] == [];
  }

  lemma FoldApart(s: nat, y: Byte)
    requires s + 256 * y < WORD
    ensures Fold(s + 256 * y) == Fold(s) <==> y == 0
  {
    hide Fold;
    FoldMod(s);
    FoldMod(s + 256 * y);
    if y > 0 && Fold(s + 256 * y) == Fold(s) {
      ModShift(s, 256 * y);
    }
  }

  lemma ModShift(s: nat, d: nat)
    requires (s + d) % 0xFFFF == s % 0xFFFF && d < 0xFFFF
    ensures d == 0
  {
    var j, k := (s + d) / 0xFFFF, s / 0xFFFF;
    assert d == 0xFFFF * (j - k);
  }

  lemma SumStep(b: seq<Byte>, i: nat)
    requires i <= |b|
    ensures i + 2 <= |b| ==> Sum(b[i..]) == Word(b[i], b[i + 1]) + Sum(b[i + 2..]) && Word(b[i], b[i + 1]) <= 0xFFFF
    ensures Sum(b[|b|..]) == 0
  {
    if i + 2 <= |b| { assert b[i..][2..] == b[i + 2..]; }
  }

  method Complement(sum: nat) returns (r: nat)
    requires sum < WORD
    ensures r == 0xFFFF - Fold(sum)
  {
    var c := sum / 0x1_0000 + sum % 0x1_0000;
    c := c + c / 0x1_0000;
    LowComplement(c);
    r := (WORD - 1 - c) % 0x1_0000;
  }

  lemma LowComplement(c: nat)
    requires c < WORD
    ensures (WORD - 1 - c) % 0x1_0000 == 0xFFFF - c % 0x1_0000
  {
    var q, w := c / 0x1_0000, c % 0x1_0000;
    assert WORD - 1 - c == (0xFFFF - q) * 0x1_0000 + (0xFFFF - w);
  }

  lemma {:induction false} SumConcat(a: seq<Byte>, b: seq<Byte>)
    requires |a| % 2 == 0
    ensures Sum(a + b) == Sum(a) + Sum(b)
  {
    if a == [] {
      assert a + b == b;
    } else {
      assert (a + b)[2..] == a[2..] + b;
      SumConcat(a[2..], b);
    }
  }

  /** A header whose checksum field is the complement of the sum of the rest adds up to zero. */
  lemma ChecksumIsZero(before: seq<Byte>, after: seq<Byte>)
    requires |before| % 2 == 0 && Sum(before) + Sum(after) + 0xFFFF < WORD
    ensures var check := 0xFFFF - Fold(Sum(before + [0, 0] + after));
      check >= 0 && 0xFFFF - Fold(Sum(before + [check % 256, check / 256] + after)) == 0
  {
    hide Sum, Fold;
    var s := Sum(before) + Sum(after);
    SumWith(before, after, 0);
    FoldComplement(s);
    SumWith(before, after, 0xFFFF - Fold(s));
  }

  lemma FoldComplement(s: nat)
    requires s + 0xFFFF < WORD
    ensures Fold(s) <= 0xFFFF && Fold(s + (0xFFFF - Fold(s))) == 0xFFFF
  {
    hide Fold;
    FoldMod(s);
    ToMultiple(s, Fold(s));
    FoldMod(s + (0xFFFF - Fold(s)));
  }

  lemma ToMultiple(s: nat, f: nat)
    requires s % 0xFFFF == f % 0xFFFF && f <= 0xFFFF
    ensures (s + (0xFFFF - f)) % 0xFFFF == 0
  {
    var j, k := s / 0xFFFF, f / 0xFFFF;
    assert s + (0xFFFF - f) == 0xFFFF * (j - k + 1);
  }

  lemma SumWith(before: seq<Byte>, after: seq<Byte>, c: nat)
    requires |before| % 2 == 0 && c < 0x1_0000
    ensures Sum(before + [c % 256, c / 256] + after) == Sum(before) + Sum(after) + c
  {
    var w: seq<Byte> := [c % 256, c / 256];
    SumConcat(before, w + after);
    assert before + w + after == before + (w + after);
    assert (w + after)[2..] == after;
  }

  // ---------- fragments ----------

  /** What the headers of all fragments share; addresses in network byte order. */
  datatype Route = Route(proto: Byte, src: seq<Byte>, dst: seq<Byte>)

  predicate RouteOk(t: Route) { |t.src| == 4 && |t.dst| == 4 }

  datatype Frame = Frame(header: seq<Byte>, data: seq<Byte>)

  predicate Short(x: int) { 0 <= x < 0x1_0000 }

  /** The header up to its checksum: version and length, service, total length, identification,
      flags and offset, time to live, protocol. */
  function Front(totLen: nat, id: nat, fragOff: nat, t: Route): seq<Byte>
    requires Short(totLen) && Short(id) && Short(fragOff)
  {
    [0x45, 0, totLen / 256, totLen % 256, id / 256, id % 256, fragOff / 256, fragOff % 256, 128, t.proto]
  }

  function Header(totLen: nat, id: nat, fragOff: nat, t: Route): seq<Byte>
    requires Short(totLen) && Short(id) && Short(fragOff)
  {
    var front, back := Front(totLen, id, fragOff, t), t.src + t.dst;
    var check := 0xFFFF - Fold(Sum(front + [0, 0] + back));
    front + [check % 256, check / 256] + back
  }

  /** What a receiver reads from a header (section 3.1 of RFC 791). */
  function TotalLength(f: Frame): nat
    requires |f.header| == 20
  {
    Word(f.header[3], f.header[2])
  }

  function FragField(f: Frame): nat
    requires |f.header| == 20
  {
    Word(f.header[7], f.header[6])
  }

  function Offset(f: Frame): nat
    requires |f.header| == 20
  {
    FragField(f) % 0x2000 * 8
  }

  predicate More(f: Frame)
    requires |f.header| == 20
  {
    FragField(f) / 0x2000 % 2 == 1
  }

  /** The flags and offset field: the more-fragments flag never collides with the offset. */
  function Field(off: nat, last: bool): nat {
    if last then off / 8 else off / 8 + IP_MF
  }

  /** The words as the network has them, high byte first, added up. */
  function NetSum(b: seq<Byte>): nat {
    if |b| < 2 then 0 else Word(b[1], b[0]) + NetSum(b[2..])
  }

  /** A header of version 4 and five words, with these addresses, protocol and identification and a
      fresh time to live, that adds up as section 3.1 of RFC 791 has it. */
  ghost predicate Addressed(f: Frame, id: nat, t: Route) {
    && |f.header| == 20 && f.header[0] == 0x45 && f.header[1] == 0 && f.header[8] == 128
    && Word(f.header[5], f.header[4]) == id && f.header[9] == t.proto
    && f.header[12..16] == t.src && f.header[16..20] == t.dst
    && FragField(f) < 0x4000
    && 0xFFFF - Fold(NetSum(f.header)) == 0
  }

  /** The sum in one byte order is zero exactly when it is in the other. */
  lemma {:induction false} NetSumIs(b: seq<Byte>)
    ensures (NetSum(b) - 256 * Sum(b)) % 0xFFFF == 0 && (NetSum(b) == 0 <==> Sum(b) == 0)
    ensures NetSum(b) <= 0x8000 * |b|
  {
    if |b| >= 2 {
      NetSumIs(b[2..]);
      SwapWord(b[0], b[1], NetSum(b[2..]) - 256 * Sum(b[2..]));
    }
  }

  lemma SwapWord(x: Byte, y: Byte, rest: int)
    requires rest % 0xFFFF == 0
    ensures (Word(y, x) - 256 * Word(x, y) + rest) % 0xFFFF == 0
  {
    assert Word(y, x) - 256 * Word(x, y) + rest == 0xFFFF * (rest / 0xFFFF - y);
  }

  lemma NetChecks(b: seq<Byte>)
    requires Fold(Sum(b)) == 0xFFFF && |b| < 0x1_0000
    ensures Fold(NetSum(b)) == 0xFFFF
  {
    hide Fold, Sum, NetSum;
    NetSumIs(b);
    SumBound(b);
    FoldMod(Sum(b));
    FoldMod(NetSum(b));
    ZeroTimes(Sum(b), NetSum(b));
    FoldMod(0);
  }

  lemma ZeroTimes(s: nat, n: nat)
    requires s % 0xFFFF == 0 && (n - 256 * s) % 0xFFFF == 0
    ensures n % 0xFFFF == 0
  {
    assert n == 0xFFFF * ((n - 256 * s) / 0xFFFF + 256 * (s / 0xFFFF));
  }

  lemma {:induction false} OrAbove(x: nat, k: nat)
    requires x < Pow2(k)
    ensures Or(x, Pow2(k)) == x + Pow2(k)
  {
    if k > 0 {
      OrAbove(x / 2, k - 1);
    } else {
      OrZero(0);
    }
  }

  lemma {:induction false} SumBound(b: seq<Byte>)
    ensures Sum(b) <= 0x8000 * |b|
  {
    if |b| >= 2 { SumBound(b[2..]); }
  }

  lemma FieldReads(off: nat, last: bool)
    requires Short(off) && off % 8 == 0
    ensures Short(Field(off, last)) && Field(off, last) < 0x4000 && Field(off, last) % 0x2000 * 8 == off
    ensures Field(off, last) / 0x2000 % 2 == 1 <==> !last
  {
  }

  lemma HeaderBytes(totLen: nat, id: nat, fragOff: nat, t: Route)
    requires Short(totLen) && Short(id) && Short(fragOff) && RouteOk(t)
    ensures var h := Header(totLen, id, fragOff, t);
      && |h| == 20 && Word(h[3], h[2]) == totLen && Word(h[7], h[6]) == fragOff
      && h[0] == 0x45 && h[1] == 0 && h[8] == 128 && Word(h[5], h[4]) == id && h[9] == t.proto
      && h[12..16] == t.src && h[16..20] == t.dst
  {
    hide Sum, Fold;
    FoldAtMost(Sum(Front(totLen, id, fragOff, t) + [0, 0] + (t.src + t.dst)));
  }

  lemma HeaderReads(totLen: nat, id: nat, off: nat, last: bool, t: Route, data: seq<Byte>)
    requires Short(totLen) && Short(id) && Short(off) && off % 8 == 0 && RouteOk(t)
    ensures Short(Field(off, last))
    ensures var f := Frame(Header(totLen, id, Field(off, last), t), data);
      |f.header| == 20 && TotalLength(f) == totLen && Offset(f) == off && (More(f) <==> !last) && Addressed(f, id, t)
  {
    hide Header, Field, Word, Sum, NetSum, Fold;
    FieldReads(off, last);
    HeaderBytes(totLen, id, Field(off, last), t);
    HeaderChecks(totLen, id, Field(off, last), t);
    NetChecks(Header(totLen, id, Field(off, last), t));
  }

  lemma FoldAtMost(s: nat)
    ensures Fold(s) <= 0xFFFF
  {
  }

  /** The checksum of every header recomputes to zero. */
  lemma HeaderChecks(totLen: nat, id: nat, fragOff: nat, t: Route)
    requires Short(totLen) && Short(id) && Short(fragOff) && RouteOk(t)
    ensures 0xFFFF - Fold(Sum(Header(totLen, id, fragOff, t))) == 0
  {
    hide Sum, Fold;
    var front, back := Front(totLen, id, fragOff, t), t.src + t.dst;
    SumBound(front);
    SumBound(back);
    ChecksumIsZero(front, back);
  }

  /** The fragment of `p` that starts at `off`. */
  function FrameAt(p: seq<Byte>, off: nat, unit: nat, id: nat, t: Route): Frame
    requires off < |p| && |p| + IP_HEADER < 0x1_0000 && 0 < unit && Short(id)
  {
    var end := Next(p, off, unit);
    Frame(Header(end - off + IP_HEADER, id, Field(off, end == |p|), t), p[off..end])
  }

  /** The fragments of `p` from `off` on, `unit` bytes each but the last. */
  function Frames(p: seq<Byte>, off: nat, unit: nat, id: nat, t: Route): seq<Frame>
    requires off <= |p| && |p| + IP_HEADER < 0x1_0000 && 0 < unit && Short(id)
    decreases |p| - off
  {
    if off == |p| then [] else [FrameAt(p, off, unit, id, t)] + Frames(p, Next(p, off, unit), unit, id, t)
  }

  function Next(p: seq<Byte>, off: nat, unit: nat): (r: nat)
    requires off < |p| && 0 < unit
    ensures off < r <= |p|
  {
    if unit < |p| - off then off + unit else |p|
  }

  lemma FramesStep(p: seq<Byte>, off: nat, unit: nat, id: nat, t: Route)
    requires off <= |p| && |p| + IP_HEADER < 0x1_0000 && 0 < unit && Short(id)
    ensures off < |p| ==>
      Frames(p, off, unit, id, t) == [FrameAt(p, off, unit, id, t)] + Frames(p, Next(p, off, unit), unit, id, t)
    ensures Frames(p, |p|, unit, id, t) == []
  {
  }

  /** The data of the fragments starts at multiples of eight. */
  lemma NextAligned(p: seq<Byte>, off: nat, unit: nat)
    requires off < |p| && 0 < unit && off % 8 == 0 && unit % 8 == 0
    ensures Next(p, off, unit) < |p| ==> Next(p, off, unit) % 8 == 0
  {
    AddMultiples(off, unit);
  }

  lemma AddMultiples(a: nat, b: nat)
    requires a % 8 == 0 && b % 8 == 0
    ensures (a + b) % 8 == 0
  {
    assert a + b == 8 * (a / 8 + b / 8);
  }

  /** A fragment of `p`: it fits the mtu, as full as whole eights allow, says truly where its data
      belongs and whether more follows, and is of this datagram. */
  ghost predicate Good(p: seq<Byte>, mtu: nat, id: nat, t: Route, f: Frame) {
    && |f.header| == IP_HEADER && ETH_HEADER + IP_HEADER + |f.data| <= mtu
    && 0 < |f.data| && TotalLength(f) == IP_HEADER + |f.data|
    && Offset(f) + |f.data| <= |p| && f.data == p[Offset(f)..Offset(f) + |f.data|]
    && (More(f) <==> Offset(f) + |f.data| < |p|)
    && (More(f) ==> |f.data| % 8 == 0 && mtu < ETH_HEADER + IP_HEADER + |f.data| + 8)
    && Addressed(f, id, t)
  }

  lemma FrameGood(p: seq<Byte>, off: nat, unit: nat, id: nat, t: Route, mtu: nat)
    requires off < |p| && |p| + IP_HEADER < 0x1_0000 && 0 < unit && Short(id) && RouteOk(t)
    requires off % 8 == 0 && ETH_HEADER + IP_HEADER <= mtu && unit == Unit(mtu)
    ensures var f := FrameAt(p, off, unit, id, t);
      Good(p, mtu, id, t, f) && Offset(f) == off && off + |f.data| == Next(p, off, unit)
  {
    hide Header, Addressed, Offset, More, TotalLength;
    var end := Next(p, off, unit);
    HeaderReads(end - off + IP_HEADER, id, off, end == |p|, t, p[off..end]);
  }

  lemma {:induction false} FramesGood(p: seq<Byte>, off: nat, unit: nat, id: nat, t: Route, mtu: nat)
    requires off <= |p| && |p| + IP_HEADER < 0x1_0000 && 0 < unit && Short(id) && RouteOk(t)
    requires (off < |p| ==> off % 8 == 0) && ETH_HEADER + IP_HEADER <= mtu && unit == Unit(mtu)
    ensures forall f :: f in Frames(p, off, unit, id, t) ==> Good(p, mtu, id, t, f)
    decreases |p| - off
  {
    if off < |p| {
      hide FrameAt, Good, Next, Frames;
      FramesStep(p, off, unit, id, t);
      NextAligned(p, off, unit);
      FrameGood(p, off, unit, id, t, mtu);
      FramesGood(p, Next(p, off, unit), unit, id, t, mtu);
    } else {
      assert Frames(p, off, unit, id, t) == [];
    }
  }

  /** The fragments follow one another without a gap, and the last one, and only it, is marked so. */
  lemma {:induction false} FramesInOrder(p: seq<Byte>, off: nat, unit: nat, id: nat, t: Route, mtu: nat, i: nat)
    requires off <= |p| && |p| + IP_HEADER < 0x1_0000 && 0 < unit && Short(id) && RouteOk(t)
    requires (off < |p| ==> off % 8 == 0) && ETH_HEADER + IP_HEADER <= mtu && unit == Unit(mtu)
    requires i < |Frames(p, off, unit, id, t)|
    ensures var fs := Frames(p, off, unit, id, t);
      Good(p, mtu, id, t, fs[i]) && Offset(fs[i]) == off + i * unit && (More(fs[i]) <==> i + 1 < |fs|)
    decreases |p| - off
  {
    hide FrameAt, Good, Next, Frames, Offset, More, Unit;
    FramesStep(p, off, unit, id, t);
    NextAligned(p, off, unit);
    FrameGood(p, off, unit, id, t, mtu);
    var f := FrameAt(p, off, unit, id, t);
    GoodEnds(p, mtu, id, t, f);
    var next := Next(p, off, unit);
    FramesStep(p, next, unit, id, t);
    NextIs(p, off, unit);
    if i > 0 {
      FramesInOrder(p, next, unit, id, t, mtu, i - 1);
      OneMore(off, i, unit);
    }
  }

  lemma NextIs(p: seq<Byte>, off: nat, unit: nat)
    requires off < |p| && 0 < unit
    ensures Next(p, off, unit) < |p| ==> Next(p, off, unit) == off + unit
  {
  }

  lemma OneMore(off: nat, i: nat, unit: nat)
    requires i > 0
    ensures off + unit + (i - 1) * unit == off + i * unit
  {
  }

  /** Every byte of `p` from `off` on is in some fragment. */
  lemma {:induction false} FramesCover(p: seq<Byte>, off: nat, unit: nat, id: nat, t: Route, mtu: nat, i: nat)
    returns (f: Frame)
    requires off <= i < |p| && |p| + IP_HEADER < 0x1_0000 && 0 < unit && Short(id) && RouteOk(t)
    requires off % 8 == 0 && ETH_HEADER + IP_HEADER <= mtu && unit == Unit(mtu)
    ensures f in Frames(p, off, unit, id, t) && Good(p, mtu, id, t, f) && Offset(f) <= i < Offset(f) + |f.data|
    decreases |p| - off
  {
    hide FrameAt, Next, Frames, Offset, More, TotalLength, Sum, Fold;
    FramesStep(p, off, unit, id, t);
    NextAligned(p, off, unit);
    FrameGood(p, off, unit, id, t, mtu);
    if i < Next(p, off, unit) {
      f := FrameAt(p, off, unit, id, t);
    } else {
      f := FramesCover(p, Next(p, off, unit), unit, id, t, mtu, i);
    }
  }

  /** The bytes of data in a fragment other than the last. */
  function Unit(mtu: nat): (r: nat)
    requires ETH_HEADER + IP_HEADER <= mtu
    ensures r % 8 == 0 && ETH_HEADER + IP_HEADER + r <= mtu < ETH_HEADER + IP_HEADER + r + 8
    ensures r > 0 <==> ETH_HEADER + IP_HEADER + 8 <= mtu
  {
    (mtu - ETH_HEADER - IP_HEADER) / 8 * 8
  }

  /** A fragment without data, in front of a payload. */
  function Empty(id: nat, t: Route): Frame
    requires Short(id)
  {
    Frame(Header(IP_HEADER, id, Field(0, false), t), [])
  }

  /** All the frames for a payload, were there no failure: none ever carries data when the mtu has
      no room for eight bytes. */
  function AllFrames(p: seq<Byte>, mtu: nat, id: nat, t: Route, n: nat): seq<Frame>
    requires ETH_HEADER + IP_HEADER <= mtu && |p| + IP_HEADER < 0x1_0000 && Short(id)
  {
    if p == [] then [] else if Unit(mtu) == 0 then Repeat(Empty(id, t), n) else Frames(p, 0, Unit(mtu), id, t)
  }

  function Repeat(f: Frame, n: nat): (r: seq<Frame>)
    ensures |r| == n && forall i :: 0 <= i < n ==> r[i] == f
  {
    if n == 0 then [] else Repeat(f, n - 1) + [f]
  }

  /** One fragment, cut from what is left of the payload. */
  method NextFrame(p: seq<Byte>, fragoff: nat, mtu: nat, id: nat, t: Route) returns (f: Frame, len: nat)
    requires ETH_HEADER + IP_HEADER <= mtu < 0x1_0000 && |p| + IP_HEADER < 0x1_0000 && RouteOk(t) && Short(id)
    requires fragoff < |p|
    ensures Unit(mtu) > 0 ==> fragoff + len == Next(p, fragoff, Unit(mtu)) && f == FrameAt(p, fragoff, Unit(mtu), id, t)
    ensures Unit(mtu) == 0 && fragoff == 0 ==> len == 0 && f == Empty(id, t)
    ensures fragoff + len <= |p|
  {
    hide Header;
    var left: nat := |p| - fragoff;
    len := (mtu - ETH_HEADER - IP_HEADER) / 8;
    len := len * 8;
    if len > left {
      len := left;
    }
    var data := p[fragoff..fragoff + len];
    left := left - len;
    var fragField := FieldOf(fragoff, left == 0);
    var header := MakeHeader(len + IP_HEADER, id, fragField, t);
    f := Frame(header, data);
  }

  /** The first buffer that cannot be allocated or send that fails ends the fragmenting. */
  function Limit(allocs: nat, sends: nat): nat { if allocs <= sends then allocs else sends }

  /** ip_fragment.  The first `allocs` buffers can be allocated and the first `sends` sends
      succeed; an empty payload sends nothing.  With an mtu that has no room for eight bytes of
      data it sends empty fragments until something fails. */
  method Fragment(p: seq<Byte>, mtu: nat, lastId: nat, t: Route, allocs: nat, sends: nat)
    returns (ret: int, frames: seq<Frame>, id: nat)
    requires ETH_HEADER + IP_HEADER <= mtu < 0x1_0000 && |p| + IP_HEADER < 0x1_0000 && RouteOk(t) && Short(lastId)
    ensures Short(id) && id == (lastId + 1) % 0x1_0000
    ensures var all := AllFrames(p, mtu, id, t, Limit(allocs, sends) + 1);
      if |all| <= Limit(allocs, sends) then ret == 0 && frames == all
      else ret == (if allocs <= sends then -ENOMEM else -EIO) && frames == all[..Limit(allocs, sends)]
    ensures ret == 0 && p != [] ==> ETH_HEADER + IP_HEADER + 8 <= mtu
    ensures ETH_HEADER + IP_HEADER + 8 <= mtu ==> InOrder(p, mtu, id, t, frames, ret == 0)
    ensures ETH_HEADER + IP_HEADER + 8 > mtu ==> forall f :: f in frames ==> Hollow(f, id, t)
  {
    hide Good, FrameAt, Frames, Next, Unit, Empty, Repeat, InOrder, Hollow, RouteOk;
    id := (lastId + 1) % 0x1_0000;
    ghost var unit, most := Unit(mtu), Limit(allocs, sends);
    ghost var all := AllFrames(p, mtu, id, t, most + 1);
    if unit > 0 {
      AllInOrder(p, mtu, id, t, most);
      NoFrames(p, unit, id, t);
    } else {
      EmptyHollow(id, t);
    }
    var totalLen: nat, fragoff: nat := |p|, 0;
    frames := [];
    while totalLen != 0
      invariant totalLen + fragoff == |p| && |frames| <= most && (unit == 0 ==> fragoff == 0)
      invariant unit > 0 ==> all == frames + Frames(p, fragoff, unit, id, t)
      invariant unit == 0 && p != [] ==> frames == all[..|frames|]
      invariant p == [] ==> frames == []
      decreases totalLen, most - |frames|
    {
      if unit > 0 { FramesStep(p, fragoff, unit, id, t); }
      if |frames| == allocs {
        return -ENOMEM, frames, id;
      }
      var f, len := NextFrame(p, fragoff, mtu, id, t);
      if unit > 0 { Push(frames, f, Frames(p, fragoff + len, unit, id, t)); }
      totalLen, fragoff := totalLen - len, fragoff + len;
      if |frames| == sends {
        return -EIO, frames, id;
      }
      frames := frames + [f];
    }
    ret := 0;
  }

  /** A fragment that carries nothing and says that more follows. */
  ghost predicate Hollow(f: Frame, id: nat, t: Route) {
    Addressed(f, id, t) && f.data == [] && TotalLength(f) == IP_HEADER && Offset(f) == 0 && More(f)
  }

  lemma EmptyHollow(id: nat, t: Route)
    requires Short(id) && RouteOk(t)
    ensures Hollow(Empty(id, t), id, t)
  {
    hide Header, Addressed, TotalLength, Offset, More;
    HeaderReads(IP_HEADER, id, 0, false, t, []);
  }

  /** Good fragments from the start of the payload on, one behind the other, up to its end if they
      are all. */
  ghost predicate InOrder(p: seq<Byte>, mtu: nat, id: nat, t: Route, fs: seq<Frame>, all: bool) {
    && ETH_HEADER + IP_HEADER <= mtu
    && (forall i :: 0 <= i < |fs| ==> Good(p, mtu, id, t, fs[i]) && Offset(fs[i]) == i * Unit(mtu))
    && (forall i :: 0 <= i < |fs| - 1 ==> More(fs[i]))
    && (all && p != [] ==> fs != [] && !More(fs[|fs| - 1]))
  }

  lemma AllInOrder(p: seq<Byte>, mtu: nat, id: nat, t: Route, most: nat)
    requires ETH_HEADER + IP_HEADER + 8 <= mtu && |p| + IP_HEADER < 0x1_0000 && Short(id) && RouteOk(t)
    ensures var all := AllFrames(p, mtu, id, t, most + 1);
      InOrder(p, mtu, id, t, all, true) && (|all| > most ==> InOrder(p, mtu, id, t, all[..most], false))
  {
    hide Frames, Good, Offset, More, Unit, Next, FrameAt;
    var unit := Unit(mtu);
    if p != [] {
      var fs := Frames(p, 0, unit, id, t);
      FramesStep(p, 0, unit, id, t);
      forall i | 0 <= i < |fs|
        ensures |fs[i].header| == 20 && Good(p, mtu, id, t, fs[i])
        ensures Offset(fs[i]) == i * unit && (More(fs[i]) <==> i + 1 < |fs|)
      {
        FramesInOrder(p, 0, unit, id, t, mtu, i);
        HeaderSize(p, mtu, id, t, fs[i]);
      }
    }
  }

  lemma NoFrames(p: seq<Byte>, unit: nat, id: nat, t: Route)
    requires |p| + IP_HEADER < 0x1_0000 && 0 < unit && Short(id)
    ensures Frames(p, |p|, unit, id, t) == []
  {
  }

  lemma Push(a: seq<Frame>, f: Frame, b: seq<Frame>)
    ensures a + ([f] + b) == (a + [f]) + b && a <= a + ([f] + b)
  {
  }

  method FieldOf(off: nat, last: bool) returns (r: nat)
    requires Short(off)
    ensures r == Field(off, last) && Short(r)
  {
    if last {
      r := off / 8;
    } else {
      r := Or(off / 8, IP_MF);
      Pow13();
      OrAbove(off / 8, 13);
    }
  }

  lemma Pow13()
    ensures Pow2(13) == IP_MF
  {
    assert Pow2(8) == 256;
    Pow2Add(8, 5);
  }

  method MakeHeader(totLen: nat, id: nat, fragOff: nat, t: Route) returns (h: seq<Byte>)
    requires Short(totLen) && Short(id) && Short(fragOff) && RouteOk(t)
    ensures h == Header(totLen, id, fragOff, t)
  {
    hide Sum, Fold;
    var front, back := Front(totLen, id, fragOff, t), t.src + t.dst;
    var all := front + [0, 0] + back;
    assert all[..20] == all;
    var check := Checksum(all, 20);
    h := front + [check % 256, check / 256] + back;
  }

  // ---------- reassembly, section 3.2 of RFC 791 ----------

  /** Put data into the reassembly buffer; the keys are the bits of the fragment block table. */
  function Put(m: map<nat, Byte>, off: nat, data: seq<Byte>): map<nat, Byte>
    decreases |data|
  {
    if data == [] then m else Put(m[off := data[0]], off + 1, data[1..])
  }

  lemma {:induction false} PutAt(m: map<nat, Byte>, off: nat, data: seq<Byte>, i: nat)
    ensures i in Put(m, off, data) <==> i in m || off <= i < off + |data|
    ensures i in Put(m, off, data) ==>
      Put(m, off, data)[i] == if off <= i < off + |data| then data[i - off] else m[i]
    decreases |data|
  {
    if data != [] { PutAt(m[off := data[0]], off + 1, data[1..], i); }
  }

  /** The buffer after the fragments of `fs` arrived in this order. */
  function Buffer(fs: seq<Frame>): map<nat, Byte>
    requires forall f :: f in fs ==> |f.header| == 20
  {
    if fs == [] then map[]
    else var f := fs[|fs| - 1]; Put(Buffer(fs[..|fs| - 1]), Offset(f), f.data)
  }

  /** The length of the datagram, once its last fragment arrived. */
  function Length(fs: seq<Frame>): Option<nat>
    requires forall f :: f in fs ==> |f.header| == 20
  {
    if fs == [] then None
    else var f := fs[|fs| - 1]; if More(f) then Length(fs[..|fs| - 1]) else Some(Offset(f) + |f.data|)
  }

  /** The datagram, if every byte of it arrived. */
  ghost function Whole(m: map<nat, Byte>, n: Option<nat>): Option<seq<Byte>> {
    if n.Some? && (forall i: nat :: i < n.value ==> i in m)
    then Some(seq(n.value, i requires 0 <= i < n.value => m[i])) else None
  }

  ghost function Reassembled(fs: seq<Frame>): Option<seq<Byte>>
    requires forall f :: f in fs ==> |f.header| == 20
  {
    Whole(Buffer(fs), Length(fs))
  }

  lemma WholeIs(m: map<nat, Byte>, n: Option<nat>, p: seq<Byte>)
    requires forall i: nat :: i in m ==> i < |p| && m[i] == p[i]
    requires n == None || n == Some(|p|)
    ensures Whole(m, n) == None || Whole(m, n) == Some(p)
    ensures n.Some? && (forall i: nat :: i < |p| ==> i in m) ==> Whole(m, n) == Some(p)
  {
    if n.Some? && (forall i: nat :: i < |p| ==> i in m) {
      assert Whole(m, n).value == p;
    }
  }

  ghost predicate AllGood(p: seq<Byte>, mtu: nat, id: nat, t: Route, fs: seq<Frame>) {
    forall f :: f in fs ==> Good(p, mtu, id, t, f)
  }

  lemma {:induction false} BufferTrue(p: seq<Byte>, mtu: nat, id: nat, t: Route, fs: seq<Frame>, i: nat)
    requires AllGood(p, mtu, id, t, fs)
    ensures i in Buffer(fs) ==> i < |p| && Buffer(fs)[i] == p[i]
    ensures (exists f :: f in fs && Offset(f) <= i < Offset(f) + |f.data|) ==> i in Buffer(fs)
  {
    hide Good, Offset, Put;
    if fs != [] {
      var rest, f := fs[..|fs| - 1], fs[|fs| - 1];
      assert fs == rest + [f];
      assert f in fs;
      GoodEnds(p, mtu, id, t, f);
      assert forall g :: g in rest ==> |g.header| == 20 by {
        forall g | g in rest ensures |g.header| == 20 { assert g in fs; GoodEnds(p, mtu, id, t, g); }
      }
      BufferTrue(p, mtu, id, t, rest, i);
      PutAt(Buffer(rest), Offset(f), f.data, i);
    }
  }

  lemma {:induction false} LengthTrue(p: seq<Byte>, mtu: nat, id: nat, t: Route, fs: seq<Frame>)
    requires AllGood(p, mtu, id, t, fs)
    ensures Length(fs) == None || Length(fs) == Some(|p|)
    ensures (exists f :: f in fs && !More(f)) ==> Length(fs) == Some(|p|)
  {
    hide Good, Offset, More;
    if fs != [] {
      var rest, f := fs[..|fs| - 1], fs[|fs| - 1];
      assert fs == rest + [f];
      assert f in fs;
      GoodEnds(p, mtu, id, t, f);
      LengthTrue(p, mtu, id, t, rest);
    }
  }

  lemma GoodEnds(p: seq<Byte>, mtu: nat, id: nat, t: Route, f: Frame)
    requires Good(p, mtu, id, t, f)
    ensures |f.header| == 20 && Offset(f) + |f.data| <= |p| && (More(f) <==> Offset(f) + |f.data| < |p|)
    ensures f.data == p[Offset(f)..Offset(f) + |f.data|]
  {
    hide Offset, More, Sum, Fold, TotalLength;
  }

  /** Whatever fragments of a datagram arrive, in whatever order and however often, reassembly
      yields nothing or the payload; and it yields the payload once every fragment arrived. */
  lemma RoundTrip(p: seq<Byte>, mtu: nat, id: nat, t: Route, arrived: seq<Frame>)
    requires ETH_HEADER + IP_HEADER + 8 <= mtu && |p| + IP_HEADER < 0x1_0000 && Short(id) && RouteOk(t)
    requires forall f :: f in arrived ==> f in Frames(p, 0, Unit(mtu), id, t)
    ensures forall f :: f in arrived ==> |f.header| == 20
    ensures Reassembled(arrived) == None || Reassembled(arrived) == Some(p)
    ensures p != [] && (forall f :: f in Frames(p, 0, Unit(mtu), id, t) ==> f in arrived) ==>
      Reassembled(arrived) == Some(p)
  {
    hide Frames, Unit, Buffer, Length, Good, Offset, More, Whole;
    var all := Frames(p, 0, Unit(mtu), id, t);
    FramesGood(p, 0, Unit(mtu), id, t, mtu);
    assert AllGood(p, mtu, id, t, arrived);
    forall f | f in arrived
      ensures |f.header| == 20
    {
      HeaderSize(p, mtu, id, t, f);
    }
    LengthTrue(p, mtu, id, t, arrived);
    forall i: nat
      ensures i in Buffer(arrived) ==> i < |p| && Buffer(arrived)[i] == p[i]
    {
      BufferTrue(p, mtu, id, t, arrived, i);
    }
    WholeIs(Buffer(arrived), Length(arrived), p);
    if p != [] && (forall f :: f in all ==> f in arrived) {
      Complete(p, mtu, id, t, arrived);
    }
  }

  lemma HeaderSize(p: seq<Byte>, mtu: nat, id: nat, t: Route, f: Frame)
    requires Good(p, mtu, id, t, f)
    ensures |f.header| == 20
  {
  }

  lemma Complete(p: seq<Byte>, mtu: nat, id: nat, t: Route, arrived: seq<Frame>)
    requires ETH_HEADER + IP_HEADER + 8 <= mtu && 0 < |p| && |p| + IP_HEADER < 0x1_0000 && Short(id) && RouteOk(t)
    requires AllGood(p, mtu, id, t, arrived) && forall f :: f in Frames(p, 0, Unit(mtu), id, t) ==> f in arrived
    ensures Length(arrived) == Some(|p|) && forall i: nat :: i < |p| ==> i in Buffer(arrived)
  {
    hide Frames, Unit, Buffer, Length, Sum, Fold, FragField;
    var last := FramesCover(p, 0, Unit(mtu), id, t, mtu, |p| - 1);
    assert last in arrived && !More(last);
    LengthTrue(p, mtu, id, t, arrived);
    forall i: nat | i < |p|
      ensures i in Buffer(arrived)
    {
      var f := FramesCover(p, 0, Unit(mtu), id, t, mtu, i);
      BufferTrue(p, mtu, id, t, arrived, i);
    }
  }

  // ---------- several datagrams at once ----------

  /** A datagram that was fragmented, with what identifies it. */
  datatype Datagram = Datagram(payload: seq<Byte>, id: nat, route: Route)

  predicate Sendable(d: Datagram) { |d.payload| + IP_HEADER < 0x1_0000 && Short(d.id) && RouteOk(d.route) }

  function FramesOf(d: Datagram, mtu: nat): seq<Frame>
    requires ETH_HEADER + IP_HEADER + 8 <= mtu && Sendable(d)
  {
    Frames(d.payload, 0, Unit(mtu), d.id, d.route)
  }

  /** The buffer identifier of a fragment: source, destination, protocol and identification. */
  predicate Belongs(f: Frame, id: nat, t: Route)
    requires |f.header| == 20
  {
    && f.header[12..16] == t.src && f.header[16..20] == t.dst && f.header[9] == t.proto
    && Word(f.header[5], f.header[4]) == id
  }

  /** The fragments that go to one buffer. */
  function Selected(fs: seq<Frame>, id: nat, t: Route): seq<Frame>
    requires forall f :: f in fs ==> |f.header| == 20
  {
    if fs == [] then []
    else Selected(fs[..|fs| - 1], id, t) + if Belongs(fs[|fs| - 1], id, t) then [fs[|fs| - 1]] else []
  }

  lemma {:induction false} SelectedAre(fs: seq<Frame>, id: nat, t: Route, f: Frame)
    requires forall g :: g in fs ==> |g.header| == 20
    ensures f in Selected(fs, id, t) <==> f in fs && Belongs(f, id, t)
  {
    hide Belongs;
    if fs != [] {
      var rest, g := fs[..|fs| - 1], fs[|fs| - 1];
      assert fs == rest + [g];
      SelectedAre(rest, id, t, f);
    }
  }

  /** A fragment belongs to the datagram it was cut from and to no other. */
  lemma FrameBelongs(d: Datagram, mtu: nat, f: Frame, e: Datagram)
    requires ETH_HEADER + IP_HEADER + 8 <= mtu && Sendable(d) && f in FramesOf(d, mtu)
    ensures |f.header| == 20 && (Belongs(f, e.id, e.route) <==> e.id == d.id && e.route == d.route)
  {
    hide Frames, Unit, Fold, NetSum, TotalLength, Offset, More, FragField;
    FramesGood(d.payload, 0, Unit(mtu), d.id, d.route, mtu);
  }

  /** Fragments of any number of datagrams with different identifiers arrive mixed, in any order
      and any number of times: for each of them reassembly yields nothing or its payload, and its
      payload once all its fragments arrived. */
  lemma Interleaved(ds: seq<Datagram>, mtu: nat, arrived: seq<Frame>, n: nat)
    requires ETH_HEADER + IP_HEADER + 8 <= mtu && n < |ds|
    requires forall i :: 0 <= i < |ds| ==> Sendable(ds[i])
    requires forall i, j :: 0 <= i < j < |ds| ==> (ds[i].id, ds[i].route) != (ds[j].id, ds[j].route)
    requires forall f :: f in arrived ==> exists i :: 0 <= i < |ds| && f in FramesOf(ds[i], mtu)
    ensures forall f :: f in arrived ==> |f.header| == 20
    ensures var d := ds[n]; var mine := Selected(arrived, d.id, d.route);
      && (forall f :: f in mine ==> |f.header| == 20)
      && (Reassembled(mine) == None || Reassembled(mine) == Some(d.payload))
      && (d.payload != [] && (forall f :: f in FramesOf(d, mtu) ==> f in arrived) ==>
            Reassembled(mine) == Some(d.payload))
  {
    hide FramesOf, Belongs, Selected, Reassembled;
    var d := ds[n];
    forall f | f in arrived
      ensures |f.header| == 20 && (Belongs(f, d.id, d.route) <==> f in FramesOf(d, mtu))
    {
      var i :| 0 <= i < |ds| && f in FramesOf(ds[i], mtu);
      FrameBelongs(ds[i], mtu, f, d);
      if f in FramesOf(d, mtu) { FrameBelongs(d, mtu, f, d); }
      assert i < n ==> (ds[i].id, ds[i].route) != (d.id, d.route);
      assert n < i ==> (d.id, d.route) != (ds[i].id, ds[i].route);
    }
    var mine := Selected(arrived, d.id, d.route);
    forall f
      ensures f in mine <==> f in arrived && f in FramesOf(d, mtu)
    {
      SelectedAre(arrived, d.id, d.route, f);
    }
    MineReassembled(d, mtu, mine);
  }

  lemma MineReassembled(d: Datagram, mtu: nat, mine: seq<Frame>)
    requires ETH_HEADER + IP_HEADER + 8 <= mtu && Sendable(d)
    requires forall f :: f in mine ==> f in FramesOf(d, mtu)
    ensures forall f :: f in mine ==> |f.header| == 20
    ensures Reassembled(mine) == None || Reassembled(mine) == Some(d.payload)
    ensures d.payload != [] && (forall f :: f in FramesOf(d, mtu) ==> f in mine) ==>
      Reassembled(mine) == Some(d.payload)
  {
    hide Frames, Unit, Reassembled;
    RoundTrip(d.payload, mtu, d.id, d.route, mine);
  }
}
