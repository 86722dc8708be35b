/** net/inet/tcp.c, sending: tcp_do_segment cuts what the application submits into segments,
    tcp_process_send_window sends those that fit the peer's window, and tcp_ack_handler lets go
    of those acknowledged.  Sequence numbers do not wrap. */
module TcpSend {
  import opened Common
  import opened Words

  const ENOMEM: int := 12

  datatype Segment = Segment(sendSeq: nat, expectedAck: nat, data: seq<Byte>)

  // ---------- the tiling ----------

  ghost predicate TileOk(tiles: seq<Segment>, base: nat, i: nat)
    requires i < |tiles|
  {
    && |tiles[i].data| > 0 && tiles[i].expectedAck == tiles[i].sendSeq + |tiles[i].data|
    && tiles[i].sendSeq == Edge(tiles, base, i)
  }

  /** Consecutive non-empty segments that start at `base`. */
  ghost predicate Tiling(tiles: seq<Segment>, base: nat) {
    forall i :: 0 <= i < |tiles| ==> TileOk(tiles, base, i)
  }

  /** The end of the first `i` segments. */
  function Edge(tiles: seq<Segment>, base: nat, i: nat): nat
    requires i <= |tiles|
  {
    if i == 0 then base else tiles[i - 1].expectedAck
  }

  /** Their data. */
  function Joined(tiles: seq<Segment>): seq<Byte> {
    if tiles == [] then [] else Joined(tiles[..|tiles| - 1]) + tiles[|tiles| - 1].data
  }

  function Bytes(list: seq<Segment>): nat {
    if list == [] then 0 else |list[0].data| + Bytes(list[1..])
  }

  lemma {:induction false} BytesAppend(a: seq<Segment>, b: seq<Segment>)
    ensures Bytes(a + b) == Bytes(a) + Bytes(b)
  {
    if a == [] {
      assert a + b == b;
    } else {
      assert (a + b)[1..] == a[1..] + b;
      BytesAppend(a[1..], b);
    }
  }

  /** The number of bytes does not depend on the order. */
  lemma {:induction false} BytesPermuted(a: seq<Segment>, b: seq<Segment>)
    requires multiset(a) == multiset(b)
    ensures Bytes(a) == Bytes(b)
  {
    hide Bytes;
    if a == [] {
      assert |multiset(b)| == 0;
      assert b == a;
    } else {
      assert a[0] in multiset(b);
      var i :| 0 <= i < |b| && b[i] == a[0];
      TakeOut(a, 0);
      TakeOut(b, i);
      assert a[..0] + a[1..] == a[1..];
      Cancel(a[1..], b[..i] + b[i + 1..], a, b, a[0]);
      BytesPermuted(a[1..], b[..i] + b[i + 1..]);
    }
  }

  lemma TakeOut(s: seq<Segment>, i: nat)
    requires i < |s|
    ensures multiset(s) == multiset(s[..i] + s[i + 1..]) + multiset{s[i]}
    ensures Bytes(s) == Bytes(s[..i] + s[i + 1..]) + |s[i].data|
  {
    hide Bytes;
    var a, b := s[..i], s[i + 1..];
    assert s == a + ([s[i]] + b);
    BytesFirst(s[i], b);
    BytesAppend(a, [s[i]] + b);
    BytesAppend(a, b);
  }

  lemma Cancel(c: seq<Segment>, d: seq<Segment>, a: seq<Segment>, b: seq<Segment>, x: Segment)
    requires multiset(a) == multiset(c) + multiset{x} && multiset(b) == multiset(d) + multiset{x}
    requires multiset(a) == multiset(b)
    ensures multiset(c) == multiset(d)
  {
    assert multiset(c) == multiset(a) - multiset{x};
    assert multiset(d) == multiset(b) - multiset{x};
  }

  lemma {:induction false} TilingBytes(tiles: seq<Segment>, base: nat, a: nat)
    requires Tiling(tiles, base) && a <= |tiles|
    ensures Bytes(tiles[a..]) == Edge(tiles, base, |tiles|) - Edge(tiles, base, a)
    decreases |tiles| - a
  {
    if a < |tiles| {
      assert TileOk(tiles, base, a);
      assert tiles[a..][1..] == tiles[a + 1..];
      TilingBytes(tiles, base, a + 1);
    }
  }

  lemma {:induction false} EdgeMono(tiles: seq<Segment>, base: nat, i: nat, j: nat)
    requires Tiling(tiles, base) && i < j <= |tiles|
    ensures Edge(tiles, base, i) < Edge(tiles, base, j)
  {
    assert TileOk(tiles, base, j - 1);
    if i < j - 1 { EdgeMono(tiles, base, i, j - 1); }
  }

  lemma TilingGrow(tiles: seq<Segment>, base: nat, s: Segment)
    requires Tiling(tiles, base) && |s.data| > 0 && s.sendSeq == Edge(tiles, base, |tiles|)
    requires s.expectedAck == s.sendSeq + |s.data|
    ensures Tiling(tiles + [s], base)
  {
    var t := tiles + [s];
    forall i | 0 <= i < |t|
      ensures TileOk(t, base, i)
    {
      EdgeSame(tiles, base, s, i);
      if i < |tiles| { assert TileOk(tiles, base, i); }
    }
  }

  lemma EdgeSame(tiles: seq<Segment>, base: nat, s: Segment, i: nat)
    requires i <= |tiles|
    ensures Edge(tiles + [s], base, i) == Edge(tiles, base, i)
    ensures Edge(tiles + [s], base, |tiles| + 1) == s.expectedAck
  {
  }

  lemma EdgePrefix(before: seq<Segment>, tiles: seq<Segment>, base: nat, a: nat)
    requires before <= tiles && a <= |before|
    ensures Edge(tiles, base, a) == Edge(before, base, a)
  {
  }

  lemma EdgeUp(tiles: seq<Segment>, base: nat, a: nat)
    requires Tiling(tiles, base) && a <= |tiles|
    ensures Edge(tiles, base, a) <= Edge(tiles, base, |tiles|)
  {
    if a < |tiles| { EdgeMono(tiles, base, a, |tiles|); }
  }

  lemma JoinedGrow(tiles: seq<Segment>, s: Segment)
    ensures Joined(tiles + [s]) == Joined(tiles) + s.data
  {
    assert (tiles + [s])[..|tiles|] == tiles;
  }

  // ---------- acknowledging ----------

  /** The segments an acknowledgement leaves. */
  function Left(list: seq<Segment>, ack: nat): seq<Segment> {
    if list == [] then []
    else (if list[0].expectedAck <= ack then [] else [list[0]]) + Left(list[1..], ack)
  }

  lemma {:induction false} LeftCount(list: seq<Segment>, ack: nat, x: Segment)
    ensures multiset(Left(list, ack))[x] == if x.expectedAck <= ack then 0 else multiset(list)[x]
  {
    if list != [] {
      assert list == [list[0]] + list[1..];
      LeftCount(list[1..], ack, x);
    }
  }

  /** A cumulative acknowledgement leaves a suffix of the tiling. */
  lemma {:induction false} LeftSuffix(tiles: seq<Segment>, base: nat, a: nat, ack: nat) returns (b: nat)
    requires Tiling(tiles, base) && a <= |tiles|
    ensures a <= b <= |tiles| && Left(tiles[a..], ack) == tiles[b..]
    ensures b > a ==> Edge(tiles, base, b) <= ack
    ensures b < |tiles| ==> ack < tiles[b].expectedAck
    decreases |tiles| - a
  {
    if a == |tiles| {
      b := a;
    } else {
      assert tiles[a..][0] == tiles[a] && tiles[a..][1..] == tiles[a + 1..];
      var c := LeftSuffix(tiles, base, a + 1, ack);
      if tiles[a].expectedAck <= ack {
        b := c;
      } else {
        if c > a + 1 { EdgeMono(tiles, base, a + 1, c); }
        assert c == a + 1;
        assert tiles[a..] == [tiles[a]] + tiles[a + 1..];
        b := a;
      }
    }
  }

  // ---------- the three queues ----------

  /** The queues together hold the segments not acknowledged, each once. */
  ghost predicate Spread(wait: seq<Segment>, ready: seq<Segment>, waitAck: seq<Segment>, rest: seq<Segment>) {
    multiset(wait) + multiset(ready) + multiset(waitAck) == multiset(rest)
  }

  lemma SpreadBytes(wait: seq<Segment>, ready: seq<Segment>, waitAck: seq<Segment>, rest: seq<Segment>)
    requires Spread(wait, ready, waitAck, rest)
    ensures Bytes(wait) + Bytes(ready) + Bytes(waitAck) == Bytes(rest)
  {
    BytesAppend(wait, ready);
    BytesAppend(wait + ready, waitAck);
    BytesPermuted(wait + ready + waitAck, rest);
  }

  /** Moving the first segment of one queue to the end of another. */
  lemma Shift(from: seq<Segment>, to: seq<Segment>)
    requires from != []
    ensures multiset(from[1..]) + multiset(to + [from[0]]) == multiset(from) + multiset(to)
    ensures Bytes(from[1..]) == Bytes(from) - |from[0].data|
    ensures Bytes(to + [from[0]]) == Bytes(to) + |from[0].data|
  {
    assert from == [from[0]] + from[1..];
    BytesAppend(to, [from[0]]);
  }

  lemma SpreadShift(wait: seq<Segment>, ready: seq<Segment>, waitAck: seq<Segment>, rest: seq<Segment>)
    requires Spread(wait, ready, waitAck, rest)
    ensures wait != [] ==> Spread(wait[1..], ready + [wait[0]], waitAck, rest)
    ensures ready != [] ==> Spread(wait, ready[1..], waitAck + [ready[0]], rest)
  {
    hide Bytes;
    if wait != [] { Shift(wait, ready); }
    if ready != [] {
      Shift(ready, waitAck);
      var w, r, k := multiset(wait), multiset(ready), multiset(waitAck);
      assert w + r + k == w + (r + k);
      assert w + multiset(ready[1..]) + multiset(waitAck + [ready[0]])
        == w + (multiset(ready[1..]) + multiset(waitAck + [ready[0]]));
    }
  }

  lemma Prefixes(list: seq<Segment>, i: nat)
    requires i < |list|
    ensures list[i..][0] == list[i] && list[i..][1..] == list[i + 1..] && list[..i + 1] == list[..i] + [list[i]]
  {
  }

  lemma SpreadGrow(wait: seq<Segment>, ready: seq<Segment>, waitAck: seq<Segment>, tiles: seq<Segment>, a: nat,
                   s: Segment)
    requires a <= |tiles| && Spread(wait, ready, waitAck, tiles[a..])
    ensures Spread(wait + [s], ready, waitAck, (tiles + [s])[a..])
    ensures Spread(wait, ready + [s], waitAck, (tiles + [s])[a..])
    ensures Bytes(ready + [s]) == Bytes(ready) + |s.data|
  {
    assert (tiles + [s])[a..] == tiles[a..] + [s];
    BytesAppend(ready, [s]);
  }

  /** An acknowledgement of segments all of which were sent. */
  lemma SpreadAck(wait: seq<Segment>, ready: seq<Segment>, waitAck: seq<Segment>, rest: seq<Segment>, ack: nat)
    requires Spread(wait, ready, waitAck, rest)
    requires (forall s :: s in wait ==> s.expectedAck > ack) && (forall s :: s in ready ==> s.expectedAck > ack)
    ensures Spread(wait, ready, Left(waitAck, ack), Left(rest, ack))
  {
    forall x: Segment
      ensures (multiset(wait) + multiset(ready) + multiset(Left(waitAck, ack)))[x] == multiset(Left(rest, ack))[x]
    {
      LeftCount(waitAck, ack, x);
      LeftCount(rest, ack, x);
      assert multiset(rest)[x] == multiset(wait)[x] + multiset(ready)[x] + multiset(waitAck)[x];
      if x.expectedAck <= ack { assert x !in wait && x !in ready; }
    }
  }

  /** How much of a buffer of `len` bytes is cut into segments when `allocs` of them can be made. */
  function TakenBytes(mss: nat, len: nat, allocs: nat): (n: nat)
    ensures n <= len
  {
    if allocs * mss < len then allocs * mss else len
  }

  /** `made` segments hold the first `n` bytes. */
  ghost predicate Cutting(mss: nat, len: nat, made: nat, n: nat) {
    n <= len && n <= made * mss && (n < len ==> n == made * mss)
  }

  lemma CuttingStarts(mss: nat, len: nat, allocs: nat)
    ensures Cutting(mss, len, 0, 0) && TakenBytes(mss, len, allocs) <= len
  {
  }

  /** The next segment is cut from what can be taken as it is from what is left. */
  lemma CuttingStep(mss: nat, len: nat, allocs: nat, made: nat, n: nat, seg: nat)
    requires mss > 0 && made <= allocs && Cutting(mss, len, made, n) && n < len
    requires seg == if len - n >= mss then mss else len - n
    ensures var most := TakenBytes(mss, len, allocs);
      if made == allocs then n == most
      else n + seg <= most && seg == (if mss <= most - n then mss else most - n) && seg > 0
    ensures Cutting(mss, len, made + 1, n + seg)
    ensures n + seg == len && made < allocs ==> TakenBytes(mss, len, allocs) == len
  {
    assert (made + 1) * mss == made * mss + mss;
    if made < allocs { MulSpread(made, allocs, mss); }
  }

  lemma Appended(a: seq<Byte>, b: seq<Byte>, c: seq<Byte>)
    ensures (a + b) + c == a + (b + c)
  {
  }

  lemma Slices(buf: seq<Byte>, n: nat, seg: nat, most: nat)
    requires n + seg <= most <= |buf|
    ensures var data := buf[n..n + seg];
      && buf[..n + seg] == buf[..n] + data
      && buf[n..most][..seg] == data && buf[n..most][seg..] == buf[n + seg..most]
  {
  }

  /** The segments that bytes are cut into. */
  function Cut(mss: nat, first: nat, data: seq<Byte>): seq<Segment>
    requires mss > 0
    decreases |data|
  {
    if data == [] then []
    else
      var n := if mss <= |data| then mss else |data|;
      [Segment(first, first + n, data[..n])] + Cut(mss, first + n, data[n..])
  }

  /** Those of them that become ready, each that fits the room still left ... */
  function Ready(segs: seq<Segment>, room: int): seq<Segment> {
    if segs == [] then []
    else if |segs[0].data| <= room then [segs[0]] + Ready(segs[1..], room - |segs[0].data|)
    else Ready(segs[1..], room)
  }

  /** ... and those that wait. */
  function Waiting(segs: seq<Segment>, room: int): seq<Segment> {
    if segs == [] then []
    else if |segs[0].data| <= room then Waiting(segs[1..], room - |segs[0].data|)
    else [segs[0]] + Waiting(segs[1..], room)
  }

  /** The segment that starts `b` bytes into the data: a full one, or what is left. */
  function Piece(mss: nat, first: nat, data: seq<Byte>, b: nat): Segment
    requires b < |data|
  {
    var end := if b + mss <= |data| then b + mss else |data|;
    Segment(first + b, first + end, data[b..end])
  }

  /** There are as few segments as can be ... */
  lemma {:induction false} CutCount(mss: nat, first: nat, data: seq<Byte>)
    requires mss > 0
    ensures var n := |Cut(mss, first, data)|; |data| <= n * mss && (data != [] ==> n > 0 && (n - 1) * mss < |data|)
    decreases |data|
  {
    hide Cut;
    if data == [] {
      CutNone(mss, first, 0);
    } else {
      var n := if mss <= |data| then mss else |data|;
      CutFirst(mss, first, data, n);
      var k := |Cut(mss, first + n, data[n..])|;
      CutCount(mss, first + n, data[n..]);
      if data[n..] == [] { CutNone(mss, first + n, 0); }
      OneTimes(k, mss);
      if k > 0 { OneTimes(k - 1, mss); }
    }
  }

  /** ... and segment `i` starts `i` times the size into the data. */
  lemma {:induction false} CutAt(mss: nat, first: nat, data: seq<Byte>, i: nat)
    requires mss > 0 && i < |Cut(mss, first, data)|
    ensures i * mss < |data| && Cut(mss, first, data)[i] == Piece(mss, first, data, i * mss)
    decreases |data|
  {
    hide Piece, Cut;
    CutFirst(mss, first, data, if mss <= |data| then mss else |data|);
    OneTimes(0, mss);
    if i > 0 {
      var j := i - 1;
      CutAt(mss, first + mss, data[mss..], j);
      OneTimes(j, mss);
      PieceShift(mss, first, data, mss, j * mss);
    }
  }

  lemma CutFirst(mss: nat, first: nat, data: seq<Byte>, n: nat)
    requires mss > 0 && n == if mss <= |data| then mss else |data|
    ensures data == [] ==> Cut(mss, first, data) == []
    ensures data != [] ==> Cut(mss, first, data) == [Piece(mss, first, data, 0)] + Cut(mss, first + n, data[n..])
    ensures n < mss ==> Cut(mss, first + n, data[n..]) == []
  {
  }

  lemma PieceShift(mss: nat, first: nat, data: seq<Byte>, n: nat, b: nat)
    requires n + b < |data|
    ensures Piece(mss, first + n, data[n..], b) == Piece(mss, first, data, n + b)
  {
    var end := if b + mss <= |data| - n then b + mss else |data| - n;
    assert data[n..][b..end] == data[n + b..n + end];
  }

  lemma OneTimes(k: nat, mss: nat)
    ensures (k + 1) * mss == k * mss + mss && 0 * mss == 0
  {
  }

  /** One segment more: it becomes ready if it fits beside those that became ready before it. */
  lemma {:induction false} Greedy(segs: seq<Segment>, x: Segment, room: int)
    ensures var fits := Bytes(Ready(segs, room)) + |x.data| <= room;
      && Ready(segs + [x], room) == Ready(segs, room) + (if fits then [x] else [])
      && Waiting(segs + [x], room) == Waiting(segs, room) + (if fits then [] else [x])
  {
    if segs != [] {
      assert (segs + [x])[1..] == segs[1..] + [x];
      var y := segs[0];
      if |y.data| <= room {
        Greedy(segs[1..], x, room - |y.data|);
        assert ([y] + Ready(segs[1..], room - |y.data|))[1..] == Ready(segs[1..], room - |y.data|);
      } else {
        Greedy(segs[1..], x, room);
      }
    }
  }

  lemma CutStep(mss: nat, first: nat, data: seq<Byte>, n: nat, room: int)
    requires mss > 0 && data != [] && n == if mss <= |data| then mss else |data|
    ensures var x, rest := Segment(first, first + n, data[..n]), Cut(mss, first + n, data[n..]);
      && Ready(Cut(mss, first, data), room) == (if n <= room then [x] + Ready(rest, room - n) else Ready(rest, room))
      && Waiting(Cut(mss, first, data), room)
        == (if n <= room then Waiting(rest, room - n) else [x] + Waiting(rest, room))
  {
    var x, rest := Segment(first, first + n, data[..n]), Cut(mss, first + n, data[n..]);
    assert Cut(mss, first, data)[1..] == rest;
  }

  lemma Prepend(s: seq<Segment>, x: Segment, t: seq<Segment>)
    ensures s + ([x] + t) == (s + [x]) + t
  {
  }

  lemma CutNone(mss: nat, first: nat, room: int)
    requires mss > 0
    ensures Cut(mss, first, []) == [] && Ready([], room) == Waiting([], room) == []
  {
  }

  /** How many of the segments fit the room that is left. */
  function Fitting(list: seq<Segment>, room: int): (n: nat)
    ensures n <= |list|
  {
    if list == [] || |list[0].data| > room then 0 else 1 + Fitting(list[1..], room - |list[0].data|)
  }

  /** The longest prefix that fits. */
  lemma {:induction false} FittingMost(list: seq<Segment>, room: int)
    ensures var n := Fitting(list, room);
      && (n > 0 ==> Bytes(list[..n]) <= room) && (n < |list| ==> Bytes(list[..n + 1]) > room)
  {
    hide Bytes;
    if list != [] {
      var x, rest := list[0], list[1..];
      var k := Fitting(rest, room - |x.data|);
      FittingMost(rest, room - |x.data|);
      BytesFirst(x, []);
      BytesFirst(x, rest[..k]);
      assert list[..1] == [x] + [] && list[..k + 1] == [x] + rest[..k] && rest[..0] == [];
      if k < |rest| {
        assert list[..k + 2] == [x] + rest[..k + 1];
        BytesFirst(x, rest[..k + 1]);
      }
    }
  }

  lemma BytesFirst(x: Segment, rest: seq<Segment>)
    ensures Bytes([x] + rest) == |x.data| + Bytes(rest) && Bytes([]) == 0
  {
    assert ([x] + rest)[1..] == rest;
  }

  /** The application submits, the window is processed, or the peer acknowledges. */
  datatype Event =
    | Submit(buf: seq<Byte>, allocs: nat)
    | Process(timeout: bool, sends: nat)
    | Acked(ack: nat, window: nat)

  /** A sender as the events see it; `una` is the end of the last acknowledged segment. */
  datatype State = State(wait: seq<Segment>, ready: seq<Segment>, waitAck: seq<Segment>, used: nat, tot: nat,
                         sendSeq: nat, submitted: seq<Byte>, una: nat)

  ghost predicate HonestAt(s: State, ack: nat) {
    (forall x :: x in s.wait ==> x.expectedAck > ack) && (forall x :: x in s.ready ==> x.expectedAck > ack)
  }

  /** What an event makes of a state.  A submission that would wrap the sequence numbers and an
      acknowledgement of what was not sent are not handled. */
  ghost predicate Step(mss: nat, e: Event, s: State, t: State) {
    && t.used == Bytes(t.ready) + Bytes(t.waitAck)
    && match e
       case Submit(buf, allocs) =>
         if s.sendSeq + |buf| >= WORD then t == s
         else
           && t.submitted == s.submitted + buf[..TakenBytes(mss, |buf|, allocs)]
           && t.sendSeq == s.sendSeq + TakenBytes(mss, |buf|, allocs)
           && mss > 0
           && var segs := Cut(mss, s.sendSeq, buf[..TakenBytes(mss, |buf|, allocs)]);
           && t.wait == s.wait + Waiting(segs, s.tot - s.used) && t.ready == s.ready + Ready(segs, s.tot - s.used)
           && t.waitAck == s.waitAck && t.tot == s.tot && t.una == s.una
       case Process(timeout, sends) =>
         var j := if timeout then 0 else if s.used <= s.tot then Fitting(s.wait, s.tot - s.used) else |s.wait|;
         var sendable := s.ready + s.wait[..j];
         var i := if timeout then 0 else if sends < |sendable| then sends else |sendable|;
         && t.wait == s.wait[j..] && t.ready == sendable[i..] && t.waitAck == s.waitAck + sendable[..i]
         && t.tot == s.tot && t.sendSeq == s.sendSeq && t.submitted == s.submitted && t.una == s.una
       case Acked(ack, window) =>
         if !HonestAt(s, ack) || window >= 0x1_0000 then t == s
         else
           && t.waitAck == Left(s.waitAck, ack) && t.tot == (if t.waitAck == s.waitAck then s.tot else window)
           && t.una + Bytes(t.waitAck) == s.una + Bytes(s.waitAck)
           && t.wait == s.wait && t.ready == s.ready && t.sendSeq == s.sendSeq && t.submitted == s.submitted
  }

  /** What an event says about the peer's window, if it is an acknowledgement that is handled. */
  ghost function AckOf(e: Event, s: State, t: State): Option<Ack> {
    if e.Acked? && HonestAt(s, e.ack) && e.window < 0x1_0000
    then Some(Ack(s.una + s.tot, e.ack, e.window, t.una)) else None
  }

  ghost function AcksOf(events: seq<Event>, trace: seq<State>): seq<Ack>
    requires |trace| == |events| + 1
  {
    if events == [] then []
    else
      var n := |events| - 1;
      var a := AckOf(events[n], trace[n], trace[n + 1]);
      AcksOf(events[..n], trace[..n + 1]) + if a.Some? then [a.value] else []
  }

  /** The bytes that a sequence of events hands over, sequence numbers starting at `first`. */
  function Submitted(mss: nat, first: nat, events: seq<Event>): seq<Byte> {
    if events == [] then []
    else
      var n := |events| - 1;
      var before, e := Submitted(mss, first, events[..n]), events[n];
      if e.Submit? && first + |before| + |e.buf| < WORD then before + e.buf[..TakenBytes(mss, |e.buf|, e.allocs)]
      else before
  }

  lemma NoEvents(mss: nat, first: nat, trace: seq<State>)
    requires |trace| == 1
    ensures Submitted(mss, first, []) == [] && AcksOf([], trace) == []
  {
  }

  lemma SubmittedStep(mss: nat, first: nat, events: seq<Event>, i: nat, s: State, t: State, start: seq<Byte>)
    requires i < |events| && Step(mss, events[i], s, t)
    requires s.submitted == start + Submitted(mss, first, events[..i])
    requires s.sendSeq == first + |Submitted(mss, first, events[..i])|
    ensures t.submitted == start + Submitted(mss, first, events[..i + 1])
    ensures t.sendSeq == first + |Submitted(mss, first, events[..i + 1])|
  {
    hide Left, Fitting, TakenBytes, HonestAt;
    var e := events[..i + 1];
    assert e[..i] == events[..i] && e[i] == events[i];
    var before := Submitted(mss, first, events[..i]);
    if events[i].Submit? {
      var more := events[i].buf[..TakenBytes(mss, |events[i].buf|, events[i].allocs)];
      assert start + (before + more) == (start + before) + more;
    }
  }

  lemma AcksStep(events: seq<Event>, trace: seq<State>, i: nat, t: State)
    requires i < |events| && |trace| == i + 1
    ensures AcksOf(events[..i + 1], trace + [t]) ==
      AcksOf(events[..i], trace) + var a := AckOf(events[i], trace[i], t); if a.Some? then [a.value] else []
  {
    hide AckOf;
    var e, u := events[..i + 1], trace + [t];
    assert e[..i] == events[..i] && u[..i + 1] == trace;
  }

  class Sender {
    const mss: nat
    var wait: seq<Segment>
    var ready: seq<Segment>
    var waitAck: seq<Segment>
    var usedSize: nat
    var totSize: nat
    var sendSeq: nat
    ghost var base: nat
    ghost var tiles: seq<Segment>      // every segment made
    ghost var a: nat                   // how many of them are acknowledged
    ghost var submitted: seq<Byte>     // what the application submitted

    ghost predicate Valid()
      reads this
    {
      && 0 < mss < 0x1_0000 && Tiling(tiles, base) && a <= |tiles|
      && sendSeq == Edge(tiles, base, |tiles|) < WORD && totSize < WORD
      && Joined(tiles) == submitted && Spread(wait, ready, waitAck, tiles[a..])
      && usedSize == Bytes(ready) + Bytes(waitAck)
    }

    predicate InWindow()
      reads this`usedSize, this`totSize
    {
      usedSize <= totSize
    }

    constructor (mss: nat, first: nat, window: nat)
      requires 0 < mss < 0x1_0000 && first < WORD && window < 0x1_0000
      ensures Valid() && InWindow() && this.mss == mss && sendSeq == first && submitted == []
      ensures wait == ready == waitAck == [] && usedSize == 0 && totSize == window
    {
      this.mss := mss;
      wait, ready, waitAck, usedSize, totSize, sendSeq := [], [], [], 0, window, first;
      base, tiles, a, submitted := first, [], 0, [];
    }

    /** The segments in use never wrap the count of bytes. */
    lemma Total()
      requires Valid()
      ensures Bytes(wait) + usedSize == sendSeq - Edge(tiles, base, a)
      ensures usedSize == Bytes(ready) + Bytes(waitAck)
    {
      hide Edge, Joined, Bytes;
      SpreadBytes(wait, ready, waitAck, tiles[a..]);
      TilingBytes(tiles, base, a);
    }

    /** One segment of tcp_do_segment. */
    method AddSegment(data: seq<Byte>)
      requires Valid() && 0 < |data| && sendSeq + |data| < WORD
      modifies this`wait, this`ready, this`usedSize, this`sendSeq, this`tiles, this`submitted
      ensures Valid() && submitted == old(submitted) + data && sendSeq == old(sendSeq) + |data| && old(tiles) <= tiles
      ensures old(InWindow()) <==> InWindow()
      ensures usedSize == old(usedSize) + if old(usedSize) + |data| <= totSize then |data| else 0
      ensures old(usedSize) + |data| <= totSize ==>
        wait == old(wait) && ready == old(ready) + [Segment(old(sendSeq), sendSeq, data)]
      ensures old(usedSize) + |data| > totSize ==>
        ready == old(ready) && wait == old(wait) + [Segment(old(sendSeq), sendSeq, data)]
    {
      hide Tiling, Joined, Bytes, Spread, Edge, Add32;
      Total();
      EdgeUp(tiles, base, a);
      NoWrap(sendSeq, |data|);
      NoWrap(usedSize, |data|);
      var first := sendSeq;
      sendSeq := Add32(sendSeq, |data|);
      var seg := Segment(first, sendSeq, data);
      TilingGrow(tiles, base, seg);
      EdgeSame(tiles, base, seg, |tiles|);
      JoinedGrow(tiles, seg);
      SpreadGrow(wait, ready, waitAck, tiles, a, seg);
      tiles, submitted := tiles + [seg], submitted + data;
      if Add32(usedSize, |data|) <= totSize {
        ready := ready + [seg];
        usedSize := Add32(usedSize, |data|);
      } else {
        wait := wait + [seg];
      }
    }

    /** The next segment of a buffer, of which `most` bytes will be taken. */
    method CutOne(buf: seq<Byte>, n: nat, segLen: nat, ghost wait0: seq<Segment>, ghost ready0: seq<Segment>,
                  ghost first0: nat, ghost room0: int, ghost most: nat)
      requires Valid() && sendSeq + segLen < WORD && 0 < segLen && n + segLen <= most <= |buf|
      requires segLen == if mss <= most - n then mss else most - n
      requires Placed(wait0, ready0, first0, room0, buf[..most], wait, ready, sendSeq, totSize - usedSize, buf[n..most])
      modifies this`wait, this`ready, this`usedSize, this`sendSeq, this`tiles, this`submitted
      ensures Valid() && submitted == old(submitted) + buf[n..n + segLen] && sendSeq == old(sendSeq) + segLen
      ensures (old(InWindow()) <==> InWindow()) && old(tiles) <= tiles
      ensures Placed(wait0, ready0, first0, room0, buf[..most], wait, ready, sendSeq, totSize - usedSize,
                     buf[n + segLen..most])
    {
      hide Valid, InWindow, Placed;
      Slices(buf, n, segLen, most);
      AddSegment(buf[n..n + segLen]);
      PlacedStep(wait0, ready0, first0, room0, buf[..most], old(wait), old(ready), old(sendSeq),
                 old(totSize - usedSize), buf[n..most], segLen, wait, ready, totSize - usedSize);
    }

    /** tcp_do_segment.  The first `allocs` allocations succeed; `n` bytes are taken. */
    method DoSegment(buf: seq<Byte>, allocs: nat) returns (ret: int, ghost n: nat)
      requires Valid() && sendSeq + |buf| < WORD
      modifies this`wait, this`ready, this`usedSize, this`sendSeq, this`tiles, this`submitted
      ensures Valid() && (old(InWindow()) <==> InWindow())
      ensures n == TakenBytes(mss, |buf|, allocs) && submitted == old(submitted) + buf[..n]
      ensures ret == (if n == |buf| then 0 else -ENOMEM) && sendSeq == old(sendSeq) + n
      ensures var segs := Cut(mss, old(sendSeq), buf[..n]);
        && wait == old(wait) + Waiting(segs, totSize - old(usedSize))
        && ready == old(ready) + Ready(segs, totSize - old(usedSize))
      ensures old(tiles) <= tiles
    {
      hide Valid, InWindow, Placed, TakenBytes, Cutting, Cut, Waiting, Ready;
      var len: nat, made: nat := |buf|, 0;
      n := 0;
      assert 0 < mss < 0x1_0000 by { ValidMss(); }
      ghost var most, room0 := TakenBytes(mss, |buf|, allocs), totSize - usedSize;
      CuttingStarts(mss, |buf|, allocs);
      PlacedStarts(wait, ready, sendSeq, room0, buf, most);
      while len > 0
        invariant len + n == |buf| && n <= most && Valid() && (old(InWindow()) <==> InWindow())
        invariant submitted == old(submitted) + buf[..n] && sendSeq == old(sendSeq) + n && old(tiles) <= tiles
        invariant made <= allocs && Cutting(mss, |buf|, made, n)
        invariant Placed(old(wait), old(ready), old(sendSeq), room0, buf[..most],
                         wait, ready, sendSeq, totSize - usedSize, buf[n..most])
        decreases len
      {
        var segLen: nat := if len >= mss then mss else len;
        CuttingStep(mss, |buf|, allocs, made, n, segLen);
        if made == allocs {
          PlacedEnds(old(wait), old(ready), old(sendSeq), room0, buf, most, wait, ready, sendSeq, totSize - usedSize);
          return -ENOMEM, n;
        }
        CutOne(buf, |buf| - len, segLen, old(wait), old(ready), old(sendSeq), room0, most);
        Slices(buf, n, segLen, most);
        Appended(old(submitted), buf[..n], buf[n..n + segLen]);
        len := len - segLen;
        made := made + 1;
        n := n + segLen;
      }
      PlacedEnds(old(wait), old(ready), old(sendSeq), room0, buf, most, wait, ready, sendSeq, totSize - usedSize);
      ret := 0;
    }

    lemma PlacedStarts(w: seq<Segment>, r: seq<Segment>, first: nat, room: int, buf: seq<Byte>, most: nat)
      requires mss > 0 && most <= |buf|
      ensures Placed(w, r, first, room, buf[..most], w, r, first, room, buf[0..most])
    {
    }

    lemma PlacedEnds(wait0: seq<Segment>, ready0: seq<Segment>, first0: nat, room0: int, buf: seq<Byte>, most: nat,
                     wait1: seq<Segment>, ready1: seq<Segment>, first1: nat, room1: int)
      requires most <= |buf|
      requires Placed(wait0, ready0, first0, room0, buf[..most], wait1, ready1, first1, room1, buf[most..most])
      ensures mss > 0 && wait1 == wait0 + Waiting(Cut(mss, first0, buf[..most]), room0)
      ensures mss > 0 && ready1 == ready0 + Ready(Cut(mss, first0, buf[..most]), room0)
    {
      assert buf[most..most] == [];
      CutNone(mss, first1, room1);
    }

    /** What is ready and what waits once the rest is cut is the same as if all were cut at once. */
    ghost predicate Placed(wait0: seq<Segment>, ready0: seq<Segment>, first0: nat, room0: int, all: seq<Byte>,
                           wait1: seq<Segment>, ready1: seq<Segment>, first1: nat, room1: int, rest: seq<Byte>)
    {
      && mss > 0
      && wait1 + Waiting(Cut(mss, first1, rest), room1) == wait0 + Waiting(Cut(mss, first0, all), room0)
      && ready1 + Ready(Cut(mss, first1, rest), room1) == ready0 + Ready(Cut(mss, first0, all), room0)
    }

    lemma PlacedStep(wait0: seq<Segment>, ready0: seq<Segment>, first0: nat, room0: int, all: seq<Byte>,
                     wait1: seq<Segment>, ready1: seq<Segment>, first1: nat, room1: int, rest: seq<Byte>,
                     n: nat, wait2: seq<Segment>, ready2: seq<Segment>, room2: int)
      requires Placed(wait0, ready0, first0, room0, all, wait1, ready1, first1, room1, rest)
      requires rest != [] && n == if mss <= |rest| then mss else |rest|
      requires var x := Segment(first1, first1 + n, rest[..n]);
        if n <= room1 then wait2 == wait1 && ready2 == ready1 + [x] && room2 == room1 - n
        else ready2 == ready1 && wait2 == wait1 + [x] && room2 == room1
      ensures Placed(wait0, ready0, first0, room0, all, wait2, ready2, first1 + n, room2, rest[n..])
    {
      hide Cut, Ready, Waiting;
      CutStep(mss, first1, rest, n, room1);
      var x, more := Segment(first1, first1 + n, rest[..n]), Cut(mss, first1 + n, rest[n..]);
      Prepend(ready1, x, Ready(more, room2));
      Prepend(wait1, x, Waiting(more, room2));
    }

    lemma ValidMss()
      requires Valid()
      ensures 0 < mss < 0x1_0000
    {
    }

    /** The first waiting segment becomes ready if it fits the window. */
    method AdmitFirst() returns (moved: bool)
      requires Valid() && wait != []
      modifies this`wait, this`ready, this`usedSize
      ensures Valid() && (old(InWindow()) ==> InWindow())
      ensures moved ==> wait == old(wait)[1..] && ready == old(ready) + [old(wait)[0]]
      ensures !moved ==> wait == old(wait) && ready == old(ready) && usedSize == old(usedSize)
      ensures moved ==> usedSize == old(usedSize + |wait[0].data|)
      ensures moved <==> old(!InWindow() || usedSize + |wait[0].data| <= totSize)
    {
      hide Tiling, Joined, Bytes, Edge, Add32, Sub32, Spread;
      Total();
      EdgeUp(tiles, base, a);
      var seg := wait[0];
      Shift(wait, ready);
      SpreadShift(wait, ready, waitAck, tiles[a..]);
      FirstBytes(wait);
      NoWrap(usedSize, |seg.data|);
      Room(totSize, usedSize, |seg.data|);
      moved := Sub32(totSize, usedSize) >= |seg.data|;
      if moved {
        wait := wait[1..];
        ready := ready + [seg];
        usedSize := Add32(usedSize, |seg.data|);
      }
    }

    /** The first loop of tcp_process_send_window: what fits the window becomes ready; once more
        than the window is in use everything does. */
    method Admit() returns (ghost j: nat)
      requires Valid()
      modifies this`wait, this`ready, this`usedSize
      ensures Valid() && (old(InWindow()) <==> InWindow())
      ensures j == if old(InWindow()) then Fitting(old(wait), totSize - old(usedSize)) else |old(wait)|
      ensures wait == old(wait)[j..] && ready == old(ready) + old(wait)[..j]
    {
      hide Valid, Fitting;
      j := 0;
      while wait != []
        invariant Valid() && (old(InWindow()) <==> InWindow())
        invariant j <= |old(wait)| && wait == old(wait)[j..] && ready == old(ready) + old(wait)[..j]
        invariant InWindow() ==> j + Fitting(wait, totSize - usedSize) == Fitting(old(wait), totSize - old(usedSize))
        decreases |wait|
      {
        Prefixes(old(wait), j);
        FittingStep(wait, totSize - usedSize);
        var moved := AdmitFirst();
        if !moved {
          break;
        }
        j := j + 1;
      }
      FittingStep(wait, totSize - usedSize);
    }

    lemma FittingStep(list: seq<Segment>, room: int)
      ensures list == [] ==> Fitting(list, room) == 0
      ensures list != [] ==>
        Fitting(list, room) == if |list[0].data| > room then 0 else 1 + Fitting(list[1..], room - |list[0].data|)
    {
    }

    /** The second loop: ready segments are sent, until the send number `sends` fails. */
    method Transmit(sends: nat) returns (ghost i: nat)
      requires Valid()
      modifies this`ready, this`waitAck
      ensures Valid()
      ensures i <= |old(ready)| && ready == old(ready)[i..] && waitAck == old(waitAck) + old(ready)[..i]
      ensures i == if sends < |old(ready)| then sends else |old(ready)|
    {
      hide Tiling, Joined, Bytes, Edge, Spread;
      i := 0;
      var tries: nat := 0;
      while ready != []
        invariant i == tries <= sends && i <= |old(ready)|
        invariant ready == old(ready)[i..] && waitAck == old(waitAck) + old(ready)[..i]
        invariant Spread(wait, ready, waitAck, tiles[a..]) && usedSize == Bytes(ready) + Bytes(waitAck)
        decreases |ready|
      {
        var seg := ready[0];
        Shift(ready, waitAck);
        SpreadShift(wait, ready, waitAck, tiles[a..]);
        Prefixes(old(ready), i);
        if tries == sends {
          break;
        }
        tries := tries + 1;
        ready := ready[1..];
        waitAck := waitAck + [seg];
        i := i + 1;
      }
    }

    /** tcp_process_send_window. */
    method ProcessSendWindow(timeout: bool, sends: nat) returns (ghost j: nat, ghost i: nat)
      requires Valid()
      modifies this`wait, this`ready, this`waitAck, this`usedSize
      ensures Valid() && (old(InWindow()) <==> InWindow())
      ensures j == if timeout then 0
                   else if old(InWindow()) then Fitting(old(wait), totSize - old(usedSize)) else |old(wait)|
      ensures i == if timeout then 0 else if sends < |old(ready)| + j then sends else |old(ready)| + j
      ensures wait == old(wait)[j..]
      ensures var sendable := old(ready) + old(wait)[..j];
        waitAck == old(waitAck) + sendable[..i] && ready == sendable[i..]
    {
      hide Valid;
      j, i := 0, 0;
      if timeout {
        return;
      }
      j := Admit();
      i := Transmit(sends);
    }

    /** The peer acknowledges only what was sent. */
    predicate Honest(ack: nat)
      reads this`wait, this`ready
    {
      (forall s :: s in wait ==> s.expectedAck > ack) && (forall s :: s in ready ==> s.expectedAck > ack)
    }

    /** The loop of tcp_ack_handler. */
    method Sweep(ack: nat, window: nat)
      requires usedSize >= Bytes(waitAck)
      modifies this`waitAck, this`usedSize, this`totSize
      ensures waitAck == Left(old(waitAck), ack) && |waitAck| <= |old(waitAck)|
      ensures usedSize + Bytes(old(waitAck)) == old(usedSize) + Bytes(waitAck)
      ensures totSize == if |waitAck| < |old(waitAck)| then window else old(totSize)
    {
      hide Bytes, Left;
      ghost var list, i: nat, kept: seq<Segment> := waitAck, 0, [];
      var p: nat := 0;
      LeftStep(list, ack, 0);
      assert waitAck == kept + list[0..];
      while p < |waitAck|
        invariant i <= |list| && kept == Left(list[..i], ack) && waitAck == kept + list[i..] && p == |kept| <= i
        invariant usedSize + Bytes(list) == old(usedSize) + Bytes(waitAck)
        invariant totSize == if p < i then window else old(totSize)
        decreases |list| - i
      {
        var seg := waitAck[p];
        LeftStep(list, ack, i);
        SweepStep(kept, list, i);
        if seg.expectedAck <= ack {
          waitAck := waitAck[..p] + waitAck[p + 1..];
          usedSize := usedSize - |seg.data|;
          totSize := window;
          LeftNone(kept);
        } else {
          p := p + 1;
          kept := kept + [seg];
        }
        i := i + 1;
      }
      assert i == |list|;
      LeftEnd(list, kept, i);
    }

    /** The acknowledgement half of tcp_ack_handler.  Afterwards more than the window is in use
        exactly when the peer shrank it below what stays in flight, which it does not if it
        acknowledges whole segments and never moves the right edge of its window back. */
    method AckHandler(ack: nat, window: nat)
      requires Valid() && Honest(ack) && window < 0x1_0000
      modifies this`waitAck, this`usedSize, this`totSize, this`a
      ensures Valid() && waitAck == Left(old(waitAck), ack)
      ensures totSize == if |waitAck| < |old(waitAck)| then window else old(totSize)
      ensures old(a) <= a && (a > old(a) ==> Edge(tiles, base, a) <= ack)
      ensures a < |tiles| ==> ack < tiles[a].expectedAck
      ensures InWindow() <==>
        old(if Left(waitAck, ack) != waitAck then Bytes(ready) + Bytes(Left(waitAck, ack)) <= window else InWindow())
      ensures old(InWindow()) && Edge(tiles, base, a) == ack && ack + window >= old(Edge(tiles, base, a) + totSize) ==>
        InWindow()
    {
      hide Tiling, Joined, Bytes, Edge, Spread, Left;
      ghost var b := LeftSuffix(tiles, base, a, ack);
      SpreadAck(wait, ready, waitAck, tiles[a..], ack);
      Total();
      LeftAll(waitAck, ack);
      Sweep(ack, window);
      a := b;
      Total();
    }

    /** The queues hold, each once, consecutive segments that carry exactly the submitted bytes
        from the last acknowledged segment up to send_seq. */
    lemma Unacknowledged()
      requires Valid()
      ensures multiset(wait) + multiset(ready) + multiset(waitAck) == multiset(tiles[a..])
      ensures base <= Edge(tiles, base, a) <= sendSeq && |submitted| == sendSeq - base
      ensures Joined(tiles[a..]) == submitted[Edge(tiles, base, a) - base..]
    {
      hide Joined;
      assert tiles == tiles[..a] + tiles[a..];
      JoinedConcat(tiles[..a], tiles[a..]);
      JoinedLength(tiles, base, a);
      JoinedLength(tiles, base, |tiles|);
      assert tiles[..|tiles|] == tiles;
    }

    /** The first byte not in an acknowledged segment, from what the sender knows. */
    method Una() returns (una: nat)
      requires Valid()
      ensures a <= |tiles| && una == Edge(tiles, base, a)
    {
      hide Bytes, Edge, Tiling, Joined, Spread;
      Total();
      EdgeUp(tiles, base, a);
      una := sendSeq - Bytes(wait) - usedSize;
    }

    /** What a run is about: the queues, the counters, and what was submitted and acknowledged. */
    ghost function Now(): State
      requires a <= |tiles|
      reads this
    {
      State(wait, ready, waitAck, usedSize, totSize, sendSeq, submitted, Edge(tiles, base, a))
    }

    /** One event, if the sender can be asked to handle it. */
    method Handle(e: Event) returns (info: Option<Ack>)
      requires Valid()
      modifies this`wait, this`ready, this`waitAck, this`usedSize, this`totSize, this`sendSeq, this`tiles, this`a,
        this`submitted
      ensures Valid() && Step(mss, e, old(Now()), Now())
      ensures info == AckOf(e, old(Now()), Now())
      ensures old(InWindow()) && (info.Some? ==> Fair(info.value)) ==> InWindow()
    {
      hide Tiling, Edge, Spread, Joined, Bytes, Left, Fitting, Fair;
      info := None;
      match e {
        case Submit(buf, allocs) =>
          if sendSeq + |buf| < WORD {
            var ret, n := DoSegment(buf, allocs);
            EdgePrefix(old(tiles), tiles, base, a);
          }
        case Process(timeout, sends) =>
          var j, k := ProcessSendWindow(timeout, sends);
        case Acked(ack, window) =>
          if Honest(ack) && window < 0x1_0000 {
            var i := TakeAck(ack, window);
            info := Some(i);
          }
      }
    }

    /** Any run of submissions, window processing and acknowledgements: the states it goes through
        are those the events lead to, what was submitted is what the events handed over, and as
        long as the peer acknowledged whole segments and never moved the right edge of its window
        back, no more than the window is in use. */
    method Run(events: seq<Event>) returns (acks: seq<Ack>, ghost trace: seq<State>)
      requires Valid() && InWindow()
      modifies this`wait, this`ready, this`waitAck, this`usedSize, this`totSize, this`sendSeq, this`tiles, this`a,
        this`submitted
      ensures Valid()
      ensures |trace| == |events| + 1 && trace[0] == old(Now()) && trace[|events|] == Now()
      ensures forall i :: 0 <= i < |events| ==> Step(mss, events[i], trace[i], trace[i + 1])
      ensures submitted == old(submitted) + Submitted(mss, old(sendSeq), events)
      ensures acks == AcksOf(events, trace)
      ensures AllFair(acks) ==> InWindow()
    {
      hide Valid, InWindow, Fair, AllFair, Step, AckOf, Submitted, AcksOf;
      NoneFair();
      ValidEdge();
      acks, trace := [], [Now()];
      NoEvents(mss, sendSeq, trace);
      for i := 0 to |events|
        invariant Valid() && a <= |tiles| && |trace| == i + 1 && trace[0] == old(Now()) && trace[i] == Now()
        invariant forall j :: 0 <= j < i ==> Step(mss, events[j], trace[j], trace[j + 1])
        invariant submitted == old(submitted) + Submitted(mss, old(sendSeq), events[..i])
        invariant sendSeq == old(sendSeq) + |Submitted(mss, old(sendSeq), events[..i])|
        invariant acks == AcksOf(events[..i], trace)
        invariant AllFair(acks) ==> InWindow()
      {
        ghost var was := Now();
        var info := Handle(events[i]);
        ValidEdge();
        SubmittedStep(mss, old(sendSeq), events, i, was, Now(), old(submitted));
        AcksStep(events, trace, i, Now());
        if info.Some? {
          AllFairStep(acks, info.value);
          acks := acks + [info.value];
        } else {
          assert acks + [] == acks;
        }
        trace := trace + [Now()];
      }
      assert events[..|events|] == events;
    }

    lemma ValidEdge()
      requires Valid()
      ensures a <= |tiles|
    {
    }

    method TakeAck(ack: nat, window: nat) returns (info: Ack)
      requires Valid() && Honest(ack) && window < 0x1_0000
      modifies this`waitAck, this`usedSize, this`totSize, this`a
      ensures Valid() && info.ack == ack && info.window == window
      ensures info.edge == old(Edge(tiles, base, a) + totSize)
      ensures a <= |tiles| && info.una == Edge(tiles, base, a)
      ensures info.una + Bytes(waitAck) == old(Edge(tiles, base, a) + Bytes(waitAck))
      ensures waitAck == Left(old(waitAck), ack) && totSize == if waitAck == old(waitAck) then old(totSize) else window
      ensures old(InWindow()) && Fair(info) ==> InWindow()
    {
      hide Valid, InWindow, Edge;
      var una := Una();
      Total();
      var tot := totSize;
      AckHandler(ack, window);
      Total();
      LeftAll(old(waitAck), ack);
      var after := Una();
      info := Ack(una + tot, ack, window, after);
    }
  }

  /** Two bytes sent into a window of two. */
  method TwoInFlight(x: Byte, y: Byte) returns (s: Sender)
    ensures fresh(s) && s.Valid() && s.mss == 1 && s.totSize == 2 && s.sendSeq == 2
    ensures s.wait == s.ready == [] && s.waitAck == [Segment(0, 1, [x]), Segment(1, 2, [y])]
  {
    hide Sender.Valid, Joined, Tiling, Edge, Bytes, Fitting;
    ghost var p, q := Segment(0, 1, [x]), Segment(1, 2, [y]);
    OneTwo(p, q);
    s := new Sender(1, 0, 2);
    s.AddSegment([x]);
    assert s.ready == [p];
    s.Total();
    s.AddSegment([y]);
    assert s.ready == [p, q];
    var j, i := s.ProcessSendWindow(false, 9);
    assert s.waitAck == [p, q];
  }

  /** A peer that shrinks its window: it acknowledges the first of the two bytes with a window of
      none, and from then on the subtraction of the bytes in use wraps around and whatever is
      submitted is sent. */
  method ShrunkWindow(x: Byte, y: Byte, z: Byte) returns (s: Sender)
    ensures fresh(s) && s.Valid() && s.totSize == 0 && s.usedSize == 2
    ensures s.wait == s.ready == [] && s.waitAck == [Segment(1, 2, [y]), Segment(2, 3, [z])]
  {
    hide Sender.Valid, Joined, Tiling, Edge, Bytes, Left, Fitting;
    ghost var p, q, r := Segment(0, 1, [x]), Segment(1, 2, [y]), Segment(2, 3, [z]);
    OneTwo(p, q);
    OneTwo(q, r);
    s := TwoInFlight(x, y);
    s.AckHandler(1, 0);
    s.Total();
    s.AddSegment([z]);
    assert s.wait == [r];
    var j, i := s.ProcessSendWindow(false, 9);
    assert s.waitAck == [q, r];
    s.Total();
  }

  lemma OneTwo(p: Segment, q: Segment)
    ensures Bytes([]) == 0 && Bytes([p]) == |p.data| && Bytes([p, q]) == |p.data| + |q.data|
    ensures p.expectedAck <= 1 < q.expectedAck ==> Left([p, q], 1) == [q]
  {
    assert [p, q][1..] == [q] && [q][1..] == [];
    assert Bytes([q]) == |q.data|;
    assert q.expectedAck > 1 ==> Left([q], 1) == [q];
  }

  /** An acknowledgement taken: the right edge of the window before, the acknowledgement and the
      window in it, and the first byte not acknowledged after it. */
  datatype Ack = Ack(edge: nat, ack: nat, window: nat, una: nat)

  /** It acknowledges whole segments and does not move the right edge back. */
  predicate Fair(i: Ack) { i.una == i.ack && i.ack + i.window >= i.edge }

  predicate AllFair(acks: seq<Ack>) {
    forall k :: 0 <= k < |acks| ==> Fair(acks[k])
  }

  lemma NoneFair()
    ensures AllFair([])
  {
  }

  lemma AllFairStep(acks: seq<Ack>, i: Ack)
    ensures AllFair(acks + [i]) <==> AllFair(acks) && Fair(i)
  {
    hide Fair;
    if AllFair(acks + [i]) {
      assert (acks + [i])[|acks|] == i;
      assert forall k :: 0 <= k < |acks| ==> (acks + [i])[k] == acks[k];
    }
  }

  lemma {:induction false} JoinedConcat(x: seq<Segment>, y: seq<Segment>)
    ensures Joined(x + y) == Joined(x) + Joined(y)
  {
    if y == [] {
      assert x + y == x;
    } else {
      hide Joined;
      var n := |y| - 1;
      assert y == y[..n] + [y[n]];
      assert x + y == (x + y[..n]) + [y[n]];
      JoinedConcat(x, y[..n]);
      JoinedGrow(y[..n], y[n]);
      JoinedGrow(x + y[..n], y[n]);
      assert (Joined(x) + Joined(y[..n])) + y[n].data == Joined(x) + (Joined(y[..n]) + y[n].data);
    }
  }

  lemma {:induction false} JoinedLength(tiles: seq<Segment>, base: nat, a: nat)
    requires Tiling(tiles, base) && a <= |tiles|
    ensures |Joined(tiles[..a])| == Edge(tiles, base, a) - base
  {
    if a > 0 {
      assert TileOk(tiles, base, a - 1);
      JoinedLength(tiles, base, a - 1);
      assert tiles[..a] == tiles[..a - 1] + [tiles[a - 1]];
      JoinedGrow(tiles[..a - 1], tiles[a - 1]);
    }
  }

  lemma FirstBytes(list: seq<Segment>)
    requires list != []
    ensures |list[0].data| <= Bytes(list)
  {
  }

  /** The room left in the window, as the unsigned subtraction computes it: when more than the
      window is in use it wraps around and there is room for anything. */
  lemma Room(tot: nat, used: nat, len: nat)
    requires used + len < WORD && tot < WORD
    ensures Sub32(tot, used) >= len <==> used > tot || used + len <= tot
  {
  }

  lemma LeftStep(list: seq<Segment>, ack: nat, i: nat)
    requires i <= |list|
    ensures Left(list[..0], ack) == []
    ensures i < |list| ==>
      Left(list[..i + 1], ack) == Left(list[..i], ack) + if list[i].expectedAck <= ack then [] else [list[i]]
  {
    if i < |list| {
      assert list[..i + 1] == list[..i] + [list[i]];
      LeftAppend(list[..i], list[i], ack);
    }
  }

  lemma {:induction false} LeftAppend(list: seq<Segment>, s: Segment, ack: nat)
    ensures Left(list + [s], ack) == Left(list, ack) + if s.expectedAck <= ack then [] else [s]
  {
    if list != [] {
      assert (list + [s])[1..] == list[1..] + [s];
      LeftAppend(list[1..], s, ack);
    }
  }

  lemma {:induction false} LeftAll(list: seq<Segment>, ack: nat)
    ensures |Left(list, ack)| <= |list| && (|Left(list, ack)| == |list| ==> Left(list, ack) == list)
  {
    if list != [] { LeftAll(list[1..], ack); }
  }

  lemma LeftNone(kept: seq<Segment>)
    ensures kept + [] == kept
  {
  }

  lemma LeftEnd(list: seq<Segment>, kept: seq<Segment>, i: nat)
    requires i == |list|
    ensures list[..i] == list && kept + list[i..] == kept
  {
  }

  /** The list while it is swept: what was kept, and what was not looked at yet. */
  lemma SweepStep(kept: seq<Segment>, list: seq<Segment>, i: nat)
    requires i < |list|
    ensures var w := kept + list[i..];
      && w[|kept|] == list[i]
      && w[..|kept|] + w[|kept| + 1..] == kept + list[i + 1..]
      && w == (kept + [list[i]]) + list[i + 1..]
      && Bytes(w) == Bytes(kept + list[i + 1..]) + |list[i].data|
  {
    hide Bytes;
    Prefixes(list, i);
    Around(kept, list[i..]);
    TakeOut(kept + list[i..], |kept|);
  }

  lemma Around(kept: seq<Segment>, rest: seq<Segment>)
    requires rest != []
    ensures var w := kept + rest;
      && w[|kept|] == rest[0] && w[..|kept|] == kept && w[|kept| + 1..] == rest[1..]
      && w == (kept + [rest[0]]) + rest[1..]
  {
  }
}
