/** net/inet/tcp.c, receiving: tcp_seg_sort keeps the segments that arrived in order and
    advances the acknowledgement, tcp_recv hands their data to the application. */
module TcpRecv {
  import opened Words

  datatype Segment = Segment(number: nat, data: seq<Byte>)   // TCP sequence number and payload

  /** The peer cuts its stream, numbered from `base`, into tiles and sends each as one segment,
      any number of times and in any order. */
  datatype Peer = Peer(base: nat, tiles: seq<seq<Byte>>)

  ghost predicate PeerOk(p: Peer) {
    && (forall k :: 0 <= k < |p.tiles| ==> 0 < |p.tiles[k]| < 0x1_0000)
    && Start(p, |p.tiles|) < WORD
  }

  /** Sequence number of tile `k`. */
  function Start(p: Peer, k: nat): nat
    requires k <= |p.tiles|
  {
    if k == 0 then p.base else Start(p, k - 1) + |p.tiles[k - 1]|
  }

  function SegmentOf(p: Peer, k: nat): Segment
    requires k < |p.tiles|
  {
    Segment(Start(p, k), p.tiles[k])
  }

  /** The first `k` tiles of the stream, as bytes. */
  function Joined(p: Peer, k: nat): (s: seq<Byte>)
    requires k <= |p.tiles|
    ensures |s| == Start(p, k) - p.base
  {
    if k == 0 then [] else Joined(p, k - 1) + p.tiles[k - 1]
  }

  lemma {:induction false} StartMono(p: Peer, j: nat, k: nat)
    requires PeerOk(p) && j < k <= |p.tiles|
    ensures Start(p, j) < Start(p, k) && Start(p, k) < WORD
  {
    if k < |p.tiles| { StartUp(p, k, |p.tiles|); }
    if j < k - 1 { StartMono(p, j, k - 1); }
  }

  lemma {:induction false} StartUp(p: Peer, j: nat, k: nat)
    requires j <= k <= |p.tiles|
    ensures Start(p, j) <= Start(p, k)
  {
    if j < k { StartUp(p, j, k - 1); }
  }

  /** Sequence numbers order tiles. */
  lemma StartOrder(p: Peer, j: nat, k: nat)
    requires PeerOk(p) && j <= |p.tiles| && k <= |p.tiles|
    ensures (Start(p, j) < Start(p, k) <==> j < k) && (Start(p, j) == Start(p, k) <==> j == k)
  {
    if j < k { StartMono(p, j, k); }
    if k < j { StartMono(p, k, j); }
  }

  // ---------- the receive list ----------

  ghost predicate Increasing(idx: seq<nat>) {
    forall i, j :: 0 <= i < j < |idx| ==> idx[i] < idx[j]
  }

  /** The list holds the tiles `idx`, in order. */
  ghost predicate Lists(p: Peer, list: seq<Segment>, idx: seq<nat>) {
    && |list| == |idx| && Increasing(idx)
    && forall i :: 0 <= i < |idx| ==> idx[i] < |p.tiles| && list[i] == SegmentOf(p, idx[i])
  }

  /** Tiles below `r` were read, those below `m` acknowledged; the list holds exactly the tiles
      that arrived and were not read. */
  ghost predicate Received(p: Peer, list: seq<Segment>, idx: seq<nat>, arrived: set<nat>, r: nat, m: nat) {
    && Lists(p, list, idx) && r <= m <= |p.tiles| && m - r <= |idx|
    && (forall k :: k in arrived ==> k < r || k in idx)
    && (forall k: nat :: k < r ==> k in arrived)
    && (forall i :: 0 <= i < |idx| ==> idx[i] in arrived && r <= idx[i])
    && (forall i :: 0 <= i < m - r ==> idx[i] == r + i)
  }

  /** The bytes of the segment at the head that were read already. */
  function Partial(list: seq<Segment>, readPtr: nat): seq<Byte>
    requires readPtr > 0 ==> list != [] && readPtr <= |list[0].data|
  {
    if readPtr == 0 then [] else list[0].data[..readPtr]
  }

  ghost predicate ReadTo(p: Peer, list: seq<Segment>, r: nat, m: nat, readPtr: nat, got: seq<Byte>) {
    && r <= m <= |p.tiles|
    && (readPtr > 0 ==> r < m && list != [] && readPtr < |list[0].data|)
    && got == Joined(p, r) + Partial(list, readPtr)
  }

  // ---------- a new segment ----------

  lemma AckedArrived(p: Peer, list: seq<Segment>, idx: seq<nat>, arrived: set<nat>, r: nat, m: nat, k: nat)
    requires Received(p, list, idx, arrived, r, m) && k < m
    ensures k in arrived
  {
    if k >= r { assert idx[k - r] == k; }
  }

  function Inserted<T>(s: seq<T>, j: nat, x: T): seq<T>
    requires j <= |s|
  {
    s[..j] + [x] + s[j..]
  }

  lemma InsertedAt<T>(s: seq<T>, j: nat, x: T, i: nat)
    requires j <= |s| && i <= |s|
    ensures |Inserted(s, j, x)| == |s| + 1
    ensures Inserted(s, j, x)[i] == if i < j then s[i] else if i == j then x else s[i - 1]
  {
  }

  lemma InsertedIn<T>(s: seq<T>, j: nat, x: T, y: T)
    requires j <= |s|
    ensures y in Inserted(s, j, x) <==> y in s || y == x
  {
    assert s == s[..j] + s[j..];
  }

  lemma InsertLists(p: Peer, list: seq<Segment>, idx: seq<nat>, k: nat, j: nat)
    requires Lists(p, list, idx) && k < |p.tiles| && j <= |idx|
    requires (forall i :: 0 <= i < j ==> idx[i] < k) && (forall i :: j <= i < |idx| ==> k < idx[i])
    ensures Lists(p, Inserted(list, j, SegmentOf(p, k)), Inserted(idx, j, k))
  {
    hide Inserted, SegmentOf;
    var list2, idx2 := Inserted(list, j, SegmentOf(p, k)), Inserted(idx, j, k);
    InsertedAt(list, j, SegmentOf(p, k), 0);
    InsertedAt(idx, j, k, 0);
    forall i | 0 <= i < |idx2|
      ensures idx2[i] < |p.tiles| && list2[i] == SegmentOf(p, idx2[i])
      ensures forall h :: i < h < |idx2| ==> idx2[i] < idx2[h]
    {
      InsertedAt(list, j, SegmentOf(p, k), i);
      InsertedAt(idx, j, k, i);
      forall h | i < h < |idx2|
        ensures idx2[i] < idx2[h]
      {
        InsertedAt(idx, j, k, h);
      }
    }
  }

  lemma PlaceAfter(p: Peer, list: seq<Segment>, idx: seq<nat>, arrived: set<nat>, r: nat, m: nat, k: nat, j: nat)
    requires Received(p, list, idx, arrived, r, m) && m <= k && j <= |idx|
    requires (forall i :: 0 <= i < j ==> idx[i] < k) && (forall i :: j <= i < |idx| ==> k < idx[i])
    ensures k !in arrived && m - r <= j && |list| == |idx|
  {
    assert j < |idx| ==> k < idx[j];
  }

  lemma Insert(p: Peer, list: seq<Segment>, idx: seq<nat>, arrived: set<nat>, r: nat, m: nat, k: nat, j: nat)
    requires Received(p, list, idx, arrived, r, m) && m <= k < |p.tiles| && j <= |idx|
    requires (forall i :: 0 <= i < j ==> idx[i] < k) && (forall i :: j <= i < |idx| ==> k < idx[i])
    ensures k !in arrived && m - r <= j
    ensures Received(p, Inserted(list, j, SegmentOf(p, k)), Inserted(idx, j, k), arrived + {k}, r, m)
  {
    hide Inserted, Lists, SegmentOf;
    PlaceAfter(p, list, idx, arrived, r, m, k, j);
    InsertLists(p, list, idx, k, j);
    InsertMembers(idx, arrived, r, j, k);
    InsertPlaces(idx, arrived, r, m, j, k);
  }

  lemma InsertMembers(idx: seq<nat>, arrived: set<nat>, r: nat, j: nat, k: nat)
    requires j <= |idx| && forall x :: x in arrived ==> x < r || x in idx
    ensures forall x :: x in arrived + {k} ==> x < r || x in Inserted(idx, j, k)
  {
    hide Inserted;
    forall x: nat | x in arrived + {k}
      ensures x < r || x in Inserted(idx, j, k)
    {
      InsertedIn<nat>(idx, j, k, x);
    }
  }

  lemma InsertPlaces(idx: seq<nat>, arrived: set<nat>, r: nat, m: nat, j: nat, k: nat)
    requires r <= m <= k && m - r <= j <= |idx|
    requires forall i :: 0 <= i < |idx| ==> idx[i] in arrived && r <= idx[i]
    requires forall i :: 0 <= i < m - r ==> idx[i] == r + i
    ensures |Inserted(idx, j, k)| == |idx| + 1
    ensures forall i :: 0 <= i < |idx| + 1 ==> Inserted(idx, j, k)[i] in arrived + {k} && r <= Inserted(idx, j, k)[i]
    ensures forall i :: 0 <= i < m - r ==> Inserted(idx, j, k)[i] == r + i
  {
    hide Inserted;
    InsertedAt(idx, j, k, 0);
    forall i | 0 <= i < |idx| + 1
      ensures Inserted(idx, j, k)[i] in arrived + {k} && r <= Inserted(idx, j, k)[i]
      ensures i < m - r ==> Inserted(idx, j, k)[i] == r + i
    {
      InsertedAt(idx, j, k, i);
    }
  }

  // ---------- acknowledging ----------

  /** Every tile up to the first one missing is acknowledged. */
  ghost predicate Settled(arrived: set<nat>, m: nat) { m !in arrived }

  /** The segment at place `m - r` of the list is tile `m` just when that tile arrived. */
  lemma NextExpected(p: Peer, list: seq<Segment>, idx: seq<nat>, arrived: set<nat>, r: nat, m: nat, i: nat)
    requires PeerOk(p) && Received(p, list, idx, arrived, r, m) && i == m - r
    ensures i < |list| && list[i].number == Start(p, m) ==>
      && m < |p.tiles| && list[i] == SegmentOf(p, m) && m in arrived
      && Received(p, list, idx, arrived, r, m + 1)
      && Start(p, m + 1) == list[i].number + |list[i].data| < WORD
    ensures i == |list| || (i < |list| && list[i].number != Start(p, m)) ==> Settled(arrived, m)
  {
    if i < |list| {
      StartOrder(p, idx[i], m);
      if idx[i] == m { StartMono(p, m, m + 1); }
    }
    if m in arrived {
      assert m in idx;
      var h :| 0 <= h < |idx| && idx[h] == m;
      assert h >= i && i < |idx|;
      assert idx[i] <= idx[h];
      assert i == 0 || idx[i - 1] < idx[i];
      assert idx[i] == m;
    }
  }

  ghost predicate FirstMissing(arrived: set<nat>, k: nat) {
    k !in arrived && forall j: nat :: j < k ==> j in arrived
  }

  /** The first tile from `m` on, of `n`, that did not arrive. */
  function Gap(arrived: set<nat>, m: nat, n: nat): (g: nat)
    ensures m <= g && (m <= n ==> g <= n)
    decreases if m < n then n - m else 0
  {
    if m < n && m in arrived then Gap(arrived, m + 1, n) else m
  }

  lemma {:induction false} GapIs(arrived: set<nat>, m: nat, n: nat, g: nat)
    requires m <= g <= n && (forall k: nat :: m <= k < g ==> k in arrived)
    ensures g <= Gap(arrived, m, n) && (g !in arrived || g == n ==> Gap(arrived, m, n) == g)
    decreases n - m
  {
    if m < g { GapIs(arrived, m + 1, n, g); }
  }

  lemma {:induction false} GapFacts(arrived: set<nat>, m: nat, n: nat)
    requires m <= n
    ensures forall k: nat :: m <= k < Gap(arrived, m, n) ==> k in arrived
    ensures Gap(arrived, m, n) < n ==> Gap(arrived, m, n) !in arrived
    decreases n - m
  {
    if m < n && m in arrived { GapFacts(arrived, m + 1, n); }
  }

  /** A segment arrives, `k` telling which tile it is and `acks` how many acknowledgements could
      be sent in answer; or the application reads. */
  datatype Event = Arrive(segment: Segment, k: nat, acks: nat) | Read(len: nat)

  ghost predicate FromPeer(p: Peer, e: Event)
    requires e.Arrive?
  {
    e.k < |p.tiles| && e.segment == SegmentOf(p, e.k)
  }

  /** The tiles that arrived, and how many are acknowledged. */
  datatype Seen = Seen(arrived: set<nat>, m: nat)

  /** The tile awaited is acknowledged with those that follow on, up to the first one missing or to
      the acknowledgement that could not be sent; any other changes nothing. */
  function Acked(s: Seen, k: nat, acks: nat, n: nat): nat {
    if k != s.m || k in s.arrived then s.m
    else
      var g := Gap(s.arrived + {k}, s.m, n);
      if g <= s.m + acks + 1 then g else s.m + acks + 1
  }

  function After(s: Seen, e: Event, n: nat): Seen {
    match e
    case Arrive(_, k, acks) => Seen(s.arrived + {k}, Acked(s, k, acks, n))
    case Read(_) => s
  }

  function Progress(s: Seen, events: seq<Event>, n: nat): Seen {
    if events == [] then s else After(Progress(s, events[..|events| - 1], n), events[|events| - 1], n)
  }

  lemma ProgressStep(s: Seen, events: seq<Event>, i: nat, n: nat)
    requires i < |events|
    ensures Progress(s, events[..0], n) == s
    ensures Progress(s, events[..i + 1], n) == After(Progress(s, events[..i], n), events[i], n)
  {
    assert events[..i + 1][..i] == events[..i];
  }

  function Arrivals(events: seq<Event>): set<nat> {
    if events == [] then {}
    else Arrivals(events[..|events| - 1]) + (if events[|events| - 1].Arrive? then {events[|events| - 1].k} else {})
  }

  /** As many acknowledgements can be sent as the arrival of the first missing tile calls for; the
      last of them need not get out. */
  ghost predicate Enough(arrived: set<nat>, e: Event, n: nat) {
    e.Arrive? && e.k == Gap(arrived, 0, n) ==> Gap(arrived + {e.k}, e.k, n) <= e.k + e.acks + 1
  }

  ghost predicate AcksSuffice(arrived: set<nat>, events: seq<Event>, n: nat) {
    forall i :: 0 <= i < |events| ==> Enough(arrived + Arrivals(events[..i]), events[i], n)
  }

  lemma ArrivalsLast(events: seq<Event>)
    requires events != []
    ensures var i := |events| - 1;
      Arrivals(events) == Arrivals(events[..i]) + (if events[i].Arrive? then {events[i].k} else {})
  {
  }

  lemma AcksSufficeStep(arrived: set<nat>, events: seq<Event>, n: nat)
    requires events != []
    ensures var i := |events| - 1;
      && Arrivals(events) == Arrivals(events[..i]) + (if events[i].Arrive? then {events[i].k} else {})
      && (AcksSuffice(arrived, events, n) <==>
            AcksSuffice(arrived, events[..i], n) && Enough(arrived + Arrivals(events[..i]), events[i], n))
  {
    hide Enough, Arrivals;
    ArrivalsLast(events);
    var i := |events| - 1;
    forall j | 0 <= j < i
      ensures Enough(arrived + Arrivals(events[..i][..j]), events[..i][j], n)
              <==> Enough(arrived + Arrivals(events[..j]), events[j], n)
    {
      assert events[..i][..j] == events[..j];
    }
    if AcksSuffice(arrived, events, n) {
      forall j | 0 <= j < i
        ensures Enough(arrived + Arrivals(events[..i][..j]), events[..i][j], n)
      {
        assert Enough(arrived + Arrivals(events[..j]), events[j], n);
      }
    }
  }

  ghost predicate Below(arrived: set<nat>, n: nat) {
    forall k :: k in arrived ==> k < n
  }

  /** One arrival, when every tile before the first missing one is acknowledged: so it is again if
      and only if the acknowledgements suffice. */
  lemma AfterSettled(s: Seen, e: Event, n: nat)
    requires FirstMissing(s.arrived, s.m) && s.m <= n && Below(s.arrived, n) && (e.Arrive? ==> e.k < n)
    ensures var t := After(s, e, n);
      && t.m <= n && Below(t.arrived, n)
      && if Enough(s.arrived, e, n) then FirstMissing(t.arrived, t.m) else t.m in t.arrived
  {
    if e.Arrive? {
      var t := After(s, e, n);
      GapIs(s.arrived, 0, n, s.m);
      assert Gap(s.arrived, 0, n) == s.m by { GapFacts(s.arrived, 0, n); }
      if e.k == s.m { GapFacts(t.arrived, s.m, n); }
    }
  }

  /** Over any arrivals: the acknowledgement is that of the first missing tile if and only if the
      acknowledgements sufficed, and else it stays behind for good; so it gets to the end if and
      only if they did and everything arrived. */
  lemma {:induction false} Reaches(s: Seen, events: seq<Event>, n: nat)
    requires FirstMissing(s.arrived, s.m) && s.m <= n && Below(s.arrived, n)
    requires forall i :: 0 <= i < |events| && events[i].Arrive? ==> events[i].k < n
    ensures var t := Progress(s, events, n);
      && t.arrived == s.arrived + Arrivals(events) && t.m <= n && Below(t.arrived, n)
      && (if AcksSuffice(s.arrived, events, n) then FirstMissing(t.arrived, t.m) else t.m in t.arrived)
      && (t.m == n <==> AcksSuffice(s.arrived, events, n) && forall k: nat :: k < n ==> k in t.arrived)
  {
    hide Acked, Enough;
    if events != [] {
      var i := |events| - 1;
      hide AcksSuffice, Arrivals;
      AcksSufficeStep(s.arrived, events, n);
      Reaches(s, events[..i], n);
      var q := Progress(s, events[..i], n);
      if AcksSuffice(s.arrived, events[..i], n) {
        AfterSettled(q, events[i], n);
      } else {
        AfterStuck(q, events[i], n);
      }
    } else {
      assert s.arrived + {} == s.arrived;
    }
  }

  lemma AfterStuck(s: Seen, e: Event, n: nat)
    requires s.m in s.arrived && s.m <= n && Below(s.arrived, n) && (e.Arrive? ==> e.k < n)
    ensures var t := After(s, e, n); t.m == s.m && t.m in t.arrived && Below(t.arrived, n)
  {
  }

  /** Once the awaited tile is there and not acknowledged, nothing that arrives is. */
  lemma {:induction false} StaysBehind(s: Seen, events: seq<Event>, n: nat)
    requires s.m in s.arrived
    ensures Progress(s, events, n).m == s.m && s.arrived <= Progress(s, events, n).arrived
  {
    if events != [] { StaysBehind(s, events[..|events| - 1], n); }
  }

  /** When every acknowledgement can be sent they suffice. */
  lemma ManySuffice(arrived: set<nat>, events: seq<Event>, n: nat)
    requires forall i :: 0 <= i < |events| && events[i].Arrive? ==> events[i].k < n && events[i].acks >= n
    ensures AcksSuffice(arrived, events, n)
  {
    hide Arrivals, Gap;
  }

  lemma AckedPlace(p: Peer, list: seq<Segment>, idx: seq<nat>, arrived: set<nat>, r: nat, m: nat, i: nat)
    requires PeerOk(p) && Received(p, list, idx, arrived, r, m) && i < |list|
    ensures list[i].number < Start(p, m) <==> i < m - r
  {
    StartOrder(p, idx[i], m);
    assert 0 < m - r <= i ==> idx[m - r - 1] == r + (m - r - 1) && idx[m - r - 1] < idx[i];
  }

  /** What was read is a prefix of what was acknowledged. */
  lemma GotPrefix(p: Peer, list: seq<Segment>, idx: seq<nat>, arrived: set<nat>, r: nat, m: nat, readPtr: nat,
                  got: seq<Byte>)
    requires PeerOk(p) && Received(p, list, idx, arrived, r, m) && ReadTo(p, list, r, m, readPtr, got)
    ensures m <= |p.tiles| && got <= Joined(p, m)
  {
    hide PeerOk, Start;
    if readPtr > 0 {
      assert idx[0] == r + 0;
      assert Joined(p, r + 1) == Joined(p, r) + list[0].data;
      JoinedPrefix(p, r + 1, m);
    } else {
      JoinedPrefix(p, r, m);
    }
  }

  lemma {:induction false} JoinedPrefix(p: Peer, j: nat, k: nat)
    requires j <= k <= |p.tiles|
    ensures Joined(p, j) <= Joined(p, k)
  {
    if j < k { JoinedPrefix(p, j, k - 1); }
  }

  /** How many tiles at the front of the list follow on from tile `r`. */
  function RunLength(idx: seq<nat>, r: nat): (n: nat)
    ensures n <= |idx|
  {
    if idx == [] || idx[0] != r then 0 else 1 + RunLength(idx[1..], r + 1)
  }

  lemma {:induction false} RunIs(idx: seq<nat>, r: nat)
    ensures forall i :: 0 <= i < RunLength(idx, r) ==> idx[i] == r + i
    ensures var n := RunLength(idx, r); n < |idx| ==> idx[n] != r + n
  {
    if idx != [] && idx[0] == r {
      RunIs(idx[1..], r + 1);
      var n := RunLength(idx[1..], r + 1);
      assert forall i :: 1 <= i < n + 1 ==> idx[1..][i - 1] == idx[i];
      assert n < |idx[1..]| ==> idx[1..][n] == idx[n + 1];
    }
  }

  /** The run reaches to the first tile missing, and whatever is said of the acknowledged tiles
      holds of the run. */
  lemma RunReceived(p: Peer, list: seq<Segment>, idx: seq<nat>, arrived: set<nat>, r: nat, m: nat, readPtr: nat,
                    got: seq<Byte>)
    requires Received(p, list, idx, arrived, r, m) && ReadTo(p, list, r, m, readPtr, got)
    ensures var n := r + RunLength(idx, r);
      && m <= n <= |p.tiles| && n - r <= |idx| == |list| && FirstMissing(arrived, n)
      && Received(p, list, idx, arrived, r, n) && ReadTo(p, list, r, n, readPtr, got)
      && Start(p, m) <= Start(p, n)
      && (n - r < |idx| ==> idx[n - r] > n && idx[n - r] < |p.tiles| && list[n - r] == SegmentOf(p, idx[n - r]))
  {
    hide RunLength, Start, Joined, Partial, SegmentOf;
    var c := RunLength(idx, r);
    var n := r + c;
    RunIs(idx, r);
    if n - r < |idx| && n > r { assert idx[c - 1] < idx[c]; }
    if n in arrived {
      assert false;
    }
    if c > 0 { assert idx[c - 1] < |p.tiles|; }
    StartUp(p, m, n);
    forall k: nat | k < n
      ensures k in arrived
    {
      if k >= r { assert idx[k - r] == k; }
    }
  }

  /** Some of the data of a list, from its start. */
  ghost predicate Within(bytes: seq<Byte>, list: seq<Segment>) {
    bytes <= Flat(list, |list|)
  }

  class Receiver {
    var list: seq<Segment>        // recv_data_head
    var ackSeq: nat
    var readPtr: nat
    ghost var peer: Peer
    ghost var idx: seq<nat>       // which tiles are in the list
    ghost var arrived: set<nat>
    ghost var r: nat              // tiles read
    ghost var m: nat              // tiles acknowledged
    ghost var got: seq<Byte>      // bytes handed to the application

    ghost predicate Valid()
      reads this
    {
      && PeerOk(peer) && Received(peer, list, idx, arrived, r, m) && ackSeq == Start(peer, m)
      && ReadTo(peer, list, r, m, readPtr, got)
    }

    constructor (ghost p: Peer, first: nat)
      requires PeerOk(p) && first == p.base
      ensures Valid() && peer == p && arrived == {} && got == [] && Settled(arrived, m) && r == m == 0
    {
      list, ackSeq, readPtr := [], first, 0;
      peer, idx, arrived, r, m, got := p, [], {}, 0, 0, [];
    }

    /** Where a segment goes, looking from the tail; none if it is there already. */
    method FindPlace(number: nat, ghost k: nat) returns (j: nat, duplicate: bool)
      requires PeerOk(peer) && Lists(peer, list, idx) && k < |peer.tiles| && number == Start(peer, k)
      ensures duplicate <==> k in idx
      ensures !duplicate ==> j <= |idx|
      ensures !duplicate ==> (forall i :: 0 <= i < j ==> idx[i] < k) && (forall i :: j <= i < |idx| ==> k < idx[i])
    {
      hide PeerOk, Start;
      j := |list|;
      while j > 0
        invariant j <= |list| && forall i :: j <= i < |idx| ==> k < idx[i]
      {
        StartOrder(peer, idx[j - 1], k);
        if list[j - 1].number < number {
          return j, false;
        }
        if list[j - 1].number == number {
          return j, true;
        }
        j := j - 1;
      }
      duplicate := false;
    }

    /** The acknowledgement loop, from the new segment at place `start` of the list.  The first
        `acks` sends succeed. */
    method Acknowledge(start: nat, acks: nat)
      requires PeerOk(peer) && Received(peer, list, idx, arrived, r, m) && ackSeq == Start(peer, m)
      requires start == m - r || (start < |list| && list[start].number != ackSeq)
      modifies this`ackSeq, this`m
      ensures Received(peer, list, idx, arrived, r, m) && ackSeq == Start(peer, m)
      ensures old(m) <= m <= old(m) + acks + 1
      ensures start < |list| && list[start].number != old(ackSeq) ==> m == old(m)
      ensures start == old(m) - r ==> Settled(arrived, m) || m == old(m) + acks + 1
    {
      hide Received, PeerOk, Start, SegmentOf, Settled;
      var i, sent: nat := start, 0;
      Bounds(peer, list, idx, arrived, r, m);
      while i < |list|
        invariant r <= m <= |peer.tiles| && Received(peer, list, idx, arrived, r, m) && ackSeq == Start(peer, m)
        invariant m == old(m) + sent && sent <= acks
        invariant sent == 0 ==> i == start
        invariant sent > 0 ==> i == m - r && start < |list| && list[start].number == old(ackSeq)
      {
        NextExpected(peer, list, idx, arrived, r, m, m - r);
        if ackSeq != list[i].number {
          return;
        }
        ackSeq := Add32(list[i].number, |list[i].data|);
        m := m + 1;
        if sent == acks {
          return;
        }
        sent := sent + 1;
        i := i + 1;
        Bounds(peer, list, idx, arrived, r, m);
      }
      Bounds(peer, list, idx, arrived, r, m);
      NextExpected(peer, list, idx, arrived, r, m, m - r);
    }

    /** tcp_seg_sort. */
    method SegSort(segment: Segment, ghost k: nat, acks: nat)
      requires Valid() && k < |peer.tiles| && segment == SegmentOf(peer, k)
      modifies this`list, this`ackSeq, this`idx, this`arrived, this`m
      ensures Valid() && arrived == old(arrived) + {k}
      ensures m == Acked(old(Seen(arrived, m)), k, acks, |peer.tiles|)
    {
      hide Received, PeerOk, Start, ReadTo, Inserted, Gap;
      StartOrder(peer, k, m) by { Bounds(peer, list, idx, arrived, r, m); }
      if segment.number < ackSeq {
        AckedArrived(peer, list, idx, arrived, r, m, k);
        assert arrived == arrived + {k};
        return;
      }
      Members(peer, list, idx, arrived, r, m, k);
      var j, duplicate := FindPlace(segment.number, k);
      if duplicate {
        assert arrived == arrived + {k};
        return;
      }
      Insert(peer, list, idx, arrived, r, m, k, j);
      ReadSame(peer, list, idx, arrived, r, m, readPtr, got, j, segment);
      InsertedAt(list, j, segment, j);
      list := Inserted(list, j, segment);
      idx := Inserted(idx, j, k);
      arrived := arrived + {k};
      InsertedAt(old(idx), j, k, j);
      PlaceOf(peer, list, idx, arrived, r, m, j, k);
      Acknowledge(j, acks);
      Bounds(peer, list, idx, arrived, r, m);
      Advanced(peer, list, idx, arrived, r, old(m), m);
      ReadMore(peer, list, r, old(m), m, readPtr, got);
    }

    /** The copying loop of tcp_recv.  `c` segments are used up. */
    method CopyOut(len: nat) returns (out: seq<Byte>, ghost c: nat)
      requires Readable(list, readPtr)
      modifies this`list, this`readPtr
      ensures c <= |old(list)| && list == old(list)[c..] && Readable(list, readPtr)
      ensures Flat(old(list), c) + Partial(list, readPtr) == old(Partial(list, readPtr)) + out
      ensures |out| <= len && (|out| < len ==> list == [] && readPtr == 0)
    {
      hide Flat;
      ghost var l, p := list, Partial(list, readPtr);
      out, c := [], 0;
      assert Flat(l, 0) == [] by { FlatStep(l, 0); }
      var remain: nat := len;
      while list != []
        invariant c <= |l| && list == l[c..] && Readable(list, readPtr)
        invariant Flat(l, c) + Partial(list, readPtr) == p + out && |out| + remain == len
        decreases |list|
      {
        var skb := list[0];
        FlatStep(l, c);
        var left: nat := |skb.data| - readPtr;
        if left <= remain {
          CopyWhole(Flat(l, c), skb.data, readPtr, p, out);
          out := out + skb.data[readPtr..];
          remain := remain - left;
          readPtr := 0;
          list := list[1..];
          c := c + 1;
        } else {
          CopyPart(Flat(l, c), skb.data, readPtr, p, out, remain);
          out := out + skb.data[readPtr..readPtr + remain];
          readPtr := readPtr + remain;
          remain := 0;
          break;
        }
      }
    }

    /** Acknowledged bytes not read yet. */
    ghost function Unread(): int
      requires m <= |peer.tiles|
      reads this
    {
      Start(peer, m) - peer.base - |got|
    }

    /** Tile at which the run of tiles at the front of the list ends, acknowledged or not: the
        first one missing. */
    ghost function Missing(): nat
      reads this
    {
      r + RunLength(idx, r)
    }

    /** Bytes up to there not read yet. */
    ghost function Contiguous(): int
      requires Missing() <= |peer.tiles|
      reads this
    {
      Start(peer, Missing()) - peer.base - |got|
    }

    /** tcp_recv.  It looks neither at the acknowledgement nor at the sequence numbers.  The
        application gets the stream when it asks for no more than arrived without a gap, or
        nothing arrived behind the gap; otherwise what it gets goes on with data from behind it.
        The state stays valid just when nothing is read that was not acknowledged. */
    method Recv(len: nat) returns (out: seq<Byte>)
      requires Valid()
      modifies this`list, this`readPtr, this`idx, this`r, this`got
      ensures |out| <= len && got == old(got) + out
      ensures old(m <= Missing() <= |peer.tiles| && 0 <= Unread() <= Contiguous() && Missing() - r <= |list| == |idx|)
      ensures old(FirstMissing(arrived, Missing()))
      ensures old(len <= Contiguous() || |list| == Missing() - r) ==>
        got <= Joined(peer, old(Missing())) && |out| == if len <= old(Contiguous()) then len else old(Contiguous())
      ensures old(len > Contiguous() && |list| > Missing() - r) ==>
        var w := old(Contiguous());
        && |out| > w && old(got) + out[..w] == Joined(peer, old(Missing()))
        && old(idx[Missing() - r] > Missing() && list[Missing() - r] == SegmentOf(peer, idx[Missing() - r]))
        && Within(out[w..], old(list[Missing() - r..]))
      ensures Valid() <==> old(len <= Unread() || |list| == m - r)
      ensures Valid() ==> |out| == if len <= old(Unread()) then len else old(Unread())
    {
      hide PeerOk, Start, Joined, Partial, Flat, Received, ReadTo, RunLength, Within, SegmentOf;
      ghost var l, rp, n := list, readPtr, Missing();
      IsReadable(peer, list, idx, arrived, r, m, readPtr, got);
      RunReceived(peer, list, idx, arrived, r, m, readPtr, got);
      ghost var c;
      out, c := CopyOut(len);
      Outcome(peer, l, idx, arrived, r, n, rp, got, c, readPtr, len, out);
      Outcome(peer, l, idx, arrived, r, m, rp, got, c, readPtr, len, out);
      ReadSplit(peer, l, idx, arrived, r, n, rp, got, c, readPtr, out);
      idx, r, got := idx[c..], r + c, got + out;
    }

    /** How much a reader that stops at the acknowledgement may ask for. */
    method Available() returns (n: nat)
      requires Valid()
      ensures m <= |peer.tiles| && n == Unread()
    {
      hide PeerOk, Received, ReadTo, Start, Joined, Flat;
      IsReadable(peer, list, idx, arrived, r, m, readPtr, got);
      var i := 0;
      n := 0;
      FlatStep(list, 0);
      while i < |list| && list[i].number < ackSeq
        invariant 0 <= i <= m - r && n == |Flat(list, i)|
      {
        AckedPlace(peer, list, idx, arrived, r, m, i);
        FlatStep(list, i);
        n := n + |list[i].data|;
        i := i + 1;
      }
      if i < |list| { AckedPlace(peer, list, idx, arrived, r, m, i); }
      FlatAcked(peer, list, idx, arrived, r, m, i);
      n := n - readPtr;
    }

    /** Any run of arrivals, with duplicates, in any order and with any acknowledgements that could
        not be sent, and of reads that stop at the acknowledgement: the acknowledgement moves as
        said in Progress, a read gets as much as it asked for of what is acknowledged, and the data
        read is always a prefix of the stream.  `acked` lists the acknowledgement at every event. */
    method Run(events: seq<Event>) returns (outs: seq<seq<Byte>>, ghost acked: seq<nat>)
      requires Valid()
      requires forall i :: 0 <= i < |events| && events[i].Arrive? ==> FromPeer(peer, events[i])
      modifies this`list, this`ackSeq, this`readPtr, this`idx, this`arrived, this`r, this`m, this`got
      ensures Valid() && m <= |peer.tiles| && ackSeq == Start(peer, m)
      ensures Seen(arrived, m) == Progress(old(Seen(arrived, m)), events, |peer.tiles|)
      ensures old(Settled(arrived, m)) ==>
        (ackSeq == Start(peer, |peer.tiles|) <==>
          && AcksSuffice(old(arrived), events, |peer.tiles|)
          && forall k: nat :: k < |peer.tiles| ==> k in old(arrived) + Arrivals(events))
      ensures old(Settled(arrived, m)) ==>
        (FirstMissing(arrived, m) <==> AcksSuffice(old(arrived), events, |peer.tiles|))
      ensures !old(Settled(arrived, m)) ==> ackSeq == old(ackSeq)
      ensures |outs| == |acked| == |events| && got == old(got) + Concat(outs) && got <= Joined(peer, m)
      ensures forall i :: 0 <= i < |events| ==>
        acked[i] == Progress(old(Seen(arrived, m)), events[..i], |peer.tiles|).m
      ensures forall i :: 0 <= i < |events| ==>
        ReadOf(peer, events[i], acked[i], |old(got) + Concat(outs[..i])|, |outs[i]|)
    {
      hide PeerOk, Received, ReadTo, Start, Joined, Arrivals, Concat, FirstMissing, ReadOf, Progress, After,
        AcksSuffice;
      ghost var start, n := Seen(arrived, m), |peer.tiles|;
      SeenBounds(peer, list, idx, arrived, r, m);
      outs, acked := [], [];
      NothingYet(events, old(got), start, n);
      for i := 0 to |events|
        invariant Valid() && |outs| == |acked| == i && got == old(got) + Concat(outs)
        invariant Seen(arrived, m) == Progress(start, events[..i], n)
        invariant forall j :: 0 <= j < i ==> acked[j] == Progress(start, events[..j], n).m
        invariant forall j :: 0 <= j < i ==>
          ReadOf(peer, events[j], acked[j], |old(got) + Concat(outs[..j])|, |outs[j]|)
      {
        ghost var was := m;
        var out := Handle(events[i]);
        ProgressStep(start, events, i, n);
        ConcatStep(old(got), outs, out);
        assert forall j :: 0 <= j < i ==> (outs + [out])[..j] == outs[..j];
        assert (outs + [out])[..i] == outs;
        outs, acked := outs + [out], acked + [was];
      }
      assert events[..|events|] == events;
      RunEnds(start, events, Seen(arrived, m));
      GotPrefix(peer, list, idx, arrived, r, m, readPtr, got);
    }

    lemma RunEnds(s: Seen, events: seq<Event>, t: Seen)
      requires Valid() && t == Seen(arrived, m) == Progress(s, events, |peer.tiles|)
      requires s.m !in s.arrived ==> FirstMissing(s.arrived, s.m)
      requires s.m <= |peer.tiles| && Below(s.arrived, |peer.tiles|)
      requires forall i :: 0 <= i < |events| && events[i].Arrive? ==> FromPeer(peer, events[i])
      ensures m <= |peer.tiles|
      ensures s.m !in s.arrived ==>
        (ackSeq == Start(peer, |peer.tiles|) <==>
          && AcksSuffice(s.arrived, events, |peer.tiles|)
          && forall k: nat :: k < |peer.tiles| ==> k in s.arrived + Arrivals(events))
      ensures s.m !in s.arrived ==> (FirstMissing(arrived, m) <==> AcksSuffice(s.arrived, events, |peer.tiles|))
      ensures s.m in s.arrived ==> m == s.m
    {
      hide PeerOk, Received, ReadTo, Start, Joined, Arrivals, Progress, AcksSuffice;
      Bounds(peer, list, idx, arrived, r, m);
      if s.m in s.arrived {
        StaysBehind(s, events, |peer.tiles|);
      } else {
        Reaches(s, events, |peer.tiles|);
        StartOrder(peer, m, |peer.tiles|);
      }
    }

    /** One event. */
    method Handle(e: Event) returns (out: seq<Byte>)
      requires Valid() && (e.Arrive? ==> FromPeer(peer, e))
      modifies this`list, this`ackSeq, this`readPtr, this`idx, this`arrived, this`r, this`m, this`got
      ensures Valid() && got == old(got) + out
      ensures Seen(arrived, m) == After(old(Seen(arrived, m)), e, |peer.tiles|)
      ensures ReadOf(peer, e, old(m), |old(got)|, |out|)
    {
      hide PeerOk, Received, ReadTo, Start, Joined, RunLength, SegmentOf, Within, Acked;
      Bounds(peer, list, idx, arrived, r, m);
      out := [];
      match e {
        case Arrive(segment, k, acks) =>
          SegSort(segment, k, acks);
          Bounds(peer, list, idx, arrived, r, m);
        case Read(len) =>
          var n := Available();
          out := Recv(if len <= n then len else n);
      }
    }
  }

  /** A read of acknowledged data gets what it asks for, as far as there is some. */
  ghost predicate ReadOf(p: Peer, e: Event, m: nat, got: nat, n: nat) {
    && m <= |p.tiles|
    && match e
       case Arrive(_, _, _) => n == 0
       case Read(len) => var left := Start(p, m) - p.base - got; n == if len <= left then len else left
  }

  function Concat(parts: seq<seq<Byte>>): seq<Byte> {
    if parts == [] then [] else Concat(parts[..|parts| - 1]) + parts[|parts| - 1]
  }

  lemma ConcatStep(start: seq<Byte>, parts: seq<seq<Byte>>, x: seq<Byte>)
    ensures start + Concat(parts + [x]) == (start + Concat(parts)) + x
  {
    assert (parts + [x])[..|parts|] == parts;
  }

  lemma NothingYet(events: seq<Event>, got: seq<Byte>, s: Seen, n: nat)
    ensures Progress(s, events[..0], n) == s && got + Concat([]) == got
  {
  }

  lemma SeenBounds(p: Peer, list: seq<Segment>, idx: seq<nat>, arrived: set<nat>, r: nat, m: nat)
    requires Received(p, list, idx, arrived, r, m)
    ensures m <= |p.tiles| && Below(arrived, |p.tiles|) && (m !in arrived ==> FirstMissing(arrived, m))
  {
    forall k: nat | k < m
      ensures k in arrived
    {
      AckedArrived(p, list, idx, arrived, r, m, k);
    }
  }

  /** An acknowledgement that could not be sent: of two segments the second arrives, then the
      first, and the first of the two acknowledgements then due is not sent.  Whatever arrives
      afterwards, the second segment is never acknowledged. */
  lemma LostAcknowledgement(first: Segment, second: Segment, later: seq<Event>)
    ensures var t := Progress(Seen({}, 0), [Arrive(second, 1, 9), Arrive(first, 0, 0)], 2);
      t == Seen({0, 1}, 1) && Progress(t, later, 2).m == 1
  {
    var s, e, f := Seen({}, 0), Arrive(second, 1, 9), Arrive(first, 0, 0);
    assert [e, f][..1] == [e] && [e][..0] == [];
    assert Progress(s, [], 2) == s;
    assert Progress(s, [e], 2) == After(s, e, 2) == Seen({1}, 0);
    assert Gap({1} + {0}, 1, 2) == 2;
    assert Progress(s, [e, f], 2) == After(Seen({1}, 0), f, 2);
    assert {1} + {0} == {0, 1};
    StaysBehind(Seen({0, 1}, 1), later, 2);
  }

  /** Reading behind a gap: of a stream of two bytes the second arrives first, and the application
      gets it as the first. */
  method BehindTheGap(x: Byte, y: Byte) returns (s: Receiver, out: seq<Byte>)
    ensures fresh(s) && s.peer == Peer(0, [[x], [y]]) && out == s.got == [y] && !s.Valid()
    ensures Joined(s.peer, 2) == [x, y]
  {
    hide PeerOk, Start, Joined, Received, ReadTo, RunLength, Within, Flat;
    ghost var p := Peer(0, [[x], [y]]);
    TwoTiles(x, y);
    s := new Receiver(p, 0);
    s.SegSort(Segment(1, [y]), 1, 9);
    assert s.arrived == {1};
    OnlySecond(x, y, s.list, s.idx);
    out := s.Recv(1);
    assert out[0..] == out;
  }

  lemma FirstTwo(idx: seq<nat>)
    requires Increasing(idx)
    ensures |idx| > 1 ==> idx[0] < idx[1]
  {
  }

  lemma OnlySecond(x: Byte, y: Byte, list: seq<Segment>, idx: seq<nat>)
    requires Received(Peer(0, [[x], [y]]), list, idx, {1}, 0, 0)
    ensures idx == [1] && list == [Segment(1, [y])] && RunLength(idx, 0) == 0 && list[0..] == list
    ensures forall bytes :: Within(bytes, list) && |bytes| == 1 ==> bytes == [y]
  {
    TwoTiles(x, y);
    FirstTwo(idx);
    assert 1 in idx && forall i :: 0 <= i < |idx| ==> idx[i] == 1;
    assert list[0] == SegmentOf(Peer(0, [[x], [y]]), 1);
    assert Flat(list, 1) == Flat(list, 0) + [y];
  }

  lemma TwoTiles(x: Byte, y: Byte)
    ensures var p := Peer(0, [[x], [y]]);
      && PeerOk(p) && Start(p, 0) == 0 && Start(p, 1) == 1 && Start(p, 2) == 2
      && Joined(p, 1) == [x] && Joined(p, 2) == [x, y]
  {
    var p := Peer(0, [[x], [y]]);
    assert Start(p, 1) == Start(p, 0) + |p.tiles[0]|;
    assert Start(p, 2) == Start(p, 1) + |p.tiles[1]|;
    assert Joined(p, 1) == Joined(p, 0) + p.tiles[0];
    assert Joined(p, 2) == Joined(p, 1) + p.tiles[1];
  }

  // ---------- reading ----------

  ghost predicate Readable(list: seq<Segment>, readPtr: nat) {
    && (forall i :: 0 <= i < |list| ==> |list[i].data| > 0)
    && if list == [] then readPtr == 0 else readPtr < |list[0].data|
  }

  /** The data of the first `c` segments. */
  function Flat(list: seq<Segment>, c: nat): seq<Byte>
    requires c <= |list|
  {
    if c == 0 then [] else Flat(list, c - 1) + list[c - 1].data
  }

  lemma FlatStep(list: seq<Segment>, c: nat)
    requires c <= |list|
    ensures Flat(list, 0) == []
    ensures c < |list| ==> Flat(list, c + 1) == Flat(list, c) + list[c].data
  {
  }

  lemma CopyWhole(f: seq<Byte>, data: seq<Byte>, readPtr: nat, p: seq<Byte>, out: seq<Byte>)
    requires readPtr < |data| && f + data[..readPtr] == p + out
    ensures f + data == p + (out + data[readPtr..])
  {
    assert data == data[..readPtr] + data[readPtr..];
    assert f + data == (f + data[..readPtr]) + data[readPtr..];
    assert (p + out) + data[readPtr..] == p + (out + data[readPtr..]);
  }

  lemma CopyPart(f: seq<Byte>, data: seq<Byte>, readPtr: nat, p: seq<Byte>, out: seq<Byte>, n: nat)
    requires readPtr + n <= |data| && f + data[..readPtr] == p + out
    ensures f + data[..readPtr + n] == p + (out + data[readPtr..readPtr + n])
  {
    var d := data[..readPtr + n];
    assert d == data[..readPtr] + data[readPtr..readPtr + n];
    assert f + d == (f + data[..readPtr]) + data[readPtr..readPtr + n];
    assert (p + out) + data[readPtr..readPtr + n] == p + (out + data[readPtr..readPtr + n]);
  }

  /** A tile the list would hold is in it just when it arrived. */
  lemma Members(p: Peer, list: seq<Segment>, idx: seq<nat>, arrived: set<nat>, r: nat, m: nat, k: nat)
    requires Received(p, list, idx, arrived, r, m) && m <= k
    ensures Lists(p, list, idx) && (k in arrived <==> k in idx)
  {
  }

  /** All tiles up to the acknowledgement arrived, so the first one missing is not before it. */
  lemma Advanced(p: Peer, list: seq<Segment>, idx: seq<nat>, arrived: set<nat>, r: nat, m0: nat, m: nat)
    requires Received(p, list, idx, arrived, r, m) && m0 <= m
    ensures m <= |p.tiles| && m <= Gap(arrived, m0, |p.tiles|)
    ensures m !in arrived ==> Gap(arrived, m0, |p.tiles|) == m
  {
    hide Received, Gap;
    Bounds(p, list, idx, arrived, r, m);
    forall k: nat | m0 <= k < m
      ensures k in arrived
    {
      AckedArrived(p, list, idx, arrived, r, m, k);
    }
    GapIs(arrived, m0, |p.tiles|, m);
  }

  lemma PlaceOf(p: Peer, list: seq<Segment>, idx: seq<nat>, arrived: set<nat>, r: nat, m: nat, j: nat, k: nat)
    requires Received(p, list, idx, arrived, r, m) && j < |idx| && idx[j] == k >= m
    ensures r <= m && (j == m - r || k > m)
  {
    assert j > m - r ==> idx[m - r] < idx[j];
    assert j > m - r > 0 ==> idx[m - r - 1] < idx[m - r];
  }

  /** A segment inserted behind the acknowledged ones leaves the one being read at the head. */
  lemma ReadSame(p: Peer, list: seq<Segment>, idx: seq<nat>, arrived: set<nat>, r: nat, m: nat, readPtr: nat,
                 got: seq<Byte>, j: nat, segment: Segment)
    requires ReadTo(p, list, r, m, readPtr, got) && m - r <= j <= |list|
    ensures ReadTo(p, Inserted(list, j, segment), r, m, readPtr, got)
  {
    InsertedAt(list, j, segment, 0);
  }

  lemma ReadMore(p: Peer, list: seq<Segment>, r: nat, m: nat, n: nat, readPtr: nat, got: seq<Byte>)
    requires ReadTo(p, list, r, m, readPtr, got) && m <= n <= |p.tiles|
    ensures ReadTo(p, list, r, n, readPtr, got)
  {
  }

  lemma Bounds(p: Peer, list: seq<Segment>, idx: seq<nat>, arrived: set<nat>, r: nat, m: nat)
    requires Received(p, list, idx, arrived, r, m)
    ensures r <= m <= |p.tiles| && m - r <= |list|
  {
  }

  lemma IsReadable(p: Peer, list: seq<Segment>, idx: seq<nat>, arrived: set<nat>, r: nat, m: nat, readPtr: nat,
                   got: seq<Byte>)
    requires PeerOk(p) && Received(p, list, idx, arrived, r, m) && ReadTo(p, list, r, m, readPtr, got)
    ensures Readable(list, readPtr) && r <= m <= |p.tiles| && m - r <= |list| == |idx|
    ensures |got| == Start(p, r) - p.base + readPtr <= Start(p, m) - p.base
  {
    hide PeerOk, Start, Joined;
    Bounds(p, list, idx, arrived, r, m);
    StartUp(p, r, m);
    NonEmpty(p, list, idx);
    if readPtr > 0 {
      assert idx[0] == r + 0;
      StartUp(p, r + 1, m);
      assert Start(p, r + 1) == Start(p, r) + |list[0].data| by { NextStart(p, r); }
    }
  }

  lemma NextStart(p: Peer, k: nat)
    requires k < |p.tiles|
    ensures Start(p, k + 1) == Start(p, k) + |p.tiles[k]|
  {
  }

  lemma NonEmpty(p: Peer, list: seq<Segment>, idx: seq<nat>)
    requires PeerOk(p) && Lists(p, list, idx)
    ensures forall i :: 0 <= i < |list| ==> |list[i].data| > 0
  {
    hide Start;
    forall i | 0 <= i < |list|
      ensures |list[i].data| > 0
    {
      assert list[i] == SegmentOf(p, idx[i]);
    }
  }

  /** The acknowledged segments of the list continue the stream. */
  lemma {:induction false} FlatAcked(p: Peer, list: seq<Segment>, idx: seq<nat>, arrived: set<nat>, r: nat, m: nat,
                                     j: nat)
    requires Received(p, list, idx, arrived, r, m) && j <= m - r
    ensures Joined(p, r) + Flat(list, j) == Joined(p, r + j)
  {
    hide Flat, Joined;
    if j > 0 {
      FlatAcked(p, list, idx, arrived, r, m, j - 1);
      assert idx[j - 1] == r + (j - 1);
      assert list[j - 1].data == p.tiles[r + (j - 1)];
      hide Received;
      FlatStep(list, j - 1);
      JoinedStep(p, r + (j - 1));
      Associate(Joined(p, r), Flat(list, j - 1), list[j - 1].data);
    } else {
      FlatStep(list, 0);
      assert Joined(p, r) + [] == Joined(p, r);
    }
  }

  lemma JoinedStep(p: Peer, k: nat)
    requires k < |p.tiles|
    ensures Joined(p, k + 1) == Joined(p, k) + p.tiles[k]
  {
  }

  lemma {:induction false} FlatGrows(list: seq<Segment>, i: nat, j: nat)
    requires i < j <= |list| && forall h :: 0 <= h < |list| ==> |list[h].data| > 0
    ensures |Flat(list, i)| < |Flat(list, j)|
  {
    if i < j - 1 { FlatGrows(list, i, j - 1); }
  }

  /** How much was used up tells whether the reading stayed within the acknowledged segments. */
  lemma Extent(p: Peer, list: seq<Segment>, idx: seq<nat>, arrived: set<nat>, r: nat, m: nat, c: nat, rp2: nat)
    requires PeerOk(p) && Received(p, list, idx, arrived, r, m) && c <= |list|
    requires Readable(list[c..], rp2) && forall i :: 0 <= i < |list| ==> |list[i].data| > 0
    ensures |Flat(list, c)| + rp2 <= Start(p, m) - Start(p, r) <==> c < m - r || (c == m - r && rp2 == 0)
  {
    hide PeerOk, Joined, Received, Start, Flat;
    Bounds(p, list, idx, arrived, r, m);
    FlatAcked(p, list, idx, arrived, r, m, m - r);
    assert |Flat(list, m - r)| == Start(p, m) - Start(p, r);
    if c < m - r {
      FlatStep(list, c);
      assert list[c..][0] == list[c];
      if c + 1 < m - r { FlatGrows(list, c + 1, m - r); }
    } else if c > m - r {
      FlatGrows(list, m - r, c);
    }
  }

  lemma ReadKeeps(p: Peer, list: seq<Segment>, idx: seq<nat>, arrived: set<nat>, r: nat, m: nat, rp: nat,
                  got: seq<Byte>, c: nat, rp2: nat, out: seq<Byte>)
    requires PeerOk(p) && Received(p, list, idx, arrived, r, m) && ReadTo(p, list, r, m, rp, got) && c <= |list|
    requires Readable(list, rp) && Readable(list[c..], rp2)
    requires Flat(list, c) + Partial(list[c..], rp2) == Partial(list, rp) + out
    requires |out| <= Start(p, m) - p.base - |got|
    ensures c <= m - r && Received(p, list[c..], idx[c..], arrived, r + c, m)
    ensures ReadTo(p, list[c..], r + c, m, rp2, got + out)
  {
    hide PeerOk, Received, Start, Joined, Flat;
    Bounds(p, list, idx, arrived, r, m);
    assert |Flat(list, c) + Partial(list[c..], rp2)| == |Partial(list, rp) + out|;
    Extent(p, list, idx, arrived, r, m, c, rp2);
    FlatAcked(p, list, idx, arrived, r, m, c);
    DropRead(p, list, idx, arrived, r, m, c);
    Regroup(Joined(p, r), Flat(list, c), Partial(list[c..], rp2), Partial(list, rp), out);
  }

  lemma Regroup(j: seq<Byte>, f: seq<Byte>, q: seq<Byte>, part: seq<Byte>, out: seq<Byte>)
    requires f + q == part + out
    ensures (j + part) + out == (j + f) + q
  {
    assert (j + part) + out == j + (part + out);
    assert (j + f) + q == j + (f + q);
  }

  lemma DropRead(p: Peer, list: seq<Segment>, idx: seq<nat>, arrived: set<nat>, r: nat, m: nat, c: nat)
    requires Received(p, list, idx, arrived, r, m) && c <= m - r
    ensures c <= |idx| && Received(p, list[c..], idx[c..], arrived, r + c, m)
  {
    hide SegmentOf;
    var idx2 := idx[c..];
    assert forall i :: 0 <= i < |idx2| ==> idx2[i] == idx[i + c];
    forall k | k in arrived
      ensures k < r + c || k in idx2
    {
      if k in idx && k >= r + c { StillListed(idx, c, r, m, k); }
    }
    forall k: nat | k < r + c
      ensures k in arrived
    {
      AckedArrived(p, list, idx, arrived, r, m, k);
    }
    forall i | 0 <= i < |idx2|
      ensures r + c <= idx2[i]
    {
      assert c > 0 ==> idx[c - 1] == r + (c - 1) && idx[c - 1] < idx[i + c];
    }
    DropLists(p, list, idx, c);
    assert forall i :: 0 <= i < m - (r + c) ==> idx2[i] == r + c + i;
    hide Lists;
  }

  lemma StillListed(idx: seq<nat>, c: nat, r: nat, m: nat, k: nat)
    requires c <= m - r <= |idx| && (forall i :: 0 <= i < m - r ==> idx[i] == r + i) && k in idx && k >= r + c
    ensures k in idx[c..]
  {
    var i :| 0 <= i < |idx| && idx[i] == k;
    assert i >= c;
    assert idx[c..][i - c] == k;
  }

  lemma DropLists(p: Peer, list: seq<Segment>, idx: seq<nat>, c: nat)
    requires Lists(p, list, idx) && c <= |idx|
    ensures Lists(p, list[c..], idx[c..])
  {
    hide SegmentOf;
  }

  /** Reading less than asked for uses up the whole list. */
  lemma ReadEnd(p: Peer, list: seq<Segment>, idx: seq<nat>, arrived: set<nat>, r: nat, m: nat, rp: nat,
                got: seq<Byte>, c: nat, out: seq<Byte>)
    requires Received(p, list, idx, arrived, r, m) && ReadTo(p, list, r, m, rp, got) && c <= m - r && c == |list|
    requires Flat(list, c) == Partial(list, rp) + out
    ensures m - r == |idx| && |out| == Start(p, m) - p.base - |got|
  {
    FlatAcked(p, list, idx, arrived, r, m, c);
    hide Start, Joined, Flat;
    assert |Joined(p, r) + Flat(list, c)| == |Joined(p, m)|;
    assert |Partial(list, rp) + out| == |Flat(list, c)|;
  }

  /** What a reading did to a run of `m - r` segments, whether or not they are acknowledged. */
  lemma Outcome(p: Peer, list: seq<Segment>, idx: seq<nat>, arrived: set<nat>, r: nat, m: nat, rp: nat,
                got: seq<Byte>, c: nat, rp2: nat, len: nat, out: seq<Byte>)
    requires PeerOk(p) && Received(p, list, idx, arrived, r, m) && ReadTo(p, list, r, m, rp, got) && c <= |list|
    requires Readable(list, rp) && Readable(list[c..], rp2)
    requires Flat(list, c) + Partial(list[c..], rp2) == Partial(list, rp) + out
    requires |out| <= len && (|out| < len ==> list[c..] == [] && rp2 == 0)
    ensures m <= |p.tiles| && |list| == |idx|
    ensures var u := Start(p, m) - p.base - |got|;
      if len <= u || |list| == m - r then
        && |out| == (if len <= u then len else u) && c <= m - r <= |idx|
        && Received(p, list[c..], idx[c..], arrived, r + c, m) && ReadTo(p, list[c..], r + c, m, rp2, got + out)
        && got + out <= Joined(p, m)
      else
        && |out| > u && (c > m - r || (c == m - r && rp2 > 0)) && !ReadTo(p, list[c..], r + c, m, rp2, got + out)
  {
    hide PeerOk, Received, Start, Joined, Flat;
    Bounds(p, list, idx, arrived, r, m);
    SameLength(p, list, idx, arrived, r, m);
    IsReadable(p, list, idx, arrived, r, m, rp, got);
    assert |Flat(list, c) + Partial(list[c..], rp2)| == |Partial(list, rp) + out|;
    Extent(p, list, idx, arrived, r, m, c, rp2);
    var u := Start(p, m) - p.base - |got|;
    if |out| <= u {
      ReadKeeps(p, list, idx, arrived, r, m, rp, got, c, rp2, out);
      GotPrefix(p, list[c..], idx[c..], arrived, r + c, m, rp2, got + out);
      if |out| < len {
        assert Flat(list, c) + [] == Flat(list, c);
        ReadEnd(p, list, idx, arrived, r, m, rp, got, c, out);
      }
    }
  }

  /** A reading that goes beyond a run of `m - r` segments goes on with the segments after it. */
  lemma ReadSplit(p: Peer, list: seq<Segment>, idx: seq<nat>, arrived: set<nat>, r: nat, m: nat, rp: nat,
                  got: seq<Byte>, c: nat, rp2: nat, out: seq<Byte>)
    requires PeerOk(p) && Received(p, list, idx, arrived, r, m) && ReadTo(p, list, r, m, rp, got) && c <= |list|
    requires Readable(list, rp) && Readable(list[c..], rp2)
    requires Flat(list, c) + Partial(list[c..], rp2) == Partial(list, rp) + out
    ensures m <= |p.tiles| && m - r <= |list|
    ensures var u := Start(p, m) - p.base - |got|;
      |out| > u >= 0 ==> got + out[..u] == Joined(p, m) && Within(out[u..], list[m - r..])
  {
    hide PeerOk, Received, Start, Flat, Joined;
    Bounds(p, list, idx, arrived, r, m);
    IsReadable(p, list, idx, arrived, r, m, rp, got);
    FlatAcked(p, list, idx, arrived, r, m, m - r);
    var u := Start(p, m) - p.base - |got|;
    if |out| > u {
      var whole := Flat(list, |list|);
      TakenPrefix(list, c, rp2);
      FlatSplit(list, m - r);
      var f, part := Flat(list, m - r), Partial(list, rp);
      assert |f| == |part| + u;
      Sliced(part, out, f, Flat(list[m - r..], |list| - (m - r)), u);
      assert got + out[..u] == Joined(p, r) + (part + out[..u]);
    }
  }

  lemma Sliced(part: seq<Byte>, out: seq<Byte>, f: seq<Byte>, g: seq<Byte>, u: nat)
    requires part + out <= f + g && u <= |out| && |f| == |part| + u
    ensures part + out[..u] == f && out[u..] <= g
  {
    var x := part + out;
    assert x[..|f|] == part + out[..u] && x[|f|..] == out[u..];
    assert (f + g)[..|f|] == f && (f + g)[|f|..] == g;
    assert forall i :: 0 <= i < |x| ==> x[i] == (f + g)[i];
    forall i | 0 <= i < |out[u..]|
      ensures out[u..][i] == g[i]
    {
      assert x[|f| + i] == (f + g)[|f| + i];
    }
  }

  lemma {:induction false} FlatSplit(list: seq<Segment>, n: nat)
    requires n <= |list|
    ensures Flat(list, |list|) == Flat(list, n) + Flat(list[n..], |list| - n)
  {
    FlatSplitAt(list, n, |list|);
  }

  lemma {:induction false} FlatSplitAt(list: seq<Segment>, n: nat, k: nat)
    requires n <= k <= |list|
    ensures Flat(list, k) == Flat(list, n) + Flat(list[n..], k - n)
  {
    hide Flat;
    if k > n {
      FlatSplitAt(list, n, k - 1);
      var rest := list[n..];
      assert rest[k - n - 1] == list[k - 1];
      FlatStep(list, k - 1);
      FlatStep(rest, k - n - 1);
      Associate(Flat(list, n), Flat(rest, k - 1 - n), list[k - 1].data);
    } else {
      FlatStep(list[n..], 0);
      assert Flat(list, n) + [] == Flat(list, n);
    }
  }

  lemma Associate(a: seq<Byte>, b: seq<Byte>, c: seq<Byte>)
    ensures (a + b) + c == a + (b + c)
  {
  }

  lemma TakenPrefix(list: seq<Segment>, c: nat, rp2: nat)
    requires c <= |list| && Readable(list[c..], rp2)
    ensures Flat(list, c) + Partial(list[c..], rp2) <= Flat(list, |list|)
  {
    hide Flat;
    FlatSplit(list, c);
    var rest := list[c..];
    if rp2 > 0 {
      FlatSplit(rest, 1);
      FlatStep(rest, 0);
      assert Flat(rest, 1) == rest[0].data;
      hide Readable;
      PrefixOfMore(Partial(rest, rp2), rest[0].data, Flat(rest[1..], |rest| - 1));
      PrefixAfter(Flat(list, c), Partial(rest, rp2), Flat(rest, |rest|));
    }
  }

  lemma PrefixOfMore(a: seq<Byte>, b: seq<Byte>, c: seq<Byte>)
    requires a <= b
    ensures a <= b + c
  {
  }

  lemma PrefixAfter(a: seq<Byte>, b: seq<Byte>, c: seq<Byte>)
    requires b <= c
    ensures a + b <= a + c
  {
  }

  lemma SameLength(p: Peer, list: seq<Segment>, idx: seq<nat>, arrived: set<nat>, r: nat, m: nat)
    requires Received(p, list, idx, arrived, r, m)
    ensures |list| == |idx| && m - r <= |idx|
  {
  }
}
