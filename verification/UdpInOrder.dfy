/**
 UDP messages over a channel that loses nothing and keeps each session's own order: what is delivered, exactly when.
 */
module UdpInOrder {
  import opened Bytes
  import opened Slots
  import opened Proxy
  import opened Fragment
  import opened UdpPipeline

  /** Every datagram of the run, in the order it was sent. */
  function InOrderWire(counter: U32, subs: seq<Submission>): (r: seq<Bytes>) {
    if subs == [] then []
    else
      var n := |subs| - 1;
      InOrderWire(counter, subs[..n]) + Encoded(PacketsOf(counter, subs, n))
  }

  /** What `receive` returns: data and address. */
  function Pairs(ms: seq<UdpMessage>): (r: seq<(Bytes, Bytes)>)
    ensures |r| == |ms|
  {
    seq(|ms|, i requires 0 <= i < |ms| => (ms[i].data, ms[i].address))
  }

  /** Call `k` was for this session, went out, and its datagrams are ones the peer accepts. */
  predicate Deliverable(counter: U32, subs: seq<Submission>, session: U32, k: nat)
    requires k < |subs|
  {
    subs[k].sessionId == session && PacketsOf(counter, subs, k) != [] && subs[k].address != [] && subs[k].data != []
  }

  /** Which calls those are, by addresses, data and sizes alone. */
  lemma {:induction false} DeliverableBySizes(counter: U32, subs: seq<Submission>, session: U32, k: nat)
    requires k < |subs|
    ensures var sub := subs[k];
            var size := UdpMessage(sub.sessionId, 0, 0, 1, sub.address, sub.data).EncodedSize();
            Deliverable(counter, subs, session, k) <==>
            && sub.sessionId == session && 1 <= |sub.address| <= 2048 && sub.data != []
            && sub.limit.Some? && size <= 4096 && (size <= sub.limit.value || CanSplit(sub))
  {
    hide Planned;
    PlanBySizes(CounterAt(counter, subs[..k]), subs[k]);
  }

  /** The submissions a session should hand up, in order. */
  function Expected(counter: U32, subs: seq<Submission>, session: U32): (r: seq<(Bytes, Bytes)>) {
    if subs == [] then []
    else
      var n := |subs| - 1;
      Expected(counter, subs[..n], session) +
      (if Deliverable(counter, subs, session, n) then [(subs[n].data, subs[n].address)] else [])
  }

  /** The packet id and piece count of the session's latest split message. */
  function LatestKey(counter: U32, subs: seq<Submission>, session: U32): (r: Option<(U16, nat)>) {
    if subs == [] then None
    else
      var n := |subs| - 1;
      if Deliverable(counter, subs, session, n) && Split(counter, subs, n) then Some(Key(PacketsOf(counter, subs, n)))
      else LatestKey(counter, subs[..n], session)
  }

  /** Call `k` is split under the very id and piece count of the session's previous split message. */
  predicate Collides(counter: U32, subs: seq<Submission>, session: U32, k: nat)
    requires k < |subs|
  {
    && Deliverable(counter, subs, session, k)
    && Split(counter, subs, k)
    && LatestKey(counter, subs[..k], session) == Some(Key(PacketsOf(counter, subs, k)))
  }

  /** Between messages the slot is full with the latest split message. */
  predicate SlotIs(s: DefragState, key: Option<(U16, nat)>) {
    match key
    case None => s == EMPTY
    case Some((id, n)) =>
      s.packetId == id && |s.fragments| == n && forall i :: 0 <= i < n ==> s.fragments[i].Some?
  }

  /** The submissions actually handed up. */
  function Kept(counter: U32, subs: seq<Submission>, session: U32): (r: seq<(Bytes, Bytes)>) {
    if subs == [] then []
    else
      var n := |subs| - 1;
      Kept(counter, subs[..n], session) +
      (if Deliverable(counter, subs, session, n) && !Collides(counter, subs, session, n)
       then [(subs[n].data, subs[n].address)] else [])
  }

  lemma {:induction false} IncomingAppends(session: U32, a: seq<Bytes>, b: seq<Bytes>)
    ensures Incoming(session, a + b) == Incoming(session, a) + Incoming(session, b)
    decreases |b|
  {
    hide Incoming;
    if b == [] {
      assert a + b == a;
      IncomingNothing(session);
    } else {
      var n := |b| - 1;
      IncomingAppends(session, a, b[..n]);
      assert a + b == (a + b[..n]) + [b[n]] && b == b[..n] + [b[n]];
      IncomingSteps(session, a + b[..n], b[n]);
      IncomingSteps(session, b[..n], b[n]);
    }
  }

  lemma {:induction false} IncomingNothing(session: U32)
    ensures Incoming(session, []) == []
  {
  }

  lemma {:induction false} IncomingSteps(session: U32, wires: seq<Bytes>, w: Bytes)
    ensures Incoming(session, wires + [w]) == Incoming(session, wires) + Brings(session, w)
  {
    hide DecodeUdp;
    assert (wires + [w])[..|wires|] == wires;
  }

  // ----- other sessions do not matter -----

  /** The datagram carries the session's id, whether or not the rest of it decodes. */
  predicate IsFor(session: U32, w: Bytes) {
    |w| >= 4 && FromBigEndian(w[..4]) == session
  }

  /** The session's own datagrams, in the order they arrive. */
  function Own(session: U32, wires: seq<Bytes>): (r: seq<Bytes>) {
    if wires == [] then []
    else
      var n := |wires| - 1;
      Own(session, wires[..n]) + (if IsFor(session, wires[n]) then [wires[n]] else [])
  }

  lemma {:induction false} ForeignBringsNothing(session: U32, w: Bytes)
    requires !IsFor(session, w)
    ensures Brings(session, w) == []
  {
    if DecodeUdp(w).Ok? { assert w[..8][..4] == w[..4]; }
  }

  /** What reaches a session depends only on its own datagrams. */
  lemma {:induction false} IncomingOfOwn(session: U32, wires: seq<Bytes>)
    ensures Incoming(session, wires) == Incoming(session, Own(session, wires))
  {
    hide Incoming, IsFor, Brings;
    if wires != [] {
      var n := |wires| - 1;
      IncomingOfOwn(session, wires[..n]);
      assert wires == wires[..n] + [wires[n]];
      IncomingSteps(session, wires[..n], wires[n]);
      IncomingSteps(session, Own(session, wires[..n]), wires[n]);
      if !IsFor(session, wires[n]) {
        ForeignBringsNothing(session, wires[n]);
        assert Own(session, wires) == Own(session, wires[..n]);
      }
    }
  }

  /** The channel lost, repeated and reordered none of the session's own datagrams, whatever it did to the others. */
  predicate KeepsOrder(counter: U32, subs: seq<Submission>, session: U32, wires: seq<Bytes>) {
    Own(session, wires) == Own(session, InOrderWire(counter, subs))
  }

  lemma {:induction false} IncomingOfForeign(session: U32, ps: seq<UdpMessage>)
    requires forall p :: p in ps ==> |p.address| <= MAX_MESSAGE_LENGTH
    requires forall p :: p in ps ==> p.sessionId != session || p.address == [] || p.data == []
    ensures Incoming(session, Encoded(ps)) == []
    decreases |ps|
  {
    hide DecodeUdp, EncodeUdp;
    if ps != [] {
      var n := |ps| - 1;
      IncomingOfForeign(session, ps[..n]);
      assert Encoded(ps)[..n] == Encoded(ps[..n]);
      UdpRoundTrip(ps[n]);
    }
  }

  /** A call's datagrams reach the session whole or not at all. */
  lemma {:induction false} IncomingOfCall(counter: U32, subs: seq<Submission>, session: U32, k: nat)
    requires k < |subs|
    ensures Incoming(session, Encoded(PacketsOf(counter, subs, k))) ==
            if Deliverable(counter, subs, session, k) then PacketsOf(counter, subs, k) else []
  {
    PlanShape(CounterAt(counter, subs[..k]), subs[k]);
    var ps := PacketsOf(counter, subs, k);
    assert forall p :: p in ps ==> p.sessionId == subs[k].sessionId && p.address == subs[k].address;
    assert forall p :: p in ps ==> (p.data == [] <==> subs[k].data == []) by {
      SplitMeansData(counter, subs, k);
    }
    if Deliverable(counter, subs, session, k) {
      IncomingOfPacked(session, ps);
    } else {
      IncomingOfForeign(session, ps);
    }
  }

  lemma {:induction false} SplitMeansData(counter: U32, subs: seq<Submission>, k: nat)
    requires k < |subs|
    ensures forall p :: p in PacketsOf(counter, subs, k) ==> (p.data == [] <==> subs[k].data == [])
  {
    PlanShape(CounterAt(counter, subs[..k]), subs[k]);
    var ps := PacketsOf(counter, subs, k);
    if |ps| >= 2 {
      assert Concat(Payloads(ps)) == ps[0].data + Concat(Payloads(ps)[1..]);
    }
  }

  lemma {:induction false} HandedUpPrefix(s: DefragState, ms: seq<UdpMessage>, n: nat, j: nat)
    requires j < n <= |ms|
    ensures HandedUp(s, ms[..n], j) == HandedUp(s, ms, j)
  {
    assert ms[..n][..j] == ms[..j];
  }

  lemma {:induction false} QuietRun(s: DefragState, ms: seq<UdpMessage>)
    requires forall j :: 0 <= j < |ms| ==> HandedUp(s, ms, j) == None
    ensures Emitted(s, ms) == []
    decreases |ms|
  {
    if ms != [] {
      var n := |ms| - 1;
      forall j | 0 <= j < n ensures HandedUp(s, ms[..n], j) == None {
        HandedUpPrefix(s, ms, n, j);
      }
      QuietRun(s, ms[..n]);
      assert HandedUp(s, ms, n) == None;
    }
  }

  function Ascending(n: nat): (r: seq<nat>)
    ensures |r| == n && forall i :: 0 <= i < n ==> r[i] == i
  {
    seq(n, i => i)
  }

  lemma {:induction false} AscendingSeen(n: nat, j: nat)
    requires j <= n
    ensures Seen(Ascending(n)[..j]) == Indices(j)
    ensures j < n ==> Indices(j) != Indices(n)
  {
    var prefix := Ascending(n)[..j];
    forall i: nat ensures i in prefix <==> i < j {
      if i < j { assert prefix[i] == i; }
    }
    if j < n { assert j in Indices(n) && j !in Indices(j); }
  }

  /** In order, only the last piece hands something up. */
  lemma {:induction false} InOrderHandsUp(s: DefragState, m: UdpMessage, pieces: seq<UdpMessage>, j: nat)
    requires IsFragmentationOf(pieces, m) && !Reserved(s, m.packetId, |pieces|) && j < |pieces|
    ensures HandedUp(s, pieces, j) == if j == |pieces| - 1 then Some(Whole(m)) else None
  {
    hide IsFragmentationOf, HandedUp, Reserved, Whole, Seen, Indices, Ascending;
    var n := |pieces|;
    var order := Ascending(n);
    assert Arrivals(pieces, order) == pieces;
    AnyOrderReassembles(s, m, pieces, order, j);
    AscendingSeen(n, j);
    AscendingSeen(n, j + 1);
  }

  /** A whole message in order gives one result. */
  lemma {:induction false} InOrderEmits(s: DefragState, m: UdpMessage, pieces: seq<UdpMessage>)
    requires IsFragmentationOf(pieces, m) && !Reserved(s, m.packetId, |pieces|)
    ensures Emitted(s, pieces) == [Whole(m)]
  {
    hide IsFragmentationOf, Emitted, HandedUp, Reserved, Whole;
    PieceCount(pieces, m);
    var n := |pieces|;
    var quiet := pieces[..n - 1];
    forall j | 0 <= j < n - 1 ensures HandedUp(s, quiet, j) == None {
      HandedUpPrefix(s, pieces, n - 1, j);
      InOrderHandsUp(s, m, pieces, j);
    }
    QuietRun(s, quiet);
    InOrderHandsUp(s, m, pieces, n - 1);
    LastHandsUp(s, pieces, Whole(m));
  }

  /** And leaves the slot full of it. */
  lemma {:induction false} InOrderFills(s: DefragState, m: UdpMessage, pieces: seq<UdpMessage>)
    requires IsFragmentationOf(pieces, m) && !Reserved(s, m.packetId, |pieces|)
    ensures SlotIs(FeedAll(s, pieces), Some((m.packetId, |pieces|)))
  {
    hide IsFragmentationOf, FeedAll, Reserved, Numbered, Holding, SlotIs, Seen;
    PieceCount(pieces, m);
    FragmentationIsNumbered(pieces, m);
    var n := |pieces|;
    var order := Ascending(n);
    assert Arrivals(pieces, order) == pieces && order[..n] == order;
    HoldsWhatArrived(s, pieces, order);
    AscendingSeen(n, n);
    HoldingAllIsFull(FeedAll(s, pieces), pieces);
  }

  lemma {:induction false} InOrderMessage(s: DefragState, m: UdpMessage, pieces: seq<UdpMessage>)
    requires IsFragmentationOf(pieces, m) && !Reserved(s, m.packetId, |pieces|)
    ensures Emitted(s, pieces) == [Whole(m)]
    ensures SlotIs(FeedAll(s, pieces), Some((m.packetId, |pieces|)))
  {
    hide *;
    InOrderEmits(s, m, pieces);
    InOrderFills(s, m, pieces);
  }

  lemma {:induction false} LastHandsUp(s: DefragState, ms: seq<UdpMessage>, whole: UdpMessage)
    requires ms != [] && Emitted(s, ms[..|ms| - 1]) == []
    requires HandedUp(s, ms, |ms| - 1) == Some(whole)
    ensures Emitted(s, ms) == [whole]
  {
  }

  lemma {:induction false} HoldingAllIsFull(s: DefragState, pieces: seq<UdpMessage>)
    requires Holding(s, pieces, Indices(|pieces|))
    ensures SlotIs(s, Some((pieces[0].packetId, |pieces|)))
  {
    forall i | 0 <= i < |pieces| ensures s.fragments[i].Some? {
      assert i in Indices(|pieces|);
    }
  }

  lemma {:induction false} PieceCount(pieces: seq<UdpMessage>, m: UdpMessage)
    requires IsFragmentationOf(pieces, m)
    ensures |pieces| >= 2 && pieces[0].packetId == m.packetId
  {
  }

  /** Pieces under the key of a full slot are all taken for duplicates. */
  lemma {:induction false} FullSlotIgnores(s: DefragState, ps: seq<UdpMessage>, id: U16, n: nat)
    requires SlotIs(s, Some((id, n)))
    requires forall p :: p in ps ==> p.packetId == id && p.fragmentCount == n && p.fragmentId < n && n >= 2
    ensures FeedAll(s, ps) == s && Emitted(s, ps) == []
    decreases |ps|
  {
    if ps != [] {
      var k := |ps| - 1;
      FullSlotIgnores(s, ps[..k], id, n);
      assert ps[k] in ps;
    }
  }

  /** One deliverable call, from its first datagram to its last. */
  lemma {:induction false} InOrderCall(counter: U32, subs: seq<Submission>, session: U32, s: DefragState, k: nat)
    requires k < |subs| && Deliverable(counter, subs, session, k)
    requires SlotIs(s, LatestKey(counter, subs[..k], session))
    ensures var ps := PacketsOf(counter, subs, k);
            && SlotIs(FeedAll(s, ps),
                      if Split(counter, subs, k) then Some(Key(ps)) else LatestKey(counter, subs[..k], session))
            && Pairs(Emitted(s, ps)) ==
               if Collides(counter, subs, session, k) then [] else [(subs[k].data, subs[k].address)]
  {
    hide IsFragmentationOf, Feed, Planned, LatestKey;
    PlanShape(CounterAt(counter, subs[..k]), subs[k]);
    var ps := PacketsOf(counter, subs, k);
    if |ps| == 1 {
      SingleIsWhole(ps, counter, subs, k);
      SinglePassesThrough(s, ps[0]);
    } else {
      var m := subs[k].Message().(packetId := NextId(CounterAt(counter, subs[..k])).0);
      SplitFields(ps, m);
      if Collides(counter, subs, session, k) {
        FullSlotIgnores(s, ps, m.packetId, |ps|);
      } else {
        NotReserved(s, LatestKey(counter, subs[..k], session), m.packetId, |ps|);
        InOrderMessage(s, m, ps);
      }
    }
  }

  lemma {:induction false} SinglePassesThrough(s: DefragState, m: UdpMessage)
    requires m.fragmentCount <= 1
    ensures FeedAll(s, [m]) == s && Emitted(s, [m]) == [m]
  {
    FeedOne(s, m);
  }

  lemma {:induction false} SplitFields(ps: seq<UdpMessage>, m: UdpMessage)
    requires IsFragmentationOf(ps, m)
    ensures 2 <= |ps| && ps[0].packetId == m.packetId
    ensures forall p :: p in ps ==> p.packetId == m.packetId && p.fragmentCount == |ps| && p.fragmentId < |ps|
  {
  }

  lemma {:induction false} NotReserved(s: DefragState, key: Option<(U16, nat)>, id: U16, n: nat)
    requires SlotIs(s, key) && key != Some((id, n)) && n >= 2
    ensures !Reserved(s, id, n)
  {
  }

  lemma {:induction false} PrefixRun(counter: U32, subs: seq<Submission>, session: U32, n: nat, k: nat)
    requires k < n <= |subs|
    ensures subs[..n][..k] == subs[..k]
    ensures PacketsOf(counter, subs[..n], k) == PacketsOf(counter, subs, k)
    ensures Deliverable(counter, subs[..n], session, k) == Deliverable(counter, subs, session, k)
    ensures Split(counter, subs[..n], k) == Split(counter, subs, k)
    ensures Collides(counter, subs[..n], session, k) == Collides(counter, subs, session, k)
  {
    assert subs[..n][..k] == subs[..k];
  }

  /** The run over a loss-free, in-order channel: exactly the calls that do not collide are handed up. */
  lemma {:induction false} InOrderRun(counter: U32, subs: seq<Submission>, session: U32)
    ensures var ms := Incoming(session, InOrderWire(counter, subs));
            && SlotIs(FeedAll(EMPTY, ms), LatestKey(counter, subs, session))
            && Pairs(Emitted(EMPTY, ms)) == Kept(counter, subs, session)
    decreases |subs|
  {
    hide *;
    if subs == [] {
      NothingSent(counter, session);
    } else {
      var n := |subs| - 1;
      InOrderRun(counter, subs[..n], session);
      NextCall(counter, subs, session, Incoming(session, InOrderWire(counter, subs[..n])));
    }
  }

  lemma {:induction false} NothingSent(counter: U32, session: U32)
    ensures var ms := Incoming(session, InOrderWire(counter, []));
            && SlotIs(FeedAll(EMPTY, ms), LatestKey(counter, [], session))
            && Pairs(Emitted(EMPTY, ms)) == Kept(counter, [], session)
  {
  }

  lemma {:induction false} NextCall(counter: U32, subs: seq<Submission>, session: U32, ms: seq<UdpMessage>)
    requires subs != [] && ms == Incoming(session, InOrderWire(counter, subs[..|subs| - 1]))
    requires SlotIs(FeedAll(EMPTY, ms), LatestKey(counter, subs[..|subs| - 1], session))
    requires Pairs(Emitted(EMPTY, ms)) == Kept(counter, subs[..|subs| - 1], session)
    ensures var after := Incoming(session, InOrderWire(counter, subs));
            && SlotIs(FeedAll(EMPTY, after), LatestKey(counter, subs, session))
            && Pairs(Emitted(EMPTY, after)) == Kept(counter, subs, session)
  {
    hide Collides, Deliverable, Split, SlotIs, PacketsOf, Feed, FeedAll, Emitted, Encoded, Incoming;
    var n := |subs| - 1;
    var ps := PacketsOf(counter, subs, n);
    IncomingAppends(session, InOrderWire(counter, subs[..n]), Encoded(ps));
    IncomingOfCall(counter, subs, session, n);
    if Deliverable(counter, subs, session, n) {
      RunsCompose(EMPTY, ms, ps);
      InOrderCall(counter, subs, session, FeedAll(EMPTY, ms), n);
      PairsAppend(Emitted(EMPTY, ms), Emitted(FeedAll(EMPTY, ms), ps));
    } else {
      assert ms + [] == ms;
    }
  }

  lemma {:induction false} PairsAppend(a: seq<UdpMessage>, b: seq<UdpMessage>)
    ensures Pairs(a + b) == Pairs(a) + Pairs(b)
  {
  }

  lemma {:induction false} CollisionsLose(counter: U32, subs: seq<Submission>, session: U32)
    ensures |Kept(counter, subs, session)| <= |Expected(counter, subs, session)|
    ensures if exists k :: 0 <= k < |subs| && Collides(counter, subs, session, k)
            then |Kept(counter, subs, session)| < |Expected(counter, subs, session)|
            else Kept(counter, subs, session) == Expected(counter, subs, session)
    decreases |subs|
  {
    hide Split, LatestKey, PacketsOf;
    if subs != [] {
      var n := |subs| - 1;
      CollisionsLose(counter, subs[..n], session);
      forall k | 0 <= k < n
        ensures Collides(counter, subs[..n], session, k) == Collides(counter, subs, session, k)
      {
        PrefixRun(counter, subs, session, n, k);
      }
    }
  }

  /**
   Over a channel that keeps the session's own order, however it interleaves the others, a session hands up exactly
   what was sent to it, in order, if and only if no split message repeats the packet id and piece count of the
   session's previous split message.
   */
  lemma {:induction false} InOrderDeliversExactlyWhen(
    counter: U32, subs: seq<Submission>, session: U32, wires: seq<Bytes>)
    requires KeepsOrder(counter, subs, session, wires)
    ensures Pairs(Received(session, wires)) == Expected(counter, subs, session) <==>
            !exists k :: 0 <= k < |subs| && Collides(counter, subs, session, k)
  {
    hide Own, Collides, InOrderWire, Kept, Expected, Incoming, Pairs, Emitted;
    IncomingOfOwn(session, wires);
    IncomingOfOwn(session, InOrderWire(counter, subs));
    InOrderRun(counter, subs, session);
    CollisionsLose(counter, subs, session);
  }

  lemma {:induction false} LatestKeyHasSource(counter: U32, subs: seq<Submission>, session: U32)
    requires LatestKey(counter, subs, session).Some?
    ensures exists j :: 0 <= j < |subs| && subs[j].sessionId == session && Split(counter, subs, j)
                        && Key(PacketsOf(counter, subs, j)) == LatestKey(counter, subs, session).value
    decreases |subs|
  {
    var n := |subs| - 1;
    if !(Deliverable(counter, subs, session, n) && Split(counter, subs, n)) {
      LatestKeyHasSource(counter, subs[..n], session);
      var j :| 0 <= j < n && subs[..n][j].sessionId == session && Split(counter, subs[..n], j)
               && Key(PacketsOf(counter, subs[..n], j)) == LatestKey(counter, subs[..n], session).value;
      PrefixRun(counter, subs, session, n, j);
    }
  }

  lemma {:induction false} DistinctKeysDoNotCollide(counter: U32, subs: seq<Submission>, session: U32, k: nat)
    requires SessionKeysDistinct(counter, subs, session) && k < |subs|
    ensures !Collides(counter, subs, session, k)
  {
    hide LatestKey, PacketsOf;
    if Collides(counter, subs, session, k) {
      LatestKeyHasSource(counter, subs[..k], session);
      var j :| 0 <= j < k && subs[..k][j].sessionId == session && Split(counter, subs[..k], j)
               && Key(PacketsOf(counter, subs[..k], j)) == LatestKey(counter, subs[..k], session).value;
      PrefixRun(counter, subs, session, k, j);
    }
  }

  /** So any run of at most 65535 calls is delivered exactly, for every session whose order is kept. */
  lemma {:induction false} ShortRunsDeliverExactly(counter: U32, subs: seq<Submission>, session: U32, wires: seq<Bytes>)
    requires |subs| <= ID_PERIOD && KeepsOrder(counter, subs, session, wires)
    ensures Pairs(Received(session, wires)) == Expected(counter, subs, session)
  {
    hide *;
    ShortRunsHaveDistinctIds(counter, subs, session);
    forall k | 0 <= k < |subs| ensures !Collides(counter, subs, session, k) {
      DistinctKeysDoNotCollide(counter, subs, session, k);
    }
    InOrderDeliversExactlyWhen(counter, subs, session, wires);
  }
}
