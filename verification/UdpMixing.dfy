/**
 UDP messages over any channel: it may lose, reorder and repeat datagrams, and only has to deliver what was put on the
 wire. What a session then hands up, and exactly when all of it was submitted.
 */
module UdpMixing {
  import opened Bytes
  import opened Slots
  import opened Proxy
  import opened Fragment
  import opened UdpPipeline

  /** This datagram was submitted for this session. */
  ghost predicate Submitted(subs: seq<Submission>, session: U32, data: Bytes, address: Bytes) {
    exists k :: 0 <= k < |subs| && subs[k].sessionId == session && subs[k].data == data && subs[k].address == address
  }

  /** Call `k` of the session was split under this packet id and piece count, into datagrams the peer accepts. */
  predicate SplitUnder(counter: U32, subs: seq<Submission>, session: U32, key: (U16, nat), k: nat) {
    && k < |subs| && subs[k].sessionId == session && subs[k].address != []
    && Split(counter, subs, k) && Key(PacketsOf(counter, subs, k)) == key
  }

  /** For every index a call to take that piece from, all split under one key. */
  predicate IsMix(counter: U32, subs: seq<Submission>, session: U32, key: (U16, nat), calls: seq<nat>) {
    && calls != [] && |calls| == key.1
    && forall i :: 0 <= i < |calls| ==> SplitUnder(counter, subs, session, key, calls[i])
  }

  function MixedPieces(
    counter: U32, subs: seq<Submission>, session: U32, key: (U16, nat), calls: seq<nat>): (r: seq<UdpMessage>)
    requires IsMix(counter, subs, session, key, calls)
    ensures |r| == |calls|
  {
    seq(|calls|, i requires 0 <= i < |calls| =>
      assert SplitUnder(counter, subs, session, key, calls[i]);
      PacketsOf(counter, subs, calls[i])[i])
  }

  /** The data of the pieces the mix takes. */
  function MixedData(counter: U32, subs: seq<Submission>, session: U32, key: (U16, nat), calls: seq<nat>): (r: Bytes)
    requires IsMix(counter, subs, session, key, calls)
  {
    Concat(Payloads(MixedPieces(counter, subs, session, key, calls)))
  }

  /** Every mix, with the address of any of its calls, is itself a submission of the session. */
  ghost predicate MixesAreSubmitted(counter: U32, subs: seq<Submission>, session: U32) {
    forall key, calls, last: nat :: IsMix(counter, subs, session, key, calls) && last < |calls| ==>
      SplitUnder(counter, subs, session, key, calls[last]) &&
      Submitted(subs, session, MixedData(counter, subs, session, key, calls), subs[calls[last]].address)
  }

  /** Whatever the channel does, everything the session hands up was submitted for it. */
  ghost predicate SafeOverEveryChannel(counter: U32, subs: seq<Submission>, session: U32) {
    forall wires :: (forall i :: 0 <= i < |wires| ==> OnTheWire(counter, subs, wires[i])) ==>
      forall m :: m in Received(session, wires) ==> Submitted(subs, session, m.data, m.address)
  }

  lemma {:induction false} SplitPieces(counter: U32, subs: seq<Submission>, session: U32, key: (U16, nat), k: nat)
    requires SplitUnder(counter, subs, session, key, k)
    ensures var ps := PacketsOf(counter, subs, k);
            && Numbered(ps) && Key(ps) == key && Concat(Payloads(ps)) == subs[k].data
            && forall p :: p in ps ==> p.sessionId == session && p.address == subs[k].address && p.data != []
                                       && |p.address| <= MAX_MESSAGE_LENGTH
  {
    var before := CounterAt(counter, subs[..k]);
    PlanShape(before, subs[k]);
    FragmentationIsNumbered(PacketsOf(counter, subs, k), subs[k].Message().(packetId := NextId(before).0));
  }

  lemma {:induction false} MixIsNumbered(
    counter: U32, subs: seq<Submission>, session: U32, key: (U16, nat), calls: seq<nat>)
    requires IsMix(counter, subs, session, key, calls)
    ensures var pieces := MixedPieces(counter, subs, session, key, calls);
            && Numbered(pieces) && Key(pieces) == key
            && forall i :: 0 <= i < |pieces| ==>
                 && pieces[i].sessionId == session
                 && calls[i] < |subs| && pieces[i].address == subs[calls[i]].address != []
                 && pieces[i].data != [] && |pieces[i].address| <= MAX_MESSAGE_LENGTH
  {
    hide SplitUnder, PacketsOf, Key;
    var pieces := MixedPieces(counter, subs, session, key, calls);
    forall i | 0 <= i < |pieces|
      ensures && pieces[i].sessionId == session
              && calls[i] < |subs| && pieces[i].address == subs[calls[i]].address != []
              && pieces[i].data != [] && |pieces[i].address| <= MAX_MESSAGE_LENGTH
      ensures pieces[i].fragmentId == i && pieces[i].fragmentCount == |pieces| && pieces[i].packetId == key.0
      ensures 2 <= |pieces| <= 255
    {
      MixPiece(counter, subs, session, key, calls, i);
    }
    assert pieces[0].packetId == key.0;
    KeyIs(pieces, key);
  }

  lemma {:induction false} KeyIs(pieces: seq<UdpMessage>, key: (U16, nat))
    requires pieces != [] && pieces[0].packetId == key.0 && |pieces| == key.1
    ensures Key(pieces) == key
  {
  }

  lemma {:induction false} MixPiece(
    counter: U32, subs: seq<Submission>, session: U32, key: (U16, nat), calls: seq<nat>, i: nat)
    requires IsMix(counter, subs, session, key, calls) && i < |calls|
    ensures var p := MixedPieces(counter, subs, session, key, calls)[i];
            && p.sessionId == session && calls[i] < |subs| && p.address == subs[calls[i]].address != []
            && p.data != [] && |p.address| <= MAX_MESSAGE_LENGTH
            && p.fragmentId == i && p.fragmentCount == |calls| && p.packetId == key.0 && 2 <= |calls| <= 255
  {
    hide PacketsOf, Split;
    var ps := PacketsOf(counter, subs, calls[i]);
    SplitPieces(counter, subs, session, key, calls[i]);
    assert ps[i] in ps;
  }

  // ----- nothing but mixes is handed up -----

  /** Every filled slot holds a piece of that number, of a call split under the slot's key. */
  ghost predicate HoldsMix(counter: U32, subs: seq<Submission>, session: U32, s: DefragState, calls: seq<nat>) {
    && |calls| == |s.fragments| >= 2
    && s.received == |Filled(s.fragments)|
    && forall i :: 0 <= i < |calls| && s.fragments[i].Some? ==> HeldFrom(counter, subs, session, s, i, calls[i])
  }

  predicate HeldFrom(counter: U32, subs: seq<Submission>, session: U32, s: DefragState, i: nat, k: nat)
    requires i < |s.fragments|
  {
    && SplitUnder(counter, subs, session, (s.packetId, |s.fragments|), k)
    && s.fragments[i] == Some(PacketsOf(counter, subs, k)[i])
  }

  ghost predicate Mixed(counter: U32, subs: seq<Submission>, session: U32, s: DefragState) {
    s == EMPTY || exists calls :: HoldsMix(counter, subs, session, s, calls)
  }

  /** A first piece makes the slot its own. */
  lemma {:induction false} FeedFreshMix(
    counter: U32, subs: seq<Submission>, session: U32, s: DefragState, k: nat, i: nat)
    requires k < |subs| && Split(counter, subs, k) && i < |PacketsOf(counter, subs, k)|
    requires SplitUnder(counter, subs, session, Key(PacketsOf(counter, subs, k)), k)
    requires !Reserved(s, PacketsOf(counter, subs, k)[0].packetId, |PacketsOf(counter, subs, k)|)
    ensures var r := Feed(s, PacketsOf(counter, subs, k)[i]);
            r.1 == None && Mixed(counter, subs, session, r.0)
  {
    hide PacketsOf, SplitUnder, Split;
    var ps := PacketsOf(counter, subs, k);
    SplitPieces(counter, subs, session, Key(ps), k);
    VacantIsEmpty<UdpMessage>(|ps|);
    SlotFills(Vacant<UdpMessage>(|ps|), i, ps[i]);
    var calls := seq(|ps|, _ => k);
    assert HoldsMix(counter, subs, session, Feed(s, ps[i]).0, calls);
  }

  /** A further piece joins the mix, and the one that fills it hands up exactly the mix. */
  lemma {:induction false} FeedMix(
    counter: U32, subs: seq<Submission>, session: U32, s: DefragState, calls: seq<nat>, k: nat, i: nat)
    requires MixesAreSubmitted(counter, subs, session)
    requires k < |subs| && Split(counter, subs, k) && i < |PacketsOf(counter, subs, k)|
    requires SplitUnder(counter, subs, session, Key(PacketsOf(counter, subs, k)), k)
    requires Reserved(s, PacketsOf(counter, subs, k)[0].packetId, |PacketsOf(counter, subs, k)|)
    requires HoldsMix(counter, subs, session, s, calls)
    ensures var r := Feed(s, PacketsOf(counter, subs, k)[i]);
            && Mixed(counter, subs, session, r.0)
            && (r.1.Some? ==> Submitted(subs, session, r.1.value.data, r.1.value.address))
  {
    hide PacketsOf, SplitUnder, Split, Submitted, MixesAreSubmitted;
    var ps := PacketsOf(counter, subs, k);
    var key := (s.packetId, |s.fragments|);
    assert Key(ps) == key;
    SplitPieces(counter, subs, session, key, k);
    if s.fragments[i].Some? {
      assert Feed(s, ps[i]) == (s, None);
    } else {
      SlotFills(s.fragments, i, ps[i]);
      var after, more := Feed(s, ps[i]).0, calls[i := k];
      forall j | 0 <= j < |more| && after.fragments[j].Some?
        ensures HeldFrom(counter, subs, session, after, j, more[j])
      {
        if j != i { assert HeldFrom(counter, subs, session, s, j, calls[j]); }
      }
      assert HoldsMix(counter, subs, session, after, more);
      if after.received == |after.fragments| {
        FullMix(counter, subs, session, after, more, i);
        assert ps[i] in ps;
      }
    }
  }

  lemma {:induction false} FullMix(
    counter: U32, subs: seq<Submission>, session: U32, s: DefragState, calls: seq<nat>, last: nat)
    requires MixesAreSubmitted(counter, subs, session)
    requires HoldsMix(counter, subs, session, s, calls) && s.received == |s.fragments| && last < |calls|
    ensures calls[last] < |subs| && Submitted(subs, session, Joined(DataOf(s.fragments)), subs[calls[last]].address)
  {
    hide PacketsOf, SplitUnder, Submitted, Joined, DataOf;
    var key := (s.packetId, |s.fragments|);
    FullSlots(s.fragments);
    forall i | 0 <= i < |calls| ensures SplitUnder(counter, subs, session, key, calls[i]) {
      assert HeldFrom(counter, subs, session, s, i, calls[i]);
    }
    assert IsMix(counter, subs, session, key, calls);
    var pieces := MixedPieces(counter, subs, session, key, calls);
    forall i | 0 <= i < |pieces| ensures s.fragments[i] == Some(pieces[i]) {
      assert HeldFrom(counter, subs, session, s, i, calls[i]);
    }
    FullSlotsRejoin(s.fragments, pieces);
    assert MixedData(counter, subs, session, key, calls) == Joined(DataOf(s.fragments));
    SplitUnderIsCall(counter, subs, session, key, calls[last]);
  }

  lemma {:induction false} SplitUnderIsCall(counter: U32, subs: seq<Submission>, session: U32, key: (U16, nat), k: nat)
    requires SplitUnder(counter, subs, session, key, k)
    ensures k < |subs|
  {
  }

  /** One genuine arrival keeps the slot a mix and hands up only what was submitted. */
  lemma {:induction false} FeedStaysMixed(
    counter: U32, subs: seq<Submission>, session: U32, s: DefragState, m: UdpMessage)
    requires MixesAreSubmitted(counter, subs, session)
    requires Mixed(counter, subs, session, s) && Genuine(counter, subs, session, m)
    ensures Mixed(counter, subs, session, Feed(s, m).0)
    ensures Feed(s, m).1.Some? ==> Submitted(subs, session, Feed(s, m).1.value.data, Feed(s, m).1.value.address)
  {
    hide MixesAreSubmitted, Planned, IsFragmentationOf, HoldsMix;
    var k :| 0 <= k < |subs| && subs[k].sessionId == session && m in PacketsOf(counter, subs, k);
    var ps := PacketsOf(counter, subs, k);
    var i :| 0 <= i < |ps| && m == ps[i];
    PlanShape(CounterAt(counter, subs[..k]), subs[k]);
    if |ps| == 1 {
      SingleIsWhole(ps, counter, subs, k);
      assert Feed(s, m) == (s, Some(m));
      assert subs[k].data == m.data && subs[k].address == m.address;
    } else {
      AddressOfPiece(counter, subs, k, i);
      FeedSplit(counter, subs, session, s, k, i);
    }
  }

  lemma {:induction false} AddressOfPiece(counter: U32, subs: seq<Submission>, k: nat, i: nat)
    requires k < |subs| && i < |PacketsOf(counter, subs, k)|
    ensures PacketsOf(counter, subs, k)[i].address == subs[k].address
  {
    PlanShape(CounterAt(counter, subs[..k]), subs[k]);
  }

  lemma {:induction false} FeedSplit(counter: U32, subs: seq<Submission>, session: U32, s: DefragState, k: nat, i: nat)
    requires MixesAreSubmitted(counter, subs, session) && Mixed(counter, subs, session, s)
    requires k < |subs| && Split(counter, subs, k) && i < |PacketsOf(counter, subs, k)|
    requires SplitUnder(counter, subs, session, Key(PacketsOf(counter, subs, k)), k)
    ensures var r := Feed(s, PacketsOf(counter, subs, k)[i]);
            && Mixed(counter, subs, session, r.0)
            && (r.1.Some? ==> Submitted(subs, session, r.1.value.data, r.1.value.address))
  {
    hide PacketsOf, SplitUnder, HoldsMix, Feed, Submitted, MixesAreSubmitted;
    var ps := PacketsOf(counter, subs, k);
    if Reserved(s, ps[0].packetId, |ps|) {
      var calls :| HoldsMix(counter, subs, session, s, calls);
      FeedMix(counter, subs, session, s, calls, k, i);
    } else {
      FeedFreshMix(counter, subs, session, s, k, i);
    }
  }

  lemma {:induction false} RunStaysMixed(counter: U32, subs: seq<Submission>, session: U32, ms: seq<UdpMessage>)
    requires MixesAreSubmitted(counter, subs, session)
    requires forall m :: m in ms ==> Genuine(counter, subs, session, m)
    ensures Mixed(counter, subs, session, FeedAll(EMPTY, ms))
    ensures forall m :: m in Emitted(EMPTY, ms) ==> Submitted(subs, session, m.data, m.address)
  {
    hide MixesAreSubmitted, Feed, HoldsMix, Genuine, Submitted;
    if ms != [] {
      var n := |ms| - 1;
      RunStaysMixed(counter, subs, session, ms[..n]);
      FeedStaysMixed(counter, subs, session, FeedAll(EMPTY, ms[..n]), ms[n]);
    }
  }

  // ----- and every mix can be -----

  /** All the indices below `n`, `last` at the end. */
  function EndingWith(n: nat, last: nat): (r: seq<nat>)
    requires last < n
    ensures |r| == n && r[n - 1] == last
  {
    seq(n - 1, i requires 0 <= i < n - 1 => if i < last then i else i + 1) + [last]
  }

  lemma {:induction false} EndingWithSees(n: nat, last: nat)
    requires last < n
    ensures Seen(EndingWith(n, last)) == Indices(n)
    ensures Seen(EndingWith(n, last)[..n - 1]) != Indices(n)
    ensures forall j :: 0 <= j < n ==> EndingWith(n, last)[j] < n
  {
    var order := EndingWith(n, last);
    forall i: nat ensures i in order <==> i < n {
      if i < last { assert order[i] == i; } else if last < i < n { assert order[i - 1] == i; }
    }
    assert last !in order[..n - 1] && last in Indices(n);
  }

  predicate Acceptable(session: U32, p: UdpMessage) {
    p.sessionId == session && p.address != [] && p.data != [] && |p.address| <= MAX_MESSAGE_LENGTH
  }

  /** The pieces, `last` moved to the end. */
  function InOrderBut(pieces: seq<UdpMessage>, last: nat): (r: seq<UdpMessage>)
    requires last < |pieces|
    ensures |r| == |pieces| && forall p :: p in r ==> p in pieces
  {
    EndingWithSees(|pieces|, last);
    Arrivals(pieces, EndingWith(|pieces|, last))
  }

  lemma {:induction false} LastPieceJoins(pieces: seq<UdpMessage>, last: nat)
    requires Numbered(pieces) && last < |pieces|
    ensures HandedUp(EMPTY, InOrderBut(pieces, last), |pieces| - 1) == Some(Rejoined(pieces, last))
  {
    hide Rejoined, HandedUp, Seen, EndingWith;
    var n := |pieces|;
    var order := EndingWith(n, last);
    EndingWithSees(n, last);
    NothingReserved(pieces);
    AnyOrderJoins(EMPTY, pieces, order, n - 1);
    assert order[..n] == order;
  }

  /** Numbered pieces, `last` at the end, make a fresh session hand up what they join to. */
  lemma {:induction false} PiecesAreHandedUp(session: U32, pieces: seq<UdpMessage>, last: nat)
    requires Numbered(pieces) && last < |pieces|
    requires forall i :: 0 <= i < |pieces| ==> Acceptable(session, pieces[i])
    ensures Rejoined(pieces, last) in Received(session, Encoded(InOrderBut(pieces, last)))
  {
    hide Numbered, Rejoined, Emitted, HandedUp, Incoming, InOrderBut, Encoded;
    var ms := InOrderBut(pieces, last);
    forall p | p in ms ensures Acceptable(session, p) {
      var i :| 0 <= i < |pieces| && pieces[i] == p;
    }
    IncomingOfPacked(session, ms);
    LastPieceJoins(pieces, last);
    EmittedHas(EMPTY, ms, |pieces| - 1);
  }

  /** A channel that brings exactly the mix, its piece `last` at the end, makes the session hand it up. */
  lemma {:induction false} MixCanBeHandedUp(
    counter: U32, subs: seq<Submission>, session: U32, key: (U16, nat), calls: seq<nat>, last: nat)
    returns (wires: seq<Bytes>)
    requires IsMix(counter, subs, session, key, calls) && last < |calls|
    ensures forall i :: 0 <= i < |wires| ==> OnTheWire(counter, subs, wires[i])
    ensures Rejoined(MixedPieces(counter, subs, session, key, calls), last) in Received(session, wires)
  {
    hide IsMix, MixedPieces, OnTheWire, Numbered, Rejoined, Received, InOrderBut, EncodeUdp;
    var pieces := MixedPieces(counter, subs, session, key, calls);
    MixIsNumbered(counter, subs, session, key, calls);
    var ms := InOrderBut(pieces, last);
    wires := Encoded(ms);
    forall j | 0 <= j < |wires| ensures OnTheWire(counter, subs, wires[j]) {
      assert ms[j] in pieces;
      var i :| 0 <= i < |pieces| && pieces[i] == ms[j];
      MixPieceOnTheWire(counter, subs, session, key, calls, i);
    }
    PiecesAreHandedUp(session, pieces, last);
  }

  lemma {:induction false} NothingReserved(pieces: seq<UdpMessage>)
    requires Numbered(pieces)
    ensures !Reserved(EMPTY, pieces[0].packetId, |pieces|)
  {
  }

  lemma {:induction false} MixPieceOnTheWire(
    counter: U32, subs: seq<Submission>, session: U32, key: (U16, nat), calls: seq<nat>, i: nat)
    requires IsMix(counter, subs, session, key, calls) && i < |calls|
    ensures var p := MixedPieces(counter, subs, session, key, calls)[i];
            OnTheWire(counter, subs, match EncodeUdp(p) case Ok(b) => b case Err(_) => [])
  {
    hide PacketsOf, EncodeUdp, Split;
    assert SplitUnder(counter, subs, session, key, calls[i]);
    var ps := PacketsOf(counter, subs, calls[i]);
    assert Encoded(ps)[i] in Encoded(ps);
  }

  /**
   Over all channels at once: everything a session hands up was submitted for it if and only if every mix of its split
   messages, piece by piece, within one packet id and piece count, is itself one of its submissions.
   */
  lemma {:induction false} SafeExactlyWhen(counter: U32, subs: seq<Submission>, session: U32)
    ensures SafeOverEveryChannel(counter, subs, session) <==> MixesAreSubmitted(counter, subs, session)
  {
    hide IsMix, Submitted, OnTheWire, Received, MixedPieces, Rejoined, SplitUnder;
    if MixesAreSubmitted(counter, subs, session) {
      forall wires | forall i :: 0 <= i < |wires| ==> OnTheWire(counter, subs, wires[i])
        ensures forall m :: m in Received(session, wires) ==> Submitted(subs, session, m.data, m.address)
      {
        ReceivedWhenMixesAreSubmitted(counter, subs, session, wires);
      }
    }
    if SafeOverEveryChannel(counter, subs, session) {
      forall key, calls, last: nat | IsMix(counter, subs, session, key, calls) && last < |calls|
        ensures SplitUnder(counter, subs, session, key, calls[last]) && calls[last] < |subs|
        ensures Submitted(subs, session, MixedData(counter, subs, session, key, calls), subs[calls[last]].address)
      {
        var wires := MixCanBeHandedUp(counter, subs, session, key, calls, last);
        var m := Rejoined(MixedPieces(counter, subs, session, key, calls), last);
        assert Submitted(subs, session, m.data, m.address);
        RejoinedIsMix(counter, subs, session, key, calls, last);
      }
    }
  }

  lemma {:induction false} ReceivedWhenMixesAreSubmitted(
    counter: U32, subs: seq<Submission>, session: U32, wires: seq<Bytes>)
    requires MixesAreSubmitted(counter, subs, session)
    requires forall i :: 0 <= i < |wires| ==> OnTheWire(counter, subs, wires[i])
    ensures forall m :: m in Received(session, wires) ==> Submitted(subs, session, m.data, m.address)
  {
    hide MixesAreSubmitted, OnTheWire;
    IncomingIsGenuine(counter, subs, session, wires);
    RunStaysMixed(counter, subs, session, Incoming(session, wires));
  }

  lemma {:induction false} RejoinedIsMix(
    counter: U32, subs: seq<Submission>, session: U32, key: (U16, nat), calls: seq<nat>, last: nat)
    requires IsMix(counter, subs, session, key, calls) && last < |calls|
    ensures SplitUnder(counter, subs, session, key, calls[last]) && calls[last] < |subs|
    ensures var m := Rejoined(MixedPieces(counter, subs, session, key, calls), last);
            m.data == MixedData(counter, subs, session, key, calls) && m.address == subs[calls[last]].address
  {
    hide SplitUnder, PacketsOf;
    MixPiece(counter, subs, session, key, calls, last);
  }

  // ----- distinct keys -----

  /** With distinct keys a mix takes all its pieces from one call. */
  lemma {:induction false} DistinctKeysDoNotMix(counter: U32, subs: seq<Submission>, session: U32)
    requires SessionKeysDistinct(counter, subs, session)
    ensures MixesAreSubmitted(counter, subs, session)
  {
    hide PacketsOf, Split, Key;
    forall key, calls, last: nat | IsMix(counter, subs, session, key, calls) && last < |calls|
      ensures SplitUnder(counter, subs, session, key, calls[last])
      ensures Submitted(subs, session, MixedData(counter, subs, session, key, calls), subs[calls[last]].address)
    {
      var k := calls[last];
      assert SplitUnder(counter, subs, session, key, k);
      SplitPieces(counter, subs, session, key, k);
      KeyLength(PacketsOf(counter, subs, k), key);
      forall i | 0 <= i < |calls| ensures calls[i] == k {
        assert SplitUnder(counter, subs, session, key, calls[i]);
      }
      assert MixedPieces(counter, subs, session, key, calls) == PacketsOf(counter, subs, k);
    }
  }

  lemma {:induction false} KeyLength(ps: seq<UdpMessage>, key: (U16, nat))
    requires ps != [] && Key(ps) == key
    ensures |ps| == key.1
  {
  }

  /** So over any channel everything a session hands up was submitted for it, when its split messages' keys differ. */
  lemma {:induction false} ReceivedWasSubmitted(counter: U32, subs: seq<Submission>, session: U32, wires: seq<Bytes>)
    requires SessionKeysDistinct(counter, subs, session)
    requires forall i :: 0 <= i < |wires| ==> OnTheWire(counter, subs, wires[i])
    ensures forall m :: m in Received(session, wires) ==> Submitted(subs, session, m.data, m.address)
  {
    hide MixesAreSubmitted, OnTheWire, Received;
    DistinctKeysDoNotMix(counter, subs, session);
    ReceivedWhenMixesAreSubmitted(counter, subs, session, wires);
  }
}
