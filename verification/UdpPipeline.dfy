/**
 UDP messages end to end: a sender that numbers and fragments what it is given, a channel, and the receiving
 session's defragmenter.
 */
module UdpPipeline {
  import opened Bytes
  import opened Varint
  import opened Proxy
  import opened Fragment

  // ----- packet ids -----

  const WRAP: nat := 0x1_0000_0000
  const ID_PERIOD: nat := 65535

  /** One draw from the 32-bit counter: the id and the counter afterwards. */
  function NextId(counter: U32): (r: (U16, U32)) {
    var next := (counter + 1) % WRAP;
    if next % 0x1_0000 != 0 then (next % 0x1_0000, next) else (1, (next + 1) % WRAP)
  }

  /** The counter after `n` draws. */
  function Drawn(counter: U32, n: nat): (r: U32) {
    if n == 0 then counter else NextId(Drawn(counter, n - 1)).1
  }

  function IdAt(counter: U32, n: nat): (r: U16) {
    NextId(Drawn(counter, n)).0
  }

  lemma {:induction false} DrawStep(counter: U32)
    ensures NextId(counter).0 == NextId(counter).1 % 0x1_0000 == counter % 0x1_0000 % ID_PERIOD + 1
  {
    assert (counter + 1) % WRAP == if counter + 1 == WRAP then 0 else counter + 1;
  }

  lemma {:induction false} NextResidue(a: nat, m: nat)
    requires m > 1
    ensures (a % m + 1) % m == (a + 1) % m
  {
    SameResidue(a % m + 1, a + 1, m);
    assert a == a / m * m + a % m;
    MultipleHasNoRemainder(-(a / m), m);
    assert -(a / m) * m == a % m + 1 - (a + 1);
  }

  lemma {:induction false} IdClosedForm(counter: U32, n: nat)
    ensures IdAt(counter, n) == (counter % 0x1_0000 + n) % ID_PERIOD + 1
  {
    DrawStep(Drawn(counter, n));
    if n > 0 {
      IdClosedForm(counter, n - 1);
      DrawStep(Drawn(counter, n - 1));
      NextResidue(counter % 0x1_0000 + (n - 1), ID_PERIOD);
      assert Drawn(counter, n) % 0x1_0000 == IdAt(counter, n - 1);
    }
  }

  /** Ids are never 0 and two draws agree exactly when they are a multiple of 65535 apart, across counter wrap. */
  lemma {:induction false} IdsRepeatExactlyEveryPeriod(counter: U32, i: nat, j: nat)
    ensures IdAt(counter, i) != 0
    ensures IdAt(counter, i) == IdAt(counter, j) <==> (i - j) % ID_PERIOD == 0
  {
    IdClosedForm(counter, i);
    IdClosedForm(counter, j);
    var base := counter % 0x1_0000;
    SameResidue(base + i, base + j, ID_PERIOD);
    assert base + i - (base + j) == i - j;
  }

  lemma {:induction false} SameResidue(a: nat, b: nat, m: nat)
    requires m > 0
    ensures a % m == b % m <==> (a - b) % m == 0
  {
    var qa, qb, q := a / m, b / m, (a - b) / m;
    assert a == qa * m + a % m && b == qb * m + b % m && a - b == q * m + (a - b) % m;
    MulDistributes(qa, -qb, m);
    if a % m == b % m {
      assert a - b == (qa - qb) * m;
      MultipleHasNoRemainder(qa - qb, m);
    } else if (a - b) % m == 0 {
      MulDistributes(qa - qb, -q, m);
      assert (qa - qb - q) * m == b % m - a % m;
      SmallMultipleIsZero(qa - qb - q, m);
    }
  }

  lemma {:induction false} MultipleHasNoRemainder(q: int, m: nat)
    requires m > 0
    ensures (q * m) % m == 0
  {
    var d := (q * m) / m;
    var r := (q * m) % m;
    assert q * m == d * m + r;
    MulDistributes(q, -d, m);
    SmallMultipleIsZero(q - d, m);
  }

  lemma {:induction false} SmallMultipleIsZero(k: int, m: nat)
    requires 0 - m < k * m < m
    ensures k == 0
  {
    if k >= 1 { MulMonotone(1, k, m); }
    if k <= -1 { MulMonotone(k, -1, m); }
  }

  // ----- the sender -----

  /** One `send` call: the datagram and the size limit the connection reported, if it reported one. */
  datatype Submission = Submission(sessionId: U32, address: Bytes, data: Bytes, limit: Option<nat>)
  {
    function Message(): UdpMessage {
      UdpMessage(sessionId, 0, 0, 1, address, data)
    }

    /** The call takes a packet id, whether or not it then succeeds. */
    predicate TakesId() {
      limit.Some? && limit.value < Message().EncodedSize() <= MAX_UDP_SIZE
    }
  }

  /** The messages one call puts on the wire; none when it fails. */
  function Planned(counter: U32, sub: Submission): (r: seq<UdpMessage>) {
    if |sub.address| > MAX_MESSAGE_LENGTH then []
    else if sub.TakesId() then
      (match Fragments(sub.Message().(packetId := NextId(counter).0), sub.limit.value)
       case Ok(pieces) => pieces
       case Err(_) => [])
    else if sub.limit.None? || sub.Message().EncodedSize() > MAX_UDP_SIZE then []
    else [sub.Message()]
  }

  function CounterAfter(counter: U32, sub: Submission): (r: U32) {
    if sub.TakesId() then NextId(counter).1 else counter
  }

  /** The three ways a call can go: nothing, the message itself, or a fragmentation of it under a fresh id. */
  lemma {:induction false} PlanShape(counter: U32, sub: Submission)
    ensures var ps := Planned(counter, sub);
            || ps == []
            || (ps == [sub.Message()] && !sub.TakesId())
            || (sub.TakesId() && IsFragmentationOf(ps, sub.Message().(packetId := NextId(counter).0)))
    ensures forall p :: p in Planned(counter, sub) ==> |p.address| <= MAX_MESSAGE_LENGTH
  {
    if sub.TakesId() {
      var m := sub.Message().(packetId := NextId(counter).0);
      if Fragments(m, sub.limit.value).Ok? && PayloadLimit(m, sub.limit.value) > 0 {
        FragmentsAreLawful(m, sub.limit.value);
      }
    }
  }

  /** The message has to be split: it is within the largest size there is, and over the connection's limit. */
  predicate NeedsSplit(sub: Submission) {
    var size := UdpMessage(sub.sessionId, 0, 0, 1, sub.address, sub.data).EncodedSize();
    sub.limit.Some? && sub.limit.value < size && size <= 4096
  }

  /** Splitting has room: a byte of data beside the header, and all of it in 255 pieces. */
  predicate CanSplit(sub: Submission)
    requires sub.limit.Some?
  {
    var header := UdpMessage(sub.sessionId, 0, 0, 1, sub.address, sub.data).HeaderSize();
    header < sub.limit.value && |sub.data| <= 255 * (sub.limit.value - header)
  }

  /**
   What a call sends, by sizes alone: the message as it is exactly when it fits both limits; nothing exactly when the
   address is too long, there is no limit to go by, the message is over 4096 bytes, or it needs splitting and cannot be;
   and otherwise a fragmentation under the next id. An id is drawn exactly when the message needs splitting.
   */
  lemma {:induction false} PlanBySizes(counter: U32, sub: Submission)
    ensures var m := UdpMessage(sub.sessionId, 0, 0, 1, sub.address, sub.data);
            var ps := Planned(counter, sub);
            && (ps == [m] <==>
                && |sub.address| <= 2048 && m.EncodedSize() <= 4096
                && sub.limit.Some? && m.EncodedSize() <= sub.limit.value)
            && (ps == [] <==>
                || |sub.address| > 2048 || sub.limit.None? || m.EncodedSize() > 4096
                || (NeedsSplit(sub) && !CanSplit(sub)))
            && (ps != [] && ps != [m] ==> IsFragmentationOf(ps, m.(packetId := NextId(counter).0)))
    ensures CounterAfter(counter, sub) == if NeedsSplit(sub) then NextId(counter).1 else counter
  {
    hide Fragments, NextId, IsFragmentationOf;
    PlanShape(counter, sub);
    if sub.TakesId() {
      var m := sub.Message().(packetId := NextId(counter).0);
      SplittingFailsExactlyWhen(m, sub.limit.value);
      if Planned(counter, sub) != [] { SeveralPieces(Planned(counter, sub), m); }
    }
  }

  lemma {:induction false} SeveralPieces(ps: seq<UdpMessage>, m: UdpMessage)
    requires IsFragmentationOf(ps, m)
    ensures |ps| >= 2
  {
  }

  /** Every datagram of a call is within the connection's limit. */
  lemma {:induction false} DatagramsFit(counter: U32, sub: Submission, w: Bytes)
    requires w in Encoded(Planned(counter, sub))
    ensures sub.limit.Some? && |w| <= sub.limit.value && |w| <= 4096
  {
    hide IsFragmentationOf, EncodeUdp;
    var ps := Planned(counter, sub);
    var i :| 0 <= i < |ps| && w == Encoded(ps)[i];
    PlanShape(counter, sub);
    UdpRoundTrip(ps[i]);
    assert ps[i] in ps;
    if sub.TakesId() {
      var m := sub.Message().(packetId := NextId(counter).0);
      SplittingFailsExactlyWhen(m, sub.limit.value);
      FragmentsAreLawful(m, sub.limit.value);
    }
  }

  /** How a call ends; `Broken` when the connection refuses one of the datagrams. */
  datatype SendOutcome =
    | Delivered
    | TooLarge(size: nat)
    | NoDatagrams
    | NotSplit(error: ProtocolError)
    | NotEncoded
    | Broken

  /** Why a call puts nothing on the wire, if it does not. */
  function Refusal(counter: U32, sub: Submission): (r: Option<SendOutcome>) {
    var size := sub.Message().EncodedSize();
    var unencodable := |sub.address| > MAX_MESSAGE_LENGTH;
    if size > MAX_UDP_SIZE then Some(TooLarge(size))
    else if sub.limit.None? then Some(NoDatagrams)
    else if !sub.TakesId() then if unencodable then Some(NotEncoded) else None
    else match Fragments(sub.Message().(packetId := NextId(counter).0), sub.limit.value)
      case Err(e) => Some(NotSplit(e))
      case Ok(pieces) => if pieces == [] then Some(TooLarge(size)) else if unencodable then Some(NotEncoded) else None
  }

  /** The reason, by sizes alone. */
  lemma {:induction false} RefusalBySizes(counter: U32, sub: Submission)
    ensures var m := UdpMessage(sub.sessionId, 0, 0, 1, sub.address, sub.data);
            var r := Refusal(counter, sub);
            if m.EncodedSize() > 4096 then r == Some(TooLarge(m.EncodedSize()))
            else if sub.limit.None? then r == Some(NoDatagrams)
            else if NeedsSplit(sub) && m.HeaderSize() >= sub.limit.value then r == Some(TooLarge(m.EncodedSize()))
            else if NeedsSplit(sub) && !CanSplit(sub) then r.Some? && r.value.NotSplit?
            else if |sub.address| > 2048 then r == Some(NotEncoded)
            else r == None
  {
    hide Fragments, NextId;
    if sub.TakesId() {
      SplittingFailsExactlyWhen(sub.Message().(packetId := NextId(counter).0), sub.limit.value);
    }
  }

  lemma {:induction false} RefusedExactlyWhen(counter: U32, sub: Submission)
    ensures Refusal(counter, sub).Some? <==> Planned(counter, sub) == []
  {
    hide Fragments;
  }

  /** The sending half of a connection. */
  class DatagramSender {
    var nextPacketId: U32

    constructor ()
      ensures nextPacketId == 0
    {
      nextPacketId := 0;
    }

    method NextPacketId() returns (id: U16)
      modifies this
      ensures (id, nextPacketId) == NextId(old(nextPacketId)) && id != 0
    {
      id := 0;
      ghost var first := true;
      while id == 0
        invariant first ==> id == 0 && nextPacketId == old(nextPacketId)
        invariant !first && id == 0 ==> nextPacketId == (old(nextPacketId) + 1) % WRAP && nextPacketId % 0x1_0000 == 0
        invariant id != 0 ==> (id, nextPacketId) == NextId(old(nextPacketId))
        decreases id == 0, first
      {
        nextPacketId := (nextPacketId + 1) % WRAP;
        id := nextPacketId % 0x1_0000;
        first := false;
      }
    }

    /**
     Sends one message over a connection that accepts only the first `accepts` datagrams, if it says so. A call that is
     refused sends nothing and says why; otherwise the datagrams go out in order, up to the first the connection
     refuses. An id is drawn whenever the message is too long for one datagram, whatever happens then.
     */
    method Send(sub: Submission, accepts: Option<nat>) returns (datagrams: seq<Bytes>, outcome: SendOutcome)
      modifies this
      ensures nextPacketId == CounterAfter(old(nextPacketId), sub)
      ensures Refusal(old(nextPacketId), sub).Some? ==>
                datagrams == [] && outcome == Refusal(old(nextPacketId), sub).value
      ensures Refusal(old(nextPacketId), sub).None? ==>
                var all := Encoded(Planned(old(nextPacketId), sub));
                if accepts.Some? && accepts.value < |all| then datagrams == all[..accepts.value] && outcome == Broken
                else datagrams == all && outcome == Delivered
      ensures forall w :: w in datagrams ==> sub.limit.Some? && |w| <= sub.limit.value
    {
      hide IsFragmentationOf, EncodeUdp, NextId, Fragments;
      var message := sub.Message();
      datagrams := [];
      if message.EncodedSize() > MAX_UDP_SIZE { return datagrams, TooLarge(message.EncodedSize()); }
      if sub.limit.None? { return datagrams, NoDatagrams; }
      var fragments := [message];
      if message.EncodedSize() > sub.limit.value {
        var id := NextPacketId();
        message := message.(packetId := id);
        var split := FragmentUdpMessage(message, sub.limit.value);
        if split.Err? { return datagrams, NotSplit(split.error); }
        fragments := split.value;
        if fragments == [] { return datagrams, TooLarge(message.EncodedSize()); }
      }
      if |sub.address| > MAX_MESSAGE_LENGTH { return datagrams, NotEncoded; }
      forall w | w in Encoded(fragments) ensures |w| <= sub.limit.value { DatagramsFit(old(nextPacketId), sub, w); }
      for i := 0 to |fragments|
        invariant datagrams == Encoded(fragments)[..i]
        invariant accepts.Some? ==> i <= accepts.value
      {
        var encoded := EncodeUdp(fragments[i]);
        if accepts.Some? && accepts.value == i { return datagrams, Broken; }
        datagrams := datagrams + [match encoded case Ok(b) => b case Err(_) => []];
      }
      outcome := Delivered;
    }
  }

  /** The wire form of messages whose addresses are within the limit. */
  function Encoded(ps: seq<UdpMessage>): (r: seq<Bytes>)
    ensures |r| == |ps|
  {
    seq(|ps|, i requires 0 <= i < |ps| => match EncodeUdp(ps[i]) case Ok(b) => b case Err(_) => [])
  }

  // ----- whole runs of the sender -----

  function CounterAt(counter: U32, subs: seq<Submission>): (r: U32) {
    if subs == [] then counter
    else CounterAfter(CounterAt(counter, subs[..|subs| - 1]), subs[|subs| - 1])
  }

  /** What call `k` of the run puts on the wire. */
  function PacketsOf(counter: U32, subs: seq<Submission>, k: nat): (r: seq<UdpMessage>)
    requires k < |subs|
  {
    Planned(CounterAt(counter, subs[..k]), subs[k])
  }

  /** Call `k` was split. */
  predicate Split(counter: U32, subs: seq<Submission>, k: nat)
    requires k < |subs|
  {
    |PacketsOf(counter, subs, k)| >= 2
  }

  /** The packet id of a split call. */
  function SplitId(counter: U32, subs: seq<Submission>, k: nat): (id: U16)
    requires k < |subs| && Split(counter, subs, k)
  {
    PacketsOf(counter, subs, k)[0].packetId
  }

  /** What a slot is reserved for: the packet id and the number of pieces. */
  function Key(ps: seq<UdpMessage>): (r: (U16, nat))
    requires ps != []
  {
    (ps[0].packetId, |ps|)
  }

  /** No two split calls of the session share a packet id and a piece count. */
  predicate SessionKeysDistinct(counter: U32, subs: seq<Submission>, session: U32) {
    forall j, k :: 0 <= j < k < |subs| && subs[j].sessionId == subs[k].sessionId == session
                   && Split(counter, subs, j) && Split(counter, subs, k) ==>
                     Key(PacketsOf(counter, subs, j)) != Key(PacketsOf(counter, subs, k))
  }

  /** A datagram some call of the run put on the wire. */
  ghost predicate OnTheWire(counter: U32, subs: seq<Submission>, w: Bytes) {
    exists k :: 0 <= k < |subs| && w in Encoded(PacketsOf(counter, subs, k))
  }

  function DrawsBefore(subs: seq<Submission>): (n: nat)
    ensures n <= |subs|
  {
    if subs == [] then 0
    else DrawsBefore(subs[..|subs| - 1]) + (if subs[|subs| - 1].TakesId() then 1 else 0)
  }

  lemma {:induction false} CounterCountsDraws(counter: U32, subs: seq<Submission>)
    ensures CounterAt(counter, subs) == Drawn(counter, DrawsBefore(subs))
  {
    if subs != [] {
      CounterCountsDraws(counter, subs[..|subs| - 1]);
    }
  }

  lemma {:induction false} DrawsGrow(subs: seq<Submission>, j: nat, k: nat)
    requires j < k <= |subs|
    ensures DrawsBefore(subs[..j]) <= DrawsBefore(subs[..k])
    ensures subs[j].TakesId() ==> DrawsBefore(subs[..j]) < DrawsBefore(subs[..k])
    decreases k
  {
    assert subs[..k][..k - 1] == subs[..k - 1];
    if j < k - 1 { DrawsGrow(subs, j, k - 1); }
  }

  /** Any run of at most 65535 calls gives every session distinct ids, wherever the counter starts. */
  lemma {:induction false} ShortRunsHaveDistinctIds(counter: U32, subs: seq<Submission>, session: U32)
    requires |subs| <= ID_PERIOD
    ensures forall j, k :: 0 <= j < k < |subs| && Split(counter, subs, j) && Split(counter, subs, k) ==>
                             SplitId(counter, subs, j) != SplitId(counter, subs, k)
    ensures SessionKeysDistinct(counter, subs, session)
  {
    hide Split, PacketsOf, IdAt;
    forall j, k | 0 <= j < k < |subs| && Split(counter, subs, j) && Split(counter, subs, k)
      ensures SplitId(counter, subs, j) != SplitId(counter, subs, k)
    {
      SplitTakesTheNextId(counter, subs, j);
      SplitTakesTheNextId(counter, subs, k);
      DrawsGrow(subs, j, k);
      var dj, dk := DrawsBefore(subs[..j]), DrawsBefore(subs[..k]);
      IdsRepeatExactlyEveryPeriod(counter, dk, dj);
      assert 0 < dk - dj < ID_PERIOD;
    }
  }

  lemma {:induction false} SplitTakesTheNextId(counter: U32, subs: seq<Submission>, k: nat)
    requires k < |subs| && Split(counter, subs, k)
    ensures subs[k].TakesId() && SplitId(counter, subs, k) == IdAt(counter, DrawsBefore(subs[..k]))
  {
    hide Drawn, NextId, Planned, DrawsBefore;
    PlanShape(CounterAt(counter, subs[..k]), subs[k]);
    CounterCountsDraws(counter, subs[..k]);
  }

  // ----- the receiving session -----

  /** What one datagram brings to the session. */
  function Brings(session: U32, w: Bytes): (r: seq<UdpMessage>) {
    match DecodeUdp(w)
    case Ok(m) => if m.sessionId == session then [m] else []
    case Err(_) => []
  }

  /** The messages that reach a session out of a stream of datagrams: those that decode and carry its id. */
  function Incoming(session: U32, wires: seq<Bytes>): (r: seq<UdpMessage>) {
    if wires == [] then [] else Incoming(session, wires[..|wires| - 1]) + Brings(session, wires[|wires| - 1])
  }

  /** What a session with a fresh defragmenter hands up. */
  function Received(session: U32, wires: seq<Bytes>): (r: seq<UdpMessage>) {
    Emitted(EMPTY, Incoming(session, wires))
  }

  /** A message a session may see: sent for it by some call, with address and data not empty. */
  ghost predicate Genuine(counter: U32, subs: seq<Submission>, session: U32, m: UdpMessage) {
    && m.address != [] && m.data != []
    && exists k :: 0 <= k < |subs| && subs[k].sessionId == session && m in PacketsOf(counter, subs, k)
  }

  lemma {:induction false} WireDecodesToItsMessage(counter: U32, sub: Submission, w: Bytes)
    requires w in Encoded(Planned(counter, sub))
    ensures DecodeUdp(w).Ok? ==>
              var m := DecodeUdp(w).value;
              m in Planned(counter, sub) && m.sessionId == sub.sessionId && m.address != [] && m.data != []
  {
    PlanShape(counter, sub);
    var ps := Planned(counter, sub);
    var i :| 0 <= i < |ps| && w == Encoded(ps)[i];
    UdpRoundTrip(ps[i]);
  }

  lemma {:induction false} IncomingIsGenuine(counter: U32, subs: seq<Submission>, session: U32, wires: seq<Bytes>)
    requires forall i :: 0 <= i < |wires| ==> OnTheWire(counter, subs, wires[i])
    ensures forall m :: m in Incoming(session, wires) ==> Genuine(counter, subs, session, m)
  {
    if wires != [] {
      var n := |wires| - 1;
      IncomingIsGenuine(counter, subs, session, wires[..n]);
      var k :| 0 <= k < |subs| && wires[n] in Encoded(PacketsOf(counter, subs, k));
      WireDecodesToItsMessage(CounterAt(counter, subs[..k]), subs[k], wires[n]);
    }
  }

  /** Acceptable messages of a session come through encoding and decoding unchanged. */
  lemma {:induction false} IncomingOfPacked(session: U32, ps: seq<UdpMessage>)
    requires forall p :: p in ps ==> |p.address| <= MAX_MESSAGE_LENGTH && p.data != []
    requires forall p :: p in ps ==> p.sessionId == session && p.address != []
    ensures Incoming(session, Encoded(ps)) == ps
    decreases |ps|
  {
    hide DecodeUdp, EncodeUdp;
    if ps != [] {
      var n := |ps| - 1;
      IncomingOfPacked(session, ps[..n]);
      assert Encoded(ps)[..n] == Encoded(ps[..n]);
      UdpRoundTrip(ps[n]);
    }
  }

  lemma {:induction false} SingleIsWhole(ps: seq<UdpMessage>, counter: U32, subs: seq<Submission>, k: nat)
    requires k < |subs| && ps == PacketsOf(counter, subs, k) && |ps| == 1
    ensures ps == [subs[k].Message()]
  {
    PlanShape(CounterAt(counter, subs[..k]), subs[k]);
  }
}
