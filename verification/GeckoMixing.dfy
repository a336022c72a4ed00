/**
 A Gecko sender and receiver end to end. Message ids repeat after 256 long-header packets and an entry may outlive
 its packet, so chunks of two packets can meet in one entry: what is then handed up, and exactly when all of it was
 sent.
 */
module GeckoMixing {
  import opened Bytes
  import opened Slots
  import opened Salamander
  import opened Gecko
  import opened Reassembler
  import opened GeckoRuns

  // ----- the sender's run -----

  /** One packet given to the encoder, with the random choices made for it. */
  datatype Sent = Sent(destination: Source, packet: Bytes, rnd: Randomness)
  {
    /** Long-header packets are split and take a message id. */
    predicate Long() {
      packet != [] && packet[0] >= 0x80
    }
  }

  /**
   An encoder, everything it was given in order, whatever the destination, and one of the destinations: the counter is
   shared, but a receiver sees only what was sent to it.
   */
  datatype Link = Link(codec: Codec, options: Options, counter: nat, sends: seq<Sent>, dest: Source)

  predicate AllDrawn(l: Link) {
    && ValidOptions(l.options)
    && forall k :: 0 <= k < |l.sends| ==> Drawn(l.options, l.sends[k].packet, l.sends[k].rnd)
  }

  function LongIn(sends: seq<Sent>): (n: nat)
    ensures n <= |sends|
  {
    if sends == [] then 0 else LongIn(sends[..|sends| - 1]) + (if sends[|sends| - 1].Long() then 1 else 0)
  }

  /** The message id a long-header packet is sent under. */
  function IdOf(l: Link, k: nat): (id: Byte)
    requires k < |l.sends|
  {
    NextMessageId(CounterAfter(l.counter, LongIn(l.sends[..k]))).1
  }

  /** The wire is a datagram of packet `k`. */
  ghost predicate IsWireOf(l: Link, k: nat, wire: Bytes)
    requires AllDrawn(l) && k < |l.sends|
  {
    var Sent(_, packet, rnd) := l.sends[k];
    && packet != []
    && if l.sends[k].Long()
       then exists i :: 0 <= i < rnd.total && IsDatagramOf(l.codec, packet, IdOf(l, k), rnd, i, wire)
       else wire == Obfuscate(l.codec, packet, rnd.salts[0])
  }

  ghost predicate OnTheWire(l: Link, wire: Bytes)
    requires AllDrawn(l)
  {
    exists k :: 0 <= k < |l.sends| && l.sends[k].destination == l.dest && IsWireOf(l, k, wire)
  }

  /** Whatever arrives from this source was put on the wire by the sender; other sources do as they like. */
  ghost predicate FromSender(l: Link, source: Source, es: seq<Event>)
    requires AllDrawn(l)
  {
    forall n :: 0 <= n < |es| && es[n].Arrive? && es[n].source == source ==>
      OnTheWire(l, es[n].wire)
  }

  predicate WasSent(l: Link, packet: Bytes) {
    exists k :: 0 <= k < |l.sends| && l.sends[k].destination == l.dest && l.sends[k].packet == packet
  }

  // ----- mixes -----

  predicate LongUnder(l: Link, id: Byte, total: Byte, k: nat) {
    && k < |l.sends| && l.sends[k].destination == l.dest
    && l.sends[k].Long() && IdOf(l, k) == id && l.sends[k].rnd.total == total
  }

  /** For every chunk number a packet to take that chunk from, all sent under one id and count. */
  predicate IsMix(l: Link, id: Byte, total: Byte, from: seq<nat>) {
    |from| == total && forall i :: 0 <= i < |from| ==> LongUnder(l, id, total, from[i])
  }

  function MixedChunks(l: Link, id: Byte, total: Byte, from: seq<nat>): (r: seq<Bytes>)
    requires IsMix(l, id, total, from)
    ensures |r| == total
  {
    seq(total, i requires 0 <= i < total =>
      assert LongUnder(l, id, total, from[i]);
      Chunk(l.sends[from[i]].packet, total, i))
  }

  function MixedPacket(l: Link, id: Byte, total: Byte, from: seq<nat>): (r: Bytes)
    requires IsMix(l, id, total, from)
  {
    Concat(MixedChunks(l, id, total, from))
  }

  ghost predicate MixesWereSent(l: Link) {
    forall id: Byte, total: Byte, from: seq<nat> :: total > 0 && IsMix(l, id, total, from) ==>
      WasSent(l, MixedPacket(l, id, total, from))
  }

  /** Event `n` of the run comes from this source and hands a packet up. */
  predicate HandsUp(codec: Codec, es: seq<Event>, n: nat, source: Source) {
    n < |es| && es[n].Arrive? && es[n].source == source && Step(codec, At(codec, es, n), es[n]).1.Some?
  }

  /** In every run of the receiver, every packet handed up from this source was sent. */
  ghost predicate SafeInEveryRun(l: Link, source: Source)
    requires AllDrawn(l)
  {
    forall es: seq<Event>, n: nat ::
      (IsRun(l.codec, map[], es) && FromSender(l, source, es) && HandsUp(l.codec, es, n, source)) ==>
        WasSent(l, Step(l.codec, At(l.codec, es, n), es[n]).1.value)
  }

  // ----- nothing but mixes is handed up -----

  /** What a datagram from the wire is opened as. */
  lemma {:induction false} OpenedFromWire(l: Link, wire: Bytes) returns (k: nat)
    requires AllDrawn(l) && OnTheWire(l, wire)
    ensures k < |l.sends| && l.sends[k].destination == l.dest
    ensures if l.sends[k].Long() then
              && Open(l.codec, wire).Fragment?
              && var f := Open(l.codec, wire).frame;
              && LongUnder(l, f.messageId, f.totalChunks, k)
              && f.chunkIndex < f.totalChunks && f.payload == Chunk(l.sends[k].packet, f.totalChunks, f.chunkIndex)
            else Open(l.codec, wire) == Whole(l.sends[k].packet)
  {
    hide Obfuscate, Open, IsDatagramOf, Chunk, IdOf;
    k :| 0 <= k < |l.sends| && l.sends[k].destination == l.dest && IsWireOf(l, k, wire);
    var Sent(_, packet, rnd) := l.sends[k];
    assert Drawn(l.options, packet, rnd);
    if l.sends[k].Long() {
      var id := IdOf(l, k);
      var i :| 0 <= i < rnd.total && IsDatagramOf(l.codec, packet, id, rnd, i, wire);
      OpenDatagram(l.codec, packet, id, rnd, i, wire);
    } else {
      OpenShortHeader(l.codec, packet, rnd.salts[0]);
    }
  }

  /** The event that brought the first payload of a chunk. */
  lemma {:induction false} FirstHasSource(
    codec: Codec, es: seq<Event>, start: nat, end: nat, key: Key, total: Byte, i: nat)
    returns (m: nat)
    requires start <= end <= |es| && First(codec, es, start, end, key, total, i).Some?
    ensures start <= m < end && Carries(codec, es[m], key, total, i)
    ensures First(codec, es, start, end, key, total, i) == Some(FrameIn(codec, es[m]).value.payload)
    decreases end
  {
    hide Carries, FrameIn;
    if First(codec, es, start, end - 1, key, total, i).Some? {
      m := FirstHasSource(codec, es, start, end - 1, key, total, i);
    } else {
      m := end - 1;
    }
  }

  /** Chunk `i`, as one of the events `start..end` brought it, is chunk `i` of this packet. */
  ghost predicate BroughtBy(
    l: Link, es: seq<Event>, start: nat, end: nat, key: Key, total: Byte, i: nat, k: nat)
  {
    && start <= end <= |es| && i < total
    && LongUnder(l, key.messageId, total, k)
    && exists m :: start <= m < end && Carries(l.codec, es[m], key, total, i)
                   && FrameIn(l.codec, es[m]).value.payload == Chunk(l.sends[k].packet, total, i)
  }

  lemma {:induction false} FirstFromSender(
    l: Link, es: seq<Event>, start: nat, end: nat, key: Key, total: Byte, i: nat)
    returns (k: nat)
    requires AllDrawn(l) && FromSender(l, key.source, es)
    requires start <= end <= |es| && i < total && First(l.codec, es, start, end, key, total, i).Some?
    ensures BroughtBy(l, es, start, end, key, total, i, k)
    ensures First(l.codec, es, start, end, key, total, i) == Some(Chunk(l.sends[k].packet, total, i))
  {
    hide AllDrawn, OnTheWire, Open, First, LongUnder, Chunk;
    var m := FirstHasSource(l.codec, es, start, end, key, total, i);
    assert es[m].Arrive? && es[m].source == key.source;
    k := OpenedFromWire(l, es[m].wire);
    assert FrameIn(l.codec, es[m]) == Some(Open(l.codec, es[m].wire).frame);
    LongUnderIsSent(l, key.messageId, total, k);
  }

  lemma {:induction false} LongUnderIsSent(l: Link, id: Byte, total: Byte, k: nat)
    requires LongUnder(l, id, total, k)
    ensures k < |l.sends|
  {
  }

  lemma {:induction false} CollectSenders(
    l: Link, es: seq<Event>, start: nat, end: nat, key: Key, total: Byte, n: nat)
    returns (from: seq<nat>)
    requires AllDrawn(l) && FromSender(l, key.source, es)
    requires start <= end <= |es| && n <= total
    requires forall i :: 0 <= i < total ==> First(l.codec, es, start, end, key, total, i).Some?
    ensures |from| == n
    ensures forall i :: 0 <= i < n ==> BroughtBy(l, es, start, end, key, total, i, from[i])
    ensures forall i :: 0 <= i < n ==> from[i] < |l.sends|
    ensures forall i :: 0 <= i < n ==>
              First(l.codec, es, start, end, key, total, i) == Some(Chunk(l.sends[from[i]].packet, total, i))
    decreases n
  {
    hide AllDrawn, FromSender, First, Chunk;
    if n == 0 {
      from := [];
    } else {
      var some := CollectSenders(l, es, start, end, key, total, n - 1);
      var k := FirstFromSender(l, es, start, end, key, total, n - 1);
      from := some + [k];
      LongUnderIsSent(l, key.messageId, total, k);
    }
  }

  /**
   Every packet reassembled from this source is a mix: chunk by chunk it comes from packets sent under one id and
   count, whose datagrams arrived while one entry was there without a break.
   */
  lemma {:induction false} ReassembledIsMix(
    l: Link, es: seq<Event>, n: nat) returns (start: nat, from: seq<nat>)
    requires AllDrawn(l) && IsRun(l.codec, map[], es) && n < |es| && KeyOf(l.codec, es[n]).Some?
    requires FromSender(l, KeyOf(l.codec, es[n]).value.source, es)
    requires Step(l.codec, At(l.codec, es, n), es[n]).1.Some?
    ensures var key, total := KeyOf(l.codec, es[n]).value, FrameIn(l.codec, es[n]).value.totalChunks;
            && total > 0 && AliveSince(l.codec, es, start, n, key)
            && IsMix(l, key.messageId, total, from)
            && (forall i :: 0 <= i < total ==> BroughtBy(l, es, start, n + 1, key, total, i, from[i]))
            && Step(l.codec, At(l.codec, es, n), es[n]).1.value == MixedPacket(l, key.messageId, total, from)
  {
    hide AllDrawn, FromSender, IsRun, Step, First, AliveSince, LongUnder, Open;
    var key, total := KeyOf(l.codec, es[n]).value, FrameIn(l.codec, es[n]).value.totalChunks;
    ReassembledFromOneEntry(l.codec, es, n);
    var packet := Step(l.codec, At(l.codec, es, n), es[n]).1.value;
    start :| Assembled(l.codec, es, start, n, key, total, packet);
    AliveBefore(l.codec, es, start, n, key);
    var end := n + 1;
    var firsts := Firsts(l.codec, es, start, end, key, total);
    forall i | 0 <= i < total ensures First(l.codec, es, start, end, key, total, i).Some? {
      assert firsts[i].Some?;
    }
    from := CollectSenders(l, es, start, end, key, total, total);
    assert IsMix(l, key.messageId, total, from);
    var chunks := MixedChunks(l, key.messageId, total, from);
    forall i | 0 <= i < total ensures Values(firsts)[i] == chunks[i] {
      assert firsts[i] == First(l.codec, es, start, end, key, total, i);
    }
    assert Values(firsts) == chunks;
    StepCases(l.codec, At(l.codec, es, n), es[n]);
  }

  lemma {:induction false} AliveBefore(codec: Codec, es: seq<Event>, start: nat, n: nat, key: Key)
    requires AliveSince(codec, es, start, n, key)
    ensures start < n <= |es|
  {
  }

  // ----- and every mix can be -----

  /** An entry that holds the first `j` chunks. */
  function Partial(chunks: seq<Bytes>, total: Byte, j: nat): (e: Entry)
    requires |chunks| == total
  {
    Entry(seq(total, i requires 0 <= i < total => if i < j then Some(chunks[i]) else None), j, total, REASSEMBLY_TTL)
  }

  /** The events bring the chunks of one message in order, all at time 0. */
  ghost predicate BringsInOrder(codec: Codec, es: seq<Event>, key: Key, chunks: seq<Bytes>) {
    && |es| == |chunks| <= MAX_FRAGMENT_COUNT
    && forall i :: 0 <= i < |es| ==>
         && es[i].Arrive? && es[i].source == key.source && es[i].now == 0
         && Carries(codec, es[i], key, |chunks|, i) && FrameIn(codec, es[i]).value.payload == chunks[i]
  }

  lemma {:induction false} FirstChunkStored(codec: Codec, e: Event, key: Key, chunks: seq<Bytes>)
    requires 2 <= |chunks| <= MAX_FRAGMENT_COUNT && e.Arrive? && e.now == 0
    requires Carries(codec, e, key, |chunks|, 0) && FrameIn(codec, e).value.payload == chunks[0]
    ensures Step(codec, map[], e) == (map[key := Partial(chunks, |chunks|, 1)], None)
  {
    hide Step, FrameIn, KeyOf, Accept;
    var t: Table := map[];
    StepCases(codec, t, e);
    EmptyTableInv();
    assert KeysOf(t, key.source) == {};
    AcceptIntoEmpty(e.source, FrameIn(codec, e).value, chunks, e.victim);
  }

  lemma {:induction false} AcceptIntoEmpty(source: Source, f: GeckoFrame, chunks: seq<Bytes>, victim: Key)
    requires 2 <= |chunks| == f.totalChunks <= MAX_FRAGMENT_COUNT && f.chunkIndex == 0 && f.payload == chunks[0]
    ensures Accept(map[], source, f, 0, victim) == (map[Key(source, f.messageId) := Partial(chunks, |chunks|, 1)], None)
  {
    var t: Table := map[];
    var key := Key(source, f.messageId);
    assert KeysOf(t, source) == {};
    assert Cleared(t, key, victim) == t;
    FirstSlot(t, key, f.totalChunks, 0, 0, f.payload);
    assert Filling(NewEntry(f.totalChunks, 0), 0, f.payload) == Partial(chunks, |chunks|, 1);
  }

  lemma {:induction false} NextChunkStored(codec: Codec, e: Event, key: Key, chunks: seq<Bytes>, j: nat)
    requires 1 <= j < |chunks| <= MAX_FRAGMENT_COUNT && e.Arrive?
    requires Carries(codec, e, key, |chunks|, j) && FrameIn(codec, e).value.payload == chunks[j]
    ensures Step(codec, map[key := Partial(chunks, |chunks|, j)], e) ==
            if j + 1 < |chunks| then (map[key := Partial(chunks, |chunks|, j + 1)], None)
            else (map[], Some(Concat(chunks)))
  {
    hide Step, FrameIn, KeyOf, Accept, Joined;
    var t := map[key := Partial(chunks, |chunks|, j)];
    StepCases(codec, t, e);
    var f := FrameIn(codec, e).value;
    AcceptStored(t, e.source, f, e.now, e.victim);
    var full := Filling(t[key], j, chunks[j]);
    assert full == Partial(chunks, |chunks|, j + 1);
    if j + 1 == |chunks| {
      JoinedIsConcat(full.chunks);
      assert Values(full.chunks) == chunks;
      assert t - {key} == map[];
    } else {
      assert t[key := full] == map[key := full];
    }
  }

  /** Brought to an empty table, the chunks are handed up joined, by the last of them. */
  lemma {:induction false} BroughtInOrder(codec: Codec, es: seq<Event>, key: Key, chunks: seq<Bytes>, j: nat)
    requires 2 <= |chunks| <= MAX_FRAGMENT_COUNT && BringsInOrder(codec, es, key, chunks) && j < |chunks|
    ensures At(codec, es, j) == if j == 0 then map[] else map[key := Partial(chunks, |chunks|, j)]
    ensures Step(codec, At(codec, es, j), es[j]).1 == if j + 1 < |chunks| then None else Some(Concat(chunks))
    decreases j
  {
    hide Step, Carries, FrameIn, Partial;
    if j == 0 {
      StartsEmpty(codec, es);
      FirstChunkStored(codec, es[0], key, chunks);
    } else {
      BroughtInOrder(codec, es, key, chunks, j - 1);
      NextTable(codec, map[], es, j - 1);
      if j == 1 {
        FirstChunkStored(codec, es[0], key, chunks);
      } else {
        NextChunkStored(codec, es[j - 1], key, chunks, j - 1);
      }
      NextChunkStored(codec, es[j], key, chunks, j);
    }
  }

  lemma {:induction false} SmallTableDoesNotEvict(codec: Codec, t: Table, e: Event)
    requires |t| < MAX_REASSEMBLIES
    ensures Lawful(codec, t, e)
  {
    hide CountOf;
  }

  lemma {:induction false} BroughtInOrderIsRun(codec: Codec, es: seq<Event>, key: Key, chunks: seq<Bytes>)
    requires 2 <= |chunks| <= MAX_FRAGMENT_COUNT && BringsInOrder(codec, es, key, chunks)
    ensures IsRun(codec, map[], es)
  {
    hide BringsInOrder, Lawful;
    forall j | 0 <= j < |es| ensures Lawful(codec, TableAfter(codec, map[], es[..j]), es[j]) {
      assert j < |chunks| by { LengthsMatch(codec, es, key, chunks); }
      BroughtInOrder(codec, es, key, chunks, j);
      assert |At(codec, es, j)| <= 1;
      SmallTableDoesNotEvict(codec, At(codec, es, j), es[j]);
    }
  }

  lemma {:induction false} LengthsMatch(codec: Codec, es: seq<Event>, key: Key, chunks: seq<Bytes>)
    requires BringsInOrder(codec, es, key, chunks)
    ensures |es| == |chunks|
  {
  }

  /** The masked form of chunk `i` of packet `k`. */
  function WireFor(l: Link, k: nat, i: nat): (wire: Bytes)
    requires k < |l.sends| && i < l.sends[k].rnd.total == |l.sends[k].rnd.noise| == |l.sends[k].rnd.salts|
  {
    match EncodeFrame(FrameOf(l.sends[k].packet, IdOf(l, k), l.sends[k].rnd, i))
    case Ok(b) => Obfuscate(l.codec, b, l.sends[k].rnd.salts[i])
    case Err(_) => []
  }

  lemma {:induction false} WireForIsOnTheWire(l: Link, k: nat, i: nat)
    requires AllDrawn(l) && k < |l.sends| && l.sends[k].Long() && i < l.sends[k].rnd.total
    requires l.sends[k].destination == l.dest
    ensures var wire := WireFor(l, k, i);
            && OnTheWire(l, wire)
            && Open(l.codec, wire) == Fragment(FrameOf(l.sends[k].packet, IdOf(l, k), l.sends[k].rnd, i))
  {
    hide Obfuscate, Open, EncodeFrame, PaddingLength, Chunk, IdOf;
    var Sent(_, packet, rnd) := l.sends[k];
    assert Drawn(l.options, packet, rnd);
    PaddedSizeInRange(l.options, |Chunk(packet, rnd.total, i)|, rnd.rolls[i]);
    FrameRoundTrip(FrameOf(packet, IdOf(l, k), rnd, i));
    var wire := WireFor(l, k, i);
    assert IsDatagramOf(l.codec, packet, IdOf(l, k), rnd, i, wire);
    OpenDatagram(l.codec, packet, IdOf(l, k), rnd, i, wire);
    assert IsWireOf(l, k, wire);
  }

  function MixEvents(l: Link, id: Byte, total: Byte, from: seq<nat>, source: Source): (es: seq<Event>)
    requires AllDrawn(l) && IsMix(l, id, total, from)
    ensures |es| == total
  {
    seq(total, i requires 0 <= i < total =>
      assert LongUnder(l, id, total, from[i]);
      assert Drawn(l.options, l.sends[from[i]].packet, l.sends[from[i]].rnd);
      Arrive(source, WireFor(l, from[i], i), 0, Key(source, id)))
  }

  lemma {:induction false} MixEventBrings(
    l: Link, id: Byte, total: Byte, from: seq<nat>, source: Source, i: nat)
    requires AllDrawn(l) && IsMix(l, id, total, from) && i < total
    ensures var e := MixEvents(l, id, total, from, source)[i];
            && e.Arrive? && e.source == source && e.now == 0 && OnTheWire(l, e.wire)
            && Carries(l.codec, e, Key(source, id), total, i)
            && FrameIn(l.codec, e).value.payload == MixedChunks(l, id, total, from)[i]
  {
    hide OnTheWire, Open, WireFor, Chunk, IdOf;
    var k := from[i];
    assert LongUnder(l, id, total, k) && Drawn(l.options, l.sends[k].packet, l.sends[k].rnd);
    WireForIsOnTheWire(l, k, i);
  }

  /** The datagrams of a mix, brought to a fresh receiver, make it hand up exactly the mix. */
  lemma {:induction false} MixCanBeHandedUp(
    l: Link, id: Byte, total: Byte, from: seq<nat>, source: Source)
    requires AllDrawn(l) && IsMix(l, id, total, from) && total > 0
    ensures var es := MixEvents(l, id, total, from, source);
            && IsRun(l.codec, map[], es) && FromSender(l, source, es)
            && es[total - 1].Arrive? && es[total - 1].source == source
            && Step(l.codec, At(l.codec, es, total - 1), es[total - 1]).1 == Some(MixedPacket(l, id, total, from))
  {
    hide Step, Carries, OnTheWire, FrameIn, MixEvents, MixedChunks, IsRun, At;
    var es, chunks := MixEvents(l, id, total, from, source), MixedChunks(l, id, total, from);
    MixTotal(l, id, total, from);
    forall i | 0 <= i < total
      ensures es[i].Arrive? && es[i].source == source && es[i].now == 0 && OnTheWire(l, es[i].wire)
      ensures Carries(l.codec, es[i], Key(source, id), total, i) && FrameIn(l.codec, es[i]).Some?
      ensures FrameIn(l.codec, es[i]).value.payload == chunks[i]
    {
      MixEventBrings(l, id, total, from, source, i);
      CarriesAFrame(l.codec, es[i], Key(source, id), total, i);
    }
    assert BringsInOrder(l.codec, es, Key(source, id), chunks);
    BroughtInOrderIsRun(l.codec, es, Key(source, id), chunks);
    BroughtInOrder(l.codec, es, Key(source, id), chunks, total - 1);
  }

  lemma {:induction false} CarriesAFrame(codec: Codec, e: Event, key: Key, total: Byte, i: nat)
    requires Carries(codec, e, key, total, i)
    ensures FrameIn(codec, e).Some?
  {
  }

  lemma {:induction false} MixTotal(l: Link, id: Byte, total: Byte, from: seq<nat>)
    requires AllDrawn(l) && IsMix(l, id, total, from) && total > 0
    ensures 2 <= total <= MAX_FRAGMENT_COUNT
  {
    assert LongUnder(l, id, total, from[0]);
    assert Drawn(l.options, l.sends[from[0]].packet, l.sends[from[0]].rnd);
  }

  // ----- exactly when -----

  lemma {:induction false} HandedUpWasSent(
    l: Link, source: Source, es: seq<Event>, n: nat)
    requires AllDrawn(l) && MixesWereSent(l)
    requires IsRun(l.codec, map[], es) && FromSender(l, source, es)
    requires HandsUp(l.codec, es, n, source)
    ensures WasSent(l, Step(l.codec, At(l.codec, es, n), es[n]).1.value)
  {
    hide AllDrawn, OnTheWire, IsRun, IsMix, MixedPacket, Open, Accept, At;
    if KeyOf(l.codec, es[n]).Some? {
      var start, from := ReassembledIsMix(l, es, n);
    } else {
      var k := OpenedFromWire(l, es[n].wire);
      assert Open(l.codec, es[n].wire) == Whole(l.sends[k].packet);
    }
  }

  /**
   Over all runs of the receiver at once: every packet handed up from the sender's address was sent if and only if
   every chunk-wise mix of packets sent under one message id and count is itself a packet that was sent.
   */
  lemma {:induction false} SafeExactlyWhen(l: Link, source: Source)
    requires AllDrawn(l)
    ensures SafeInEveryRun(l, source) <==> MixesWereSent(l)
  {
    hide AllDrawn, FromSender, IsRun, IsMix, MixedPacket, Step, At, MixEvents, WasSent;
    if MixesWereSent(l) {
      forall es: seq<Event>, n: nat |
        IsRun(l.codec, map[], es) && FromSender(l, source, es) && HandsUp(l.codec, es, n, source)
        ensures WasSent(l, Step(l.codec, At(l.codec, es, n), es[n]).1.value)
      {
        HandedUpWasSent(l, source, es, n);
      }
    }
    if SafeInEveryRun(l, source) {
      forall id: Byte, total: Byte, from: seq<nat> | total > 0 && IsMix(l, id, total, from)
        ensures WasSent(l, MixedPacket(l, id, total, from))
      {
        MixCanBeHandedUp(l, id, total, from, source);
        var es := MixEvents(l, id, total, from, source);
        assert HandsUp(l.codec, es, total - 1, source);
      }
    }
  }

  // ----- how many packets are safe -----

  lemma {:induction false} LongGrows(sends: seq<Sent>, j: nat, k: nat)
    requires j < k <= |sends| && sends[j].Long()
    ensures LongIn(sends[..j]) < LongIn(sends[..k]) <= LongIn(sends[..j]) + (k - j)
    decreases k
  {
    assert sends[..k][..k - 1] == sends[..k - 1];
    if j < k - 1 { LongGrows(sends, j, k - 1); }
  }

  /** Any 256 packets have distinct ids. */
  lemma {:induction false} ShortRunsHaveDistinctIds(l: Link, j: nat, k: nat)
    requires |l.sends| <= 256 && j < k < |l.sends| && l.sends[j].Long() && l.sends[k].Long()
    ensures IdOf(l, j) != IdOf(l, k)
  {
    hide LongIn, CounterAfter, NextMessageId;
    LongGrows(l.sends, j, k);
    MessageIdsCycle(l.counter, LongIn(l.sends[..j]));
    MessageIdsCycle(l.counter, LongIn(l.sends[..k]));
    CloseResidues(l.counter + LongIn(l.sends[..j]) + 1, l.counter + LongIn(l.sends[..k]) + 1);
  }

  lemma {:induction false} CloseResidues(a: nat, b: nat)
    requires a < b < a + 256
    ensures a % 256 != b % 256
  {
  }

  /** So in every run of the receiver, any 256 packets are handed up as sent or not at all. */
  lemma {:induction false} ShortRunsAreSafe(l: Link, source: Source)
    requires AllDrawn(l) && |l.sends| <= 256
    ensures SafeInEveryRun(l, source)
  {
    hide IdOf, SafeInEveryRun, AllDrawn;
    forall id: Byte, total: Byte, from: seq<nat> | total > 0 && IsMix(l, id, total, from)
      ensures WasSent(l, MixedPacket(l, id, total, from))
    {
      var k := from[0];
      forall i | 0 <= i < |from| ensures from[i] == k {
        assert LongUnder(l, id, total, from[i]) && LongUnder(l, id, total, k);
        if from[i] < k { ShortRunsHaveDistinctIds(l, from[i], k); }
        if k < from[i] { ShortRunsHaveDistinctIds(l, k, from[i]); }
      }
      assert MixedChunks(l, id, total, from) == Chunks(l.sends[k].packet, total);
      ChunksTile(l.sends[k].packet, total);
    }
    SafeExactlyWhen(l, source);
  }

  /** A two-byte long-header packet in two datagrams. */
  function TwoBytes(o: Options, dest: Source, first: Byte, second: Byte, salt: Salt): (s: Sent) {
    var noise: Bytes := seq(PaddingLength(o, 1, 0), _ => 0);
    Sent(dest, [first, second], Randomness(2, [0, 0], [noise, noise], [salt, salt]))
  }

  /** 257 packets to one destination, all alike but the last. */
  function LongRun(o: Options, dest: Source, salt: Salt): (r: seq<Sent>)
    ensures |r| == 257
  {
    seq(256, _ => TwoBytes(o, dest, 0x80, 1, salt)) + [TwoBytes(o, dest, 0x81, 2, salt)]
  }

  lemma {:induction false} TwoChunks(first: Byte, second: Byte)
    ensures Chunk([first, second], 2, 0) == [first] && Chunk([first, second], 2, 1) == [second]
  {
  }

  lemma {:induction false} LongRunIsDrawn(l: Link, salt: Salt)
    requires ValidOptions(l.options) && l.sends == LongRun(l.options, l.dest, salt)
    ensures AllDrawn(l)
  {
    hide PaddingLength, Chunk;
    forall k | 0 <= k < 257 ensures Drawn(l.options, l.sends[k].packet, l.sends[k].rnd) {
      TwoChunks(0x80, 1);
      TwoChunks(0x81, 2);
    }
  }

  lemma {:induction false} LongRunCounts(o: Options, dest: Source, salt: Salt, k: nat)
    requires k <= 257
    ensures LongIn(LongRun(o, dest, salt)[..k]) == k
    decreases k
  {
    if k > 0 {
      assert LongRun(o, dest, salt)[..k][..k - 1] == LongRun(o, dest, salt)[..k - 1];
      LongRunCounts(o, dest, salt, k - 1);
    }
  }

  /** And 256 is as far as it goes: of 257 packets the first and the last can be handed up as one that neither is. */
  lemma {:induction false} LongRunMixes(l: Link, source: Source, salt: Salt)
    requires ValidOptions(l.options) && l.sends == LongRun(l.options, l.dest, salt)
    ensures |l.sends| == 257 && AllDrawn(l) && !SafeInEveryRun(l, source)
  {
    hide SafeInEveryRun, AllDrawn, IdOf, Chunk;
    LongRunIsDrawn(l, salt);
    var id := IdOf(l, 0);
    assert IdOf(l, 256) == id by { EndsShareId(l, salt); }
    var from := [0, 256];
    assert LongUnder(l, id, 2, 0) && LongUnder(l, id, 2, 256);
    assert IsMix(l, id, 2, from);
    TwoChunks(0x80, 1);
    TwoChunks(0x81, 2);
    assert MixedChunks(l, id, 2, from) == [[0x80], [2]];
    assert Concat([[0x80], [2]]) == [0x80, 2];
    forall k | 0 <= k < |l.sends| ensures l.sends[k].packet != [0x80, 2] {
      assert [0x80, 1][1] != [0x80, 2][1] && [0x81, 2][0] != [0x80, 2][0];
    }
    SafeExactlyWhen(l, source);
  }

  lemma {:induction false} EndsShareId(l: Link, salt: Salt)
    requires l.sends == LongRun(l.options, l.dest, salt)
    ensures IdOf(l, 0) == IdOf(l, 256)
  {
    hide LongRun, NextMessageId, CounterAfter;
    LongRunCounts(l.options, l.dest, salt, 0);
    LongRunCounts(l.options, l.dest, salt, 256);
    MessageIdsCycle(l.counter, 0);
    MessageIdsCycle(l.counter, 256);
  }
}
