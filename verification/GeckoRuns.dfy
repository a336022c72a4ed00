/**
 Whole runs of the Gecko receiver: what every run keeps, where each delivered packet comes from, and the round trip.
 */
module GeckoRuns {
  import opened Bytes
  import opened Slots
  import opened Salamander
  import opened Gecko
  import opened Reassembler

  /** A wire datagram from a source, with the entry eviction would pick if needed; or an expiry sweep at any time. */
  datatype Event =
    | Arrive(source: Source, wire: Bytes, now: nat, victim: Key)
    | Sweep(now: nat)

  /** The table afterwards and the packet handed up, if any. */
  function Step(codec: Codec, t: Table, e: Event): (r: (Table, Option<Bytes>)) {
    match e
    case Sweep(now) => (Expired(t, now), None)
    case Arrive(source, wire, now, victim) =>
      match Open(codec, wire)
      case Malformed => (t, None)
      case Whole(packet) => (t, Some(packet))
      case Fragment(f) => Accept(t, source, f, now, victim)
  }

  /** The frame an event carries to reassembly. */
  function FrameIn(codec: Codec, e: Event): (r: Option<GeckoFrame>) {
    if e.Arrive? && Open(codec, e.wire).Fragment? then Some(Open(codec, e.wire).frame) else None
  }

  /** The chunk number an event carries. */
  function IndexIn(codec: Codec, e: Event): (i: nat) {
    match FrameIn(codec, e)
    case Some(f) => f.chunkIndex
    case None => 0
  }

  /** The entry an event is for. */
  function KeyOf(codec: Codec, e: Event): (r: Option<Key>) {
    match FrameIn(codec, e)
    case Some(f) => Some(Key(e.source, f.messageId))
    case None => None
  }

  /** An event either reaches reassembly with a valid frame, or at most sweeps. */
  lemma {:induction false} StepCases(codec: Codec, t: Table, e: Event)
    ensures match KeyOf(codec, e)
            case Some(key) =>
              && e.Arrive? && FrameIn(codec, e).Some?
              && Encodable(FrameIn(codec, e).value)
              && key == Key(e.source, FrameIn(codec, e).value.messageId)
              && Step(codec, t, e) == Accept(t, e.source, FrameIn(codec, e).value, e.now, e.victim)
            case None =>
              if e.Sweep? then Step(codec, t, e) == (Expired(t, e.now), None) else Step(codec, t, e).0 == t
  {
    hide Open, Accept, Expired;
    if KeyOf(codec, e).Some? { OpenedFramesAreValid(codec, e.wire); }
  }

  /** A short-header packet is handed up at once, whatever the table holds, and leaves it as it is. */
  lemma {:induction false} ShortHeaderIsHandedUp(
    codec: Codec, t: Table, source: Source, packet: Bytes, salt: Salt, now: nat, victim: Key)
    requires packet != [] && packet[0] < 0x80
    ensures Step(codec, t, Arrive(source, Obfuscate(codec, packet, salt), now, victim)) == (t, Some(packet))
  {
    hide Open;
    OpenShortHeader(codec, packet, salt);
  }

  /** What is neither a short-header packet nor a valid frame is dropped without a trace. */
  lemma {:induction false} StrayIsDropped(codec: Codec, t: Table, e: Event)
    requires e.Arrive? && KeyOf(codec, e) == None
    requires forall packet, salt :: packet != [] && packet[0] < 0x80 ==> e.wire != Obfuscate(codec, packet, salt)
    ensures Step(codec, t, e) == (t, None)
  {
    hide Open, Obfuscate;
    match Open(codec, e.wire)
    case Whole(packet) => OpensWholeExactlyWhen(codec, e.wire, packet);
    case Malformed =>
    case Fragment(_) =>
  }

  function TableAfter(codec: Codec, t: Table, es: seq<Event>): (r: Table) {
    if es == [] then t else Step(codec, TableAfter(codec, t, es[..|es| - 1]), es[|es| - 1]).0
  }

  /** Eviction, when it happens, takes an oldest entry. */
  ghost predicate Lawful(codec: Codec, t: Table, e: Event) {
    KeyOf(codec, e).Some? && Evicts(t, KeyOf(codec, e).value) ==> IsOldest(t, e.victim)
  }

  ghost predicate IsRun(codec: Codec, t: Table, es: seq<Event>) {
    forall n :: 0 <= n < |es| ==> Lawful(codec, TableAfter(codec, t, es[..n]), es[n])
  }

  lemma {:induction false} StepKeepsInv(codec: Codec, t: Table, e: Event)
    requires TableInv(t) && Lawful(codec, t, e)
    ensures TableInv(Step(codec, t, e).0)
  {
    hide Step, KeyOf, FrameIn, Accept, TableInv, Expired;
    StepCases(codec, t, e);
    if KeyOf(codec, e).Some? {
      AcceptKeepsInv(t, e.source, FrameIn(codec, e).value, e.now, e.victim);
    } else if e.Sweep? {
      ExpiredKeepsInv(t, e.now);
    }
  }

  /** Every reachable table respects both caps and holds only well-formed entries. */
  lemma {:induction false} RunKeepsInv(codec: Codec, t: Table, es: seq<Event>, n: nat)
    requires TableInv(t) && IsRun(codec, t, es) && n <= |es|
    ensures TableInv(TableAfter(codec, t, es[..n]))
    decreases n
  {
    hide TableInv, Step;
    if n > 0 {
      RunKeepsInv(codec, t, es, n - 1);
      NextTable(codec, t, es, n - 1);
      StepKeepsInv(codec, TableAfter(codec, t, es[..n - 1]), es[n - 1]);
    } else {
      assert es[..0] == [];
    }
  }

  /** In numbers, from an empty table: both caps, a slot per chunk, and a count of the filled ones below the total. */
  lemma {:induction false} CapsHold(codec: Codec, es: seq<Event>)
    requires IsRun(codec, map[], es)
    ensures var after := TableAfter(codec, map[], es);
            && |after| <= 4096 && (forall s :: CountOf(after, s) <= 8)
            && forall k :: k in after ==>
                 && 2 <= |after[k].chunks| == after[k].total <= 8
                 && after[k].received == |Filled(after[k].chunks)| < after[k].total
  {
    hide *;
    EmptyTableInv();
    RunKeepsInv(codec, map[], es, |es|);
    assert es[..|es|] == es;
    CapsOf(TableAfter(codec, map[], es));
  }

  lemma {:induction false} CapsOf(t: Table)
    requires TableInv(t)
    ensures |t| <= 4096 && (forall s :: CountOf(t, s) <= 8)
    ensures forall k :: k in t ==>
              2 <= |t[k].chunks| == t[k].total <= 8 && t[k].received == |Filled(t[k].chunks)| < t[k].total
  {
    hide CountOf, Filled;
    forall k | k in t
      ensures 2 <= |t[k].chunks| == t[k].total <= 8 && t[k].received == |Filled(t[k].chunks)| < t[k].total
    {
      assert WellFormed(t[k]);
    }
  }

  lemma {:induction false} NextTable(codec: Codec, t: Table, es: seq<Event>, n: nat)
    requires n < |es|
    ensures TableAfter(codec, t, es[..n + 1]) == Step(codec, TableAfter(codec, t, es[..n]), es[n]).0
  {
    assert es[..n + 1][..n] == es[..n];
  }

  // ----- one entry through one step -----

  /** The event carries chunk `i` of `total` for this entry. */
  predicate Carries(codec: Codec, e: Event, key: Key, total: Byte, i: nat) {
    && KeyOf(codec, e) == Some(key)
    && FrameIn(codec, e).value.totalChunks == total && FrameIn(codec, e).value.chunkIndex == i
  }

  /** Slot `i` after the event: what it held, or what the event brings. */
  function SlotAfter(codec: Codec, held: Option<Bytes>, e: Event, key: Key, total: Byte, i: nat): (r: Option<Bytes>) {
    if held.Some? then held
    else if Carries(codec, e, key, total, i) then Some(FrameIn(codec, e).value.payload)
    else None
  }

  function SlotsAfter(codec: Codec, held: seq<Option<Bytes>>, e: Event, key: Key, total: Byte): (r: seq<Option<Bytes>>)
    ensures |r| == |held|
  {
    seq(|held|, i requires 0 <= i < |held| => SlotAfter(codec, held[i], e, key, total, i))
  }

  /** An entry present before and after an event keeps its count, and each slot keeps its first payload. */
  lemma {:induction false} EntryEvolves(codec: Codec, t: Table, e: Event, key: Key)
    requires TableInv(t) && key in t && key in Step(codec, t, e).0
    ensures var after := Step(codec, t, e).0[key];
            && after.total == t[key].total && |after.chunks| == |t[key].chunks| == after.total
            && forall i :: 0 <= i < after.total ==>
                 after.chunks[i] == SlotAfter(codec, t[key].chunks[i], e, key, after.total, i)
  {
    hide Step, KeyOf, FrameIn, Accept, Joined, FillSlot;
    StepCases(codec, t, e);
    StoredShape(t, key);
    if KeyOf(codec, e) == Some(key) {
      var f := FrameIn(codec, e).value;
      AcceptStored(t, e.source, f, e.now, e.victim);
      if t[key].total == f.totalChunks {
        FillStored(t, key, f.chunkIndex, f.payload);
      }
    } else {
      OtherEntryUntouched(codec, t, e, key);
    }
  }

  lemma {:induction false} StoredShape(t: Table, key: Key)
    requires TableInv(t) && key in t
    ensures |t[key].chunks| == t[key].total && t[key].received == |Filled(t[key].chunks)| < t[key].total
  {
    assert WellFormed(t[key]);
  }

  /** An arrival for a stored entry only ever touches that entry. */
  lemma {:induction false} AcceptStored(t: Table, source: Source, f: GeckoFrame, now: nat, victim: Key)
    requires Key(source, f.messageId) in t
    ensures var key := Key(source, f.messageId);
            Accept(t, source, f, now, victim) ==
            if t[key].total != f.totalChunks then (t, None) else FillSlot(t, key, f.chunkIndex, f.payload)
  {
    hide FillSlot, CountOf;
    var key := Key(source, f.messageId);
    if t[key].total == f.totalChunks {
      assert Located(t, key, f.totalChunks, now, victim) == t;
    }
  }

  /** Filling a slot either keeps the entry with that slot filled, or takes the full entry out. */
  lemma {:induction false} FillStored(t: Table, key: Key, index: nat, payload: Bytes)
    requires TableInv(t) && key in t && index < t[key].total
    ensures var r := FillSlot(t, key, index, payload);
            var chunks := t[key].chunks;
            var filled := if chunks[index].Some? then chunks else chunks[index := Some(payload)];
            if r.1.Some? then
              key !in r.0 && chunks[index].None? && r.1 == Some(Joined(filled)) &&
              forall i :: 0 <= i < |filled| ==> filled[i].Some?
            else key in r.0 && r.0[key].total == t[key].total && r.0[key].chunks == filled
  {
    hide TableInv, Joined;
    StoredShape(t, key);
    if t[key].chunks[index].None? {
      SlotFills(t[key].chunks, index, payload);
      FullSlots(t[key].chunks[index := Some(payload)]);
    }
  }

  /** Events for other entries, sweeps and strays leave an entry alone or remove it. */
  lemma {:induction false} OtherEntryUntouched(codec: Codec, t: Table, e: Event, key: Key)
    requires KeyOf(codec, e) != Some(key)
    ensures key in Step(codec, t, e).0 ==> key in t && Step(codec, t, e).0[key] == t[key]
  {
    hide Step, KeyOf, FrameIn, CountOf, Joined;
    StepCases(codec, t, e);
  }

  /** A stored entry survives an event for something else unless it has expired or is evicted, and only then. */
  lemma {:induction false} EntrySurvivesExactlyWhen(codec: Codec, t: Table, e: Event, key: Key)
    requires key in t && KeyOf(codec, e) != Some(key)
    ensures key in Step(codec, t, e).0 <==>
            && (e.Sweep? ==> e.now <= t[key].deadline)
            && (|t| >= 4096 && KeyOf(codec, e).Some? && KeyOf(codec, e).value !in t ==>
                  CountOf(t, KeyOf(codec, e).value.source) < 8 ==> e.victim != key)
  {
    hide Step, KeyOf, FrameIn, CountOf, Joined;
    StepCases(codec, t, e);
  }

  /** An entry's deadline is eight seconds after the arrival that made it, and later arrivals do not move it. */
  lemma {:induction false} DeadlineIsFixed(codec: Codec, t: Table, e: Event, key: Key)
    requires TableInv(t) && key in Step(codec, t, e).0
    ensures Step(codec, t, e).0[key].deadline == if key in t then t[key].deadline else e.now + 8_000_000_000
  {
    hide Step, KeyOf, FrameIn, Accept, Joined, Filled;
    StepCases(codec, t, e);
    if KeyOf(codec, e) != Some(key) {
      OtherEntryUntouched(codec, t, e, key);
    } else if key in t {
      AcceptStored(t, e.source, FrameIn(codec, e).value, e.now, e.victim);
    } else {
      NewEntryDeadline(t, e.source, FrameIn(codec, e).value, e.now, e.victim);
    }
  }

  lemma {:induction false} NewEntryDeadline(t: Table, source: Source, f: GeckoFrame, now: nat, victim: Key)
    requires Encodable(f) && Key(source, f.messageId) !in t
    ensures var key, after := Key(source, f.messageId), Accept(t, source, f, now, victim).0;
            key in after ==> after[key].deadline == now + REASSEMBLY_TTL
  {
    hide FillSlot, CountOf;
    var key := Key(source, f.messageId);
    FirstSlot(Cleared(t, key, victim), key, f.totalChunks, now, f.chunkIndex, f.payload);
  }

  /** An entry that appears was made by the event, holds just its chunk, and hands nothing up. */
  lemma {:induction false} EntryBorn(codec: Codec, t: Table, e: Event, key: Key)
    requires TableInv(t) && key !in t && key in Step(codec, t, e).0
    ensures KeyOf(codec, e) == Some(key)
    ensures var made := Step(codec, t, e).0[key];
            && made.total == FrameIn(codec, e).value.totalChunks == |made.chunks|
            && forall i :: 0 <= i < made.total ==> made.chunks[i] == SlotAfter(codec, None, e, key, made.total, i)
  {
    hide Step, KeyOf, FrameIn, CountOf, Filled, Joined, FillSlot;
    if KeyOf(codec, e) != Some(key) { OtherEntryUntouched(codec, t, e, key); }
    StepCases(codec, t, e);
    var f := FrameIn(codec, e).value;
    FirstSlot(Cleared(t, key, e.victim), key, f.totalChunks, e.now, f.chunkIndex, f.payload);
  }

  /** A completed message: its entry existed, with the frame's count, and lacked exactly the frame's chunk. */
  lemma {:induction false} CompletionNeedsAll(codec: Codec, t: Table, e: Event)
    requires TableInv(t) && KeyOf(codec, e).Some? && Step(codec, t, e).1.Some?
    ensures var key := KeyOf(codec, e).value;
            && key in t && t[key].total == FrameIn(codec, e).value.totalChunks == |t[key].chunks|
            && key !in Step(codec, t, e).0
            && var full := SlotsAfter(codec, t[key].chunks, e, key, t[key].total);
            && (forall i :: 0 <= i < |full| ==> full[i].Some?)
            && Step(codec, t, e).1 == Some(Joined(full))
  {
    hide Step, KeyOf, FrameIn, Accept, Joined, FillSlot;
    StepCases(codec, t, e);
    var key, f := KeyOf(codec, e).value, FrameIn(codec, e).value;
    if key !in t {
      NewEntryHandsUpNothing(t, e.source, f, e.now, e.victim);
    }
    AcceptStored(t, e.source, f, e.now, e.victim);
    StoredShape(t, key);
    FillStored(t, key, f.chunkIndex, f.payload);
    SlotsAfterOwn(codec, t[key].chunks, e, key);
  }

  /** For an event of the entry's own count, only its slot can change. */
  lemma {:induction false} SlotsAfterOwn(codec: Codec, held: seq<Option<Bytes>>, e: Event, key: Key)
    requires KeyOf(codec, e) == Some(key) && FrameIn(codec, e).Some?
    requires var f := FrameIn(codec, e).value;
             |held| == f.totalChunks && f.chunkIndex < |held| && held[f.chunkIndex].None?
    ensures var f := FrameIn(codec, e).value;
            held[f.chunkIndex := Some(f.payload)] == SlotsAfter(codec, held, e, key, f.totalChunks)
  {
    hide KeyOf, FrameIn;
  }

  lemma {:induction false} NewEntryHandsUpNothing(t: Table, source: Source, f: GeckoFrame, now: nat, victim: Key)
    requires Encodable(f) && Key(source, f.messageId) !in t
    ensures Accept(t, source, f, now, victim).1 == None
  {
    hide FillSlot, CountOf;
    var key := Key(source, f.messageId);
    FirstSlot(Cleared(t, key, victim), key, f.totalChunks, now, f.chunkIndex, f.payload);
  }

  // ----- provenance over a whole run from an empty table -----

  /** The table of the run after `n` events. */
  function At(codec: Codec, es: seq<Event>, n: nat): (r: Table)
    requires n <= |es|
  {
    TableAfter(codec, map[], es[..n])
  }

  lemma {:induction false} StartsEmpty(codec: Codec, es: seq<Event>)
    ensures At(codec, es, 0) == map[]
  {
    assert es[..0] == [];
  }

  /** The event that made the entry `key` has at time `n`. */
  function Born(codec: Codec, es: seq<Event>, n: nat, key: Key): (c: nat)
    requires 0 < n <= |es| && key in At(codec, es, n)
    ensures c < n
    decreases n
  {
    if n > 1 && key in At(codec, es, n - 1) then Born(codec, es, n - 1, key) else n - 1
  }

  /** The first payload for chunk `i` of `total` among the events `start..end`. */
  function First(codec: Codec, es: seq<Event>, start: nat, end: nat, key: Key, total: Byte, i: nat): (r: Option<Bytes>)
    requires start <= end <= |es|
    decreases end
  {
    if start == end then None
    else SlotAfter(codec, First(codec, es, start, end - 1, key, total, i), es[end - 1], key, total, i)
  }

  /** The entry was made at `c` and has been there ever since, up to time `n`. */
  ghost predicate AliveSince(codec: Codec, es: seq<Event>, c: nat, n: nat, key: Key) {
    && c < n <= |es|
    && key !in At(codec, es, c)
    && forall m :: c < m <= n ==> key in At(codec, es, m)
  }

  lemma {:induction false} EmptyTableInv()
    ensures TableInv(map[])
  {
    var t: Table := map[];
    forall s ensures CountOf(t, s) == 0 {
      assert KeysOf(t, s) == {};
    }
  }

  /** Every slot of every entry holds the first matching payload since the entry was made. */
  lemma {:induction false} SlotsHoldFirstPayloads(codec: Codec, es: seq<Event>, n: nat, key: Key)
    requires IsRun(codec, map[], es) && 0 < n <= |es| && key in At(codec, es, n)
    ensures var c, e := Born(codec, es, n, key), At(codec, es, n)[key];
            && AliveSince(codec, es, c, n, key)
            && |e.chunks| == e.total
            && forall i :: 0 <= i < e.total ==> e.chunks[i] == First(codec, es, c, n, key, e.total, i)
    decreases n
  {
    hide TableInv, Step, KeyOf, SlotAfter, IsRun;
    StartsEmpty(codec, es);
    EmptyTableInv();
    RunKeepsInv(codec, map[], es, n - 1);
    NextTable(codec, map[], es, n - 1);
    var before, e := At(codec, es, n - 1), es[n - 1];
    if key in before {
      SlotsHoldFirstPayloads(codec, es, n - 1, key);
      EntryEvolves(codec, before, e, key);
    } else {
      EntryBorn(codec, before, e, key);
      var total := At(codec, es, n)[key].total;
      forall i | 0 <= i < total
        ensures At(codec, es, n)[key].chunks[i] == First(codec, es, n - 1, n, key, total, i)
      {
        assert First(codec, es, n - 1, n - 1, key, total, i) == None;
      }
    }
  }

  /** The chunk payloads of a message, each the first to arrive among the events `c..n`. */
  function Firsts(codec: Codec, es: seq<Event>, c: nat, n: nat, key: Key, total: Byte): (r: seq<Option<Bytes>>)
    requires c <= n <= |es|
    ensures |r| == total
  {
    seq(total, i requires 0 <= i < total => First(codec, es, c, n, key, total, i))
  }

  /** Where a packet reassembled by event `n` came from. */
  ghost predicate Assembled(codec: Codec, es: seq<Event>, c: nat, n: nat, key: Key, total: Byte, packet: Bytes) {
    && n < |es|
    && AliveSince(codec, es, c, n, key)
    && var chunks := Firsts(codec, es, c, n + 1, key, total);
    && (forall i :: 0 <= i < total ==> chunks[i].Some?)
    && packet == Concat(Values(chunks))
  }

  /**
   Nothing is invented and nothing crosses sources: a reassembled packet is the concatenation, in index order, of
   exactly `total` payloads, each the first to arrive for its index, from this source, under this message id and
   with this total, since the entry was made and without the entry ever having gone away in between.
   */
  lemma {:induction false} ReassembledFromOneEntry(codec: Codec, es: seq<Event>, n: nat)
    requires IsRun(codec, map[], es) && n < |es| && KeyOf(codec, es[n]).Some?
    requires Step(codec, At(codec, es, n), es[n]).1.Some?
    ensures exists c :: Assembled(codec, es, c, n, KeyOf(codec, es[n]).value, FrameIn(codec, es[n]).value.totalChunks,
                                  Step(codec, At(codec, es, n), es[n]).1.value)
  {
    hide TableInv, Step, KeyOf, SlotAfter, IsRun, Joined, FrameIn;
    var key, t := KeyOf(codec, es[n]).value, At(codec, es, n);
    EmptyTableInv();
    StartsEmpty(codec, es);
    RunKeepsInv(codec, map[], es, n);
    CompletionNeedsAll(codec, t, es[n]);
    SlotsHoldFirstPayloads(codec, es, n, key);
    var c, total := Born(codec, es, n, key), t[key].total;
    var slots := SlotsAfter(codec, t[key].chunks, es[n], key, total);
    forall i | 0 <= i < total ensures slots[i] == First(codec, es, c, n + 1, key, total, i) {
      assert t[key].chunks[i] == First(codec, es, c, n, key, total, i);
    }
    assert slots == Firsts(codec, es, c, n + 1, key, total);
    JoinedIsConcat(slots);
    assert Assembled(codec, es, c, n, key, total, Step(codec, t, es[n]).1.value);
  }

  // ----- the round trip -----

  /** The chunk numbers that have arrived for an entry. */
  function SeenFor(codec: Codec, es: seq<Event>, key: Key): (r: set<nat>) {
    if es == [] then {}
    else
      var n := |es| - 1;
      SeenFor(codec, es[..n], key) +
      (if KeyOf(codec, es[n]) == Some(key) then {IndexIn(codec, es[n])} else {})
  }

  /** The table holds exactly the chunks in `seen` of this packet, or no entry if none has arrived. */
  ghost predicate Tracks(t: Table, key: Key, packet: Bytes, total: Byte, seen: set<nat>) {
    && seen <= Indices(total)
    && if seen == {} then key !in t
       else key in t && t[key].total == total == |t[key].chunks| &&
            forall i :: 0 <= i < total ==> t[key].chunks[i] == if i in seen then Some(Chunk(packet, total, i)) else None
  }

  /** The event is one of the packet's own datagrams. */
  ghost predicate IsOwn(codec: Codec, e: Event, source: Source, packet: Bytes, messageId: Byte, rnd: Randomness)
    requires |rnd.noise| == |rnd.salts| == rnd.total
  {
    && e.Arrive? && e.source == source
    && exists i :: 0 <= i < rnd.total && IsDatagramOf(codec, packet, messageId, rnd, i, e.wire)
  }

  lemma {:induction false} OwnFrame(
    codec: Codec, e: Event, source: Source, packet: Bytes, messageId: Byte, rnd: Randomness) returns (i: nat)
    requires |rnd.noise| == |rnd.salts| == rnd.total
    requires IsOwn(codec, e, source, packet, messageId, rnd)
    ensures i < rnd.total && KeyOf(codec, e) == Some(Key(source, messageId))
    ensures FrameIn(codec, e) == Some(FrameOf(packet, messageId, rnd, i))
  {
    i :| 0 <= i < rnd.total && IsDatagramOf(codec, packet, messageId, rnd, i, e.wire);
    OpenDatagram(codec, packet, messageId, rnd, i, e.wire);
  }

  /** One of the packet's own datagrams: a repeat is ignored, the last missing one delivers the packet. */
  lemma {:induction false} OwnArrival(
    codec: Codec, t: Table, e: Event, source: Source, packet: Bytes, messageId: Byte, rnd: Randomness, seen: set<nat>)
    requires |rnd.noise| == |rnd.salts| == rnd.total
    requires MIN_FRAGMENT_COUNT <= rnd.total <= MAX_FRAGMENT_COUNT
    requires TableInv(t) && IsOwn(codec, e, source, packet, messageId, rnd)
    requires var key := Key(source, messageId);
             && Tracks(t, key, packet, rnd.total, seen) && seen != Indices(rnd.total)
             && (key !in t ==> CountOf(t, source) < MAX_REASSEMBLIES_PER_SOURCE)
    ensures var key := Key(source, messageId);
            var now := seen + {IndexIn(codec, e)};
            && KeyOf(codec, e) == Some(key)
            && if now == Indices(rnd.total)
               then Step(codec, t, e).1 == Some(packet) && key !in Step(codec, t, e).0
               else Step(codec, t, e).1 == None && Tracks(Step(codec, t, e).0, key, packet, rnd.total, now)
  {
    hide Step, KeyOf, FrameIn, Accept, Chunk, Joined, CountOf, TableInv, IsOwn, FillSlot;
    var key, total := Key(source, messageId), rnd.total;
    var i := OwnFrame(codec, e, source, packet, messageId, rnd);
    StepCases(codec, t, e);
    if seen == {} {
      AcceptFirst(t, source, FrameIn(codec, e).value, e.now, e.victim);
      assert seen + {i} == {i} && 0 in Indices(total) && 1 in Indices(total);
    } else {
      AcceptStored(t, e.source, FrameIn(codec, e).value, e.now, e.victim);
      StoredCount(t, key, seen);
      FillTracked(t, key, packet, total, seen, i);
    }
  }

  /** The first chunk of a message the caps admit is stored alone. */
  lemma {:induction false} AcceptFirst(t: Table, source: Source, f: GeckoFrame, now: nat, victim: Key)
    requires Encodable(f) && Key(source, f.messageId) !in t && CountOf(t, source) < MAX_REASSEMBLIES_PER_SOURCE
    ensures var key, r := Key(source, f.messageId), Accept(t, source, f, now, victim);
            && r.1 == None && key in r.0 && r.0[key].total == f.totalChunks
            && r.0[key].chunks == Vacant(f.totalChunks)[f.chunkIndex := Some(f.payload)]
  {
    hide FillSlot, CountOf;
    var key := Key(source, f.messageId);
    FirstSlot(Cleared(t, key, victim), key, f.totalChunks, now, f.chunkIndex, f.payload);
  }

  lemma {:induction false} StoredCount(t: Table, key: Key, seen: set<nat>)
    requires TableInv(t) && key in t && seen <= Indices(t[key].total)
    requires forall i :: 0 <= i < |t[key].chunks| ==> (t[key].chunks[i].Some? <==> i in seen)
    ensures t[key].received == |seen|
  {
    assert WellFormed(t[key]);
    assert Filled(t[key].chunks) == seen;
  }

  lemma {:induction false} FillTracked(t: Table, key: Key, packet: Bytes, total: Byte, seen: set<nat>, i: nat)
    requires total > 0 && i < total && key in t && seen != {} && seen != Indices(total)
    requires Tracks(t, key, packet, total, seen) && t[key].received == |seen|
    ensures var r := FillSlot(t, key, i, Chunk(packet, total, i));
            if seen + {i} == Indices(total) then r.1 == Some(packet) && key !in r.0
            else r.1 == None && Tracks(r.0, key, packet, total, seen + {i})
  {
    hide Chunk, Joined;
    FullWhenAllSeen(seen + {i}, total);
    if i in seen {
      assert seen + {i} == seen;
    } else {
      assert |seen + {i}| == |seen| + 1;
      if seen + {i} == Indices(total) {
        var full := Filling(t[key], i, Chunk(packet, total, i)).chunks;
        forall j | 0 <= j < total ensures full[j] == Some(Chunk(packet, total, j)) {
          assert j in seen + {i};
        }
        AllChunksJoin(full, packet, total);
      }
    }
  }

  lemma {:induction false} AllChunksJoin(slots: seq<Option<Bytes>>, packet: Bytes, total: Byte)
    requires |slots| == total > 0 && forall j :: 0 <= j < total ==> slots[j] == Some(Chunk(packet, total, j))
    ensures Joined(slots) == packet
  {
    JoinedIsConcat(slots);
    assert Values(slots) == Chunks(packet, total);
    ChunksTile(packet, total);
  }

  /**
   What the round trip assumes of a run: arrivals under the key are this packet's datagrams, the source has room
   whenever one of them needs a new entry, and nothing but an arrival under the key removes the entry.
   */
  ghost predicate Undisturbed(
    codec: Codec, t: Table, es: seq<Event>, source: Source, packet: Bytes, messageId: Byte, rnd: Randomness)
    requires |rnd.noise| == |rnd.salts| == rnd.total
  {
    forall n :: 0 <= n < |es| ==>
      var key, before := Key(source, messageId), TableAfter(codec, t, es[..n]);
      if KeyOf(codec, es[n]) == Some(key)
      then IsOwn(codec, es[n], source, packet, messageId, rnd) &&
           (key !in before ==> CountOf(before, source) < MAX_REASSEMBLIES_PER_SOURCE)
      else key in before ==> key in Step(codec, before, es[n]).0
  }

  lemma {:induction false} OtherArrival(
    codec: Codec, t: Table, e: Event, key: Key, packet: Bytes, total: Byte, seen: set<nat>)
    requires Tracks(t, key, packet, total, seen) && KeyOf(codec, e) != Some(key)
    requires key in t ==> key in Step(codec, t, e).0
    ensures Tracks(Step(codec, t, e).0, key, packet, total, seen)
  {
    hide Step, KeyOf, Chunk;
    OtherEntryUntouched(codec, t, e, key);
  }

  lemma {:induction false} TrackedThroughout(
    codec: Codec, t: Table, es: seq<Event>, source: Source, packet: Bytes, messageId: Byte, rnd: Randomness, n: nat)
    requires |rnd.noise| == |rnd.salts| == rnd.total
    requires MIN_FRAGMENT_COUNT <= rnd.total <= MAX_FRAGMENT_COUNT
    requires TableInv(t) && IsRun(codec, t, es) && n <= |es|
    requires Undisturbed(codec, t, es, source, packet, messageId, rnd) && Key(source, messageId) !in t
    requires SeenFor(codec, es[..n], Key(source, messageId)) != Indices(rnd.total)
    ensures Tracks(TableAfter(codec, t, es[..n]), Key(source, messageId), packet, rnd.total,
                   SeenFor(codec, es[..n], Key(source, messageId)))
    decreases n
  {
    hide *;
    var key, total := Key(source, messageId), rnd.total;
    if n == 0 {
      StartOfRun(codec, t, es, key, packet, total);
    } else {
      var e, before := es[n - 1], TableAfter(codec, t, es[..n - 1]);
      RunKeepsInv(codec, t, es, n - 1);
      NextTable(codec, t, es, n - 1);
      var seen := SeenFor(codec, es[..n - 1], key);
      SeenStep(codec, es, n - 1, key);
      UndisturbedAt(codec, t, es, source, packet, messageId, rnd, n - 1);
      if KeyOf(codec, e) == Some(key) {
        var i := OwnFrame(codec, e, source, packet, messageId, rnd);
        OwnIndex(codec, e, packet, messageId, rnd, i);
        assert i in Indices(total);
        assert seen == Indices(total) ==> seen + {i} == seen;
        TrackedThroughout(codec, t, es, source, packet, messageId, rnd, n - 1);
        OwnArrival(codec, before, e, source, packet, messageId, rnd, seen);
      } else {
        TrackedThroughout(codec, t, es, source, packet, messageId, rnd, n - 1);
        OtherArrival(codec, before, e, key, packet, total, seen);
      }
    }
  }

  lemma {:induction false} OwnIndex(codec: Codec, e: Event, packet: Bytes, messageId: Byte, rnd: Randomness, i: nat)
    requires i < rnd.total == |rnd.noise| && FrameIn(codec, e) == Some(FrameOf(packet, messageId, rnd, i))
    ensures IndexIn(codec, e) == i
  {
  }

  lemma {:induction false} SeenStep(codec: Codec, es: seq<Event>, n: nat, key: Key)
    requires n < |es|
    ensures SeenFor(codec, es[..n + 1], key) ==
            if KeyOf(codec, es[n]) == Some(key) then SeenFor(codec, es[..n], key) + {IndexIn(codec, es[n])}
            else SeenFor(codec, es[..n], key)
  {
    assert es[..n + 1][..n] == es[..n];
  }

  lemma {:induction false} UndisturbedAt(
    codec: Codec, t: Table, es: seq<Event>, source: Source, packet: Bytes, messageId: Byte, rnd: Randomness, n: nat)
    requires |rnd.noise| == |rnd.salts| == rnd.total && n < |es|
    requires Undisturbed(codec, t, es, source, packet, messageId, rnd)
    ensures var key, before := Key(source, messageId), TableAfter(codec, t, es[..n]);
            if KeyOf(codec, es[n]) == Some(key)
            then IsOwn(codec, es[n], source, packet, messageId, rnd) &&
                 (key !in before ==> CountOf(before, source) < MAX_REASSEMBLIES_PER_SOURCE)
            else key in before ==> key in Step(codec, before, es[n]).0
  {
    hide IsOwn, Step, KeyOf, CountOf;
  }

  lemma {:induction false} StartOfRun(codec: Codec, t: Table, es: seq<Event>, key: Key, packet: Bytes, total: Byte)
    requires key !in t
    ensures Tracks(TableAfter(codec, t, es[..0]), key, packet, total, SeenFor(codec, es[..0], key))
  {
    assert es[..0] == [];
  }

  /**
   The round trip. Whatever else arrives in between, and however often or in whatever order a packet's datagrams
   arrive, each hands up nothing until the last missing one, which hands up exactly the packet and clears the entry.
   */
  lemma {:induction false} GeckoRoundTrip(
    codec: Codec, t: Table, es: seq<Event>, source: Source, packet: Bytes, messageId: Byte, rnd: Randomness, n: nat)
    requires |rnd.noise| == |rnd.salts| == rnd.total
    requires MIN_FRAGMENT_COUNT <= rnd.total <= MAX_FRAGMENT_COUNT
    requires TableInv(t) && IsRun(codec, t, es) && n < |es|
    requires Undisturbed(codec, t, es, source, packet, messageId, rnd) && Key(source, messageId) !in t
    requires KeyOf(codec, es[n]) == Some(Key(source, messageId))
    requires SeenFor(codec, es[..n], Key(source, messageId)) != Indices(rnd.total)
    ensures var complete := SeenFor(codec, es[..n + 1], Key(source, messageId)) == Indices(rnd.total);
            && Step(codec, TableAfter(codec, t, es[..n]), es[n]).1 == (if complete then Some(packet) else None)
            && (complete ==> Key(source, messageId) !in TableAfter(codec, t, es[..n + 1]))
  {
    hide *;
    var key := Key(source, messageId);
    SeenStep(codec, es, n, key);
    TrackedThroughout(codec, t, es, source, packet, messageId, rnd, n);
    RunKeepsInv(codec, t, es, n);
    NextTable(codec, t, es, n);
    UndisturbedAt(codec, t, es, source, packet, messageId, rnd, n);
    OwnArrival(codec, TableAfter(codec, t, es[..n]), es[n], source, packet, messageId, rnd,
               SeenFor(codec, es[..n], key));
  }
}
