/**
 The Gecko receiver with a source at its cap: eight incomplete messages admit no other of that source until one of them
 completes, expires or is evicted.
 */
module GeckoShutOut {
  import opened Bytes
  import opened Salamander
  import opened Gecko
  import opened Reassembler
  import opened GeckoRuns

  /** The event neither arrives under one of these keys nor removes one of their entries. */
  predicate Spares(codec: Codec, t: Table, e: Event, held: set<Key>) {
    && (KeyOf(codec, e).Some? ==> KeyOf(codec, e).value !in held)
    && (e.Sweep? ==> forall k :: k in held && k in t ==> e.now <= t[k].deadline)
    && (KeyOf(codec, e).Some? && Evicts(t, KeyOf(codec, e).value) ==> e.victim !in held)
  }

  ghost predicate AllSpare(codec: Codec, t: Table, es: seq<Event>, held: set<Key>) {
    forall n :: 0 <= n < |es| ==> Spares(codec, TableAfter(codec, t, es[..n]), es[n], held)
  }

  /** With no sweep and room in the table, an event spares what it does not arrive under. */
  lemma {:induction false} QuietSpares(codec: Codec, t: Table, e: Event, held: set<Key>)
    requires !e.Sweep? && |t| < MAX_REASSEMBLIES && (KeyOf(codec, e).Some? ==> KeyOf(codec, e).value !in held)
    ensures Spares(codec, t, e, held)
  {
    hide KeyOf;
  }

  /** The source holds exactly these entries, as many as it may. */
  predicate AtCap(t: Table, source: Source, held: set<Key>) {
    KeysOf(t, source) == held && |held| == MAX_REASSEMBLIES_PER_SOURCE
  }

  /** An event of the source that carries a frame for some other message is turned away. */
  lemma {:induction false} TurnedAwayAtCap(codec: Codec, t: Table, e: Event, source: Source, held: set<Key>)
    requires AtCap(t, source, held) && Spares(codec, t, e, held)
    requires KeyOf(codec, e).Some? && KeyOf(codec, e).value.source == source
    ensures Step(codec, t, e) == (t, None)
  {
    hide Step, KeyOf, FrameIn, FillSlot;
    StepCases(codec, t, e);
    var key := KeyOf(codec, e).value;
    assert key in t ==> key in KeysOf(t, source);
    assert CountOf(t, source) == MAX_REASSEMBLIES_PER_SOURCE;
  }

  /** Every other event leaves the source's entries as they are. */
  lemma {:induction false} OthersKeepCap(codec: Codec, t: Table, e: Event, source: Source, held: set<Key>)
    requires AtCap(t, source, held) && Spares(codec, t, e, held)
    requires KeyOf(codec, e).Some? ==> KeyOf(codec, e).value.source != source
    ensures AtCap(Step(codec, t, e).0, source, held)
  {
    hide Step, KeyOf;
    var after := Step(codec, t, e).0;
    forall k: Key | k.source == source ensures k in after <==> k in t {
      OtherEntryUntouched(codec, t, e, k);
      if k in t {
        assert k in held by { assert k in KeysOf(t, source); }
        EntrySurvivesExactlyWhen(codec, t, e, k);
      }
    }
    assert KeysOf(after, source) == KeysOf(t, source);
  }

  lemma {:induction false} StepKeepsCap(codec: Codec, t: Table, e: Event, source: Source, held: set<Key>)
    requires AtCap(t, source, held) && Spares(codec, t, e, held)
    ensures AtCap(Step(codec, t, e).0, source, held)
  {
    hide Step, KeyOf, AtCap, Spares;
    if KeyOf(codec, e).Some? && KeyOf(codec, e).value.source == source {
      TurnedAwayAtCap(codec, t, e, source, held);
    } else {
      OthersKeepCap(codec, t, e, source, held);
    }
  }

  lemma {:induction false} RunKeepsCap(codec: Codec, t: Table, es: seq<Event>, source: Source, held: set<Key>, n: nat)
    requires AtCap(t, source, held) && AllSpare(codec, t, es, held) && n <= |es|
    ensures AtCap(TableAfter(codec, t, es[..n]), source, held)
    decreases n
  {
    hide Step, AtCap, Spares;
    if n == 0 {
      assert es[..0] == [];
    } else {
      RunKeepsCap(codec, t, es, source, held, n - 1);
      NextTable(codec, t, es, n - 1);
      StepKeepsCap(codec, TableAfter(codec, t, es[..n - 1]), es[n - 1], source, held);
    }
  }

  /**
   A source at its cap is shut out: for as long as nothing arrives under its eight messages and none of them expires or
   is evicted, none of its frames for any other message is stored or hands anything up, however long the run.
   */
  lemma {:induction false} ShutOut(codec: Codec, t: Table, es: seq<Event>, source: Source, held: set<Key>, n: nat)
    requires AtCap(t, source, held) && AllSpare(codec, t, es, held) && n < |es|
    requires KeyOf(codec, es[n]).Some? && KeyOf(codec, es[n]).value.source == source
    ensures var before := TableAfter(codec, t, es[..n]); Step(codec, before, es[n]) == (before, None)
  {
    hide Step, KeyOf, AtCap, Spares;
    RunKeepsCap(codec, t, es, source, held, n);
    TurnedAwayAtCap(codec, TableAfter(codec, t, es[..n]), es[n], source, held);
  }

  // ----- and that happens -----

  /** The first of two chunks of a message. */
  function Opening(id: Byte): (f: GeckoFrame) {
    GeckoFrame(id, 0, 2, [], [0])
  }

  function OpeningWire(codec: Codec, id: Byte, salt: Salt): (wire: Bytes) {
    match EncodeFrame(Opening(id))
    case Ok(b) => Obfuscate(codec, b, salt)
    case Err(_) => []
  }

  lemma {:induction false} OpeningOpens(codec: Codec, id: Byte, salt: Salt)
    ensures Open(codec, OpeningWire(codec, id, salt)) == Fragment(Opening(id))
  {
    hide Obfuscate, Deobfuscate, EncodeFrame, DecodeFrame;
    FrameRoundTrip(Opening(id));
    ObfuscateRoundTrip(codec, EncodeFrame(Opening(id)).value, salt);
  }

  /** Eight messages begun, none continued. */
  function EightOpenings(codec: Codec, source: Source, salt: Salt): (es: seq<Event>)
    ensures |es| == MAX_REASSEMBLIES_PER_SOURCE
  {
    seq(MAX_REASSEMBLIES_PER_SOURCE, i requires 0 <= i < MAX_REASSEMBLIES_PER_SOURCE =>
      Arrive(source, OpeningWire(codec, i, salt), 0, Key(source, i)))
  }

  function FirstKeys(source: Source, n: nat): (r: set<Key>)
    requires n <= MAX_REASSEMBLIES_PER_SOURCE
    ensures |r| == n && forall k :: k in r ==> k.source == source && k.messageId < n
  {
    if n == 0 then {} else FirstKeys(source, n - 1) + {Key(source, n - 1)}
  }

  lemma {:induction false} OpeningStored(codec: Codec, t: Table, source: Source, salt: Salt, n: nat)
    requires n < MAX_REASSEMBLIES_PER_SOURCE && t.Keys == FirstKeys(source, n)
    ensures var e := EightOpenings(codec, source, salt)[n];
            && Lawful(codec, t, e)
            && Step(codec, t, e).0.Keys == FirstKeys(source, n + 1) && Step(codec, t, e).1 == None
  {
    hide Step, Open, OpeningWire;
    var e, key := EightOpenings(codec, source, salt)[n], Key(source, n);
    OpeningOpens(codec, n, salt);
    assert FrameIn(codec, e) == Some(Opening(n)) && KeyOf(codec, e) == Some(key);
    StepCases(codec, t, e);
    assert |t| == |t.Keys| == n;
    assert KeysOf(t, source) == t.Keys;
    AcceptFirst(t, source, Opening(n), 0, e.victim);
    var after := Step(codec, t, e).0;
    forall k: Key ensures k in after <==> k in t || k == key {
      if k != key {
        OtherEntryUntouched(codec, t, e, k);
        if k in t { EntrySurvivesExactlyWhen(codec, t, e, k); }
      }
    }
    assert after.Keys == t.Keys + {key};
  }

  lemma {:induction false} OpeningsFill(codec: Codec, source: Source, salt: Salt, n: nat)
    requires n <= MAX_REASSEMBLIES_PER_SOURCE
    ensures At(codec, EightOpenings(codec, source, salt), n).Keys == FirstKeys(source, n)
    decreases n
  {
    hide Step, EightOpenings;
    var es := EightOpenings(codec, source, salt);
    if n == 0 {
      StartsEmpty(codec, es);
    } else {
      OpeningsFill(codec, source, salt, n - 1);
      NextTable(codec, map[], es, n - 1);
      OpeningStored(codec, At(codec, es, n - 1), source, salt, n - 1);
    }
  }

  /** Eight messages of which only the first chunk arrives put a source at its cap. */
  lemma {:induction false} CapIsReachable(codec: Codec, source: Source, salt: Salt)
    ensures var es := EightOpenings(codec, source, salt);
            && IsRun(codec, map[], es)
            && AtCap(At(codec, es, |es|), source, FirstKeys(source, MAX_REASSEMBLIES_PER_SOURCE))
  {
    hide Lawful, EightOpenings, Step;
    var es := EightOpenings(codec, source, salt);
    forall n | 0 <= n < |es| ensures Lawful(codec, TableAfter(codec, map[], es[..n]), es[n]) {
      OpeningsFill(codec, source, salt, n);
      OpeningStored(codec, At(codec, es, n), source, salt, n);
    }
    OpeningsFill(codec, source, salt, |es|);
    var t := At(codec, es, |es|);
    assert KeysOf(t, source) == t.Keys;
  }
}
