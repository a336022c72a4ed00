/**
 The multi-source reassembler: a table of incomplete messages keyed by source and message id, a redundant
 per-source counter, two caps, eviction of the oldest entry and expiry.
 */
module Reassembler {
  import opened Bytes
  import opened Sets
  import opened Slots
  import opened Gecko

  const MAX_REASSEMBLIES: nat := 4096
  const MAX_REASSEMBLIES_PER_SOURCE: nat := 8
  const REASSEMBLY_TTL: nat := 8_000_000_000

  type Source = Bytes

  datatype Key = Key(source: Source, messageId: Byte)

  datatype Entry = Entry(chunks: seq<Option<Bytes>>, received: nat, total: Byte, deadline: nat)

  type Table = map<Key, Entry>

  // ----- what the counters should say -----

  function KeysOf(t: Table, source: Source): (r: set<Key>) {
    set k | k in t.Keys && k.source == source
  }

  function CountOf(t: Table, source: Source): (n: nat) {
    |KeysOf(t, source)|
  }

  /** The per-source counters a table calls for: one per source with an entry, none at zero. */
  function Counts(t: Table): (r: map<Source, nat>) {
    map s | s in (set k | k in t.Keys :: k.source) :: CountOf(t, s)
  }

  lemma {:induction false} CountsLookup(t: Table, source: Source)
    ensures source in Counts(t) <==> CountOf(t, source) > 0
    ensures source in Counts(t) ==> Counts(t)[source] == CountOf(t, source)
  {
    if source in Counts(t) {
      var k :| k in t.Keys && k.source == source;
      assert k in KeysOf(t, source);
    } else {
      assert forall k :: k in t.Keys ==> k.source in Counts(t);
      assert KeysOf(t, source) == {};
    }
  }

  lemma {:induction false} CountAfterInsert(t: Table, key: Key, e: Entry, source: Source)
    requires key !in t
    ensures CountOf(t[key := e], source) == CountOf(t, source) + (if source == key.source then 1 else 0)
  {
    if source == key.source {
      assert KeysOf(t[key := e], source) == KeysOf(t, source) + {key};
    } else {
      assert KeysOf(t[key := e], source) == KeysOf(t, source);
    }
  }

  lemma {:induction false} CountAfterRemove(t: Table, key: Key, source: Source)
    requires key in t
    ensures CountOf(t - {key}, source) == CountOf(t, source) - (if source == key.source then 1 else 0)
  {
    if source == key.source {
      assert KeysOf(t, source) == KeysOf(t - {key}, source) + {key};
    } else {
      assert KeysOf(t - {key}, source) == KeysOf(t, source);
    }
  }

  lemma {:induction false} CountAfterUpdate(t: Table, key: Key, e: Entry, source: Source)
    requires key in t
    ensures CountOf(t[key := e], source) == CountOf(t, source)
  {
    assert KeysOf(t[key := e], source) == KeysOf(t, source);
  }

  /** Counter maps are equal when they agree source by source. */
  lemma {:induction false} CountsAre(m: map<Source, nat>, t: Table)
    requires forall s :: s in m <==> CountOf(t, s) > 0
    requires forall s :: s in m ==> m[s] == CountOf(t, s)
    ensures m == Counts(t)
  {
    forall s ensures (s in m <==> s in Counts(t)) && (s in m ==> m[s] == Counts(t)[s]) {
      CountsLookup(t, s);
    }
  }

  // ----- the invariant -----

  /** A stored entry: a slot per chunk, some but not all of them filled, and `received` saying how many. */
  predicate WellFormed(e: Entry) {
    && MIN_FRAGMENT_COUNT <= e.total <= MAX_FRAGMENT_COUNT
    && |e.chunks| == e.total
    && e.received == |Filled(e.chunks)|
    && 0 < e.received < e.total
  }

  ghost predicate TableInv(t: Table) {
    && |t| <= MAX_REASSEMBLIES
    && (forall k :: k in t ==> WellFormed(t[k]))
    && (forall s :: CountOf(t, s) <= MAX_REASSEMBLIES_PER_SOURCE)
  }

  lemma {:induction false} RemoveKeepsInv(t: Table, key: Key)
    requires TableInv(t) && key in t
    ensures TableInv(t - {key})
  {
    hide WellFormed;
    assert t.Keys == (t - {key}).Keys + {key};
    forall s ensures CountOf(t - {key}, s) <= MAX_REASSEMBLIES_PER_SOURCE {
      CountAfterRemove(t, key, s);
    }
  }

  lemma {:induction false} UpdateKeepsInv(t: Table, key: Key, e: Entry)
    requires TableInv(t) && key in t && WellFormed(e)
    ensures TableInv(t[key := e])
  {
    hide WellFormed;
    assert t[key := e].Keys == t.Keys;
    var after := t[key := e];
    forall s ensures CountOf(after, s) <= MAX_REASSEMBLIES_PER_SOURCE {
      CountAfterUpdate(t, key, e, s);
    }
  }

  lemma {:induction false} InsertKeepsInv(t: Table, key: Key, e: Entry)
    requires TableInv(t) && key !in t && WellFormed(e)
    requires |t| < MAX_REASSEMBLIES && CountOf(t, key.source) < MAX_REASSEMBLIES_PER_SOURCE
    ensures TableInv(t[key := e])
  {
    hide WellFormed;
    assert t[key := e].Keys == t.Keys + {key};
    var after := t[key := e];
    forall s ensures CountOf(after, s) <= MAX_REASSEMBLIES_PER_SOURCE {
      CountAfterInsert(t, key, e, s);
    }
  }

  // ----- one arrival, as a value -----

  /** An entry nothing outlives: what eviction may choose. Hash order decides between equals. */
  predicate IsOldest(t: Table, key: Key) {
    key in t && forall k :: k in t ==> t[key].deadline <= t[k].deadline
  }

  function NewEntry(total: Byte, now: nat): (e: Entry) {
    Entry(Vacant(total), 0, total, now + REASSEMBLY_TTL)
  }

  /** The arrival needs an entry that does not exist yet, is admitted, and finds the table full. */
  predicate Evicts(t: Table, key: Key) {
    key !in t && CountOf(t, key.source) < MAX_REASSEMBLIES_PER_SOURCE && |t| >= MAX_REASSEMBLIES
  }

  /** Turned away: another count under this key, or no room left for the source. */
  predicate TurnedAway(t: Table, key: Key, total: Byte) {
    if key in t then t[key].total != total else CountOf(t, key.source) >= MAX_REASSEMBLIES_PER_SOURCE
  }

  /** The table with room for `key`: itself, or with the victim gone. */
  function Cleared(t: Table, key: Key, victim: Key): (r: Table) {
    if Evicts(t, key) then t - {victim} else t
  }

  function EntryFor(t: Table, key: Key, total: Byte, now: nat): (e: Entry) {
    if key in t then t[key] else NewEntry(total, now)
  }

  function Filling(e: Entry, index: nat, payload: Bytes): (r: Entry)
    requires index < |e.chunks|
  {
    e.(chunks := e.chunks[index := Some(payload)], received := e.received + 1)
  }

  /** The table once the arrival's entry is in it. */
  function Located(t: Table, key: Key, total: Byte, now: nat, victim: Key): (r: Table)
    ensures key in r
  {
    Cleared(t, key, victim)[key := EntryFor(t, key, total, now)]
  }

  /** Filling a slot of a stored entry: nothing if it is taken, the packet if that was the last one. */
  function FillSlot(t: Table, key: Key, index: nat, payload: Bytes): (r: (Table, Option<Bytes>))
    requires key in t
  {
    var e := t[key];
    if index >= |e.chunks| || e.chunks[index].Some? then (t, None)
    else
      var filling := Filling(e, index, payload);
      if filling.received < filling.total then (t[key := filling], None)
      else (t - {key}, Some(Joined(filling.chunks)))
  }

  /** The table after an arrival and the packet it completes, if any. */
  function Accept(t: Table, source: Source, f: GeckoFrame, now: nat, victim: Key): (r: (Table, Option<Bytes>)) {
    var key := Key(source, f.messageId);
    if TurnedAway(t, key, f.totalChunks) then (t, None)
    else FillSlot(Located(t, key, f.totalChunks, now, victim), key, f.chunkIndex, f.payload)
  }

  function Expired(t: Table, now: nat): (r: Table) {
    map k | k in t && now <= t[k].deadline :: t[k]
  }

  /** Filling a slot of a stored entry keeps the invariant. */
  lemma {:induction false} FillSlotKeepsInv(t: Table, key: Key, index: nat, payload: Bytes)
    requires TableInv(t) && key in t
    ensures TableInv(FillSlot(t, key, index, payload).0)
  {
    hide CountOf, Joined;
    var e := t[key];
    assert WellFormed(e);
    if index < |e.chunks| && e.chunks[index].None? {
      SlotFills(e.chunks, index, payload);
      var filling := Filling(e, index, payload);
      if filling.received < filling.total {
        UpdateKeepsInv(t, key, filling);
      } else {
        RemoveKeepsInv(t, key);
      }
    }
  }

  /** A first chunk never completes a message, so a new entry is stored well formed. */
  lemma {:induction false} FirstSlot(t: Table, key: Key, total: Byte, now: nat, index: nat, payload: Bytes)
    requires MIN_FRAGMENT_COUNT <= total <= MAX_FRAGMENT_COUNT && index < total
    ensures var filling := Filling(NewEntry(total, now), index, payload);
            && WellFormed(filling)
            && FillSlot(t[key := NewEntry(total, now)], key, index, payload) == (t[key := filling], None)
  {
    VacantIsEmpty<Bytes>(total);
    SlotFills(Vacant<Bytes>(total), index, payload);
    var e := NewEntry(total, now);
    var filling := Filling(e, index, payload);
    assert t[key := e][key := filling] == t[key := filling];
  }

  lemma {:induction false} ClearedKeepsInv(t: Table, key: Key, victim: Key)
    requires TableInv(t) && (Evicts(t, key) ==> victim in t)
    ensures TableInv(Cleared(t, key, victim))
    ensures key in Cleared(t, key, victim) <==> key in t
    ensures key !in t && CountOf(t, key.source) < MAX_REASSEMBLIES_PER_SOURCE ==>
              |Cleared(t, key, victim)| < MAX_REASSEMBLIES &&
              CountOf(Cleared(t, key, victim), key.source) < MAX_REASSEMBLIES_PER_SOURCE
  {
    if Evicts(t, key) {
      RemoveKeepsInv(t, victim);
      CountAfterRemove(t, victim, key.source);
      assert t.Keys == (t - {victim}).Keys + {victim};
    }
  }

  /** Every arrival keeps the invariant, whichever oldest entry eviction picks. */
  lemma {:induction false} AcceptKeepsInv(t: Table, source: Source, f: GeckoFrame, now: nat, victim: Key)
    requires TableInv(t) && Encodable(f)
    requires Evicts(t, Key(source, f.messageId)) ==> IsOldest(t, victim)
    ensures TableInv(Accept(t, source, f, now, victim).0)
  {
    hide CountOf, TableInv, FillSlot, Filling;
    var key, total := Key(source, f.messageId), f.totalChunks;
    if !TurnedAway(t, key, total) {
      ClearedKeepsInv(t, key, victim);
      if key in t {
        assert Located(t, key, total, now, victim) == t;
        FillSlotKeepsInv(t, key, f.chunkIndex, f.payload);
      } else {
        var room := Cleared(t, key, victim);
        FirstSlot(room, key, total, now, f.chunkIndex, f.payload);
        InsertKeepsInv(room, key, Filling(NewEntry(total, now), f.chunkIndex, f.payload));
      }
    }
  }

  lemma {:induction false} ExpiredKeepsInv(t: Table, now: nat)
    requires TableInv(t)
    ensures TableInv(Expired(t, now))
  {
    hide WellFormed;
    var kept := Expired(t, now);
    assert kept.Keys <= t.Keys;
    SubsetSize(kept.Keys, t.Keys);
    forall s ensures CountOf(kept, s) <= MAX_REASSEMBLIES_PER_SOURCE {
      SubsetSize(KeysOf(kept, s), KeysOf(t, s));
      assert CountOf(t, s) <= MAX_REASSEMBLIES_PER_SOURCE;
    }
  }

  lemma {:induction false} RemovingExpired(t: Table, all: set<Key>, now: nat)
    requires forall k :: k in all <==> k in t && now > t[k].deadline
    ensures t - all == Expired(t, now)
  {
    var a, b := t - all, Expired(t, now);
    forall k ensures k in a <==> k in b {
    }
    forall k | k in a ensures a[k] == b[k] {
    }
  }

  lemma {:induction false} OldestExists(t: Table)
    requires |t| > 0
    ensures exists k :: IsOldest(t, k)
    decreases |t|
  {
    var k :| k in t;
    var rest := t - {k};
    assert t.Keys == rest.Keys + {k};
    if |rest| > 0 {
      OldestExists(rest);
      var j :| IsOldest(rest, j);
      if t[j].deadline <= t[k].deadline { assert IsOldest(t, j); } else { assert IsOldest(t, k); }
    } else {
      assert IsOldest(t, k);
    }
  }

  // ----- the mutable table -----

  class Reassembler {
    var entries: Table
    var perSource: map<Source, nat>

    /** The counters are exactly what the entries call for. */
    ghost predicate Valid()
      reads this
    {
      TableInv(entries) && perSource == Counts(entries)
    }

    constructor ()
      ensures Valid() && entries == map[]
    {
      entries, perSource := map[], map[];
      new;
      assert Counts(entries) == map[];
      forall s ensures CountOf(entries, s) == 0 {
        assert KeysOf(entries, s) == {};
      }
    }

    /** Removes an entry and its share of the counter; the decrement cannot go below zero. */
    method DropEntry(key: Key)
      requires perSource == Counts(entries)
      modifies this
      ensures entries == old(entries) - {key}
      ensures perSource == Counts(entries)
    {
      if key !in entries { return; }
      ghost var t := entries;
      entries := entries - {key};
      CountsLookup(t, key.source);
      assert key in KeysOf(t, key.source);
      if key.source in perSource {
        var count: nat := perSource[key.source] - 1;
        perSource := if count == 0 then perSource - {key.source} else perSource[key.source := count];
      }
      forall s
        ensures s in perSource <==> CountOf(entries, s) > 0
        ensures s in perSource ==> perSource[s] == CountOf(entries, s)
      {
        CountsLookup(t, s);
        CountAfterRemove(t, key, s);
      }
      CountsAre(perSource, entries);
    }

    method EvictOldest() returns (ghost victim: Key)
      requires perSource == Counts(entries) && |entries| > 0
      modifies this
      ensures IsOldest(old(entries), victim) && entries == old(entries) - {victim}
      ensures forall k :: k in old(entries) ==> old(entries)[victim].deadline <= old(entries)[k].deadline
      ensures perSource == Counts(entries)
    {
      OldestExists(entries);
      var key :| IsOldest(entries, key);
      victim := key;
      DropEntry(key);
    }

    method AddEntry(key: Key, e: Entry)
      requires perSource == Counts(entries) && key !in entries
      modifies this
      ensures entries == old(entries)[key := e] && perSource == Counts(entries)
    {
      ghost var t := entries;
      entries := entries[key := e];
      CountsLookup(t, key.source);
      perSource := perSource[key.source := (if key.source in perSource then perSource[key.source] else 0) + 1];
      forall s
        ensures s in perSource <==> CountOf(entries, s) > 0
        ensures s in perSource ==> perSource[s] == CountOf(entries, s)
      {
        CountsLookup(t, s);
        CountAfterInsert(t, key, e, s);
      }
      CountsAre(perSource, entries);
    }

    method Replace(key: Key, e: Entry)
      requires perSource == Counts(entries) && key in entries
      modifies this
      ensures entries == old(entries)[key := e] && perSource == Counts(entries)
    {
      ghost var t := entries;
      entries := entries[key := e];
      forall s
        ensures s in perSource <==> CountOf(entries, s) > 0
        ensures s in perSource ==> perSource[s] == CountOf(entries, s)
      {
        CountsLookup(t, s);
        CountAfterUpdate(t, key, e, s);
      }
      CountsAre(perSource, entries);
    }

    /** Finds the entry an arrival belongs to, making one if the caps allow. */
    method Locate(key: Key, total: Byte, now: nat) returns (found: bool, ghost victim: Key)
      requires Valid()
      modifies this
      ensures perSource == Counts(entries)
      ensures found <==> !TurnedAway(old(entries), key, total)
      ensures Evicts(old(entries), key) ==> IsOldest(old(entries), victim)
      ensures entries == if found then Located(old(entries), key, total, now, victim) else old(entries)
    {
      hide Counts, WellFormed, CountOf, IsOldest;
      victim := key;
      if key in entries {
        assert entries == entries[key := entries[key]];
        return entries[key].total == total, victim;
      }
      CountsLookup(entries, key.source);
      if (if key.source in perSource then perSource[key.source] else 0) >= MAX_REASSEMBLIES_PER_SOURCE {
        return false, victim;
      }
      if |entries| >= MAX_REASSEMBLIES { victim := EvictOldest(); }
      AddEntry(key, NewEntry(total, now));
      return true, victim;
    }

    method Fill(key: Key, index: nat, payload: Bytes) returns (packet: Option<Bytes>)
      requires perSource == Counts(entries) && key in entries
      modifies this
      ensures perSource == Counts(entries)
      ensures (entries, packet) == FillSlot(old(entries), key, index, payload)
    {
      hide Counts, Joined;
      var entry := entries[key];
      if index >= |entry.chunks| || entry.chunks[index].Some? { return None; }
      entry := entry.(chunks := entry.chunks[index := Some(payload)], received := entry.received + 1);
      ghost var t := entries;
      Replace(key, entry);
      if entry.received < entry.total { return None; }
      var joined := Join(entry.chunks);
      DropEntry(key);
      assert t[key := entry] - {key} == t - {key};
      return Some(joined);
    }

    /** One arrival, in place. */
    method AcceptFrame(source: Source, frame: GeckoFrame, now: nat) returns (packet: Option<Bytes>, ghost victim: Key)
      requires Valid() && Encodable(frame)
      modifies this
      ensures Valid()
      ensures Evicts(old(entries), Key(source, frame.messageId)) ==> IsOldest(old(entries), victim)
      ensures (entries, packet) == Accept(old(entries), source, frame, now, victim)
    {
      hide Counts, IsOldest, TableInv, TurnedAway, Located, FillSlot;
      var key := Key(source, frame.messageId);
      ghost var t := entries;
      var found;
      found, victim := Locate(key, frame.totalChunks, now);
      AcceptKeepsInv(t, source, frame, now, victim);
      if !found { return None, victim; }
      packet := Fill(key, frame.chunkIndex, frame.payload);
    }

    /** Drops every entry whose deadline has passed, one at a time in any order. */
    method Expire(now: nat)
      requires Valid()
      modifies this
      ensures Valid() && entries == Expired(old(entries), now)
    {
      hide Counts, TableInv;
      ghost var t := entries;
      var expired := set k | k in entries && now > entries[k].deadline;
      ghost var all := expired;
      assert entries == t - (all - expired);
      while expired != {}
        invariant perSource == Counts(entries)
        invariant expired <= all && entries == t - (all - expired)
        decreases |expired|
      {
        var key :| key in expired;
        assert t - (all - expired) - {key} == t - (all - (expired - {key}));
        expired := expired - {key};
        DropEntry(key);
      }
      assert all - expired == all;
      RemovingExpired(t, all, now);
      ExpiredKeepsInv(t, now);
    }
  }

  /** Concatenates the filled slots in order. */
  method Join(chunks: seq<Option<Bytes>>) returns (packet: Bytes)
    ensures packet == Joined(chunks)
  {
    packet := [];
    for i := 0 to |chunks|
      invariant packet == Joined(chunks[..i])
    {
      assert chunks[..i + 1][..i] == chunks[..i];
      packet := packet + (match chunks[i] case Some(c) => c case None => []);
    }
    assert chunks[..|chunks|] == chunks;
  }
}
