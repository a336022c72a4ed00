/** The defragmenter on arbitrary arrivals from a peer: what its slot holds, and exactly what it hands up. */
module FragmentRuns {
  import opened Bytes
  import opened Slots
  import opened Proxy
  import opened Fragment

  /** A message the slot is used for: one of several pieces, numbered within their count. */
  predicate IsPiece(m: UdpMessage) {
    m.fragmentCount >= 2 && m.fragmentId < m.fragmentCount
  }

  function KeyOf(m: UdpMessage): (r: (U16, nat)) {
    (m.packetId, m.fragmentCount)
  }

  /** The packet id and count of the latest piece among the first `n` arrivals. */
  function Latest(ms: seq<UdpMessage>, n: nat): (r: Option<(U16, nat)>)
    requires n <= |ms|
  {
    if n == 0 then None else if IsPiece(ms[n - 1]) then Some(KeyOf(ms[n - 1])) else Latest(ms, n - 1)
  }

  /** Where the stretch of pieces under the latest key began: the arrival that last took the slot over. */
  function Since(ms: seq<UdpMessage>, n: nat): (c: nat)
    requires n <= |ms|
    ensures c <= n && (n > 0 ==> c < n)
  {
    if n == 0 then 0
    else if IsPiece(ms[n - 1]) && Latest(ms, n - 1) != Some(KeyOf(ms[n - 1])) then n - 1
    else Since(ms, n - 1)
  }

  /** The first piece number `i` among the arrivals `start..end`. */
  function First(ms: seq<UdpMessage>, start: nat, end: nat, i: nat): (r: Option<UdpMessage>)
    requires start <= end <= |ms|
    decreases end
  {
    if start == end then None
    else if First(ms, start, end - 1, i).Some? then First(ms, start, end - 1, i)
    else if IsPiece(ms[end - 1]) && ms[end - 1].fragmentId == i then Some(ms[end - 1])
    else None
  }

  function Firsts(ms: seq<UdpMessage>, start: nat, end: nat, count: nat): (r: seq<Option<UdpMessage>>)
    requires start <= end <= |ms|
    ensures |r| == count
  {
    seq(count, i requires 0 <= i < count => First(ms, start, end, i))
  }

  /** The slot after `n` arrivals: taken by the latest key, and holding the first piece of each number since then. */
  ghost predicate HoldsFirsts(ms: seq<UdpMessage>, n: nat)
    requires n <= |ms|
  {
    var s := FeedAll(EMPTY, ms[..n]);
    match Latest(ms, n)
    case None => s == EMPTY
    case Some((id, count)) =>
      && count >= 2 && s.packetId == id && s.fragments == Firsts(ms, Since(ms, n), n, count)
      && s.received == |Filled(s.fragments)|
  }

  lemma {:induction false} FeedStep(ms: seq<UdpMessage>, n: nat)
    requires n < |ms|
    ensures FeedAll(EMPTY, ms[..n + 1]) == Feed(FeedAll(EMPTY, ms[..n]), ms[n]).0
    ensures HandedUp(EMPTY, ms, n) == Feed(FeedAll(EMPTY, ms[..n]), ms[n]).1
  {
    hide Feed;
    assert ms[..n + 1][..n] == ms[..n];
  }

  /** A piece that takes the slot over is alone in it. */
  lemma {:induction false} TakesOver(s: DefragState, m: UdpMessage)
    requires IsPiece(m) && !Reserved(s, m.packetId, m.fragmentCount)
    ensures var r := Feed(s, m);
            && r.1 == None && r.0.packetId == m.packetId && r.0.received == |Filled(r.0.fragments)| == 1
            && r.0.fragments == Vacant(m.fragmentCount)[m.fragmentId := Some(m)]
  {
    VacantIsEmpty<UdpMessage>(m.fragmentCount);
    SlotFills(Vacant<UdpMessage>(m.fragmentCount), m.fragmentId, m);
  }

  /** A piece under the slot's own key fills its number if that is free, and completes the message if none is left. */
  lemma {:induction false} JoinsSlot(s: DefragState, m: UdpMessage)
    requires IsPiece(m) && Reserved(s, m.packetId, m.fragmentCount) && s.received == |Filled(s.fragments)|
    ensures var r := Feed(s, m);
            var free := s.fragments[m.fragmentId].None?;
            var after := if free then s.fragments[m.fragmentId := Some(m)] else s.fragments;
            && r.0.packetId == m.packetId && r.0.fragments == after && r.0.received == |Filled(after)|
            && r.1 == if free && forall i :: 0 <= i < |after| ==> after[i].Some?
                      then Some(Whole(m).(data := Joined(DataOf(after)))) else None
  {
    hide Joined, DataOf;
    if s.fragments[m.fragmentId].None? {
      SlotFills(s.fragments, m.fragmentId, m);
      FullSlots(s.fragments[m.fragmentId := Some(m)]);
    }
  }

  lemma {:induction false} StrayKeepsFirsts(ms: seq<UdpMessage>, n: nat)
    requires n < |ms| && HoldsFirsts(ms, n) && !IsPiece(ms[n])
    ensures HoldsFirsts(ms, n + 1)
  {
    FeedStep(ms, n);
    match Latest(ms, n)
    case None =>
    case Some((id, count)) =>
      assert Firsts(ms, Since(ms, n), n, count) == Firsts(ms, Since(ms, n), n + 1, count);
  }

  lemma {:induction false} NewKeyKeepsFirsts(ms: seq<UdpMessage>, n: nat)
    requires n < |ms| && HoldsFirsts(ms, n) && IsPiece(ms[n]) && Latest(ms, n) != Some(KeyOf(ms[n]))
    ensures HoldsFirsts(ms, n + 1)
  {
    hide Feed, FeedAll;
    var m := ms[n];
    FeedStep(ms, n);
    TakesOver(FeedAll(EMPTY, ms[..n]), m);
    var slots := Vacant(m.fragmentCount)[m.fragmentId := Some(m)];
    forall i | 0 <= i < m.fragmentCount ensures slots[i] == First(ms, n, n + 1, i) {
      assert First(ms, n, n, i) == None;
    }
    assert slots == Firsts(ms, n, n + 1, m.fragmentCount);
  }

  lemma {:induction false} SameKeyKeepsFirsts(ms: seq<UdpMessage>, n: nat)
    requires n < |ms| && HoldsFirsts(ms, n) && IsPiece(ms[n]) && Latest(ms, n) == Some(KeyOf(ms[n]))
    ensures HoldsFirsts(ms, n + 1)
  {
    hide Feed, FeedAll;
    FeedStep(ms, n);
    JoinsSlot(FeedAll(EMPTY, ms[..n]), ms[n]);
  }

  /**
   On every sequence of arrivals, each slot holds the first piece of its number since the slot was last taken over.
   */
  lemma {:induction false} SlotsHoldFirstPieces(ms: seq<UdpMessage>, n: nat)
    requires n <= |ms|
    ensures HoldsFirsts(ms, n)
    decreases n
  {
    hide HoldsFirsts, IsPiece;
    if n == 0 {
      assert HoldsFirsts(ms, 0) by { NothingHeld(ms); }
    } else {
      SlotsHoldFirstPieces(ms, n - 1);
      if !IsPiece(ms[n - 1]) {
        StrayKeepsFirsts(ms, n - 1);
      } else if Latest(ms, n - 1) == Some(KeyOf(ms[n - 1])) {
        SameKeyKeepsFirsts(ms, n - 1);
      } else {
        NewKeyKeepsFirsts(ms, n - 1);
      }
    }
  }

  lemma {:induction false} NothingHeld(ms: seq<UdpMessage>)
    ensures HoldsFirsts(ms, 0)
  {
    assert ms[..0] == [];
  }

  /** Every piece of the stretch is under the latest key, and the stretch begins with one. */
  lemma {:induction false} StretchHasOneKey(ms: seq<UdpMessage>, n: nat)
    requires n <= |ms| && Latest(ms, n).Some?
    ensures Since(ms, n) < n && IsPiece(ms[Since(ms, n)])
    ensures forall j :: Since(ms, n) <= j < n && IsPiece(ms[j]) ==> Some(KeyOf(ms[j])) == Latest(ms, n)
    decreases n
  {
    hide IsPiece, KeyOf;
    if Latest(ms, n - 1).Some? && Since(ms, n) != n - 1 { StretchHasOneKey(ms, n - 1); }
  }

  /** Arrival `n` supplies the last piece missing since the slot was taken over. */
  predicate Completes(ms: seq<UdpMessage>, n: nat)
    requires n < |ms|
  {
    && IsPiece(ms[n])
    && First(ms, Since(ms, n + 1), n, ms[n].fragmentId).None?
    && var slots := Firsts(ms, Since(ms, n + 1), n + 1, ms[n].fragmentCount);
    forall i :: 0 <= i < |slots| ==> slots[i].Some?
  }

  /** The data of the first piece of each number since the slot was taken over. */
  function FirstData(ms: seq<UdpMessage>, n: nat): (r: seq<Bytes>)
    requires n < |ms| && Completes(ms, n)
  {
    var pieces := Values(Firsts(ms, Since(ms, n + 1), n + 1, ms[n].fragmentCount));
    Payloads(pieces)
  }

  /**
   Exactly what each arrival hands up, whatever came before it: a message that is not split is handed up as it is; a
   piece that completes its stretch hands up its own fields with the first data of every number, in order; nothing
   else hands anything up.
   */
  lemma {:induction false} HandsUpExactly(ms: seq<UdpMessage>, n: nat)
    requires n < |ms|
    ensures HandedUp(EMPTY, ms, n) ==
            if ms[n].fragmentCount <= 1 then Some(ms[n])
            else if Completes(ms, n)
            then Some(ms[n].(fragmentId := 0, fragmentCount := 1, data := Concat(FirstData(ms, n))))
            else None
  {
    hide FeedAll, HoldsFirsts, First, Joined, Filled;
    FeedStep(ms, n);
    SlotsHoldFirstPieces(ms, n);
    SlotsHoldFirstPieces(ms, n + 1);
    if IsPiece(ms[n]) {
      if Latest(ms, n) == Some(KeyOf(ms[n])) { SameKeyHandsUp(ms, n); } else { NewKeyHandsUp(ms, n); }
    }
  }

  lemma {:induction false} NewKeyHandsUp(ms: seq<UdpMessage>, n: nat)
    requires n < |ms| && HoldsFirsts(ms, n) && IsPiece(ms[n]) && Latest(ms, n) != Some(KeyOf(ms[n]))
    ensures HandedUp(EMPTY, ms, n) == None && !Completes(ms, n)
  {
    hide Feed, FeedAll;
    var m := ms[n];
    FeedStep(ms, n);
    TakesOver(FeedAll(EMPTY, ms[..n]), m);
    var other := if m.fragmentId == 0 then 1 else 0;
    assert First(ms, n, n, other) == None;
    assert Firsts(ms, n, n + 1, m.fragmentCount)[other] == None;
  }

  lemma {:induction false} SameKeyHandsUp(ms: seq<UdpMessage>, n: nat)
    requires n < |ms| && HoldsFirsts(ms, n) && IsPiece(ms[n]) && Latest(ms, n) == Some(KeyOf(ms[n]))
    ensures HandedUp(EMPTY, ms, n) ==
            if Completes(ms, n) then Some(Whole(ms[n]).(data := Concat(FirstData(ms, n)))) else None
  {
    hide Feed, FeedAll, Joined, DataOf, Filled;
    var m, s, c := ms[n], FeedAll(EMPTY, ms[..n]), Since(ms, n);
    FeedStep(ms, n);
    JoinsSlot(s, m);
    assert s.fragments[m.fragmentId] == First(ms, c, n, m.fragmentId);
    var after := Firsts(ms, c, n + 1, m.fragmentCount);
    if s.fragments[m.fragmentId].None? {
      assert s.fragments[m.fragmentId := Some(m)] == after;
      if Completes(ms, n) { JoinedFirsts(after); }
    }
  }

  lemma {:induction false} JoinedFirsts(slots: seq<Option<UdpMessage>>)
    requires forall i :: 0 <= i < |slots| ==> slots[i].Some?
    ensures Joined(DataOf(slots)) == Concat(Payloads(Values(slots)))
  {
    FullSlotsRejoin(slots, Values(slots));
  }
}
