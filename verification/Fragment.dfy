/** Splitting a UDP message into fragments, and the single-slot defragmenter that puts one back together. */
module Fragment {
  import opened Bytes
  import opened Slots
  import opened Varint
  import opened Proxy

  // ----- splitting -----

  function PayloadLimit(message: UdpMessage, maxSize: nat): (n: nat) {
    if maxSize <= message.HeaderSize() then 0 else maxSize - message.HeaderSize()
  }

  function DivCeil(a: nat, b: nat): (r: nat)
    requires b > 0
  {
    (a + b - 1) / b
  }

  /** `pieces` is a lawful fragmentation of `m`: numbered in order, otherwise alike, jointly carrying its data. */
  ghost predicate IsFragmentationOf(pieces: seq<UdpMessage>, m: UdpMessage) {
    && 2 <= |pieces| <= 255
    && (forall i :: 0 <= i < |pieces| ==>
          && pieces[i].data != []
          && pieces[i] == m.(fragmentId := i, fragmentCount := |pieces|, data := pieces[i].data))
    && Concat(Payloads(pieces)) == m.data
  }

  function Payloads(pieces: seq<UdpMessage>): (r: seq<Bytes>)
    ensures |r| == |pieces|
  {
    seq(|pieces|, i requires 0 <= i < |pieces| => pieces[i].data)
  }

  /** The ceiling: every piece but the last is full, and the last is not empty. */
  lemma {:induction false} CeilingBounds(length: nat, size: nat)
    requires size > 0
    ensures length > 0 ==> (DivCeil(length, size) - 1) * size < length <= DivCeil(length, size) * size
    ensures length > size ==> DivCeil(length, size) >= 2
    ensures length == 0 ==> DivCeil(length, size) == 0
  {
    var q, r := (length + size - 1) / size, (length + size - 1) % size;
    assert length + size - 1 == q * size + r;
    MulDistributes(q, -1, size);
    if q <= 1 { MulMonotone(q, 1, size); } else { MulMonotone(1, q, size); }
  }

  /** Where piece `i` of `size` bytes ends at the latest. */
  function Cut(total: nat, size: nat, i: nat): (r: nat)
    ensures r <= total
  {
    if i * size < total then i * size else total
  }

  lemma {:induction false} CutsAscend(total: nat, size: nat, i: nat)
    ensures Cut(total, size, i) <= Cut(total, size, i + 1) <= Cut(total, size, i) + size
  {
    MulDistributes(i, 1, size);
  }

  function Piece(message: UdpMessage, size: nat, count: Byte, i: nat): (r: UdpMessage)
    requires i < count
  {
    CutsAscend(|message.data|, size, i);
    message.(fragmentId := i, fragmentCount := count,
             data := message.data[Cut(|message.data|, size, i)..Cut(|message.data|, size, i + 1)])
  }

  /** The splitter as a value. */
  function Fragments(message: UdpMessage, maxSize: nat): (r: Result<seq<UdpMessage>>) {
    if message.EncodedSize() <= maxSize then Ok([message])
    else
      var size := PayloadLimit(message, maxSize);
      if size == 0 then Ok([])
      else
        var count := DivCeil(|message.data|, size);
        if count > 255 then Err(TooManyFragments(count))
        else Ok(seq(count, i requires 0 <= i < count => Piece(message, size, count, i)))
  }

  lemma {:induction false} PieceBounds(total: nat, size: nat, i: nat)
    requires size > 0 && total > 0 && i < DivCeil(total, size)
    ensures i * size == Cut(total, size, i) < Cut(total, size, i + 1) <= Cut(total, size, i) + size
    ensures Cut(total, size, i + 1) == total <==> i + 1 == DivCeil(total, size)
  {
    CeilingBounds(total, size);
    var count := DivCeil(total, size);
    MulMonotone(i, count - 1, size);
    MulDistributes(i, 1, size);
    if i + 1 < count { MulMonotone(i + 1, count - 1, size); }
  }

  lemma {:induction false} FullPiece(total: nat, size: nat, i: nat)
    requires size > 0 && total > 0 && i + 1 < DivCeil(total, size)
    ensures Cut(total, size, i + 1) - Cut(total, size, i) == size
  {
    PieceBounds(total, size, i);
    PieceBounds(total, size, i + 1);
    MulDistributes(i, 1, size);
  }

  lemma {:induction false} PiecesConcat(message: UdpMessage, size: nat, count: Byte, pieces: seq<UdpMessage>, n: nat)
    requires n <= |pieces| == count
    requires forall i :: 0 <= i < count ==> pieces[i] == Piece(message, size, count, i)
    ensures Concat(Payloads(pieces)[..n]) == message.data[..Cut(|message.data|, size, n)]
  {
    if n > 0 {
      PiecesConcat(message, size, count, pieces, n - 1);
      CutsAscend(|message.data|, size, n - 1);
      var payloads := Payloads(pieces);
      assert payloads[..n] == payloads[..n - 1] + [payloads[n - 1]];
      ConcatAppend(payloads[..n - 1], [payloads[n - 1]]);
      assert Concat([payloads[n - 1]]) == payloads[n - 1] + Concat([]);
    }
  }

  /** Every message that splits does so lawfully, and each piece fits. */
  lemma {:induction false} FragmentsAreLawful(message: UdpMessage, maxSize: nat)
    requires message.EncodedSize() > maxSize && PayloadLimit(message, maxSize) > 0
    requires Fragments(message, maxSize).Ok?
    ensures IsFragmentationOf(Fragments(message, maxSize).value, message)
    ensures forall piece :: piece in Fragments(message, maxSize).value ==> piece.EncodedSize() <= maxSize
    ensures var pieces := Fragments(message, maxSize).value;
            forall i :: 0 <= i < |pieces| - 1 ==> pieces[i].EncodedSize() == maxSize
  {
    PiecesAreLawful(message, PayloadLimit(message, maxSize), Fragments(message, maxSize).value);
  }

  lemma {:induction false} PiecesAreLawful(message: UdpMessage, size: nat, pieces: seq<UdpMessage>)
    requires 0 < size < |message.data|
    requires |pieces| == DivCeil(|message.data|, size) <= 255
    requires forall i :: 0 <= i < |pieces| ==> pieces[i] == Piece(message, size, |pieces|, i)
    ensures IsFragmentationOf(pieces, message)
    ensures forall piece :: piece in pieces ==> piece.HeaderSize() == message.HeaderSize() && |piece.data| <= size
    ensures forall i :: 0 <= i < |pieces| - 1 ==> |pieces[i].data| == size
  {
    CeilingBounds(|message.data|, size);
    PiecesConcat(message, size, |pieces|, pieces, |pieces|);
    assert Payloads(pieces)[..|pieces|] == Payloads(pieces);
    forall i | 0 <= i < |pieces|
      ensures 0 < |pieces[i].data| <= size
      ensures i < |pieces| - 1 ==> |pieces[i].data| == size
    {
      PieceBounds(|message.data|, size, i);
      if i < |pieces| - 1 { FullPiece(|message.data|, size, i); }
    }
  }

  /**
   The splitter, chunk by chunk as the repository does it. A message that fits is passed through; otherwise the
   result is empty exactly when the header leaves no room, an error exactly when more than 255 pieces are
   needed, and a fragmentation whose every piece fits in all other cases.
   */
  method FragmentUdpMessage(message: UdpMessage, maxSize: nat) returns (r: Result<seq<UdpMessage>>)
    ensures r == Fragments(message, maxSize)
    ensures r.Ok? && message.EncodedSize() > maxSize && r.value != [] ==>
              IsFragmentationOf(r.value, message) &&
              forall piece :: piece in r.value ==> piece.EncodedSize() <= maxSize
  {
    if message.EncodedSize() <= maxSize { return Ok([message]); }
    var size := PayloadLimit(message, maxSize);
    if size == 0 { return Ok([]); }
    var total := |message.data|;
    var count := DivCeil(total, size);
    if count > 255 { return Err(TooManyFragments(count)); }
    var pieces := SplitLoop(message, size, count);
    r := Ok(pieces);
    assert pieces == Fragments(message, maxSize).value;
    FragmentsAreLawful(message, maxSize);
  }

  method SplitLoop(message: UdpMessage, size: nat, count: Byte) returns (pieces: seq<UdpMessage>)
    requires 0 < size < |message.data| && count == DivCeil(|message.data|, size)
    ensures |pieces| == count && forall i :: 0 <= i < count ==> pieces[i] == Piece(message, size, count, i)
  {
    var total := |message.data|;
    var offset := 0;
    pieces := [];
    while offset < total
      invariant |pieces| <= count && offset == Cut(total, size, |pieces|)
      invariant offset == total <==> |pieces| == count
      invariant forall i :: 0 <= i < |pieces| ==> pieces[i] == Piece(message, size, count, i)
      decreases total - offset
    {
      PieceBounds(total, size, |pieces|);
      var end := if offset + size < total then offset + size else total;
      MulDistributes(|pieces|, 1, size);
      pieces := pieces + [message.(fragmentId := |pieces|, fragmentCount := count, data := message.data[offset..end])];
      offset := end;
    }
  }

  /** The error names how many pieces it would take. */
  lemma {:induction false} TooManyNamesTheCount(message: UdpMessage, maxSize: nat)
    requires Fragments(message, maxSize).Err?
    ensures var size := maxSize - message.HeaderSize();
            && size > 0 && Fragments(message, maxSize).error.TooManyFragments?
            && var count := Fragments(message, maxSize).error.count;
            (count - 1) * size < |message.data| <= count * size
  {
    CeilingBounds(|message.data|, PayloadLimit(message, maxSize));
  }

  /** Splitting fails exactly for want of room: no byte of data beside the header, or not in 255 pieces. */
  lemma {:induction false} SplittingFailsExactlyWhen(message: UdpMessage, maxSize: nat)
    ensures Fragments(message, maxSize) == Ok([]) <==>
            message.EncodedSize() > maxSize && message.HeaderSize() >= maxSize
    ensures Fragments(message, maxSize).Err? <==>
            message.HeaderSize() < maxSize && |message.data| > 255 * (maxSize - message.HeaderSize())
    ensures message.EncodedSize() <= maxSize ==> Fragments(message, maxSize) == Ok([message])
  {
    var size := PayloadLimit(message, maxSize);
    if size > 0 {
      var total := |message.data|;
      var count := DivCeil(total, size);
      CeilingBounds(total, size);
      if count > 255 { MulMonotone(255, count - 1, size); } else { MulMonotone(count, 255, size); }
    }
  }

  // ----- reassembly -----

  /** The defragmenter's fields. */
  datatype DefragState = DefragState(packetId: U16, fragments: seq<Option<UdpMessage>>, received: nat)

  const EMPTY := DefragState(0, [], 0)

  /** The slots' data. */
  function DataOf(fragments: seq<Option<UdpMessage>>): (r: seq<Option<Bytes>>)
    ensures |r| == |fragments|
  {
    seq(|fragments|, i requires 0 <= i < |fragments| =>
      match fragments[i] case Some(m) => Some(m.data) case None => None)
  }

  /** One arrival: the new state and what is handed up. */
  function Feed(s: DefragState, m: UdpMessage): (r: (DefragState, Option<UdpMessage>)) {
    if m.fragmentCount <= 1 then (s, Some(m))
    else if m.fragmentId >= m.fragmentCount then (s, None)
    else if m.packetId != s.packetId || |s.fragments| != m.fragmentCount then
      (DefragState(m.packetId, Vacant(m.fragmentCount)[m.fragmentId := Some(m)], 1), None)
    else if s.fragments[m.fragmentId].Some? then (s, None)
    else
      var filled := s.(fragments := s.fragments[m.fragmentId := Some(m)], received := s.received + 1);
      (filled,
       if filled.received == |filled.fragments|
       then Some(m.(fragmentId := 0, fragmentCount := 1, data := Joined(DataOf(filled.fragments)))) else None)
  }

  /** The stateful defragmenter. */
  class Defragger {
    var packetId: U16
    var fragments: seq<Option<UdpMessage>>
    var received: nat

    ghost function State(): DefragState
      reads this
    {
      DefragState(packetId, fragments, received)
    }

    constructor ()
      ensures State() == EMPTY
    {
      packetId, fragments, received := 0, [], 0;
    }

    method Accept(m: UdpMessage) returns (complete: Option<UdpMessage>)
      modifies this
      ensures (State(), complete) == Feed(old(State()), m)
    {
      if m.fragmentCount <= 1 { return Some(m); }
      if m.fragmentId >= m.fragmentCount { return None; }
      var index, expected := m.fragmentId, m.fragmentCount;
      if m.packetId != packetId || |fragments| != expected {
        packetId := m.packetId;
        fragments := Vacant(expected);
        fragments := fragments[index := Some(m)];
        received := 1;
      } else if fragments[index].None? {
        fragments := fragments[index := Some(m)];
        received := received + 1;
        if received == |fragments| {
          var data: Bytes := [];
          for i := 0 to |fragments|
            invariant data == Joined(DataOf(fragments)[..i])
          {
            assert DataOf(fragments)[..i + 1][..i] == DataOf(fragments)[..i];
            data := data + (match fragments[i] case Some(f) => f.data case None => []);
          }
          assert DataOf(fragments)[..|fragments|] == DataOf(fragments);
          return Some(m.(fragmentId := 0, fragmentCount := 1, data := data));
        }
      }
      return None;
    }
  }

  // ----- whole runs of the defragmenter -----

  function FeedAll(s: DefragState, ms: seq<UdpMessage>): (r: DefragState) {
    if ms == [] then s else Feed(FeedAll(s, ms[..|ms| - 1]), ms[|ms| - 1]).0
  }

  /** What the arrival of `ms[j]` hands up, in the run that starts at `s`. */
  function HandedUp(s: DefragState, ms: seq<UdpMessage>, j: nat): (r: Option<UdpMessage>)
    requires j < |ms|
  {
    Feed(FeedAll(s, ms[..j]), ms[j]).1
  }

  /** Everything the run hands up, in order. */
  function Emitted(s: DefragState, ms: seq<UdpMessage>): (r: seq<UdpMessage>) {
    if ms == [] then []
    else
      var n := |ms| - 1;
      Emitted(s, ms[..n]) + (match HandedUp(s, ms, n) case Some(m) => [m] case None => [])
  }

  lemma {:induction false} RunsCompose(s: DefragState, a: seq<UdpMessage>, b: seq<UdpMessage>)
    ensures FeedAll(s, a + b) == FeedAll(FeedAll(s, a), b)
    ensures Emitted(s, a + b) == Emitted(s, a) + Emitted(FeedAll(s, a), b)
  {
    hide Feed;
    if b == [] {
      assert a + b == a;
    } else {
      var n := |b| - 1;
      RunsCompose(s, a, b[..n]);
      assert (a + b)[..|a| + n] == a + b[..n];
    }
  }

  lemma {:induction false} EmittedHas(s: DefragState, ms: seq<UdpMessage>, j: nat)
    requires j < |ms| && HandedUp(s, ms, j).Some?
    ensures HandedUp(s, ms, j).value in Emitted(s, ms)
    decreases |ms|
  {
    hide Feed;
    var n := |ms| - 1;
    if j < n {
      assert ms[..n][..j] == ms[..j];
      EmittedHas(s, ms[..n], j);
    }
  }

  /** The slot array holds exactly the pieces whose numbers are in `seen`. */
  ghost predicate Holding(s: DefragState, pieces: seq<UdpMessage>, seen: set<nat>) {
    && pieces != []
    && seen <= Indices(|pieces|)
    && s.packetId == pieces[0].packetId
    && |s.fragments| == |pieces|
    && s.received == |seen|
    && forall i :: 0 <= i < |pieces| ==> s.fragments[i] == if i in seen then Some(pieces[i]) else None
  }

  /** The slot is already reserved for this packet id and piece count. */
  predicate Reserved(s: DefragState, packetId: U16, count: nat) {
    s.packetId == packetId && |s.fragments| == count
  }

  function Whole(m: UdpMessage): (r: UdpMessage) {
    m.(fragmentId := 0, fragmentCount := 1)
  }

  /** Pieces under one packet id, numbered in order, wherever each of them comes from. */
  predicate Numbered(pieces: seq<UdpMessage>) {
    && 2 <= |pieces| <= 255
    && forall i :: 0 <= i < |pieces| ==>
         pieces[i].fragmentId == i && pieces[i].fragmentCount == |pieces| && pieces[i].packetId == pieces[0].packetId
  }

  /** What the defragmenter makes of all the pieces when piece `last` arrives last: its fields and everybody's data. */
  function Rejoined(pieces: seq<UdpMessage>, last: nat): (r: UdpMessage)
    requires last < |pieces|
  {
    Whole(pieces[last]).(data := Concat(Payloads(pieces)))
  }

  lemma {:induction false} FragmentationIsNumbered(pieces: seq<UdpMessage>, m: UdpMessage)
    requires IsFragmentationOf(pieces, m)
    ensures Numbered(pieces) && pieces[0].packetId == m.packetId
    ensures forall i :: 0 <= i < |pieces| ==> Rejoined(pieces, i) == Whole(m)
  {
  }

  lemma {:induction false} FullSlotsRejoin(fragments: seq<Option<UdpMessage>>, pieces: seq<UdpMessage>)
    requires |fragments| == |pieces|
    requires forall i :: 0 <= i < |pieces| ==> fragments[i] == Some(pieces[i])
    ensures Joined(DataOf(fragments)) == Concat(Payloads(pieces))
  {
    JoinedIsConcat(DataOf(fragments));
    assert Values(DataOf(fragments)) == Payloads(pieces);
  }

  /** One more of the held pieces: a duplicate changes nothing, the last missing one completes them. */
  lemma {:induction false} FeedHeldPiece(s: DefragState, pieces: seq<UdpMessage>, seen: set<nat>, i: nat)
    requires Numbered(pieces) && Holding(s, pieces, seen) && i < |pieces|
    ensures Holding(Feed(s, pieces[i]).0, pieces, seen + {i})
    ensures Feed(s, pieces[i]).1 ==
            if seen != Indices(|pieces|) && seen + {i} == Indices(|pieces|) then Some(Rejoined(pieces, i)) else None
  {
    hide Indices, Joined, DataOf, Concat, Payloads;
    FullWhenAllSeen(seen, |pieces|);
    FullWhenAllSeen(seen + {i}, |pieces|);
    if i in seen {
      assert seen + {i} == seen;
    } else {
      var filled := Feed(s, pieces[i]).0;
      assert |seen + {i}| == |seen| + 1;
      if seen + {i} == Indices(|pieces|) {
        FullSlotsRejoin(filled.fragments, pieces);
      }
    }
  }

  lemma {:induction false} FeedFreshPiece(s: DefragState, pieces: seq<UdpMessage>, i: nat)
    requires Numbered(pieces) && !Reserved(s, pieces[0].packetId, |pieces|) && i < |pieces|
    ensures Holding(Feed(s, pieces[i]).0, pieces, {i}) && Feed(s, pieces[i]).1 == None
  {
  }

  /** The pieces numbered by `order`, repeats and all. */
  function Arrivals(pieces: seq<UdpMessage>, order: seq<nat>): (r: seq<UdpMessage>)
    requires forall j :: 0 <= j < |order| ==> order[j] < |pieces|
    ensures |r| == |order|
  {
    seq(|order|, j requires 0 <= j < |order| => pieces[order[j]])
  }

  function Seen(order: seq<nat>): (r: set<nat>) {
    set i | i in order
  }

  lemma {:induction false} HoldsMore(s: DefragState, pieces: seq<UdpMessage>, seen: set<nat>, order: seq<nat>)
    requires Numbered(pieces) && Holding(s, pieces, seen)
    requires forall j :: 0 <= j < |order| ==> order[j] < |pieces|
    ensures Holding(FeedAll(s, Arrivals(pieces, order)), pieces, seen + Seen(order))
    decreases |order|
  {
    hide Numbered, Feed, Holding, Emitted;
    if order == [] {
      assert seen + Seen(order) == seen;
    } else {
      var first := pieces[order[0]];
      ArrivalsSplit(pieces, order);
      RunsCompose(s, [first], Arrivals(pieces, order[1..]));
      FeedOne(s, first);
      FeedHeldPiece(s, pieces, seen, order[0]);
      HoldsMore(Feed(s, first).0, pieces, seen + {order[0]}, order[1..]);
      assert seen + Seen(order) == seen + {order[0]} + Seen(order[1..]);
    }
  }

  lemma {:induction false} HoldsWhatArrived(s: DefragState, pieces: seq<UdpMessage>, order: seq<nat>)
    requires Numbered(pieces) && !Reserved(s, pieces[0].packetId, |pieces|)
    requires order != [] && forall j :: 0 <= j < |order| ==> order[j] < |pieces|
    ensures Holding(FeedAll(s, Arrivals(pieces, order)), pieces, Seen(order))
  {
    hide Numbered, Feed, Holding, Emitted;
    var first := pieces[order[0]];
    ArrivalsSplit(pieces, order);
    RunsCompose(s, [first], Arrivals(pieces, order[1..]));
    FeedOne(s, first);
    FeedFreshPiece(s, pieces, order[0]);
    HoldsMore(Feed(s, first).0, pieces, {order[0]}, order[1..]);
  }

  lemma {:induction false} ArrivalsSplit(pieces: seq<UdpMessage>, order: seq<nat>)
    requires order != [] && forall j :: 0 <= j < |order| ==> order[j] < |pieces|
    ensures Arrivals(pieces, order) == [pieces[order[0]]] + Arrivals(pieces, order[1..])
    ensures Seen(order) == {order[0]} + Seen(order[1..])
  {
    assert order == [order[0]] + order[1..];
  }

  lemma {:induction false} FeedOne(s: DefragState, m: UdpMessage)
    ensures FeedAll(s, [m]) == Feed(s, m).0
    ensures Emitted(s, [m]) == match Feed(s, m).1 case Some(whole) => [whole] case None => []
  {
    assert [m][..0] == [];
    assert FeedAll(s, [m][..0]) == s && Emitted(s, [m][..0]) == [];
  }

  /**
   Numbered pieces in any order, with any repeats: exactly one arrival hands something up, the one that supplies the
   last missing piece.
   */
  lemma {:induction false} AnyOrderJoins(s: DefragState, pieces: seq<UdpMessage>, order: seq<nat>, j: nat)
    requires Numbered(pieces) && !Reserved(s, pieces[0].packetId, |pieces|)
    requires j < |order| && forall k :: 0 <= k < |order| ==> order[k] < |pieces|
    ensures HandedUp(s, Arrivals(pieces, order), j) ==
            if Seen(order[..j]) != Indices(|pieces|) && Seen(order[..j + 1]) == Indices(|pieces|)
            then Some(Rejoined(pieces, order[j])) else None
  {
    hide Holding, Feed, FeedAll, Rejoined;
    var ms := Arrivals(pieces, order);
    assert ms[..j] == Arrivals(pieces, order[..j]);
    assert order[..j + 1] == order[..j] + [order[j]];
    assert Seen(order[..j + 1]) == Seen(order[..j]) + {order[j]};
    if j == 0 {
      FeedNothing(s);
      FeedFreshPiece(s, pieces, order[0]);
      assert 1 in Indices(|pieces|) && 0 in Indices(|pieces|);
      assert ms[..0] == [] && order[..0] == [];
    } else {
      HoldsWhatArrived(s, pieces, order[..j]);
      FeedHeldPiece(FeedAll(s, ms[..j]), pieces, Seen(order[..j]), order[j]);
    }
  }

  lemma {:induction false} FeedNothing(s: DefragState)
    ensures FeedAll(s, []) == s
  {
  }

  /** Pieces of one message in any order, with any repeats: what the last missing one hands up is the message. */
  lemma {:induction false} AnyOrderReassembles(
    s: DefragState, m: UdpMessage, pieces: seq<UdpMessage>, order: seq<nat>, j: nat)
    requires IsFragmentationOf(pieces, m) && !Reserved(s, m.packetId, |pieces|)
    requires j < |order| && forall k :: 0 <= k < |order| ==> order[k] < |pieces|
    ensures HandedUp(s, Arrivals(pieces, order), j) ==
            if Seen(order[..j]) != Indices(|pieces|) && Seen(order[..j + 1]) == Indices(|pieces|)
            then Some(Whole(m)) else None
  {
    hide IsFragmentationOf, Rejoined, HandedUp, Reserved;
    FragmentationIsNumbered(pieces, m);
    AnyOrderJoins(s, pieces, order, j);
  }
}
