/**
 A run of 65536 calls, one more than there are packet ids: its first and last call, both for one session, are split
 under the same id and count. It shows that 65535 calls is as far as the safety and delivery results reach.
 */
module UdpLongRun {
  import opened Bytes
  import opened Varint
  import opened Proxy
  import opened Fragment
  import opened UdpPipeline
  import UdpMixing
  import UdpInOrder

  const OURS: U32 := 1
  const OTHER: U32 := 2
  const LIMIT: nat := 11

  /** A call of two data bytes on a connection whose limit leaves room for one. */
  function Call(session: U32, data: Bytes): (r: Submission) {
    Submission(session, [65], data, Some(LIMIT))
  }

  function LongRun(): (r: seq<Submission>)
    ensures |r| == ID_PERIOD + 1
  {
    [Call(OURS, [1, 2])] + seq(ID_PERIOD - 1, _ => Call(OTHER, [5, 6])) + [Call(OURS, [3, 4])]
  }

  lemma {:induction false} CallAt(k: nat)
    requires k <= ID_PERIOD
    ensures LongRun()[k] ==
            if k == 0 then Call(OURS, [1, 2])
            else if k == ID_PERIOD then Call(OURS, [3, 4])
            else Call(OTHER, [5, 6])
  {
  }

  /** Such a call draws an id and goes out as two pieces of one byte. */
  lemma {:induction false} CallSplits(counter: U32, session: U32, data: Bytes)
    requires |data| == 2
    ensures Call(session, data).TakesId()
    ensures var m := Call(session, data).Message().(packetId := NextId(counter).0, fragmentCount := 2);
            Planned(counter, Call(session, data)) ==
            [m.(fragmentId := 0, data := [data[0]]), m.(fragmentId := 1, data := [data[1]])]
  {
    var sub := Call(session, data);
    var m := sub.Message().(packetId := NextId(counter).0);
    assert VarintLen(1) == 1;
    assert m.HeaderSize() == 10 && m.EncodedSize() == 12 && PayloadLimit(m, LIMIT) == 1;
    assert DivCeil(2, 1) == 2;
    assert Cut(2, 1, 0) == 0 && Cut(2, 1, 1) == 1 && Cut(2, 1, 2) == 2;
    assert data[0..1] == [data[0]] && data[1..2] == [data[1]];
    assert Piece(m, 1, 2, 0) == m.(fragmentId := 0, fragmentCount := 2, data := [data[0]]);
    assert Piece(m, 1, 2, 1) == m.(fragmentId := 1, fragmentCount := 2, data := [data[1]]);
    assert Fragments(m, LIMIT).value == [Piece(m, 1, 2, 0), Piece(m, 1, 2, 1)];
  }

  lemma {:induction false} EveryCallDraws(k: nat)
    requires k <= ID_PERIOD + 1
    ensures DrawsBefore(LongRun()[..k]) == k
    decreases k
  {
    hide LongRun, Planned;
    if k > 0 {
      EveryCallDraws(k - 1);
      assert LongRun()[..k][..k - 1] == LongRun()[..k - 1];
      CallAt(k - 1);
      CallSplits(0, LongRun()[k - 1].sessionId, LongRun()[k - 1].data);
    }
  }

  /** What call `k` of the run puts on the wire. */
  lemma {:induction false} PiecesAt(counter: U32, k: nat)
    requires k <= ID_PERIOD
    ensures var sub := LongRun()[k];
            && |sub.data| == 2 && sub == Call(sub.sessionId, sub.data)
            && var m := sub.Message().(packetId := IdAt(counter, k), fragmentCount := 2);
            PacketsOf(counter, LongRun(), k) ==
            [m.(fragmentId := 0, data := [sub.data[0]]), m.(fragmentId := 1, data := [sub.data[1]])]
  {
    hide LongRun, Planned, Drawn, NextId;
    CallAt(k);
    EveryCallDraws(k);
    CounterCountsDraws(counter, LongRun()[..k]);
    CallSplits(Drawn(counter, k), LongRun()[k].sessionId, LongRun()[k].data);
  }

  lemma {:induction false} EndsShareKey(counter: U32)
    ensures UdpMixing.SplitUnder(counter, LongRun(), OURS, (IdAt(counter, 0), 2), 0)
    ensures UdpMixing.SplitUnder(counter, LongRun(), OURS, (IdAt(counter, 0), 2), ID_PERIOD)
  {
    hide LongRun, PacketsOf, IdAt;
    CallAt(0);
    CallAt(ID_PERIOD);
    PiecesAt(counter, 0);
    PiecesAt(counter, ID_PERIOD);
    IdsRepeatExactlyEveryPeriod(counter, ID_PERIOD, 0);
  }

  /**
   Out of order, the first piece of the first call and the second piece of the last make a message nobody submitted.
   */
  lemma {:induction false} LongRunMixes(counter: U32)
    ensures |LongRun()| == ID_PERIOD + 1
    ensures UdpMixing.IsMix(counter, LongRun(), OURS, (IdAt(counter, 0), 2), [0, ID_PERIOD])
    ensures UdpMixing.MixedData(counter, LongRun(), OURS, (IdAt(counter, 0), 2), [0, ID_PERIOD]) == [1, 4]
    ensures !UdpMixing.SafeOverEveryChannel(counter, LongRun(), OURS)
  {
    hide LongRun, PacketsOf, IdAt, UdpMixing.SplitUnder, UdpMixing.SafeOverEveryChannel;
    var key, calls := (IdAt(counter, 0), 2), [0, ID_PERIOD];
    EndsShareKey(counter);
    CallAt(0);
    CallAt(ID_PERIOD);
    PiecesAt(counter, 0);
    PiecesAt(counter, ID_PERIOD);
    assert UdpMixing.IsMix(counter, LongRun(), OURS, key, calls);
    var pieces := UdpMixing.MixedPieces(counter, LongRun(), OURS, key, calls);
    assert Payloads(pieces) == [[1], [4]];
    assert Concat([[1], [4]]) == [1, 4];
    assert !UdpMixing.Submitted(LongRun(), OURS, [1, 4], [65]) by { NobodySubmits(); }
    UdpMixing.SafeExactlyWhen(counter, LongRun(), OURS);
    assert calls[1] == ID_PERIOD;
  }

  lemma {:induction false} NobodySubmits()
    ensures !UdpMixing.Submitted(LongRun(), OURS, [1, 4], [65])
  {
    hide LongRun;
    forall k | 0 <= k < |LongRun()| ensures LongRun()[k].sessionId != OURS || LongRun()[k].data != [1, 4] {
      CallAt(k);
      assert [1, 2][1] != [1, 4][1] && [3, 4][0] != [1, 4][0];
    }
  }

  lemma {:induction false} FirstKeyStays(counter: U32, n: nat)
    requires 1 <= n <= ID_PERIOD
    ensures UdpInOrder.LatestKey(counter, LongRun()[..n], OURS) == Some((IdAt(counter, 0), 2))
    decreases n
  {
    hide LongRun, PacketsOf, IdAt;
    var subs, k := LongRun()[..n], n - 1;
    assert subs[..k] == LongRun()[..k];
    UdpInOrder.PrefixRun(counter, LongRun(), OURS, n, k);
    CallAt(k);
    PiecesAt(counter, k);
    if k > 0 { FirstKeyStays(counter, k); }
  }

  /** In order and without loss, the last call of the run is taken for a repeat of the first and lost. */
  lemma {:induction false} LongRunCollides(counter: U32)
    ensures |LongRun()| == ID_PERIOD + 1
    ensures UdpInOrder.Collides(counter, LongRun(), OURS, ID_PERIOD)
    ensures UdpInOrder.Pairs(Received(OURS, UdpInOrder.InOrderWire(counter, LongRun()))) !=
            UdpInOrder.Expected(counter, LongRun(), OURS)
  {
    hide LongRun, PacketsOf, IdAt, Received;
    hide UdpInOrder.LatestKey, UdpInOrder.InOrderWire, UdpInOrder.Expected, UdpInOrder.Pairs;
    CallAt(ID_PERIOD);
    PiecesAt(counter, ID_PERIOD);
    FirstKeyStays(counter, ID_PERIOD);
    IdsRepeatExactlyEveryPeriod(counter, ID_PERIOD, 0);
    assert UdpInOrder.Collides(counter, LongRun(), OURS, ID_PERIOD);
    UdpInOrder.InOrderDeliversExactlyWhen(counter, LongRun(), OURS, UdpInOrder.InOrderWire(counter, LongRun()));
  }
}
