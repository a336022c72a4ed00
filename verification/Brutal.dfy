/**
 The Brutal congestion controller: a five-slot ring of per-second packet counts, the ack rate derived from it, and
 the window and pacing rate derived from that. Machine widths are explicit: `Sat64` and `Sat128` are the saturating
 results of the source's operators.
 */
module Brutal {
  import opened Bytes

  const SAMPLE_SLOT_COUNT: nat := 5
  const MIN_SAMPLE_COUNT: nat := 50
  const MIN_ACK_RATE_NUMERATOR: nat := 4
  const MIN_ACK_RATE_DENOMINATOR: nat := 5
  const CONGESTION_WINDOW_MULTIPLIER: nat := 2
  const INITIAL_WINDOW: nat := 10240
  const NANOS: nat := 1_000_000_000
  const MAX64: nat := 0xffff_ffff_ffff_ffff
  const MAX128: nat := 0xffff_ffff_ffff_ffff_ffff_ffff_ffff_ffff

  type U64 = x: int | 0 <= x <= MAX64

  function Sat64(x: nat): (r: U64)
    ensures x <= MAX64 ==> r == x
  {
    if x > MAX64 then MAX64 else x
  }

  function Sat128(x: nat): (r: nat)
    ensures x <= MAX128 ==> r == x
  {
    if x > MAX128 then MAX128 else x
  }

  datatype PacketInfo = PacketInfo(timestamp: Option<nat>, acks: U64, losses: U64)

  /** One `record` call: the second it falls in and what it counts. */
  datatype Sample = Sample(second: nat, acks: U64, losses: U64)

  // ----- the ring, as the code updates and reads it -----

  const EMPTY_SLOT := PacketInfo(None, 0, 0)

  /** The slot the sample's second shares, after the sample. */
  function Updated(info: PacketInfo, s: Sample): (r: PacketInfo) {
    if info.timestamp == Some(s.second)
    then PacketInfo(info.timestamp, Sat64(info.acks + s.acks), Sat64(info.losses + s.losses))
    else PacketInfo(Some(s.second), s.acks, s.losses)
  }

  function Recorded(slots: seq<PacketInfo>, s: Sample): (r: seq<PacketInfo>)
    requires |slots| == SAMPLE_SLOT_COUNT
    ensures |r| == SAMPLE_SLOT_COUNT
  {
    slots[s.second % SAMPLE_SLOT_COUNT := Updated(slots[s.second % SAMPLE_SLOT_COUNT], s)]
  }

  /** The filter of the fold, which reaches back one second further than the ring does. */
  predicate Admitted(info: PacketInfo, second: nat) {
    && info.timestamp.Some?
    && info.timestamp.value >= (if second < SAMPLE_SLOT_COUNT then 0 else second - SAMPLE_SLOT_COUNT)
  }

  /** The fold over the first `n` slots. */
  function Totals(slots: seq<PacketInfo>, second: nat, n: nat): (r: (U64, U64))
    requires n <= |slots|
  {
    if n == 0 then (0, 0)
    else
      var (acks, losses) := Totals(slots, second, n - 1);
      var info := slots[n - 1];
      if Admitted(info, second) then (Sat64(acks + info.acks), Sat64(losses + info.losses)) else (acks, losses)
  }

  /** Numerator and denominator of the ack rate, from the totals. */
  function AckRate(acks: U64, losses: U64): (r: (U64, U64)) {
    var samples := Sat64(acks + losses);
    if samples < MIN_SAMPLE_COUNT then (1, 1)
    else if Sat64(acks * MIN_ACK_RATE_DENOMINATOR) < Sat64(samples * MIN_ACK_RATE_NUMERATOR)
    then (MIN_ACK_RATE_NUMERATOR, MIN_ACK_RATE_DENOMINATOR)
    else (acks, samples)
  }

  function Product(a: nat, b: nat): (r: nat)
    ensures r == a * b
  {
    MulMonotone(0, a, b);
    a * b
  }

  function Quotient(a: nat, b: nat): (r: nat)
    requires b > 0
    ensures r == a / b
  {
    a / b
  }

  function PositiveRate(numerator: U64): (r: nat)
    ensures r > 0
  {
    if numerator < 1 then 1 else numerator
  }

  function WindowTop(bandwidth: U64, rtt: nat, denominator: U64): (r: nat) {
    Sat128(Product(Sat128(Sat128(Product(bandwidth, rtt)) * CONGESTION_WINDOW_MULTIPLIER), denominator))
  }

  function WindowBottom(numerator: U64): (r: nat)
    ensures r == NANOS * PositiveRate(numerator)
  {
    Sat128(NANOS * PositiveRate(numerator))
  }

  function TargetWindow(bandwidth: U64, rtt: nat, numerator: U64, denominator: U64, mtu: U64): (r: U64) {
    if rtt == 0 then INITIAL_WINDOW
    else AtLeast(Sat64(Quotient(WindowTop(bandwidth, rtt, denominator), WindowBottom(numerator))), mtu)
  }

  function AtLeast(x: U64, mtu: U64): (r: U64) {
    if x < mtu then mtu else x
  }

  /** Bits per second. */
  function PacingRate(bandwidth: U64, numerator: U64, denominator: U64): (r: U64) {
    var bytes := Quotient(Sat128(Product(bandwidth, denominator)), PositiveRate(numerator));
    Sat64(Sat64(bytes) * 8)
  }

  /** The ack rate after a log of calls, from the five seconds ending at the last one. */
  function RateOf(log: seq<Sample>, disableLossCompensation: bool): (r: (U64, U64)) {
    if log == [] || disableLossCompensation then (1, 1)
    else AckRate(Sat64(WindowSum(log).acks), Sat64(WindowSum(log).losses))
  }

  /** The packets of the five seconds ending at the last call. */
  function WindowSum(log: seq<Sample>): (r: Sum)
    requires log != []
  {
    SumOver(log, log[|log| - 1].second - 4, log[|log| - 1].second)
  }

  class Brutal {
    const disableLossCompensation: bool
    const origin: nat
    var bandwidth: U64
    var mtu: U64
    var smoothedRtt: nat
    const slots: array<PacketInfo>
    var numerator: U64
    var denominator: U64
    ghost var log: seq<Sample>

    /** The ring is the one the calls so far produce, and so is the rate as long as the clock has not gone back. */
    ghost predicate Valid()
      reads this, slots
    {
      && slots.Length == SAMPLE_SLOT_COUNT
      && slots[..] == RingOf(log)
      && (Ascending(log) ==> (numerator, denominator) == RateOf(log, disableLossCompensation))
    }

    constructor (disableLossCompensation: bool, bandwidth: U64, origin: nat, mtu: U64)
      ensures Valid() && fresh(slots) && log == []
      ensures this.disableLossCompensation == disableLossCompensation && this.origin == origin
      ensures this.bandwidth == bandwidth && this.mtu == mtu && smoothedRtt == 0
    {
      this.disableLossCompensation, this.origin := disableLossCompensation, origin;
      this.bandwidth, this.mtu, smoothedRtt := bandwidth, mtu, 0;
      slots := new PacketInfo[SAMPLE_SLOT_COUNT](_ => EMPTY_SLOT);
      numerator, denominator, log := 1, 1, [];
    }

    /** The second a moment falls in, counted from the controller's origin. */
    function SecondOf(now: nat): (r: nat)
      ensures now <= origin ==> r == 0
      ensures now > origin ==> r * 1_000_000_000 <= now - origin < (r + 1) * 1_000_000_000
    {
      (if now < origin then 0 else now - origin) / NANOS
    }

    /** Counts packets in the current second's slot and refreshes the ack rate. */
    method Record(now: nat, acks: U64, losses: U64)
      requires Valid()
      modifies slots, this`numerator, this`denominator, this`log
      ensures Valid()
      ensures log == old(log) + [Sample(SecondOf(now), acks, losses)]
      ensures disableLossCompensation ==> numerator == denominator == 1
    {
      hide SumOver, Totals, AckRate, RingOf, Ascending;
      var second := SecondOf(now);
      var slot := second % SAMPLE_SLOT_COUNT;
      var info := slots[slot];
      if info.timestamp == Some(second) {
        slots[slot] := PacketInfo(info.timestamp, Sat64(info.acks + acks), Sat64(info.losses + losses));
      } else {
        slots[slot] := PacketInfo(Some(second), acks, losses);
      }
      ghost var s := Sample(second, acks, losses);
      RingStep(log, s);
      log := log + [s];
      assert slots[..] == RingOf(log);
      UpdateAckRate(second);
      if Ascending(log) { RingRefinesLog(log); }
    }

    method OnAck(now: nat, rtt: nat)
      requires Valid()
      modifies slots, this
      ensures Valid() && smoothedRtt == rtt && log == old(log) + [Sample(SecondOf(now), 1, 0)]
      ensures bandwidth == old(bandwidth) && mtu == old(mtu)
    {
      smoothedRtt := rtt;
      Record(now, 1, 0);
    }

    /** Loss reports without lost packets are ignored. */
    method OnCongestionEvent(now: nat, lostPackets: U64)
      requires Valid()
      modifies slots, this`numerator, this`denominator, this`log
      ensures Valid()
      ensures log == if lostPackets > 0 then old(log) + [Sample(SecondOf(now), 0, lostPackets)] else old(log)
    {
      if lostPackets > 0 {
        Record(now, 0, lostPackets);
      }
    }

    /**
     In every state reached by a clock that does not go back, with fewer than 2^64/5 packets in the last five
     seconds, pacing is within a quarter of the configured rate, the window is at most two and a half bandwidth-delay
     products, and it is at least two exactly when 128 bits can express that at the current rate, as they can for any
     ack count up to `CALM_NUMERATOR`.
     */
    method Metrics() returns (window: U64, pacing: U64)
      requires Valid()
      ensures window == TargetWindow(bandwidth, smoothedRtt, numerator, denominator, mtu)
      ensures pacing == PacingRate(bandwidth, numerator, denominator)
      ensures smoothedRtt == 0 ==> window == 10240
      ensures numerator >= 1 && pacing < MAX64 ==>
                var b := pacing / 8;
                pacing == 8 * b && b * numerator <= Product(bandwidth, denominator) < (b + 1) * numerator
      ensures Ascending(log) && FewPackets(log) ==>
                && Sat64(8 * bandwidth) <= pacing <= Sat64(10 * bandwidth)
                && (smoothedRtt > 0 ==>
                      window <= AtLeast(Sat64(5 * Product(bandwidth, smoothedRtt) / (2 * NANOS)), mtu))
                && numerator >= 1
                && (smoothedRtt > 0 ==>
                      var twice := AtLeast(Sat64(2 * Product(bandwidth, smoothedRtt) / NANOS), mtu);
                      && (twice <= window <==> twice <= WidestWindow(numerator, mtu))
                      && (numerator <= CALM_NUMERATOR ==> twice <= window))
    {
      hide TargetWindow, PacingRate, AckRate, RingOf;
      window := TargetWindow(bandwidth, smoothedRtt, numerator, denominator, mtu);
      pacing := PacingRate(bandwidth, numerator, denominator);
      if numerator >= 1 { PacingIsExact(bandwidth, numerator, denominator); }
      NoRoundTripYet(bandwidth, numerator, denominator, mtu);
      if Ascending(log) && FewPackets(log) {
        RateOfIsSound(log, disableLossCompensation);
        PacingBounds(bandwidth, numerator, denominator);
        if smoothedRtt > 0 {
          WindowBounds(bandwidth, smoothedRtt, numerator, denominator, mtu);
          if numerator <= CALM_NUMERATOR { CalmRatesFit(bandwidth, smoothedRtt, numerator, denominator, mtu); }
        }
      }
    }

    method UpdateAckRate(second: nat)
      requires slots.Length == SAMPLE_SLOT_COUNT
      modifies this`numerator, this`denominator
      ensures var (a, l) := Totals(slots[..], second, SAMPLE_SLOT_COUNT);
              (numerator, denominator) == if disableLossCompensation then (1, 1) else AckRate(a, l)
    {
      if disableLossCompensation {
        numerator, denominator := 1, 1;
        return;
      }
      var minimum := if second < SAMPLE_SLOT_COUNT then 0 else second - SAMPLE_SLOT_COUNT;
      var acks: U64, losses: U64 := 0, 0;
      for i := 0 to SAMPLE_SLOT_COUNT
        invariant (acks, losses) == Totals(slots[..], second, i)
      {
        var info := slots[i];
        if info.timestamp.Some? && info.timestamp.value >= minimum {
          acks, losses := Sat64(acks + info.acks), Sat64(losses + info.losses);
        }
      }
      var samples := Sat64(acks + losses);
      if samples < MIN_SAMPLE_COUNT {
        numerator, denominator := 1, 1;
        return;
      }
      if Sat64(acks * MIN_ACK_RATE_DENOMINATOR) < Sat64(samples * MIN_ACK_RATE_NUMERATOR) {
        numerator, denominator := MIN_ACK_RATE_NUMERATOR, MIN_ACK_RATE_DENOMINATOR;
      } else {
        numerator, denominator := acks, samples;
      }
    }
  }

  // ----- the simple form: a log of samples -----

  /** What the packets of one second, or a span of seconds, add up to. */
  datatype Sum = Sum(acks: nat, losses: nat)

  predicate Ascending(log: seq<Sample>) {
    forall i, j :: 0 <= i < j < |log| ==> log[i].second <= log[j].second
  }

  function SumOver(log: seq<Sample>, low: int, high: int): (r: Sum) {
    if log == [] then Sum(0, 0)
    else
      var n := |log| - 1;
      var sum := SumOver(log[..n], low, high);
      if low <= log[n].second <= high then Sum(sum.acks + log[n].acks, sum.losses + log[n].losses) else sum
  }

  /** The ring after a whole log of calls. */
  function RingOf(log: seq<Sample>): (r: seq<PacketInfo>)
    ensures |r| == SAMPLE_SLOT_COUNT
  {
    if log == [] then [EMPTY_SLOT, EMPTY_SLOT, EMPTY_SLOT, EMPTY_SLOT, EMPTY_SLOT]
    else Recorded(RingOf(log[..|log| - 1]), log[|log| - 1])
  }

  lemma {:induction false} RingStep(log: seq<Sample>, s: Sample)
    ensures RingOf(log + [s]) == Recorded(RingOf(log), s)
  {
    assert (log + [s])[..|log|] == log;
  }

  /** The latest second of the log that shares slot `i`. */
  function LatestIn(log: seq<Sample>, i: nat): (r: Option<nat>) {
    if log == [] then None
    else
      var n := |log| - 1;
      if log[n].second % SAMPLE_SLOT_COUNT == i then Some(log[n].second) else LatestIn(log[..n], i)
  }

  /** In an ascending log the latest second of a slot bounds every second that shares the slot. */
  lemma {:induction false} LatestBounds(log: seq<Sample>, i: nat, j: nat)
    requires Ascending(log) && i < SAMPLE_SLOT_COUNT && j < |log| && log[j].second % SAMPLE_SLOT_COUNT == i
    ensures LatestIn(log, i).Some? && log[j].second <= LatestIn(log, i).value
    decreases |log|
  {
    var n := |log| - 1;
    if log[n].second % SAMPLE_SLOT_COUNT != i {
      LatestBounds(log[..n], i, j);
    }
  }

  lemma {:induction false} LatestIsInLog(log: seq<Sample>, i: nat)
    requires Ascending(log) && LatestIn(log, i).Some?
    ensures var t := LatestIn(log, i).value;
            t % SAMPLE_SLOT_COUNT == i && t <= log[|log| - 1].second
    decreases |log|
  {
    var n := |log| - 1;
    if log[n].second % SAMPLE_SLOT_COUNT != i {
      LatestIsInLog(log[..n], i);
    }
  }

  lemma {:induction false} NothingInSpan(log: seq<Sample>, low: int, high: int)
    requires forall j :: 0 <= j < |log| ==> !(low <= log[j].second <= high)
    ensures SumOver(log, low, high) == Sum(0, 0)
    decreases |log|
  {
    if log != [] {
      NothingInSpan(log[..|log| - 1], low, high);
    }
  }

  /** A second later than the latest one of its slot has no samples. */
  lemma {:induction false} NothingAfterLatest(log: seq<Sample>, t: nat)
    requires Ascending(log)
    requires var latest := LatestIn(log, t % SAMPLE_SLOT_COUNT); latest.None? || latest.value < t
    ensures SumOver(log, t, t) == Sum(0, 0)
  {
    forall j | 0 <= j < |log| ensures !(t <= log[j].second <= t) {
      if log[j].second == t { LatestBounds(log, t % SAMPLE_SLOT_COUNT, j); }
    }
    NothingInSpan(log, t, t);
  }

  /** What slot `i` holds, in terms of the log: the latest second that shares it, and that second's packets. */
  ghost predicate SlotSays(info: PacketInfo, log: seq<Sample>, i: nat) {
    match LatestIn(log, i)
    case None => info == EMPTY_SLOT
    case Some(t) =>
      var sum := SumOver(log, t, t);
      info == PacketInfo(Some(t), Sat64(sum.acks), Sat64(sum.losses))
  }

  lemma {:induction false} RingSaysLog(log: seq<Sample>, i: nat)
    requires Ascending(log) && i < SAMPLE_SLOT_COUNT
    ensures SlotSays(RingOf(log)[i], log, i)
    decreases |log|
  {
    if log != [] {
      var n := |log| - 1;
      var before, s := log[..n], log[n];
      assert Ascending(before);
      RingSaysLog(before, i);
      if s.second % SAMPLE_SLOT_COUNT == i {
        if LatestIn(before, i) != Some(s.second) {
          if LatestIn(before, i).Some? {
            LatestIsInLog(before, i);
            LatestNotAfter(log, i);
          }
          NothingAfterLatest(before, s.second);
        }
      } else if LatestIn(before, i).Some? {
        LatestIsInLog(before, i);
      }
    }
  }

  lemma {:induction false} LatestNotAfter(log: seq<Sample>, i: nat)
    requires Ascending(log) && log != [] && LatestIn(log[..|log| - 1], i).Some?
    ensures LatestIn(log[..|log| - 1], i).value <= log[|log| - 1].second
  {
    LatestIsInLog(log[..|log| - 1], i);
  }

  /** What slot `i` adds to the fold after a call at second `t`: exactly the packets of its second in `t-4..t`. */
  lemma {:induction false} SlotContribution(log: seq<Sample>, i: nat)
    requires log != [] && Ascending(log) && i < SAMPLE_SLOT_COUNT
    ensures var t := log[|log| - 1].second;
            var sum := SumOver(log, SharedSecond(t, i), SharedSecond(t, i));
            var info := RingOf(log)[i];
            if Admitted(info, t) then info.acks == Sat64(sum.acks) && info.losses == Sat64(sum.losses)
            else sum == Sum(0, 0)
  {
    hide SumOver, RingOf, SharedSecond, LatestIn;
    var t := log[|log| - 1].second;
    var second, latest := SharedSecond(t, i), LatestIn(log, i);
    RingSaysLog(log, i);
    LatestOfLast(log);
    if latest.Some? {
      LatestIsInLog(log, i);
    }
    SharedSecondFacts(t, i, latest);
    if latest.None? || latest.value < second {
      if second < 0 { NegativeSecond(log, second); } else { NothingAfterLatest(log, second); }
    }
  }

  /** The second of `t-4..t` that shares slot `i` with it; negative when the clock is not there yet. */
  function SharedSecond(t: nat, i: nat): (s: int) {
    t - (t + SAMPLE_SLOT_COUNT - i % SAMPLE_SLOT_COUNT) % SAMPLE_SLOT_COUNT
  }

  lemma {:induction false} SharedSecondFacts(t: nat, i: nat, latest: Option<nat>)
    requires i < SAMPLE_SLOT_COUNT
    requires latest.Some? ==> latest.value % SAMPLE_SLOT_COUNT == i && latest.value <= t
    ensures t - 4 <= SharedSecond(t, i) <= t
    ensures SharedSecond(t, i) >= 0 ==> SharedSecond(t, i) % SAMPLE_SLOT_COUNT == i
    ensures latest.Some? && latest.value >= SharedSecond(t, i) ==> latest.value == SharedSecond(t, i)
    ensures latest.Some? && latest.value < SharedSecond(t, i) ==> latest.value <= SharedSecond(t, i) - 5
    ensures SharedSecond(t, i) == t <==> t % SAMPLE_SLOT_COUNT == i
  {
  }

  lemma {:induction false} NegativeSecond(log: seq<Sample>, second: int)
    requires second < 0
    ensures SumOver(log, second, second) == Sum(0, 0)
  {
    NothingInSpan(log, second, second);
  }

  lemma {:induction false} LatestOfLast(log: seq<Sample>)
    requires log != []
    ensures LatestIn(log, log[|log| - 1].second % SAMPLE_SLOT_COUNT) == Some(log[|log| - 1].second)
  {
  }

  lemma {:induction false} SpanSplits(log: seq<Sample>, low: int, middle: int, high: int)
    requires low <= middle + 1 && middle <= high
    ensures var a, b, c := SumOver(log, low, middle), SumOver(log, middle + 1, high), SumOver(log, low, high);
            c == Sum(a.acks + b.acks, a.losses + b.losses)
    decreases |log|
  {
    if log != [] {
      SpanSplits(log[..|log| - 1], low, middle, high);
    }
  }

  /** Saturating addition of saturated terms is the saturated sum. */
  lemma {:induction false} FoldSaturates(
    slots: seq<PacketInfo>, second: nat, n: nat, sums: seq<Sum>)
    requires n <= |slots| == |sums|
    requires forall i :: 0 <= i < |slots| ==>
               if Admitted(slots[i], second)
               then slots[i].acks == Sat64(sums[i].acks) && slots[i].losses == Sat64(sums[i].losses)
               else sums[i] == Sum(0, 0)
    ensures Totals(slots, second, n) == (Sat64(Added(sums, n).acks), Sat64(Added(sums, n).losses))
    decreases n
  {
    if n > 0 {
      FoldSaturates(slots, second, n - 1, sums);
    }
  }

  function Added(sums: seq<Sum>, n: nat): (r: Sum)
    requires n <= |sums|
  {
    if n == 0 then Sum(0, 0)
    else Sum(Added(sums, n - 1).acks + sums[n - 1].acks, Added(sums, n - 1).losses + sums[n - 1].losses)
  }

  /** The five shared seconds are the five seconds ending at `t`, in some order. */
  lemma {:induction false} SharedSecondsCover(log: seq<Sample>, t: nat, sums: seq<Sum>)
    requires |sums| == SAMPLE_SLOT_COUNT
    requires forall i :: 0 <= i < SAMPLE_SLOT_COUNT ==> sums[i] == SumOver(log, SharedSecond(t, i), SharedSecond(t, i))
    ensures Added(sums, SAMPLE_SLOT_COUNT) == SumOver(log, t - 4, t)
  {
    hide SumOver, SharedSecond;
    SpanSplits(log, t - 4, t - 4, t);
    SpanSplits(log, t - 3, t - 3, t);
    SpanSplits(log, t - 2, t - 2, t);
    SpanSplits(log, t - 1, t - 1, t);
    var back := [SumOver(log, t, t), SumOver(log, t - 1, t - 1), SumOver(log, t - 2, t - 2),
                 SumOver(log, t - 3, t - 3), SumOver(log, t - 4, t - 4)];
    forall i | 0 <= i < 5 ensures sums[i] == back[(t % 5 + 5 - i) % 5] { SharedSecondIs(t, i); }
    Rotation(sums, back, t % 5);
  }

  lemma {:induction false} Rotation(sums: seq<Sum>, back: seq<Sum>, r: nat)
    requires |sums| == |back| == 5 && r < 5
    requires forall i :: 0 <= i < 5 ==> sums[i] == back[(r + 5 - i) % 5]
    ensures Added(sums, 5) == Sum(back[0].acks + back[1].acks + back[2].acks + back[3].acks + back[4].acks,
                                  back[0].losses + back[1].losses + back[2].losses + back[3].losses + back[4].losses)
  {
    hide Added;
    AddedFive(sums);
    assert sums[0] == back[r] && sums[1] == back[(r + 4) % 5] && sums[2] == back[(r + 3) % 5]
           && sums[3] == back[(r + 2) % 5] && sums[4] == back[(r + 1) % 5];
  }

  lemma {:induction false} SharedSecondIs(t: nat, i: nat)
    requires i < SAMPLE_SLOT_COUNT
    ensures SharedSecond(t, i) == t - (t % 5 + 5 - i) % 5
  {
    assert t + 5 - i == (t % 5 + 5 - i) + 5 * (t / 5);
    SameResidue(t % 5 + 5 - i, t / 5);
  }

  lemma {:induction false} SameResidue(a: nat, q: nat)
    ensures (a + 5 * q) % 5 == a % 5
  {
  }

  lemma {:induction false} AddedFive(sums: seq<Sum>)
    requires |sums| == 5
    ensures Added(sums, 5) == Sum(sums[0].acks + sums[1].acks + sums[2].acks + sums[3].acks + sums[4].acks,
                                  sums[0].losses + sums[1].losses + sums[2].losses + sums[3].losses + sums[4].losses)
  {
    assert Added(sums, 1) == sums[0];
    assert Added(sums, 2) == Sum(sums[0].acks + sums[1].acks, sums[0].losses + sums[1].losses);
    assert Added(sums, 4) == Sum(Added(sums, 2).acks + sums[2].acks + sums[3].acks,
                                 Added(sums, 2).losses + sums[2].losses + sums[3].losses);
  }

  /**
   The ring refines the log: after any run of calls with non-decreasing times, the totals used by a call at second
   `t` are those of all calls in the five seconds `t-4..t`, saturated; the older second the filter would also admit
   always shares the slot the call has just overwritten.
   */
  lemma {:induction false} RingRefinesLog(log: seq<Sample>)
    requires log != [] && Ascending(log)
    ensures Totals(RingOf(log), log[|log| - 1].second, SAMPLE_SLOT_COUNT) ==
            (Sat64(WindowSum(log).acks), Sat64(WindowSum(log).losses))
  {
    hide SumOver, RingOf, Totals, SharedSecond, Admitted;
    var t := log[|log| - 1].second;
    var sums := seq(SAMPLE_SLOT_COUNT, i requires 0 <= i < SAMPLE_SLOT_COUNT =>
                      SumOver(log, SharedSecond(t, i), SharedSecond(t, i)));
    forall i | 0 <= i < SAMPLE_SLOT_COUNT
      ensures var info := RingOf(log)[i];
              if Admitted(info, t) then info.acks == Sat64(sums[i].acks) && info.losses == Sat64(sums[i].losses)
              else sums[i] == Sum(0, 0)
    {
      SlotContribution(log, i);
    }
    FoldSaturates(RingOf(log), t, SAMPLE_SLOT_COUNT, sums);
    SharedSecondsCover(log, t, sums);
  }

  // ----- bounds -----

  /** An ack rate between four fifths and one, in lowest risk of dividing by zero. */
  predicate SoundRate(numerator: U64, denominator: U64) {
    1 <= numerator <= denominator && 4 * denominator <= 5 * numerator
  }

  /** The rate is sound except exactly when the multiplied counts saturate although acks are under four fifths. */
  lemma {:induction false} RateSoundExactlyWhen(acks: U64, losses: U64)
    ensures var (numerator, denominator) := AckRate(acks, losses);
            SoundRate(numerator, denominator) <==> !(MAX64 <= 5 * acks < 4 * Sat64(acks + losses))
  {
  }

  /**
   What the rate is, away from saturation: with 50 samples or more, the share of packets acknowledged but never
   under four fifths (cross-multiplied); with fewer, one.
   */
  lemma {:induction false} RateIsClampedShare(acks: U64, losses: U64)
    requires 5 * (acks + losses) <= MAX64
    ensures var (numerator, denominator) := AckRate(acks, losses);
            var samples := acks + losses;
            if samples < 50 then numerator == denominator == 1
            else numerator * (5 * samples) == denominator * (if 5 * acks < 4 * samples then 4 * samples else 5 * acks)
  {
  }

  /** `n` acknowledgements, one call each, all in the first second. */
  function OneByOne(n: nat): (log: seq<Sample>)
    ensures |log| == n && Ascending(log) && forall i :: 0 <= i < n ==> log[i] == Sample(0, 1, 0)
  {
    seq(n, _ => Sample(0, 1, 0))
  }

  lemma {:induction false} OneByOneSums(n: nat)
    ensures SumOver(OneByOne(n), -4, 0) == Sum(n, 0)
  {
    if n > 0 {
      assert OneByOne(n)[..n - 1] == OneByOne(n - 1);
      OneByOneSums(n - 1);
    }
  }

  /** A run of calls reaches an unsound rate: 2^63 acknowledgements, then a report of as many losses. */
  lemma {:induction false} SaturatedRateFails() returns (log: seq<Sample>)
    ensures log == OneByOne(0x8000_0000_0000_0000) + [Sample(0, 0, 0x8000_0000_0000_0000)] && Ascending(log)
    ensures !SoundRate(RateOf(log, false).0, RateOf(log, false).1)
  {
    hide SumOver, AckRate, SoundRate, OneByOne;
    var half := 0x8000_0000_0000_0000;
    log := OneByOne(half) + [Sample(0, 0, half)];
    OneByOneSums(half);
    LastCounts(OneByOne(half), Sample(0, 0, half));
    RateSoundExactlyWhen(half, half);
  }

  lemma {:induction false} LastCounts(log: seq<Sample>, last: Sample)
    requires last.second == 0
    ensures var sum := SumOver(log, -4, 0);
            SumOver(log + [last], -4, 0) == Sum(sum.acks + last.acks, sum.losses + last.losses)
  {
    assert (log + [last])[..|log|] == log;
  }

  /** On logs: the rate is sound exactly unless the window's counts saturate although acks are under four fifths. */
  lemma {:induction false} RateOfSoundExactlyWhen(log: seq<Sample>)
    requires log != []
    ensures var acks, losses := Sat64(WindowSum(log).acks), Sat64(WindowSum(log).losses);
            SoundRate(RateOf(log, false).0, RateOf(log, false).1) <==> !(MAX64 <= 5 * acks < 4 * Sat64(acks + losses))
  {
    hide WindowSum, AckRate, SoundRate;
    RateSoundExactlyWhen(Sat64(WindowSum(log).acks), Sat64(WindowSum(log).losses));
  }

  /** Fewer than 2^64/5 packets counted in the five seconds ending at the last call. */
  predicate FewPackets(log: seq<Sample>) {
    log == [] || 5 * (WindowSum(log).acks + WindowSum(log).losses) <= MAX64
  }

  /** Then the rate is sound, with or without loss compensation. */
  lemma {:induction false} RateOfIsSound(log: seq<Sample>, disableLossCompensation: bool)
    requires FewPackets(log)
    ensures SoundRate(RateOf(log, disableLossCompensation).0, RateOf(log, disableLossCompensation).1)
  {
    hide WindowSum;
    if log != [] && !disableLossCompensation {
      RateSoundExactlyWhen(Sat64(WindowSum(log).acks), Sat64(WindowSum(log).losses));
    }
  }

  /** Dividing by a rate of at most one does not lower a quotient. */
  lemma {:induction false} QuotientLower(a: nat, g: nat, numerator: nat, denominator: nat)
    requires g > 0 && 1 <= numerator <= denominator
    ensures g * numerator > 0 && a / g <= (a * denominator) / (g * numerator)
  {
    var k, bottom := a / g, g * numerator;
    MulMonotone(1, numerator, g);
    assert a == k * g + a % g;
    MulMonotone(k * g, a, denominator);
    assert (k * g) * numerator <= (k * g) * denominator by { MulMonotone(numerator, denominator, k * g); }
    assert k * bottom == (k * g) * numerator;
    FloorAtLeast(a * denominator, bottom, k);
  }

  lemma {:induction false} FloorAtLeast(x: nat, d: nat, k: nat)
    requires d > 0 && k * d <= x
    ensures k <= x / d
  {
    assert x == (x / d) * d + x % d;
    if x / d < k { MulMonotone(x / d + 1, k, d); MulDistributes(x / d, 1, d); }
  }

  lemma {:induction false} FloorTimes(x: nat, d: nat)
    requires d > 0
    ensures (x / d) * d <= x
  {
    assert x == (x / d) * d + x % d;
  }

  /** Dividing by a rate of at least four fifths raises a quotient by at most a quarter. */
  lemma {:induction false} QuotientUpper(a: nat, g: nat, numerator: nat, denominator: nat)
    requires g > 0 && 1 <= numerator && 4 * denominator <= 5 * numerator
    ensures g * numerator > 0 && (a * denominator) / (g * numerator) <= (5 * a) / (4 * g)
  {
    var bottom := g * numerator;
    MulMonotone(1, numerator, g);
    var q := (a * denominator) / bottom;
    FloorTimes(a * denominator, bottom);
    MulMonotone(4 * denominator, 5 * numerator, a);
    Regroup(q, g, numerator, a, denominator);
    CancelLe(q * (4 * g), 5 * a, numerator);
    FloorAtLeast(5 * a, 4 * g, q);
  }

  lemma {:induction false} Regroup(q: nat, g: nat, n: nat, a: nat, d: nat)
    ensures (q * (4 * g)) * n == 4 * (q * (g * n))
    ensures (4 * d) * a == 4 * (a * d) && (5 * n) * a == (5 * a) * n
  {
  }

  lemma {:induction false} CancelLe(a: int, b: int, c: int)
    requires 0 < c && a * c <= b * c
    ensures a <= b
  {
    if a > b { MulMonotone(b + 1, a, c); MulDistributes(b, 1, c); }
  }

  /** The three saturating multiplications saturate exactly when the whole product does not fit. */
  lemma {:induction false} TopSaturatesOnce(bandwidth: U64, rtt: nat, denominator: U64)
    requires denominator >= 1
    ensures WindowTop(bandwidth, rtt, denominator) == Sat128(Product(2 * Product(bandwidth, rtt), denominator))
  {
    hide Product;
    var p := Product(bandwidth, rtt);
    ProductGrows(2 * p, denominator);
    ProductGrows(MAX128, denominator);
  }

  lemma {:induction false} ProductGrows(a: nat, b: nat)
    requires b >= 1
    ensures Product(a, b) == a * b >= a
  {
    MulMonotone(1, b, a);
  }

  lemma {:induction false} FloorMonotone(x: nat, y: nat, d: nat)
    requires d > 0 && x <= y
    ensures x / d <= y / d
  {
    FloorTimes(x, d);
    FloorAtLeast(y, d, x / d);
  }

  /** The largest window that 128 bits can express at this rate. */
  function WidestWindow(numerator: U64, mtu: U64): (r: U64)
    requires numerator >= 1
  {
    AtLeast(Sat64(Quotient(MAX128, NANOS * numerator)), mtu)
  }

  /**
   With a sound rate, the window is at most two and a half times the bandwidth-delay product, clamped to 64 bits and
   never below one datagram; and it is at least twice that product exactly when 128 bits can express so wide a window.
   */
  lemma {:induction false} WindowBounds(bandwidth: U64, rtt: nat, numerator: U64, denominator: U64, mtu: U64)
    requires SoundRate(numerator, denominator) && rtt > 0
    ensures TargetWindow(bandwidth, rtt, numerator, denominator, mtu) <=
            AtLeast(Sat64(5 * Product(bandwidth, rtt) / (2 * NANOS)), mtu)
    ensures var twice := AtLeast(Sat64(2 * Product(bandwidth, rtt) / NANOS), mtu);
            twice <= TargetWindow(bandwidth, rtt, numerator, denominator, mtu) <==>
            twice <= WidestWindow(numerator, mtu)
  {
    hide WindowTop, Product;
    var a := 2 * Product(bandwidth, rtt);
    ProductGrows(a, denominator);
    var whole, bottom := a * denominator, NANOS * numerator;
    TopSaturatesOnce(bandwidth, rtt, denominator);
    QuotientLower(a, NANOS, numerator, denominator);
    QuotientUpper(a, NANOS, numerator, denominator);
    HalveBoth(Product(bandwidth, rtt));
    if whole <= MAX128 { FloorMonotone(whole, MAX128, bottom); } else { FloorMonotone(MAX128, whole, bottom); }
  }

  /** As many acknowledgements in five seconds as leave every 64-bit window expressible. */
  const CALM_NUMERATOR: nat := 18_446_744_073

  lemma {:induction false} CalmRatesFit(bandwidth: U64, rtt: nat, numerator: U64, denominator: U64, mtu: U64)
    requires SoundRate(numerator, denominator) && rtt > 0 && numerator <= CALM_NUMERATOR
    ensures AtLeast(Sat64(2 * Product(bandwidth, rtt) / NANOS), mtu) <=
            TargetWindow(bandwidth, rtt, numerator, denominator, mtu)
  {
    hide TargetWindow, Product;
    MulMonotone(numerator, CALM_NUMERATOR, NANOS);
    MulMonotone(NANOS * numerator, NANOS * CALM_NUMERATOR, MAX64);
    FloorAtLeast(MAX128, NANOS * numerator, MAX64);
    WindowBounds(bandwidth, rtt, numerator, denominator, mtu);
  }

  /** Beyond that the lower bound can fail: after 2^64-1 acknowledgements, at full bandwidth over one second. */
  lemma {:induction false} SaturatedWindowFails(mtu: U64) returns (log: seq<Sample>)
    requires mtu < MAX64
    ensures log == OneByOne(MAX64) && Ascending(log)
    ensures var (numerator, denominator) := RateOf(log, false);
            && SoundRate(numerator, denominator)
            && TargetWindow(MAX64, NANOS, numerator, denominator, mtu) <
               AtLeast(Sat64(2 * Product(MAX64, NANOS) / NANOS), mtu)
  {
    hide TargetWindow, SumOver, OneByOne;
    log := OneByOne(MAX64);
    OneByOneSums(MAX64);
    WindowBounds(MAX64, NANOS, MAX64, MAX64, mtu);
  }

  /** Before the first round-trip time the window is the initial one. */
  lemma {:induction false} NoRoundTripYet(bandwidth: U64, numerator: U64, denominator: U64, mtu: U64)
    ensures TargetWindow(bandwidth, 0, numerator, denominator, mtu) == 10240
  {
  }

  /**
   The window exactly: the largest whose share of the rate fits in the product, but never less than the packet size
   and never more than 64 bits hold.
   */
  lemma {:induction false} WindowIsExact(bandwidth: U64, rtt: nat, numerator: U64, denominator: U64, mtu: U64)
    requires SoundRate(numerator, denominator) && rtt > 0
    ensures var window := TargetWindow(bandwidth, rtt, numerator, denominator, mtu);
            var top := Sat128(Product(2 * Product(bandwidth, rtt), denominator));
            && mtu <= window
            && (mtu < window ==> window * (1_000_000_000 * numerator) <= top)
            && (window < MAX64 ==> top < (window + 1) * (1_000_000_000 * numerator))
  {
    hide WindowBottom, Product, WindowTop;
    TopSaturatesOnce(bandwidth, rtt, denominator);
    assert PositiveRate(numerator) == numerator;
    var top, bottom := Sat128(Product(2 * Product(bandwidth, rtt), denominator)), NANOS * numerator;
    FloorIs(top, bottom);
    var window := TargetWindow(bandwidth, rtt, numerator, denominator, mtu);
    MulMonotone(window, if window < top / bottom then top / bottom else window, bottom);
    MulMonotone(top / bottom + 1, if top / bottom < window then window + 1 else top / bottom + 1, bottom);
  }

  lemma {:induction false} FloorIs(x: nat, d: nat)
    requires d > 0
    ensures (x / d) * d <= x < (x / d + 1) * d
  {
    assert x == (x / d) * d + x % d;
    MulDistributes(x / d, 1, d);
  }

  lemma {:induction false} HalveBoth(x: nat)
    ensures (5 * (2 * x)) / (4 * NANOS) == 5 * x / (2 * NANOS)
  {
  }

  /** Pacing stays between eight and ten bits per second for each byte per second of bandwidth, saturating. */
  lemma {:induction false} PacingBounds(bandwidth: U64, numerator: U64, denominator: U64)
    requires SoundRate(numerator, denominator)
    ensures Sat64(8 * bandwidth) <= PacingRate(bandwidth, numerator, denominator) <= Sat64(10 * bandwidth)
  {
    MulMonotone(bandwidth, MAX64, denominator);
    MulMonotone(denominator, MAX64, MAX64);
    QuotientLower(bandwidth, 1, numerator, denominator);
    QuotientUpper(bandwidth, 1, numerator, denominator);
    var bytes := bandwidth * denominator / numerator;
    assert PacingRate(bandwidth, numerator, denominator) == Sat64(Sat64(bytes) * 8);
  }

  /** With 64-bit operands the 128-bit product does not saturate. */
  lemma {:induction false} PacingIs(bandwidth: U64, numerator: U64, denominator: U64)
    requires numerator >= 1
    ensures PacingRate(bandwidth, numerator, denominator) ==
            Sat64(Sat64(Product(bandwidth, denominator) / numerator) * 8)
  {
    MulMonotone(bandwidth, MAX64, denominator);
    MulMonotone(denominator, MAX64, MAX64);
  }

  /** Eight times a 64-bit-saturated number, saturated. */
  lemma {:induction false} EightTimes(bytes: nat)
    ensures var r := Sat64(Sat64(bytes) * 8);
            if r == MAX64 then bytes >= 0x2000_0000_0000_0000 else r / 8 == bytes && r == 8 * bytes
  {
  }

  /** The pacing rate exactly: eight bits for each whole byte per second of bandwidth over rate, saturating. */
  lemma {:induction false} PacingIsExact(bandwidth: U64, numerator: U64, denominator: U64)
    requires numerator >= 1
    ensures var pacing := PacingRate(bandwidth, numerator, denominator);
            if pacing == MAX64 then 0x2000_0000_0000_0000 * numerator <= Product(bandwidth, denominator)
            else var b := pacing / 8;
                 pacing == 8 * b && b * numerator <= Product(bandwidth, denominator) < (b + 1) * numerator
  {
    hide PacingRate, Product, Sat64;
    var whole := Product(bandwidth, denominator);
    var bytes := whole / numerator;
    PacingIs(bandwidth, numerator, denominator);
    EightTimes(bytes);
    FloorIs(whole, numerator);
    if bytes >= 0x2000_0000_0000_0000 { MulMonotone(0x2000_0000_0000_0000, bytes, numerator); }
  }
}
