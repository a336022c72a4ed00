/**
 The bounded send queue shared by socket users and the send worker, its wakers, and the one-permit notification
 that parks and unparks the worker. Critical sections and notifications are atomic steps; every interleaving of
 senders, pollers, the worker and the drop of the socket is a run.
 */
module SendQueue {
  import opened Bytes
  import opened Subsequences

  const SEND_QUEUE_CAPACITY: nat := 1024

  type Waker = nat

  type IoError = nat

  datatype Group = Group(destination: nat, packets: seq<Bytes>)

  // ----- the state behind the lock -----

  datatype SendState = SendState(queue: seq<Group>, waiters: seq<Waker>, error: Option<IoError>)

  datatype SendResult = Queued | Failed(error: IoError) | WouldBlock | NotEncoded

  datatype PollResult = Ready | ReadyWithError(error: IoError) | Pending

  /** A send: `encoded` is what the codec made of the datagram, or nothing if it failed. */
  function TrySend(s: SendState, encoded: Option<Group>): (r: (SendState, SendResult)) {
    if s.error.Some? then (s.(error := None), Failed(s.error.value))
    else if |s.queue| >= SEND_QUEUE_CAPACITY then (s, WouldBlock)
    else match encoded
      case None => (s, NotEncoded)
      case Some(group) => (s.(queue := s.queue + [group]), Queued)
  }

  function PollWritable(s: SendState, waker: Waker): (r: (SendState, PollResult)) {
    if s.error.Some? then (s.(error := None), ReadyWithError(s.error.value))
    else if |s.queue| < SEND_QUEUE_CAPACITY then (s, Ready)
    else (s.(waiters := if waker in s.waiters then s.waiters else s.waiters + [waker]), Pending)
  }

  /** The worker's pop: taking a group wakes every waiter. */
  function TakeNext(s: SendState): (r: (SendState, Option<Group>)) {
    if s.queue == [] then (s, None)
    else (s.(queue := s.queue[1..], waiters := []), Some(s.queue[0]))
  }

  function RecordError(s: SendState, error: IoError): (r: SendState) {
    s.(error := Some(error), waiters := [])
  }

  /** The three answers of a send that got so far as the lock, and what each leaves. */
  lemma {:induction false} SendAnswers(s: SendState, encoded: Option<Group>)
    ensures var (t, r) := TrySend(s, encoded);
            && (r.Failed? <==> s.error.Some?)
            && (r.Failed? ==> s.error == Some(r.error) && t == s.(error := None))
            && (r.WouldBlock? <==> s.error.None? && |s.queue| >= 1024)
            && (r.Queued? <==> s.error.None? && |s.queue| < 1024 && encoded.Some?)
            && (r.Queued? ==> t == s.(queue := s.queue + [encoded.value]))
            && (r.WouldBlock? || r.NotEncoded? ==> t == s)
  {
  }

  /**
   The three answers of a poll. Pending is answered exactly by a full queue with no error, and then the caller is among
   the waiters, behind those that were there, and nobody else is added.
   */
  lemma {:induction false} PollAnswers(s: SendState, waker: Waker)
    ensures var (t, r) := PollWritable(s, waker);
            && (r.ReadyWithError? <==> s.error.Some?)
            && (r.ReadyWithError? ==> s.error == Some(r.error) && t == s.(error := None))
            && (r.Ready? <==> s.error.None? && |s.queue| < 1024)
            && (r.Ready? ==> t == s)
            && (r.Pending? <==> s.error.None? && |s.queue| >= 1024)
            && (r.Pending? ==>
                  && waker in t.waiters && s.waiters <= t.waiters
                  && (forall w :: w in t.waiters ==> w in s.waiters || w == waker)
                  && t.queue == s.queue && t.error == s.error)
  {
  }

  class SharedSendState {
    var queue: seq<Group>
    var waiters: seq<Waker>
    var error: Option<IoError>

    ghost function State(): SendState
      reads this
    {
      SendState(queue, waiters, error)
    }

    constructor ()
      ensures State() == SendState([], [], None)
    {
      queue, waiters, error := [], [], None;
    }

    /** Drains the waiters, waking each once and in registration order. */
    method WakeWriters() returns (woken: seq<Waker>)
      modifies this`waiters
      ensures waiters == [] && woken == old(waiters)
    {
      woken := [];
      while waiters != []
        invariant woken + waiters == old(waiters)
        decreases |waiters|
      {
        woken := woken + [waiters[0]];
        waiters := waiters[1..];
      }
    }

    method Send(encoded: Option<Group>) returns (r: SendResult)
      modifies this
      ensures (State(), r) == TrySend(old(State()), encoded)
    {
      if error.Some? {
        r := Failed(error.value);
        error := None;
        return;
      }
      if |queue| >= SEND_QUEUE_CAPACITY { return WouldBlock; }
      if encoded.None? { return NotEncoded; }
      queue := queue + [encoded.value];
      return Queued;
    }

    method Poll(waker: Waker) returns (r: PollResult)
      modifies this
      ensures (State(), r) == PollWritable(old(State()), waker)
    {
      if error.Some? {
        r := ReadyWithError(error.value);
        error := None;
        return;
      }
      if |queue| < SEND_QUEUE_CAPACITY { return Ready; }
      if waker !in waiters { waiters := waiters + [waker]; }
      return Pending;
    }

    method Pop() returns (outgoing: Option<Group>, woken: seq<Waker>)
      modifies this
      ensures (State(), outgoing) == TakeNext(old(State()))
      ensures woken == if outgoing.Some? then old(waiters) else []
    {
      if queue == [] { return None, []; }
      outgoing := Some(queue[0]);
      queue := queue[1..];
      woken := WakeWriters();
    }

    method Fail(e: IoError) returns (woken: seq<Waker>)
      modifies this
      ensures State() == RecordError(old(State()), e) && woken == old(waiters)
    {
      error := Some(e);
      woken := WakeWriters();
    }
  }

  // ----- the protocol -----

  /** Where the worker is in its loop. */
  datatype Worker =
    | CheckClosed
    | PopNext
    | AboutToWait
    | Parked
    | Sending(group: Group, sent: nat)
    | Stopped

  /**
   The whole system. `notifies` counts senders between unlocking and notifying, `closing` says the drop is between
   its two statements; `accepted` and `taken` record the groups that entered and left the queue, `raised` and
   `reported` the errors the worker recorded and those a caller was given, `wire` the packets the worker has sent, with
   their destinations, and `done` how each group it is through with went.
   */
  datatype System = System(
    send: SendState, closed: bool, permit: bool, worker: Worker,
    notifies: nat, closing: bool, accepted: seq<Group>, taken: seq<Group>,
    raised: seq<IoError>, reported: seq<IoError>, wire: seq<(nat, Bytes)>, done: seq<Delivery>)

  /**
   A group the worker is through with: how many of its packets went out, and the error that stopped it, if one did.
   */
  datatype Delivery = Delivery(group: Group, sent: nat, error: Option<IoError>)

  const START := System(SendState([], [], None), false, false, CheckClosed, 0, false, [], [], [], [], [], [])

  datatype Action =
    | Submit(encoded: Option<Group>)
    | SubmitNotify
    | Poll(waker: Waker)
    | Drop
    | DropNotify
    | Check
    | Pop
    | Wait
    | Transmit(error: Option<IoError>)

  /** A send borrows the socket until it has notified, so the drop waits for every send to be over. */
  predicate Enabled(y: System, a: Action) {
    match a
    case Submit(_) => !y.closed
    case SubmitNotify => y.notifies > 0
    case Poll(_) => true
    case Drop => !y.closed && y.notifies == 0
    case DropNotify => y.closing
    case Check => y.worker.CheckClosed?
    case Pop => y.worker.PopNext?
    case Wait => y.worker.AboutToWait?
    case Transmit(_) => y.worker.Sending?
  }

  /** `notify_one`: hands the wake-up to a parked worker, otherwise leaves the single permit. */
  function Notified(y: System): (r: System) {
    if y.worker.Parked? then y.(worker := CheckClosed) else y.(permit := true)
  }

  function Next(y: System, a: Action): (r: System)
    requires Enabled(y, a)
  {
    match a
    case Submit(encoded) =>
      var (send, result) := TrySend(y.send, encoded);
      if result.Queued? then y.(send := send, notifies := y.notifies + 1, accepted := y.accepted + [encoded.value])
      else y.(send := send, reported := y.reported + if result.Failed? then [result.error] else [])
    case SubmitNotify => Notified(y.(notifies := y.notifies - 1))
    case Poll(waker) =>
      var (send, result) := PollWritable(y.send, waker);
      y.(send := send, reported := y.reported + if result.ReadyWithError? then [result.error] else [])
    case Drop => y.(closed := true, closing := true)
    case DropNotify => Notified(y.(closing := false))
    case Check => y.(worker := if y.closed then Stopped else PopNext)
    case Pop =>
      (match TakeNext(y.send)
       case (send, Some(group)) => y.(send := send, worker := Sending(group, 0), taken := y.taken + [group])
       case (send, None) => y.(worker := AboutToWait))
    case Wait => if y.permit then y.(permit := false, worker := CheckClosed) else y.(worker := Parked)
    case Transmit(error) =>
      var Sending(group, sent) := y.worker;
      if sent >= |group.packets| then y.(worker := CheckClosed, done := y.done + [Delivery(group, sent, None)])
      else match error
        case None =>
          y.(worker := Sending(group, sent + 1), wire := y.wire + [(group.destination, group.packets[sent])])
        case Some(e) =>
          y.(send := RecordError(y.send, e), worker := CheckClosed, raised := y.raised + [e],
             done := y.done + [Delivery(group, sent, Some(e))])
  }

  // ----- what every run keeps -----

  predicate Distinct(s: seq<Waker>) {
    forall i, j :: 0 <= i < j < |s| ==> s[i] != s[j]
  }

  /** Something will still bring the worker round its loop. */
  predicate WakePending(y: System) {
    y.permit || y.notifies > 0
  }

  predicate Inv(y: System) {
    && |y.send.queue| <= SEND_QUEUE_CAPACITY
    && y.accepted == y.taken + y.send.queue
    && (y.send.waiters != [] ==> |y.send.queue| == SEND_QUEUE_CAPACITY && y.send.error.None?)
    && Distinct(y.send.waiters)
    && (y.worker.Parked? ==> !y.permit)
    && ((y.worker.Parked? || y.worker.AboutToWait?) && y.send.queue != [] ==> WakePending(y))
    && (y.closed && (y.worker.Parked? || y.worker.AboutToWait? || y.worker.PopNext?) ==> y.permit || y.closing)
    && (y.closing ==> y.closed)
    && (y.closed ==> y.notifies == 0)
    && (y.worker.Stopped? ==> y.closed)
    && (y.worker.Sending? ==> y.worker.sent <= |y.worker.group.packets|)
  }

  lemma {:induction false} StartInv()
    ensures Inv(START)
  {
  }

  lemma {:induction false} SubmitKeepsInv(y: System, encoded: Option<Group>)
    requires Inv(y) && !y.closed
    ensures Inv(Next(y, Submit(encoded)))
  {
    if encoded.Some? {
      assert y.taken + y.send.queue + [encoded.value] == y.taken + (y.send.queue + [encoded.value]);
    }
  }

  lemma {:induction false} PollKeepsInv(y: System, waker: Waker)
    requires Inv(y)
    ensures Inv(Next(y, Poll(waker)))
  {
  }

  lemma {:induction false} PopKeepsInv(y: System)
    requires Inv(y) && y.worker.PopNext?
    ensures Inv(Next(y, Pop))
  {
    if y.send.queue != [] {
      assert y.taken + y.send.queue == (y.taken + [y.send.queue[0]]) + y.send.queue[1..];
    }
  }

  lemma {:induction false} StepKeepsInv(y: System, a: Action)
    requires Inv(y) && Enabled(y, a)
    ensures Inv(Next(y, a))
  {
    match a
    case Submit(encoded) => SubmitKeepsInv(y, encoded);
    case Poll(waker) => PollKeepsInv(y, waker);
    case Pop => PopKeepsInv(y);
    case _ => OtherStepsKeepInv(y, a);
  }

  lemma {:induction false} OtherStepsKeepInv(y: System, a: Action)
    requires Inv(y) && Enabled(y, a) && !a.Submit? && !a.Poll? && !a.Pop?
    ensures Inv(Next(y, a))
  {
    assert Next(y, a).send.queue == y.send.queue && Next(y, a).taken == y.taken;
    assert Next(y, a).send.waiters == y.send.waiters || Next(y, a).send.waiters == [];
  }

  /** Lawful runs: each action is enabled where it happens. */
  predicate IsRun(y: System, actions: seq<Action>)
    decreases |actions|
  {
    actions == [] || (Enabled(y, actions[0]) && IsRun(Next(y, actions[0]), actions[1..]))
  }

  function After(y: System, actions: seq<Action>): (r: System)
    requires IsRun(y, actions)
    decreases |actions|
  {
    if actions == [] then y else After(Next(y, actions[0]), actions[1..])
  }

  lemma {:induction false} RunKeepsInv(y: System, actions: seq<Action>)
    requires Inv(y) && IsRun(y, actions)
    ensures Inv(After(y, actions))
    decreases |actions|
  {
    hide Inv, Next;
    if actions != [] {
      StepKeepsInv(y, actions[0]);
      RunKeepsInv(Next(y, actions[0]), actions[1..]);
    }
  }

  /**
   Safety in every reachable state: the queue is bounded, groups have left it in the order they entered, waiters
   are registered only against a full queue with no pending error, and a worker parked with no notification still
   to come has an empty, unclosed queue and nobody waiting on it.
   */
  lemma {:induction false} ReachableStatesAreSafe(actions: seq<Action>)
    requires IsRun(START, actions)
    ensures var y := After(START, actions);
            && |y.send.queue| <= SEND_QUEUE_CAPACITY
            && y.taken <= y.accepted && y.accepted[|y.taken|..] == y.send.queue
            && (y.send.waiters != [] ==> |y.send.queue| == SEND_QUEUE_CAPACITY && y.send.error.None?)
            && Distinct(y.send.waiters)
            && (y.worker.Parked? && y.notifies == 0 && !y.closing ==>
                  !y.permit && y.send.queue == [] && !y.closed && y.send.waiters == [])
            && (y.worker.Stopped? ==> y.closed)
            && ErrorsInOrder(y) && SentInOrder(y)
  {
    StartInv();
    RunKeepsInv(START, actions);
    assert ErrorsInOrder(START);
    ErrorsSurfaceOnce(START, actions);
    assert SentInOrder(START);
    PacketsGoOutInOrder(START, actions);
  }

  // ----- errors -----

  /** The errors given to callers, and the one waiting to be. */
  function Surfaced(y: System): (r: seq<IoError>) {
    y.reported + if y.send.error.Some? then [y.send.error.value] else []
  }

  /** Each error surfaces at most once and in order, and the latest one always does. */
  ghost predicate ErrorsInOrder(y: System) {
    && IsSubsequence(Surfaced(y), y.raised)
    && (y.raised != [] ==> Surfaced(y) != [] && Surfaced(y)[|Surfaced(y)| - 1] == y.raised[|y.raised| - 1])
  }

  /** A step surfaces nothing new, or raises an error, which takes the place of one still waiting. */
  lemma {:induction false} StepSurfaces(y: System, a: Action)
    requires Enabled(y, a)
    ensures var z := Next(y, a);
            || (z.raised == y.raised && Surfaced(z) == Surfaced(y))
            || (a.Transmit? && a.error.Some? && z.raised == y.raised + [a.error.value] &&
                Surfaced(z) == y.reported + [a.error.value])
  {
    hide Next;
    if a.Submit? || a.Poll? { CallSurfaces(y, a); } else { WorkSurfaces(y, a); }
  }

  lemma {:induction false} CallSurfaces(y: System, a: Action)
    requires Enabled(y, a) && (a.Submit? || a.Poll?)
    ensures Next(y, a).raised == y.raised && Surfaced(Next(y, a)) == Surfaced(y)
  {
  }

  lemma {:induction false} WorkSurfaces(y: System, a: Action)
    requires Enabled(y, a) && !a.Submit? && !a.Poll?
    ensures Next(y, a).reported == y.reported
    ensures if a.Transmit? && a.error.Some? && y.worker.sent < |y.worker.group.packets|
            then Next(y, a).raised == y.raised + [a.error.value] && Next(y, a).send.error == a.error
            else Next(y, a).raised == y.raised && Next(y, a).send.error == y.send.error
  {
  }

  lemma {:induction false} ReportedInOrder(y: System)
    requires ErrorsInOrder(y)
    ensures IsSubsequence(y.reported, y.raised)
  {
    hide IsSubsequence;
    if y.send.error.Some? {
      SubsequenceDropsLast(Surfaced(y), y.raised);
      assert Surfaced(y)[..|Surfaced(y)| - 1] == y.reported;
    } else {
      assert Surfaced(y) == y.reported;
    }
  }

  lemma {:induction false} StepKeepsErrors(y: System, a: Action)
    requires ErrorsInOrder(y) && Enabled(y, a)
    ensures ErrorsInOrder(Next(y, a))
  {
    hide IsSubsequence, Next, Surfaced;
    StepSurfaces(y, a);
    if Next(y, a).raised != y.raised || Surfaced(Next(y, a)) != Surfaced(y) {
      ReportedInOrder(y);
      SubsequenceGrows(y.reported, y.raised, a.error.value);
    }
  }

  /** In every run, of the errors the worker recorded each is reported at most once, in order, the latest never lost. */
  lemma {:induction false} ErrorsSurfaceOnce(y: System, actions: seq<Action>)
    requires ErrorsInOrder(y) && IsRun(y, actions)
    ensures ErrorsInOrder(After(y, actions))
    decreases |actions|
  {
    hide ErrorsInOrder, Next;
    if actions != [] {
      StepKeepsErrors(y, actions[0]);
      ErrorsSurfaceOnce(Next(y, actions[0]), actions[1..]);
    }
  }

  // ----- packets -----

  /** The first `n` packets of a group, as they go out. */
  function Prefix(group: Group, n: nat): (r: seq<(nat, Bytes)>)
    requires n <= |group.packets|
  {
    seq(n, i requires 0 <= i < n => (group.destination, group.packets[i]))
  }

  /** Each group went out whole, or up to the packet whose error was recorded. */
  predicate Sound(d: Delivery) {
    if d.error.None? then d.sent == |d.group.packets| else d.sent < |d.group.packets|
  }

  function WireOf(done: seq<Delivery>): (r: seq<(nat, Bytes)>)
    requires forall i :: 0 <= i < |done| ==> Sound(done[i])
  {
    if done == [] then []
    else
      assert Sound(done[|done| - 1]);
      WireOf(done[..|done| - 1]) + Prefix(done[|done| - 1].group, done[|done| - 1].sent)
  }

  function ErrorsOf(done: seq<Delivery>): (r: seq<IoError>) {
    if done == [] then []
    else
      ErrorsOf(done[..|done| - 1]) +
      (match done[|done| - 1].error case Some(e) => [e] case None => [])
  }

  function GroupsOf(done: seq<Delivery>): (r: seq<Group>)
    ensures |r| == |done|
  {
    seq(|done|, i requires 0 <= i < |done| => done[i].group)
  }

  /** What has gone out is what was taken, group by group and packet by packet, but for what an error cut off. */
  predicate SentInOrder(y: System) {
    && (forall i :: 0 <= i < |y.done| ==> Sound(y.done[i]))
    && ErrorsOf(y.done) == y.raised
    && match y.worker
       case Sending(group, sent) =>
         && sent <= |group.packets|
         && y.taken == GroupsOf(y.done) + [group] && y.wire == WireOf(y.done) + Prefix(group, sent)
       case _ => y.taken == GroupsOf(y.done) && y.wire == WireOf(y.done)
  }

  lemma {:induction false} DoneGrows(done: seq<Delivery>, d: Delivery)
    requires (forall i :: 0 <= i < |done| ==> Sound(done[i])) && Sound(d)
    ensures WireOf(done + [d]) == WireOf(done) + Prefix(d.group, d.sent)
    ensures ErrorsOf(done + [d]) == ErrorsOf(done) + (match d.error case Some(e) => [e] case None => [])
    ensures GroupsOf(done + [d]) == GroupsOf(done) + [d.group]
  {
    assert (done + [d])[..|done|] == done;
  }

  lemma {:induction false} TransmitKeepsOrder(y: System, error: Option<IoError>)
    requires SentInOrder(y) && y.worker.Sending?
    ensures SentInOrder(Next(y, Transmit(error)))
  {
    hide WireOf, ErrorsOf;
    var Sending(group, sent) := y.worker;
    if sent >= |group.packets| {
      DoneGrows(y.done, Delivery(group, sent, None));
    } else if error.None? {
      assert Prefix(group, sent + 1) == Prefix(group, sent) + [(group.destination, group.packets[sent])];
    } else {
      DoneGrows(y.done, Delivery(group, sent, error));
    }
  }

  lemma {:induction false} StepKeepsOrder(y: System, a: Action)
    requires SentInOrder(y) && Enabled(y, a)
    ensures SentInOrder(Next(y, a))
  {
    hide WireOf, ErrorsOf, GroupsOf;
    match a
    case Transmit(error) => TransmitKeepsOrder(y, error);
    case Pop =>
      if y.send.queue != [] { assert Prefix(y.send.queue[0], 0) == []; }
    case _ =>
      assert Next(y, a).wire == y.wire && Next(y, a).done == y.done && Next(y, a).taken == y.taken;
  }

  /** In every run the packets of the groups taken go out in order, each group whole or up to a recorded error. */
  lemma {:induction false} PacketsGoOutInOrder(y: System, actions: seq<Action>)
    requires SentInOrder(y) && IsRun(y, actions)
    ensures SentInOrder(After(y, actions))
    decreases |actions|
  {
    hide SentInOrder, Next;
    if actions != [] {
      StepKeepsOrder(y, actions[0]);
      PacketsGoOutInOrder(Next(y, actions[0]), actions[1..]);
    }
  }

  // ----- no wake-up is lost -----

  /** Actions that bring the worker forward: its own, and a notification that finds it parked. */
  predicate Helpful(y: System, a: Action) {
    || a.Check? || a.Pop? || a.Wait? || a.Transmit?
    || (y.worker.Parked? && (a.SubmitNotify? || a.DropNotify?))
  }

  /** How many helpful actions the worker is away from its next pop. */
  function Distance(y: System): (n: nat)
    requires Inv(y)
  {
    match y.worker
    case PopNext => 0
    case CheckClosed => 1
    case Parked => 2
    case AboutToWait => 3
    case Sending(group, sent) => 2 + |group.packets| - sent
    case Stopped => 0
  }

  /** While the queue is not empty and the socket is open, some helpful action can happen. */
  lemma {:induction false} WorkerIsNeverStuck(y: System)
    requires Inv(y) && y.send.queue != [] && !y.closed
    ensures exists a :: Enabled(y, a) && Helpful(y, a)
  {
    match y.worker
    case CheckClosed => assert Enabled(y, Check) && Helpful(y, Check);
    case PopNext => assert Enabled(y, Pop) && Helpful(y, Pop);
    case AboutToWait => assert Enabled(y, Wait) && Helpful(y, Wait);
    case Sending(_, _) => assert Enabled(y, Transmit(None)) && Helpful(y, Transmit(None));
    case Parked => assert Enabled(y, SubmitNotify) && Helpful(y, SubmitNotify);
  }

  /** Until the next pop no action moves the worker away from it, and helpful ones move it closer. */
  lemma {:induction false} StepTowardsPop(y: System, a: Action)
    requires Inv(y) && Enabled(y, a) && y.send.queue != [] && !y.closed
    ensures Inv(Next(y, a))
    ensures Next(y, a).taken == y.taken ==>
              Distance(Next(y, a)) + (if Helpful(y, a) then 1 else 0) <= Distance(y)
    ensures Next(y, a).taken == y.taken ==> Next(y, a).send.queue != []
    ensures Next(y, a).taken != y.taken ==> Next(y, a).send.waiters == []
  {
    StepKeepsInv(y, a);
  }

  function HelpfulSteps(y: System, actions: seq<Action>): (n: nat)
    requires IsRun(y, actions)
    decreases |actions|
  {
    if actions == [] then 0
    else (if Helpful(y, actions[0]) then 1 else 0) + HelpfulSteps(Next(y, actions[0]), actions[1..])
  }

  lemma {:induction false} StepGrows(y: System, a: Action)
    requires Enabled(y, a)
    ensures y.taken <= Next(y, a).taken && y.raised <= Next(y, a).raised && (y.closed ==> Next(y, a).closed)
  {
  }

  lemma {:induction false} HistoryGrows(y: System, actions: seq<Action>)
    requires IsRun(y, actions)
    ensures y.taken <= After(y, actions).taken && y.raised <= After(y, actions).raised
    ensures y.closed ==> After(y, actions).closed
    decreases |actions|
  {
    hide Next, Enabled;
    if actions != [] {
      StepGrows(y, actions[0]);
      HistoryGrows(Next(y, actions[0]), actions[1..]);
    }
  }

  /** The queue moves: a run with more than `Distance` helpful actions takes a group, unless the socket is dropped. */
  lemma {:induction false} QueueMoves(y: System, actions: seq<Action>)
    requires Inv(y) && IsRun(y, actions) && y.send.queue != []
    requires !After(y, actions).closed && After(y, actions).taken == y.taken
    ensures HelpfulSteps(y, actions) <= Distance(y)
    decreases |actions|
  {
    hide Inv, Next, Helpful, Distance;
    if actions != [] {
      var z := Next(y, actions[0]);
      FirstStepGrows(y, actions);
      StepTowardsPop(y, actions[0]);
      QueueMoves(z, actions[1..]);
    }
  }

  lemma {:induction false} FirstStepGrows(y: System, actions: seq<Action>)
    requires IsRun(y, actions) && actions != []
    requires !After(y, actions).closed && After(y, actions).taken == y.taken
    ensures !y.closed && !Next(y, actions[0]).closed && Next(y, actions[0]).taken == y.taken
  {
    HistoryGrows(y, actions);
    HistoryGrows(Next(y, actions[0]), actions[1..]);
    assert y.taken <= Next(y, actions[0]).taken;
  }

  /** A waker still registered at every point of a run from `y`. */
  predicate StaysWaiting(y: System, actions: seq<Action>, waker: Waker)
    requires IsRun(y, actions)
    decreases |actions|
  {
    waker in y.send.waiters && (actions == [] || StaysWaiting(Next(y, actions[0]), actions[1..], waker))
  }

  /** A step unregisters a waker only by taking a group or recording an error, and then it wakes them all. */
  lemma {:induction false} StepKeepsWaker(y: System, a: Action, waker: Waker)
    requires Inv(y) && Enabled(y, a) && waker in y.send.waiters
    ensures var z := Next(y, a);
            && (z.taken == y.taken && z.raised == y.raised ==> waker in z.send.waiters)
            && (z.taken != y.taken || z.raised != y.raised ==> z.send.waiters == [])
            && y.taken <= z.taken && y.raised <= z.raised
  {
  }

  lemma {:induction false} WakerIsKept(y: System, actions: seq<Action>, waker: Waker)
    requires Inv(y) && IsRun(y, actions) && waker in y.send.waiters
    requires After(y, actions).taken == y.taken && After(y, actions).raised == y.raised
    ensures StaysWaiting(y, actions, waker)
    decreases |actions|
  {
    hide Next, Inv;
    if actions != [] {
      var z := Next(y, actions[0]);
      StepKeepsInv(y, actions[0]);
      StepKeepsWaker(y, actions[0], waker);
      HistoryGrows(z, actions[1..]);
      WakerIsKept(z, actions[1..], waker);
    }
  }

  /** A caller told to wait is registered, and stays so until a group is taken or an error recorded, in every run. */
  lemma {:induction false} PendingStaysRegistered(y: System, waker: Waker, actions: seq<Action>)
    requires Inv(y) && PollWritable(y.send, waker).1.Pending? && IsRun(Next(y, Poll(waker)), actions)
    ensures waker in Next(y, Poll(waker)).send.waiters
    ensures var z := Next(y, Poll(waker));
            After(z, actions).taken == y.taken && After(z, actions).raised == y.raised ==>
              StaysWaiting(z, actions, waker)
  {
    var z := Next(y, Poll(waker));
    PollAnswers(y.send, waker);
    StepKeepsInv(y, Poll(waker));
    if After(z, actions).taken == y.taken && After(z, actions).raised == y.raised { WakerIsKept(z, actions, waker); }
  }

  /** A step that leaves a waker registered is no pop, so it does not move the worker away from one. */
  lemma {:induction false} StepWhileWaiting(y: System, a: Action, waker: Waker)
    requires Inv(y) && Enabled(y, a) && waker in y.send.waiters && waker in Next(y, a).send.waiters
    ensures Inv(Next(y, a))
    ensures Distance(Next(y, a)) + (if Helpful(y, a) then 1 else 0) <= Distance(y)
  {
    StepKeepsInv(y, a);
  }

  /**
   In every interleaving, the socket's drop included, a registered waker that has not been woken has seen at most
   `Distance` helpful actions. (`WaiterHasAWayOn` says one can always happen until the worker has stopped.)
   */
  lemma {:induction false} WaitersAreWoken(y: System, actions: seq<Action>, waker: Waker)
    requires Inv(y) && IsRun(y, actions) && StaysWaiting(y, actions, waker)
    ensures HelpfulSteps(y, actions) <= Distance(y)
    decreases |actions|
  {
    hide Next, Helpful, Distance, Inv;
    if actions != [] {
      StepWhileWaiting(y, actions[0], waker);
      WaitersAreWoken(Next(y, actions[0]), actions[1..], waker);
    }
  }

  // ----- shutdown -----

  /** How many helpful actions a closed worker is away from stopping. */
  function StopDistance(y: System): (n: nat)
    requires Inv(y)
  {
    match y.worker
    case Stopped => 0
    case CheckClosed => 1
    case Parked => 2
    case AboutToWait => 3
    case PopNext => 4 + (if y.send.queue == [] then 0 else |y.send.queue[0].packets|)
    case Sending(group, sent) => 2 + |group.packets| - sent
  }

  /** After the drop the worker always has a way forward until it stops: its wake-up cannot be missed. */
  lemma {:induction false} ClosedWorkerIsNeverStuck(y: System)
    requires Inv(y) && y.closed && !y.worker.Stopped?
    ensures exists a :: Enabled(y, a) && Helpful(y, a)
  {
    match y.worker
    case CheckClosed => assert Enabled(y, Check) && Helpful(y, Check);
    case PopNext => assert Enabled(y, Pop) && Helpful(y, Pop);
    case AboutToWait => assert Enabled(y, Wait) && Helpful(y, Wait);
    case Sending(_, _) => assert Enabled(y, Transmit(None)) && Helpful(y, Transmit(None));
    case Parked => assert Enabled(y, DropNotify) && Helpful(y, DropNotify);
  }

  lemma {:induction false} StepTowardsStop(y: System, a: Action)
    requires Inv(y) && Enabled(y, a) && y.closed
    ensures Inv(Next(y, a)) && Next(y, a).closed
    ensures StopDistance(Next(y, a)) + (if Helpful(y, a) then 1 else 0) <= StopDistance(y)
  {
    StepKeepsInv(y, a);
  }

  /** After the drop the worker takes at most `StopDistance` more steps of its loop, in every interleaving. */
  lemma {:induction false} ClosedWorkerStops(y: System, actions: seq<Action>)
    requires Inv(y) && IsRun(y, actions) && y.closed
    ensures HelpfulSteps(y, actions) <= StopDistance(y)
    ensures HelpfulSteps(y, actions) == StopDistance(y) ==> After(y, actions).worker.Stopped?
    decreases |actions|
  {
    hide Next, Helpful;
    if actions != [] {
      StepTowardsStop(y, actions[0]);
      ClosedWorkerStops(Next(y, actions[0]), actions[1..]);
    }
  }

  /** While a waker is registered a helpful action can happen, so it is woken, unless the worker has stopped. */
  lemma {:induction false} WaiterHasAWayOn(y: System, waker: Waker)
    requires Inv(y) && waker in y.send.waiters && !y.worker.Stopped?
    ensures exists a :: Enabled(y, a) && Helpful(y, a)
  {
    hide Helpful, Enabled;
    if y.closed { ClosedWorkerIsNeverStuck(y); } else { WorkerIsNeverStuck(y); }
  }

  // ----- wakers left behind by the drop -----

  /** Some continuation ends with the worker stopped and the waker never woken. */
  ghost predicate CanBeLeft(y: System, waker: Waker) {
    exists actions :: IsRun(y, actions) && StaysWaiting(y, actions, waker) && After(y, actions).worker.Stopped?
  }

  /** A waker registered with a stopped worker stays registered in every run. */
  lemma {:induction false} LeftForever(y: System, actions: seq<Action>, waker: Waker)
    requires Inv(y) && y.worker.Stopped? && waker in y.send.waiters && IsRun(y, actions)
    ensures StaysWaiting(y, actions, waker) && After(y, actions).worker.Stopped?
    decreases |actions|
  {
    if actions != [] {
      StepKeepsInv(y, actions[0]);
      LeftForever(Next(y, actions[0]), actions[1..], waker);
    }
  }

  /** The worker's own next step towards stopping. */
  function OwnStep(worker: Worker): (a: Action) {
    match worker
    case CheckClosed => Check
    case PopNext => Pop
    case AboutToWait => Wait
    case Parked => DropNotify
    case Sending(_, _) => Transmit(None)
    case Stopped => Check
  }

  lemma {:induction false} OwnStepLeaves(y: System, waker: Waker)
    requires Inv(y) && y.closed && waker in y.send.waiters && !y.worker.PopNext? && !y.worker.Stopped?
    ensures var a := OwnStep(y.worker);
            && Enabled(y, a) && Helpful(y, a)
            && waker in Next(y, a).send.waiters && !Next(y, a).worker.PopNext?
  {
  }

  lemma {:induction false} LeavesWaker(y: System, waker: Waker) returns (actions: seq<Action>)
    requires Inv(y) && y.closed && waker in y.send.waiters && !y.worker.PopNext?
    ensures IsRun(y, actions) && StaysWaiting(y, actions, waker) && After(y, actions).worker.Stopped?
    decreases StopDistance(y)
  {
    hide Next, Helpful, Enabled, Inv, StopDistance, OwnStep;
    if y.worker.Stopped? {
      actions := [];
    } else {
      var a := OwnStep(y.worker);
      OwnStepLeaves(y, waker);
      StepTowardsStop(y, a);
      var rest := LeavesWaker(Next(y, a), waker);
      RunOne(y, a, rest);
      actions := [a] + rest;
      assert actions[1..] == rest;
    }
  }

  /** The waker has been woken for good, or the very next step of the worker wakes it. */
  predicate WokenOrNext(y: System, waker: Waker) {
    && y.closed && |y.send.queue| <= SEND_QUEUE_CAPACITY
    && ((y.worker.PopNext? && y.send.queue != []) || (|y.send.queue| < SEND_QUEUE_CAPACITY && waker !in y.send.waiters))
  }

  lemma {:induction false} WokenOrNextStays(y: System, actions: seq<Action>, waker: Waker)
    requires WokenOrNext(y, waker) && IsRun(y, actions)
    ensures WokenOrNext(After(y, actions), waker)
    decreases |actions|
  {
    if actions != [] {
      WokenOrNextStep(y, actions[0], waker);
      WokenOrNextStays(Next(y, actions[0]), actions[1..], waker);
    }
  }

  lemma {:induction false} WokenOrNextStep(y: System, a: Action, waker: Waker)
    requires WokenOrNext(y, waker) && Enabled(y, a)
    ensures WokenOrNext(Next(y, a), waker)
  {
  }

  lemma {:induction false} LastWaits(y: System, actions: seq<Action>, waker: Waker)
    requires IsRun(y, actions) && StaysWaiting(y, actions, waker)
    ensures waker in After(y, actions).send.waiters
    decreases |actions|
  {
    hide Next, Enabled;
    if actions != [] { LastWaits(Next(y, actions[0]), actions[1..], waker); }
  }

  /**
   The drop can leave a waker behind for good exactly when it does not find the worker past its check and about to
   pop: the worker stops without waking anyone.
   */
  lemma {:induction false} DropLeavesWakerExactlyWhen(y: System, waker: Waker)
    requires Inv(y) && y.closed && waker in y.send.waiters
    ensures CanBeLeft(y, waker) <==> !y.worker.PopNext?
  {
    hide IsRun, After, StaysWaiting;
    if y.worker.PopNext? {
      forall actions | IsRun(y, actions) && StaysWaiting(y, actions, waker) ensures !After(y, actions).worker.Stopped? {
        WokenOrNextStays(y, actions, waker);
        LastWaits(y, actions, waker);
      }
    } else {
      var actions := LeavesWaker(y, waker);
    }
  }

  const SOME_GROUP := Group(0, [])

  /** `n` whole sends, each up to its notification. */
  function Sends(n: nat): (r: seq<Action>) {
    if n == 0 then [] else [Submit(Some(SOME_GROUP)), SubmitNotify] + Sends(n - 1)
  }

  lemma {:induction false} RunsAppend(y: System, a: seq<Action>, b: seq<Action>)
    requires IsRun(y, a) && IsRun(After(y, a), b)
    ensures IsRun(y, a + b) && After(y, a + b) == After(After(y, a), b)
    decreases |a|
  {
    hide Next, Enabled;
    if a == [] {
      assert a + b == b;
    } else {
      RunsAppend(Next(y, a[0]), a[1..], b);
      assert (a + b)[1..] == a[1..] + b;
    }
  }

  /** A state in which only senders have been at work. */
  predicate OnlyFed(y: System, n: nat) {
    && !y.closed && y.notifies == 0 && y.worker.CheckClosed?
    && y.send.error.None? && |y.send.queue| == n && y.send.waiters == []
  }

  lemma {:induction false} SendFeeds(y: System, n: nat)
    requires OnlyFed(y, n) && n < SEND_QUEUE_CAPACITY
    ensures var submit := Submit(Some(SOME_GROUP));
            && Enabled(y, submit) && Enabled(Next(y, submit), SubmitNotify)
            && OnlyFed(Next(Next(y, submit), SubmitNotify), n + 1)
  {
  }

  /** Senders alone fill the queue, one group a call, while the worker has yet to take its first step. */
  lemma {:induction false} SendsFill(y: System, k: nat, n: nat)
    requires OnlyFed(y, k) && k + n <= SEND_QUEUE_CAPACITY
    ensures IsRun(y, Sends(n)) && OnlyFed(After(y, Sends(n)), k + n)
    decreases n
  {
    hide Next, Enabled, OnlyFed;
    if n > 0 {
      var submit := Submit(Some(SOME_GROUP));
      SendFeeds(y, k);
      var z := Next(Next(y, submit), SubmitNotify);
      SendsFill(z, k + 1, n - 1);
      RunOne(Next(y, submit), SubmitNotify, Sends(n - 1));
      RunOne(y, submit, [SubmitNotify] + Sends(n - 1));
      assert Sends(n) == [submit] + ([SubmitNotify] + Sends(n - 1));
    }
  }

  /** Such a drop happens: 1024 sends, a poll and the drop leave the waker with a worker that may stop at once. */
  lemma {:induction false} DropCanLeaveWaker(waker: Waker) returns (actions: seq<Action>)
    ensures IsRun(START, actions)
    ensures waker in After(START, actions).send.waiters && CanBeLeft(After(START, actions), waker)
  {
    hide IsRun, After;
    var fill := Sends(SEND_QUEUE_CAPACITY);
    SendsFill(START, 0, SEND_QUEUE_CAPACITY);
    var y := After(START, fill);
    var z := Next(y, Poll(waker));
    RunNone(Next(z, Drop));
    RunOne(z, Drop, []);
    RunOne(y, Poll(waker), [Drop] + []);
    RunsAppend(START, fill, [Poll(waker)] + ([Drop] + []));
    actions := fill + ([Poll(waker)] + ([Drop] + []));
    StartInv();
    RunKeepsInv(START, actions);
    DropLeavesWakerExactlyWhen(Next(z, Drop), waker);
  }

  // ----- groups left behind by the drop -----

  /** How many more groups a closed worker takes: the one it is about to pop, if there is one. */
  function TakesAfterDrop(y: System): (n: nat) {
    if y.worker.PopNext? && y.send.queue != [] then 1 else 0
  }

  lemma {:induction false} StepAfterDrop(y: System, a: Action)
    requires Enabled(y, a) && y.closed
    ensures var z := Next(y, a);
            && z.closed && z.accepted == y.accepted
            && y.taken <= z.taken && |z.taken| + TakesAfterDrop(z) == |y.taken| + TakesAfterDrop(y)
  {
  }

  /**
   After the drop nothing is accepted, and the worker takes the group it is about to pop, if any, and no other,
   whatever else happens.
   */
  lemma {:induction false} DropLeavesQueue(y: System, actions: seq<Action>)
    requires IsRun(y, actions) && y.closed
    ensures var z := After(y, actions);
            && z.closed && z.accepted == y.accepted
            && y.taken <= z.taken && |z.taken| + TakesAfterDrop(z) == |y.taken| + TakesAfterDrop(y)
    decreases |actions|
  {
    hide Next, Enabled, TakesAfterDrop;
    if actions != [] {
      StepAfterDrop(y, actions[0]);
      DropLeavesQueue(Next(y, actions[0]), actions[1..]);
    }
  }

  /** So once the worker has stopped, every other group that was queued at the drop is in the queue for good. */
  lemma {:induction false} StoppedWorkerLeavesQueue(y: System, actions: seq<Action>)
    requires Inv(y) && IsRun(y, actions) && y.closed && After(y, actions).worker.Stopped?
    ensures After(y, actions).send.queue == y.send.queue[TakesAfterDrop(y)..]
  {
    hide Next, Enabled;
    RunKeepsInv(y, actions);
    DropLeavesQueue(y, actions);
    var z := After(y, actions);
    assert y.accepted == y.taken + y.send.queue && z.accepted == z.taken + z.send.queue;
    assert y.accepted[|z.taken|..] == z.send.queue;
    assert y.accepted[|y.taken|..] == y.send.queue;
  }

  /** And that can be all 1024: a full queue, the drop, and a worker that then stops. */
  lemma {:induction false} DropCanLoseAll() returns (actions: seq<Action>)
    ensures IsRun(START, actions)
    ensures var y := After(START, actions);
            y.worker.Stopped? && |y.accepted| == |y.send.queue| == SEND_QUEUE_CAPACITY && y.taken == []
  {
    hide IsRun, After;
    var fill := Sends(SEND_QUEUE_CAPACITY);
    SendsFill(START, 0, SEND_QUEUE_CAPACITY);
    var y := After(START, fill);
    var z := Next(y, Drop);
    RunNone(Next(z, Check));
    RunOne(z, Check, []);
    RunOne(y, Drop, [Check] + []);
    RunsAppend(START, fill, [Drop] + ([Check] + []));
    actions := fill + ([Drop] + ([Check] + []));
    StartInv();
    RunKeepsInv(START, actions);
    NothingTaken(START, SEND_QUEUE_CAPACITY);
  }

  lemma {:induction false} NothingTaken(y: System, n: nat)
    requires IsRun(y, Sends(n))
    ensures After(y, Sends(n)).taken == y.taken
    decreases n
  {
    if n > 0 {
      var submit := Submit(Some(SOME_GROUP));
      assert Sends(n)[0] == submit && Sends(n)[1..] == [SubmitNotify] + Sends(n - 1);
      assert Sends(n)[1..][0] == SubmitNotify && Sends(n)[1..][1..] == Sends(n - 1);
      NothingTaken(Next(Next(y, submit), SubmitNotify), n - 1);
    }
  }

  lemma {:induction false} RunNone(y: System)
    ensures IsRun(y, []) && After(y, []) == y
  {
  }

  // ----- the port-hopping socket's shutdown -----

  /**
   `notify_waiters`, which the port-hopping socket's drop uses instead: it wakes a parked worker but stores nothing.
   */
  function NotifiedWaiters(y: System): (r: System) {
    if y.worker.Parked? then y.(worker := CheckClosed) else y
  }

  /** A closed worker parked for good. */
  predicate Stranded(y: System) {
    y.closed && y.worker.Parked? && !y.permit && y.notifies == 0 && !y.closing
  }

  lemma {:induction false} StrandedForever(y: System, actions: seq<Action>)
    requires Stranded(y) && IsRun(y, actions)
    ensures Stranded(After(y, actions)) && HelpfulSteps(y, actions) == 0
    decreases |actions|
  {
    if actions != [] {
      StrandedForever(Next(y, actions[0]), actions[1..]);
    }
  }

  /** At the notification the worker has seen an empty queue or is about to, and no permit will recall it. */
  predicate NotificationMissed(y: System) {
    !y.permit && (y.worker.AboutToWait? || (y.worker.PopNext? && y.send.queue == []))
  }

  /** A closed worker that heads for a park still has a wake-up coming. */
  predicate Covered(y: System) {
    && y.closed
    && (y.worker.Parked? ==> !y.permit)
    && (y.worker.Parked? || y.worker.AboutToWait? || (y.worker.PopNext? && y.send.queue == []) ==>
          y.permit || y.notifies > 0 || y.closing)
  }

  lemma {:induction false} CoveredNeverStrands(y: System, actions: seq<Action>)
    requires Covered(y) && IsRun(y, actions)
    ensures !Stranded(After(y, actions))
    decreases |actions|
  {
    if actions != [] {
      CoveredNeverStrands(Next(y, actions[0]), actions[1..]);
    }
  }

  lemma {:induction false} RunOne(y: System, a: Action, rest: seq<Action>)
    requires Enabled(y, a)
    ensures IsRun(y, [a] + rest) <==> IsRun(Next(y, a), rest)
    ensures IsRun(Next(y, a), rest) ==> After(y, [a] + rest) == After(Next(y, a), rest)
  {
    hide Next, Enabled;
    assert ([a] + rest)[1..] == rest;
  }

  /** Some continuation parks the worker for good. */
  ghost predicate CanStrand(y: System) {
    exists actions :: IsRun(y, actions) && Stranded(After(y, actions))
  }

  /** From a missed notification the worker's own next steps park it for good. */
  lemma {:induction false} MissedStrands(y: System)
    requires y.closed && !y.closing && y.notifies == 0 && NotificationMissed(y)
    ensures CanStrand(y)
  {
    if y.worker.AboutToWait? {
      RunOne(y, Wait, []);
      assert IsRun(y, [Wait] + []) && Stranded(After(y, [Wait] + []));
    } else {
      var z := Next(y, Pop);
      RunOne(z, Wait, []);
      RunOne(y, Pop, [Wait] + []);
      assert IsRun(y, [Pop] + ([Wait] + [])) && Stranded(After(y, [Pop] + ([Wait] + [])));
    }
  }

  /** With `notify_waiters` the shutdown wake-up can be lost, in exactly these states. */
  lemma {:induction false} HoppingDropStrandsExactlyWhen(y: System)
    requires Inv(y) && y.closing
    ensures CanStrand(NotifiedWaiters(y.(closing := false))) <==> NotificationMissed(y)
  {
    hide IsRun, After;
    var z := NotifiedWaiters(y.(closing := false));
    if NotificationMissed(y) {
      MissedStrands(z);
    } else {
      assert Covered(z);
      forall actions | IsRun(z, actions) ensures !Stranded(After(z, actions)) {
        CoveredNeverStrands(z, actions);
      }
    }
  }

  /** And such a state is reachable: the socket is dropped just after the worker finds its queue empty. */
  lemma {:induction false} HoppingDropCanStrand()
    ensures IsRun(START, [Check, Pop, Drop]) && After(START, [Check, Pop, Drop]).closing
    ensures NotificationMissed(After(START, [Check, Pop, Drop]))
  {
    var a, b := Next(START, Check), Next(Next(START, Check), Pop);
    RunOne(b, Drop, []);
    RunOne(a, Pop, [Drop] + []);
    RunOne(START, Check, [Pop] + ([Drop] + []));
    assert [Check, Pop, Drop] == [Check] + ([Pop] + ([Drop] + []));
  }
}
