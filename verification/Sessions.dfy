/**
 The server's UDP session table: one receive loop that looks up, inserts and spawns, and one task per session that
 removes its own entry when it ends. The lookup and the insertion are separate critical sections, so tasks may
 finish between them; every interleaving is a run.
 */
module Sessions {
  import opened Bytes
  import opened Proxy
  import opened Subsequences

  const SESSION_CHANNEL_SIZE: nat := 1024
  const TOKEN_WRAP: nat := 0x1_0000_0000_0000_0000

  /** A table entry: the token, and the channel (numbered by spawn) its sender feeds. */
  datatype Entry = Entry(token: nat, channel: nat)

  type Table = map<U32, Entry>

  /** The token drawn for the `n`-th session from a 64-bit counter that starts at 1. */
  function TokenOf(n: nat): (token: nat) {
    (n + 1) % TOKEN_WRAP
  }

  /** Removal on task exit: only if the entry still carries the task's token. */
  function Removed(t: Table, session: U32, token: nat): (r: Table) {
    if session in t && t[session].token == token then t - {session} else t
  }

  // ----- the interleaving -----

  /** Where the receive loop is. */
  datatype Loop =
    | Reading
    | Forwarding(channel: nat, message: UdpMessage)
    | Inserting(message: UdpMessage)
    | Spawning(channel: nat, message: UdpMessage)
    | Ended

  /**
   `serving` maps each spawn whose task is unfinished (or about to be started) to its session; `queued` holds the
   channels, `fed` everything ever put into each, `taken` what its task has received, and `handled` the messages the
   loop has finished with.
   */
  datatype Server = Server(
    table: Table, loop: Loop, spawned: nat, serving: map<nat, U32>,
    queued: map<nat, seq<UdpMessage>>, fed: map<nat, seq<UdpMessage>>, taken: map<nat, seq<UdpMessage>>,
    handled: seq<UdpMessage>)

  const START := Server(map[], Reading, 0, map[], map[], map[], map[], [])

  datatype Action =
    | Receive(message: UdpMessage)
    | Forward
    | Insert
    | Spawn
    | TaskReceive(channel: nat)
    | TaskFinish(channel: nat)
    | EndLoop

  /** A task can only act once it has been spawned. */
  predicate Running(v: Server, channel: nat) {
    channel in v.serving && !(v.loop.Spawning? && v.loop.channel == channel)
  }

  predicate Enabled(v: Server, a: Action) {
    match a
    case Receive(_) => v.loop.Reading?
    case Forward => v.loop.Forwarding?
    case Insert => v.loop.Inserting?
    case Spawn => v.loop.Spawning?
    case TaskReceive(channel) => Running(v, channel) && channel in v.queued && v.queued[channel] != []
    case TaskFinish(channel) => Running(v, channel)
    case EndLoop => v.loop.Reading?
  }

  /** `try_send`: dropped when the task has gone or its channel is full. */
  function TrySend(v: Server, channel: nat, message: UdpMessage): (r: Server) {
    if channel in v.serving && channel in v.queued && channel in v.fed && |v.queued[channel]| < SESSION_CHANNEL_SIZE
    then v.(queued := v.queued[channel := v.queued[channel] + [message]],
            fed := v.fed[channel := v.fed[channel] + [message]])
    else v
  }

  function Next(v: Server, a: Action): (r: Server)
    requires Enabled(v, a)
  {
    match a
    case Receive(message) =>
      v.(loop := if message.sessionId in v.table then Forwarding(v.table[message.sessionId].channel, message)
                 else Inserting(message))
    case Forward =>
      TrySend(v, v.loop.channel, v.loop.message).(loop := Reading, handled := v.handled + [v.loop.message])
    case Insert =>
      var channel, session := v.spawned, v.loop.message.sessionId;
      v.(table := v.table[session := Entry(TokenOf(channel), channel)], spawned := v.spawned + 1,
         serving := v.serving[channel := session], queued := v.queued[channel := []], fed := v.fed[channel := []],
         taken := v.taken[channel := []], loop := Spawning(channel, v.loop.message))
    case Spawn =>
      TrySend(v, v.loop.channel, v.loop.message).(loop := Reading, handled := v.handled + [v.loop.message])
    case TaskReceive(channel) =>
      var got := if channel in v.taken then v.taken[channel] else [];
      v.(queued := v.queued[channel := v.queued[channel][1..]],
         taken := v.taken[channel := got + [v.queued[channel][0]]])
    case TaskFinish(channel) =>
      v.(table := Removed(v.table, v.serving[channel], TokenOf(channel)), serving := v.serving - {channel})
    case EndLoop => v.(table := map[], loop := Ended)
  }

  // ----- what every run keeps -----

  /** Table and tasks are two views of one thing. */
  predicate InStep(v: Server) {
    && (forall s :: s in v.table ==>
          v.table[s].channel in v.serving && v.serving[v.table[s].channel] == s
          && v.table[s].token == TokenOf(v.table[s].channel))
    && (forall c :: c in v.serving ==> v.serving[c] in v.table && v.table[v.serving[c]].channel == c)
  }

  /** The table against the tasks, and what the loop remembers from its last critical section. */
  predicate TableInv(v: Server) {
    && (if v.loop.Ended? then v.table == map[] else InStep(v))
    && (forall c :: c in v.serving ==> c < v.spawned)
    && (v.loop.Inserting? ==> v.loop.message.sessionId !in v.table)
    && (v.loop.Forwarding? && v.loop.channel in v.serving ==> v.serving[v.loop.channel] == v.loop.message.sessionId)
    && (v.loop.Spawning? ==> v.loop.channel in v.serving && v.serving[v.loop.channel] == v.loop.message.sessionId)
  }

  /** Every message in `ms` is for `session`. */
  predicate AllFor(ms: seq<UdpMessage>, session: U32) {
    forall i :: 0 <= i < |ms| ==> ms[i].sessionId == session
  }

  /** The channels: bounded, and fed in order with their own session's messages. */
  ghost predicate ChannelInv(v: Server) {
    && (forall c :: c in v.serving ==> c in v.queued && c in v.fed && AllFor(v.fed[c], v.serving[c]))
    && (forall c :: c in v.fed ==> IsSubsequence(v.fed[c], v.handled))
    && (forall c :: c in v.queued ==> |v.queued[c]| <= SESSION_CHANNEL_SIZE)
  }

  /** Channels are first in first out and lose nothing: what was fed has been taken, in order, or is queued. */
  predicate Accounted(v: Server) {
    && v.fed.Keys == v.queued.Keys == v.taken.Keys
    && forall c :: c in v.fed ==> v.fed[c] == v.taken[c] + v.queued[c]
  }

  ghost predicate Inv(v: Server) {
    TableInv(v) && ChannelInv(v) && Accounted(v)
  }

  lemma {:induction false} TrySendAccounts(v: Server, channel: nat, message: UdpMessage)
    requires Accounted(v)
    ensures Accounted(TrySend(v, channel, message))
  {
    var w := TrySend(v, channel, message);
    if w != v {
      assert w.fed[channel] == w.taken[channel] + w.queued[channel];
    }
  }

  lemma {:induction false} ReceiveAccounts(v: Server, channel: nat)
    requires Accounted(v) && channel in v.queued && v.queued[channel] != [] && Running(v, channel)
    ensures Accounted(Next(v, TaskReceive(channel)))
  {
    var w := Next(v, TaskReceive(channel));
    assert w.fed[channel] == w.taken[channel] + w.queued[channel];
  }

  lemma {:induction false} StepKeepsAccount(v: Server, a: Action)
    requires Accounted(v) && Enabled(v, a)
    ensures Accounted(Next(v, a))
  {
    match a
    case Forward => TrySendAccounts(v, v.loop.channel, v.loop.message);
    case Spawn => TrySendAccounts(v, v.loop.channel, v.loop.message);
    case TaskReceive(channel) => ReceiveAccounts(v, channel);
    case Insert => assert Next(v, a).fed.Keys == Next(v, a).queued.Keys == Next(v, a).taken.Keys;
    case _ =>
  }

  /**
   When the loop passes a message on, the channel gets it exactly if its task is unfinished and fewer than 1024
   messages wait in it; otherwise no channel changes.
   */
  lemma {:induction false} FedExactlyWhen(v: Server, a: Action)
    requires Inv(v) && Enabled(v, a) && (a.Forward? || a.Spawn?)
    ensures var c, m, w := v.loop.channel, v.loop.message, Next(v, a);
            && w.handled == v.handled + [m]
            && if c in v.serving && |v.queued[c]| < 1024 then
                 && w.fed == v.fed[c := v.fed[c] + [m]] && w.queued == v.queued[c := v.queued[c] + [m]]
               else w.fed == v.fed && w.queued == v.queued
  {
    hide IsSubsequence, AllFor, TableInv, Accounted;
  }

  lemma {:induction false} TrySendKeeps(v: Server)
    requires TableInv(v) && ChannelInv(v) && (v.loop.Forwarding? || v.loop.Spawning?)
    ensures var w := TrySend(v, v.loop.channel, v.loop.message);
            var z := w.(loop := Reading, handled := v.handled + [v.loop.message]);
            TableInv(z) && ChannelInv(z)
  {
    hide IsSubsequence, InStep;
    forall c | c in v.fed
      ensures IsSubsequence(v.fed[c], v.handled + [v.loop.message])
      ensures IsSubsequence(v.fed[c] + [v.loop.message], v.handled + [v.loop.message])
    {
      SubsequenceGrows(v.fed[c], v.handled, v.loop.message);
    }
    var w := TrySend(v, v.loop.channel, v.loop.message);
    assert InStep(w.(loop := Reading, handled := v.handled + [v.loop.message])) by { SameTable(v, w); }
  }

  lemma {:induction false} SameTable(v: Server, w: Server)
    requires TableInv(v) && !v.loop.Ended? && w.table == v.table && w.serving == v.serving
    ensures forall loop, handled :: InStep(w.(loop := loop, handled := handled))
  {
  }

  lemma {:induction false} InsertKeepsTable(v: Server)
    requires TableInv(v) && v.loop.Inserting?
    ensures TableInv(Next(v, Insert))
  {
    assert v.spawned !in v.serving;
  }

  lemma {:induction false} InsertKeepsChannels(v: Server)
    requires TableInv(v) && ChannelInv(v) && v.loop.Inserting?
    ensures ChannelInv(Next(v, Insert))
  {
    hide IsSubsequence, InStep;
    NothingIsSubsequence(v.handled);
  }

  lemma {:induction false} InsertKeeps(v: Server)
    requires TableInv(v) && ChannelInv(v) && v.loop.Inserting?
    ensures TableInv(Next(v, Insert)) && ChannelInv(Next(v, Insert))
  {
    hide TableInv, ChannelInv, Next;
    InsertKeepsTable(v);
    InsertKeepsChannels(v);
  }

  /** An exit under a token takes out the session's entry if it carries that token, and touches no other. */
  lemma {:induction false} RemovalNeedsTheToken(t: Table, session: U32, token: nat, s: U32)
    ensures var r := Removed(t, session, token);
            && (s in r <==> s in t && (s == session ==> t[s].token != token))
            && (s in r ==> r[s] == t[s])
  {
  }

  /** A finishing task takes out exactly its own entry, if the table still has one at all. */
  lemma {:induction false} FinishRemovesOwnEntry(v: Server, channel: nat)
    requires TableInv(v) && Running(v, channel)
    ensures Next(v, TaskFinish(channel)).table ==
            if v.loop.Ended? then map[] else v.table - {v.serving[channel]}
    ensures !v.loop.Ended? ==> v.table[v.serving[channel]] == Entry(TokenOf(channel), channel)
    ensures forall s :: s in v.table && v.table[s].channel != channel ==>
              s in Next(v, TaskFinish(channel)).table && Next(v, TaskFinish(channel)).table[s] == v.table[s]
  {
  }

  lemma {:induction false} FinishKeeps(v: Server, channel: nat)
    requires TableInv(v) && ChannelInv(v) && Running(v, channel)
    ensures TableInv(Next(v, TaskFinish(channel))) && ChannelInv(Next(v, TaskFinish(channel)))
  {
    hide IsSubsequence, AllFor;
    FinishRemovesOwnEntry(v, channel);
  }

  lemma {:induction false} QuietStepKeeps(v: Server, a: Action)
    requires TableInv(v) && ChannelInv(v) && Enabled(v, a) && (a.Receive? || a.TaskReceive? || a.EndLoop?)
    ensures TableInv(Next(v, a)) && ChannelInv(Next(v, a))
  {
    hide IsSubsequence, AllFor;
  }

  lemma {:induction false} StepKeepsInv(v: Server, a: Action)
    requires Inv(v) && Enabled(v, a)
    ensures Inv(Next(v, a))
  {
    hide TableInv, ChannelInv, Accounted, TrySend;
    StepKeepsAccount(v, a);
    match a
    case Forward => TrySendKeeps(v);
    case Insert => InsertKeeps(v);
    case Spawn => TrySendKeeps(v);
    case TaskFinish(channel) => FinishKeeps(v, channel);
    case _ => QuietStepKeeps(v, a);
  }

  predicate IsRun(v: Server, actions: seq<Action>)
    decreases |actions|
  {
    actions == [] || (Enabled(v, actions[0]) && IsRun(Next(v, actions[0]), actions[1..]))
  }

  function After(v: Server, actions: seq<Action>): (r: Server)
    requires IsRun(v, actions)
    decreases |actions|
  {
    if actions == [] then v else After(Next(v, actions[0]), actions[1..])
  }

  lemma {:induction false} RunKeepsInv(v: Server, actions: seq<Action>)
    requires Inv(v) && IsRun(v, actions)
    ensures Inv(After(v, actions))
    decreases |actions|
  {
    hide Inv, Next;
    if actions != [] {
      StepKeepsInv(v, actions[0]);
      RunKeepsInv(Next(v, actions[0]), actions[1..]);
    }
  }

  /**
   In every reachable state until the loop ends, a session has an entry exactly when an unfinished task serves it,
   that task is the only one, and the entry carries its token. Whatever the loop's state, each task has been fed
   only messages of its own session, in the order they were received, and has taken the first of them, in order,
   the others waiting in its channel.
   */
  lemma {:induction false} EntriesMirrorTasks(actions: seq<Action>, session: U32)
    requires IsRun(START, actions)
    ensures var v := After(START, actions);
            && (!v.loop.Ended? ==> (session in v.table <==> exists c :: c in v.serving && v.serving[c] == session))
            && (!v.loop.Ended? ==>
                  forall c, d :: c in v.serving && d in v.serving && v.serving[c] == v.serving[d] ==> c == d)
            && (!v.loop.Ended? ==> forall c :: c in v.serving && v.serving[c] == session ==>
                                     session in v.table && v.table[session] == Entry(TokenOf(c), c))
            && (v.loop.Ended? ==> v.table == map[])
            && (forall c :: c in v.serving ==>
                  c in v.fed && c in v.taken && c in v.queued && IsSubsequence(v.fed[c], v.handled)
                  && v.fed[c] == v.taken[c] + v.queued[c] && |v.queued[c]| <= 1024
                  && forall i :: 0 <= i < |v.fed[c]| ==> v.fed[c][i].sessionId == v.serving[c])
  {
    hide IsSubsequence;
    RunKeepsInv(START, actions);
  }

  /** Tokens repeat only after the 64-bit counter has gone all the way round. */
  lemma {:induction false} TokensAreUnique(n: nat, m: nat)
    requires n < m
    ensures TokenOf(n) == TokenOf(m) ==> m - n >= 0x1_0000_0000_0000_0000
  {
    var qn, qm := (n + 1) / TOKEN_WRAP, (m + 1) / TOKEN_WRAP;
    if TokenOf(n) == TokenOf(m) {
      assert m - n == (qm - qn) * TOKEN_WRAP;
    }
  }

  // ----- the table itself -----

  /** The unfinished task `channel` serves the session. */
  predicate Serves(v: Server, channel: nat, session: U32) {
    channel in v.serving && v.serving[channel] == session
  }

  /** What a look at the table says about the tasks, at the moment of looking. */
  lemma {:induction false} EntryMeansTask(v: Server, session: U32)
    requires TableInv(v) && !v.loop.Ended?
    ensures session in v.table ==> Serves(v, v.table[session].channel, session)
    ensures session !in v.table ==> forall c :: !Serves(v, c, session)
  {
  }

  /**
   The shared table. Each method is one critical section: it touches only the entries, and with them takes the whole
   server, `server`, one step of the interleaving.
   */
  class ServerSessions {
    var entries: Table
    ghost var server: Server

    ghost predicate Valid()
      reads this
    {
      entries == server.table && Inv(server)
    }

    constructor ()
      ensures Valid() && server == START
    {
      entries, server := map[], START;
      new;
      RunKeepsInv(START, []);
    }

    /** The receive loop's lookup: the channel of the task that serves the session, or nothing if none does. */
    method Lookup(message: UdpMessage) returns (channel: Option<nat>)
      requires Valid() && server.loop.Reading?
      modifies this
      ensures Valid() && server == Next(old(server), Receive(message))
      ensures channel.Some? ==> Serves(server, channel.value, message.sessionId)
      ensures channel.None? ==> forall c :: !Serves(server, c, message.sessionId)
    {
      hide Inv;
      StepKeepsInv(server, Receive(message));
      assert TableInv(server) by { TablePart(server); }
      EntryMeansTask(server, message.sessionId);
      server := Next(server, Receive(message));
      channel := if message.sessionId in entries then Some(entries[message.sessionId].channel) else None;
    }

    /** The loop's insertion, after a lookup that found nothing: from then on the new task alone serves the session. */
    method Insert(session: U32, token: nat, channel: nat)
      requires Valid() && server.loop.Inserting? && session == server.loop.message.sessionId
      requires channel == server.spawned && token == TokenOf(channel)
      modifies this
      ensures Valid() && server == Next(old(server), Action.Insert)
      ensures forall c :: Serves(server, c, session) <==> c == channel
    {
      hide Inv;
      StepKeepsInv(server, Action.Insert);
      server := Next(server, Action.Insert);
      entries := entries[session := Entry(token, channel)];
      assert TableInv(server) by { TablePart(server); }
    }

    /** A task's exit: only its own entry goes, and until the loop ends the session is then free for a new task. */
    method RemoveServerSession(session: U32, token: nat, ghost channel: nat)
      requires Valid() && Running(server, channel) && server.serving[channel] == session && token == TokenOf(channel)
      modifies this
      ensures Valid() && server == Next(old(server), TaskFinish(channel))
      ensures !server.loop.Ended? ==> forall c :: !Serves(server, c, session)
      ensures entries == if server.loop.Ended? then map[] else old(entries) - {session}
    {
      hide Inv;
      StepKeepsInv(server, TaskFinish(channel));
      assert TableInv(server) by { TablePart(server); }
      FinishRemovesOwnEntry(server, channel);
      server := Next(server, TaskFinish(channel));
      assert TableInv(server) by { TablePart(server); }
      if session in entries && entries[session].token == token {
        entries := entries - {session};
      }
      if !server.loop.Ended? { EntryMeansTask(server, session); }
    }

    /** The end of the loop: nothing is in the table, now or after any task's exit. */
    method Clear()
      requires Valid() && server.loop.Reading?
      modifies this
      ensures Valid() && server == Next(old(server), EndLoop)
      ensures forall actions :: IsRun(server, actions) ==> After(server, actions).table == map[]
    {
      hide Inv;
      StepKeepsInv(server, EndLoop);
      server := Next(server, EndLoop);
      entries := map[];
      forall actions | IsRun(server, actions) ensures After(server, actions).table == map[] {
        StaysEmpty(server, actions);
      }
    }

    /** The steps that leave the table alone. */
    ghost method Elsewhere(a: Action)
      requires Valid() && Enabled(server, a) && (a.Forward? || a.Spawn? || a.TaskReceive?)
      modifies this`server
      ensures Valid() && server == Next(old(server), a)
    {
      hide Inv;
      StepKeepsInv(server, a);
      server := Next(server, a);
    }
  }

  lemma {:induction false} TablePart(v: Server)
    requires Inv(v)
    ensures TableInv(v)
  {
  }

  lemma {:induction false} StaysEmpty(v: Server, actions: seq<Action>)
    requires v.loop.Ended? && v.table == map[] && IsRun(v, actions)
    ensures After(v, actions).table == map[]
    decreases |actions|
  {
    if actions != [] { StaysEmpty(Next(v, actions[0]), actions[1..]); }
  }
}
