/**
 The realm client's server-sent-event reader: a byte buffer fed by chunks of any size, cut into lines, and a small
 parser over the lines. UTF-8 validity and JSON parsing are parameters.
 */
module EventStream {
  import opened Bytes

  const NEWLINE: Byte := 10
  const RETURN: Byte := 13
  const SPACE: Byte := 32
  const COLON: Byte := 58
  const PUNCH: Bytes := [112, 117, 110, 99, 104]
  const EVENT: Bytes := [101, 118, 101, 110, 116]
  const DATA: Bytes := [100, 97, 116, 97]
  const MAX_EVENT_BUFFER_SIZE: nat := 1024 * 1024

  /** The library calls the reader makes. */
  datatype Decoder<!E> = Decoder(utf8: Bytes -> bool, json: Bytes -> Option<E>)

  type TransportError = nat

  /** What the stream delivers: bytes, cut anywhere, or a transport failure. */
  datatype Item = Chunk(bytes: Bytes) | Failure(error: TransportError)

  /** What one call to `next` returns. */
  datatype Outcome<+E> = Event(event: E) | InvalidUtf8 | InvalidJson | Oversized | Failed(error: TransportError) | End

  /** The fields a partly read event has set so far. */
  datatype Parser = Parser(name: Bytes, data: Bytes)

  const FRESH := Parser([], [])

  // ----- lines -----

  /** The position of the first `b` at or after `i`, or the length. */
  function Find(s: Bytes, b: Byte, i: nat): (r: nat)
    requires i <= |s|
    ensures i <= r <= |s|
    ensures forall k :: i <= k < r ==> s[k] != b
    ensures r < |s| ==> s[r] == b
    decreases |s| - i
  {
    if i == |s| || s[i] == b then i else Find(s, b, i + 1)
  }

  lemma {:induction false} FindIsFirst(s: Bytes, b: Byte, i: nat, r: nat)
    requires i <= r <= |s| && (forall k :: i <= k < r ==> s[k] != b) && (r < |s| ==> s[r] == b)
    ensures Find(s, b, i) == r
  {
    var f := Find(s, b, i);
  }

  function ProcessLine<E>(d: Decoder<E>, p: Parser, line: Bytes): (r: (Parser, Option<Outcome<E>>)) {
    if line == [] then
      if p.name == PUNCH then
        (match d.json(p.data)
         case Some(event) => (FRESH, Some(Event(event)))
         case None => (p, Some(InvalidJson)))
      else (FRESH, None)
    else if line[0] == COLON then (p, None)
    else
      var i := Find(line, COLON, 0);
      if i == |line| then (p, None)
      else
        var field, rest := line[..i], line[i + 1..];
        var value := if rest != [] && rest[0] == SPACE then rest[1..] else rest;
        if field == EVENT then (p.(name := value), None)
        else if field == DATA then (p.(data := if p.data == [] then value else p.data + [NEWLINE] + value), None)
        else (p, None)
  }

  /** A line as cut from the buffer, without its newline. */
  function HandleLine<E>(d: Decoder<E>, p: Parser, raw: Bytes): (r: (Parser, Option<Outcome<E>>)) {
    var line := if raw != [] && raw[|raw| - 1] == RETURN then raw[..|raw| - 1] else raw;
    if !d.utf8(line) then (p, Some(InvalidUtf8)) else ProcessLine(d, p, line)
  }

  // ----- the reader -----

  /** Everything `next` keeps between calls; `items` is what the stream has still to deliver. */
  datatype Reader = Reader(items: seq<Item>, input: Bytes, parser: Parser, ended: bool)

  /** One call to `next`. */
  function Next<E>(d: Decoder<E>, s: Reader): (r: (Reader, Outcome<E>))
    decreases |s.items|, !s.ended, |s.input|
  {
    var position := Find(s.input, NEWLINE, 0);
    if position < |s.input| then
      var (parser, outcome) := HandleLine(d, s.parser, s.input[..position]);
      var after := s.(input := s.input[position + 1..], parser := parser);
      if outcome.Some? then (after, outcome.value) else Next(d, after)
    else if s.ended then (s, End)
    else if s.items == [] then Next(d, s.(ended := true))
    else
      var rest := s.(items := s.items[1..]);
      match s.items[0]
      case Failure(error) => (rest, Failed(error))
      case Chunk(bytes) =>
        if |s.input| + |bytes| > MAX_EVENT_BUFFER_SIZE then (rest, Oversized)
        else Next(d, rest.(input := s.input + bytes))
  }

  /** `next` unfolded once. */
  lemma {:induction false} NextCases<E>(d: Decoder<E>, s: Reader)
    ensures var position := Find(s.input, NEWLINE, 0);
            var rest := if s.items == [] then s else s.(items := s.items[1..]);
            Next(d, s) ==
            if position < |s.input| then
              var (parser, outcome) := HandleLine(d, s.parser, s.input[..position]);
              var after := s.(input := s.input[position + 1..], parser := parser);
              if outcome.Some? then (after, outcome.value) else Next(d, after)
            else if s.ended then (s, End)
            else if s.items == [] then Next(d, s.(ended := true))
            else if s.items[0].Failure? then (rest, Failed(s.items[0].error))
            else if |s.input| + |s.items[0].bytes| > MAX_EVENT_BUFFER_SIZE then (rest, Oversized)
            else Next(d, rest.(input := s.input + s.items[0].bytes))
  {
    hide HandleLine;
  }

  class EventStream<E> {
    const decoder: Decoder<E>
    var items: seq<Item>
    var input: Bytes
    var name: Bytes
    var data: Bytes
    var ended: bool

    ghost function State(): Reader
      reads this
    {
      Reader(items, input, Parser(name, data), ended)
    }

    constructor (decoder: Decoder<E>, items: seq<Item>)
      ensures this.decoder == decoder && State() == Reader(items, [], FRESH, false)
    {
      this.decoder, this.items := decoder, items;
      input, name, data, ended := [], [], [], false;
    }

    method HandleInput(line: Bytes) returns (outcome: Option<Outcome<E>>)
      modifies this`name, this`data
      ensures (Parser(name, data), outcome) == ProcessLine(decoder, Parser(old(name), old(data)), line)
    {
      if line == [] {
        if name == PUNCH {
          var event := decoder.json(data);
          if event.None? { return Some(InvalidJson); }
          name, data := [], [];
          return Some(Event(event.value));
        }
        name, data := [], [];
        return None;
      }
      if line[0] == COLON { return None; }
      var i := Find(line, COLON, 0);
      if i == |line| { return None; }
      var field, value := line[..i], line[i + 1..];
      if value != [] && value[0] == SPACE { value := value[1..]; }
      if field == EVENT {
        name := value;
      } else if field == DATA {
        if data != [] { data := data + [NEWLINE]; }
        assert [] + value == value;
        data := data + value;
      }
      return None;
    }

    /** Reads one item; only ever called with no complete line left in the buffer. */
    method ReadMore() returns (stop: Option<Outcome<E>>)
      requires NEWLINE !in input && !ended
      modifies this`items, this`input, this`ended
      ensures old(items) == [] ==> ended && items == [] && input == old(input) && stop == None
      ensures old(items) != [] ==> !ended && items == old(items)[1..]
      ensures old(items) != [] && old(items)[0].Failure? ==>
                input == old(input) && stop == Some(Failed(old(items)[0].error))
      ensures old(items) != [] && old(items)[0].Chunk? ==>
                if |old(input)| + |old(items)[0].bytes| > MAX_EVENT_BUFFER_SIZE
                then input == old(input) && stop == Some(Oversized)
                else input == old(input) + old(items)[0].bytes && stop == None
    {
      if items == [] {
        ended := true;
        return None;
      }
      var item := items[0];
      items := items[1..];
      match item
      case Failure(error) => return Some(Failed(error));
      case Chunk(bytes) =>
        if |input| + |bytes| > MAX_EVENT_BUFFER_SIZE { return Some(Oversized); }
        input := input + bytes;
        return None;
    }

    /** The two nested loops. */
    method NextEvent() returns (r: Outcome<E>)
      modifies this
      ensures (State(), r) == Next(decoder, old(State()))
    {
      hide Next, ProcessLine;
      while true
        invariant Next(decoder, State()) == Next(decoder, old(State()))
        decreases |items|, !ended
      {
        ghost var unread, over := items, ended;
        var position := Find(input, NEWLINE, 0);
        while position < |input|
          invariant position == Find(input, NEWLINE, 0)
          invariant Next(decoder, State()) == Next(decoder, old(State()))
          invariant items == unread && ended == over
          decreases |input|
        {
          NextCases(decoder, State());
          var line := input[..position];
          input := input[position + 1..];
          if line != [] && line[|line| - 1] == RETURN { line := line[..|line| - 1]; }
          if !decoder.utf8(line) { return InvalidUtf8; }
          var outcome := HandleInput(line);
          if outcome.Some? { return outcome.value; }
          position := Find(input, NEWLINE, 0);
        }
        NextCases(decoder, State());
        if ended { return End; }
        var stop := ReadMore();
        if stop.Some? { return stop.value; }
      }
    }
  }

  // ----- the simple form: the whole input at once -----

  /** The complete lines of a byte string, in order; what follows the last newline is not one. */
  function Lines(s: Bytes): (r: seq<Bytes>)
    decreases |s|
  {
    var position := Find(s, NEWLINE, 0);
    if position == |s| then [] else [s[..position]] + Lines(s[position + 1..])
  }

  /** Everything a list of lines makes `next` return, in order. */
  function Results<E>(d: Decoder<E>, p: Parser, lines: seq<Bytes>): (r: seq<Outcome<E>>)
    decreases |lines|
  {
    if lines == [] then []
    else
      var (parser, outcome) := HandleLine(d, p, lines[0]);
      (if outcome.Some? then [outcome.value] else []) + Results(d, parser, lines[1..])
  }

  /** The parser after a list of lines. */
  function ParserAfter<E>(d: Decoder<E>, p: Parser, lines: seq<Bytes>): (r: Parser)
    decreases |lines|
  {
    if lines == [] then p else ParserAfter(d, HandleLine(d, p, lines[0]).0, lines[1..])
  }

  /** The bytes after the last newline. */
  function Unfinished(s: Bytes): (r: Bytes)
    ensures |r| <= |s|
    decreases |s|
  {
    var position := Find(s, NEWLINE, 0);
    if position == |s| then s else Unfinished(s[position + 1..])
  }

  /** An item as the buffer limit leaves it: bytes that are read, or something that is reported instead. */
  datatype Judged<+E> = Read(bytes: Bytes) | Report(outcome: Outcome<E>)

  /** A chunk that does not fit beside the unfinished line before it is reported and dropped, and a failure reported. */
  function Judge<E>(held: Bytes, items: seq<Item>): (r: seq<Judged<E>>)
    ensures |r| == |items|
    decreases |items|
  {
    if items == [] then []
    else match items[0]
      case Failure(error) => [Report(Failed(error))] + Judge(held, items[1..])
      case Chunk(bytes) =>
        if |Unfinished(held)| + |bytes| > MAX_EVENT_BUFFER_SIZE then [Report(Oversized)] + Judge(held, items[1..])
        else [Read(bytes)] + Judge(Unfinished(held) + bytes, items[1..])
  }

  /** What a stream says, without regard to how its bytes are cut: the bytes before each report, and the last bytes. */
  datatype Content<+E> = Content(parts: seq<(Bytes, Outcome<E>)>, last: Bytes)

  function Prepended<E>(bytes: Bytes, c: Content<E>): (r: Content<E>) {
    if c.parts == [] then c.(last := bytes + c.last)
    else c.(parts := [(bytes + c.parts[0].0, c.parts[0].1)] + c.parts[1..])
  }

  function ContentOf<E>(items: seq<Judged<E>>): (c: Content<E>) {
    if items == [] then Content([], [])
    else
      var rest := ContentOf(items[1..]);
      match items[0]
      case Read(bytes) => Prepended(bytes, rest)
      case Report(outcome) => rest.(parts := [([], outcome)] + rest.parts)
  }

  /**
   The simple form: the bytes before a report are read line by line, the report is made, and what was left of an
   unfinished line goes on with the bytes after it.
   */
  function Reading<E>(d: Decoder<E>, p: Parser, held: Bytes, c: Content<E>): (r: seq<Outcome<E>>)
    decreases |c.parts|
  {
    if c.parts == [] then Results(d, p, Lines(held + c.last))
    else
      var all := held + c.parts[0].0;
      Results(d, p, Lines(all)) + [c.parts[0].1] +
      Reading(d, ParserAfter(d, p, Lines(all)), Unfinished(all), c.(parts := c.parts[1..]))
  }

  /** What the rest of the stream has still to make `next` return. */
  function Remaining<E>(d: Decoder<E>, s: Reader): (r: seq<Outcome<E>>) {
    Reading(d, s.parser, s.input, ContentOf(Judge(s.input, s.items)))
  }

  /** Cutting the first line off a prefix cuts it off the whole. */
  lemma {:induction false} FirstLine(a: Bytes, b: Bytes)
    requires Find(a, NEWLINE, 0) < |a|
    ensures var position := Find(a, NEWLINE, 0);
            && Lines(a + b) == [a[..position]] + Lines(a[position + 1..] + b)
            && Unfinished(a + b) == Unfinished(a[position + 1..] + b)
  {
    var position := Find(a, NEWLINE, 0);
    FindIsFirst(a + b, NEWLINE, 0, position);
    assert (a + b)[..position] == a[..position] && (a + b)[position + 1..] == a[position + 1..] + b;
  }

  /** Bytes that arrive are read together with those held. */
  lemma {:induction false} ReadingAfterChunk<E>(d: Decoder<E>, p: Parser, held: Bytes, bytes: Bytes, c: Content<E>)
    ensures Reading(d, p, held, Prepended(bytes, c)) == Reading(d, p, held + bytes, c)
  {
    hide Results, Lines, Unfinished, ParserAfter;
    if c.parts == [] {
      assert held + (bytes + c.last) == (held + bytes) + c.last;
    } else {
      assert held + (bytes + c.parts[0].0) == (held + bytes) + c.parts[0].0;
      assert Prepended(bytes, c).parts[1..] == c.parts[1..];
    }
  }

  /** A line held is read first. */
  lemma {:induction false} ReadingAfterLine<E>(d: Decoder<E>, p: Parser, held: Bytes, c: Content<E>)
    requires Find(held, NEWLINE, 0) < |held|
    ensures var position := Find(held, NEWLINE, 0);
            var (parser, outcome) := HandleLine(d, p, held[..position]);
            Reading(d, p, held, c) ==
            (if outcome.Some? then [outcome.value] else []) + Reading(d, parser, held[position + 1..], c)
  {
    hide HandleLine, Lines, Unfinished;
    var position := Find(held, NEWLINE, 0);
    var line, rest := held[..position], held[position + 1..];
    var bytes := if c.parts == [] then c.last else c.parts[0].0;
    FirstLine(held, bytes);
    var lines := Lines(held + bytes);
    assert lines[0] == line && lines[1..] == Lines(rest + bytes);
  }

  /** A report that finds no line held is made at once, and changes nothing else. */
  lemma {:induction false} ReadingAfterReport<E>(
    d: Decoder<E>, p: Parser, held: Bytes, outcome: Outcome<E>, c: Content<E>)
    requires Find(held, NEWLINE, 0) == |held|
    ensures Reading(d, p, held, c.(parts := [([], outcome)] + c.parts)) == [outcome] + Reading(d, p, held, c)
  {
    var with := c.(parts := [([], outcome)] + c.parts);
    assert held + [] == held && with.parts[1..] == c.parts;
    assert Lines(held) == [] && Unfinished(held) == held;
    assert ParserAfter(d, p, []) == p && Results(d, p, []) == [];
  }

  /** The verdicts depend only on the unfinished line. */
  lemma {:induction false} JudgeUnfinished<E>(a: Bytes, b: Bytes, items: seq<Item>)
    requires Unfinished(a) == Unfinished(b)
    ensures Judge<E>(a, items) == Judge<E>(b, items)
    decreases |items|
  {
    hide Unfinished;
    if items != [] && (items[0].Failure? || |Unfinished(a)| + |items[0].bytes| > MAX_EVENT_BUFFER_SIZE) {
      JudgeUnfinished<E>(a, b, items[1..]);
    }
  }

  /** The stream can only end once it has been read to the end. */
  predicate Consistent(s: Reader) {
    s.ended ==> s.items == []
  }

  /**
   One call, whatever the chunking: it returns the next of the outcomes the whole stream calls for and leaves the
   others, or reports the end exactly when there are none left.
   */
  lemma {:induction false} NextTakesTheFirst<E>(d: Decoder<E>, s: Reader)
    requires Consistent(s)
    ensures var (after, outcome) := Next(d, s);
            && Consistent(after)
            && var rs := Remaining(d, s);
            if rs == [] then outcome == End && Remaining(d, after) == []
            else outcome == rs[0] && Remaining(d, after) == rs[1..]
    decreases |s.items|, !s.ended, |s.input|
  {
    hide HandleLine, Next, Reading, Prepended, Unfinished;
    NextCases(d, s);
    var position := Find(s.input, NEWLINE, 0);
    if position < |s.input| {
      var (parser, outcome) := HandleLine(d, s.parser, s.input[..position]);
      var after := s.(input := s.input[position + 1..], parser := parser);
      ReadingAfterLine(d, s.parser, s.input, ContentOf(Judge(s.input, s.items)));
      LineFinished(s.input, position);
      JudgeUnfinished<E>(s.input, after.input, s.items);
      if outcome.None? { NextTakesTheFirst(d, after); }
    } else if s.ended {
      NothingRemains(d, s.parser, s.input);
    } else if s.items == [] {
      NextTakesTheFirst(d, s.(ended := true));
    } else {
      NothingFinished(s.input);
      ItemTaken(d, s);
      if s.items[0].Chunk? && |s.input| + |s.items[0].bytes| <= MAX_EVENT_BUFFER_SIZE {
        NextTakesTheFirst(d, s.(items := s.items[1..], input := s.input + s.items[0].bytes));
      }
    }
  }

  /** What is left of the reading after the first item, with no line held. */
  lemma {:induction false} ItemTaken<E>(d: Decoder<E>, s: Reader)
    requires s.items != [] && Find(s.input, NEWLINE, 0) == |s.input| && Unfinished(s.input) == s.input
    ensures var rest := s.(items := s.items[1..]);
            match s.items[0]
            case Failure(error) => Remaining(d, s) == [Failed(error)] + Remaining(d, rest)
            case Chunk(bytes) =>
              if |s.input| + |bytes| > MAX_EVENT_BUFFER_SIZE then Remaining(d, s) == [Oversized] + Remaining(d, rest)
              else Remaining(d, s) == Remaining(d, rest.(input := s.input + bytes))
  {
    hide Reading, Unfinished;
    var judged := Judge<E>(s.input, s.items);
    match s.items[0]
    case Failure(error) =>
      assert judged[1..] == Judge<E>(s.input, s.items[1..]);
      ReadingAfterReport(d, s.parser, s.input, Failed(error), ContentOf(judged[1..]));
    case Chunk(bytes) =>
      if |s.input| + |bytes| > MAX_EVENT_BUFFER_SIZE {
        assert judged[1..] == Judge<E>(s.input, s.items[1..]);
        ReadingAfterReport(d, s.parser, s.input, Oversized, ContentOf(judged[1..]));
      } else {
        assert judged[1..] == Judge<E>(s.input + bytes, s.items[1..]);
        ReadingAfterChunk(d, s.parser, s.input, bytes, ContentOf(judged[1..]));
      }
  }

  lemma {:induction false} NothingRemains<E>(d: Decoder<E>, p: Parser, held: Bytes)
    requires Find(held, NEWLINE, 0) == |held|
    ensures Reading(d, p, held, ContentOf(Judge(held, []))) == []
  {
    assert held + [] == held && Lines(held) == [];
  }

  lemma {:induction false} LineFinished(s: Bytes, position: nat)
    requires position == Find(s, NEWLINE, 0) < |s|
    ensures Unfinished(s) == Unfinished(s[position + 1..])
  {
  }

  lemma {:induction false} NothingFinished(s: Bytes)
    requires Find(s, NEWLINE, 0) == |s|
    ensures Unfinished(s) == s
  {
  }

  // ----- whole runs of calls -----

  /** The reader after `n` calls. */
  function After<E>(d: Decoder<E>, s: Reader, n: nat): (r: Reader)
    decreases n
  {
    if n == 0 then s else Next(d, After(d, s, n - 1)).0
  }

  /** What call `n` returns. */
  function Call<E>(d: Decoder<E>, s: Reader, n: nat): (r: Outcome<E>) {
    Next(d, After(d, s, n)).1
  }

  lemma {:induction false} CallsTakeInOrder<E>(d: Decoder<E>, s: Reader, n: nat)
    requires Consistent(s)
    ensures Consistent(After(d, s, n))
    ensures var rs := Remaining(d, s);
            Remaining(d, After(d, s, n)) == if n <= |rs| then rs[n..] else []
    decreases n
  {
    hide Next, Remaining;
    if n > 0 {
      CallsTakeInOrder(d, s, n - 1);
      NextTakesTheFirst(d, After(d, s, n - 1));
    }
  }

  /** A reader that has not been called yet. */
  function Fresh(items: seq<Item>): (s: Reader) {
    Reader(items, [], FRESH, false)
  }

  /** Everything a stream makes `next` return, in order: its simple form, whatever its chunks. */
  function Whole<E>(d: Decoder<E>, items: seq<Item>): (r: seq<Outcome<E>>) {
    Reading(d, FRESH, [], ContentOf(Judge([], items)))
  }

  /** Call `n` returns outcome `n` of the simple form, and the end for ever after, on every stream. */
  lemma {:induction false} CallsMatchWholeInput<E>(d: Decoder<E>, items: seq<Item>, n: nat)
    ensures Call(d, Fresh(items), n) == if n < |Whole(d, items)| then Whole(d, items)[n] else End
  {
    hide Next, Reading;
    var s := Fresh(items);
    assert Remaining(d, s) == Whole(d, items);
    CallsTakeInOrder(d, s, n);
    NextTakesTheFirst(d, After(d, s, n));
  }

  // ----- exactly when the limit is tripped -----

  /** Each chunk fits beside the unfinished line before it, starting with `held` buffered. */
  predicate Fits(held: Bytes, items: seq<Item>)
    decreases |items|
  {
    items == [] ||
    match items[0]
    case Failure(_) => Fits(held, items[1..])
    case Chunk(bytes) =>
      |Unfinished(held)| + |bytes| <= MAX_EVENT_BUFFER_SIZE && Fits(Unfinished(held) + bytes, items[1..])
  }

  predicate IsLimit<E>(x: Judged<E>) {
    x.Report? && x.outcome.Oversized?
  }

  predicate Limited<E>(items: seq<Judged<E>>) {
    exists j :: 0 <= j < |items| && IsLimit(items[j])
  }

  lemma {:induction false} LimitedSplits<E>(first: Judged<E>, rest: seq<Judged<E>>)
    ensures Limited([first] + rest) <==> IsLimit(first) || Limited(rest)
  {
    var items := [first] + rest;
    if IsLimit(first) { assert IsLimit(items[0]); }
    if Limited(rest) {
      var j :| 0 <= j < |rest| && IsLimit(rest[j]);
      assert IsLimit(items[j + 1]);
    }
    if Limited(items) {
      var j :| 0 <= j < |items| && IsLimit(items[j]);
      if j > 0 { assert items[j] == rest[j - 1]; }
    }
  }

  /** Then and only then no verdict is that the limit is exceeded. */
  lemma {:induction false} FitsMeansUnlimited<E>(held: Bytes, items: seq<Item>)
    ensures Fits(held, items) <==> !Limited(Judge<E>(held, items))
    decreases |items|
  {
    hide Unfinished, Limited;
    if items == [] {
      assert !Limited<E>([]) by { NothingLimited<E>(); }
    } else {
      match items[0]
      case Failure(error) =>
        LimitedSplits(Report(Failed(error)), Judge<E>(held, items[1..]));
        FitsMeansUnlimited<E>(held, items[1..]);
      case Chunk(bytes) =>
        if |Unfinished(held)| + |bytes| > MAX_EVENT_BUFFER_SIZE {
          LimitedSplits(Report(Oversized), Judge<E>(held, items[1..]));
        } else {
          LimitedSplits(Read(bytes), Judge<E>(Unfinished(held) + bytes, items[1..]));
          FitsMeansUnlimited<E>(Unfinished(held) + bytes, items[1..]);
        }
    }
  }

  lemma {:induction false} NothingLimited<E>()
    ensures !Limited<E>([])
  {
  }

  /** One of the outcomes is that the limit is exceeded. */
  predicate Trips<E>(rs: seq<Outcome<E>>) {
    exists k :: 0 <= k < |rs| && rs[k].Oversized?
  }

  lemma {:induction false} TripsSplits<E>(a: seq<Outcome<E>>, b: seq<Outcome<E>>)
    ensures Trips(a + b) <==> Trips(a) || Trips(b)
  {
    if Trips(a) {
      var k :| 0 <= k < |a| && a[k].Oversized?;
      assert (a + b)[k].Oversized?;
    }
    if Trips(b) {
      var k :| 0 <= k < |b| && b[k].Oversized?;
      assert (a + b)[|a| + k].Oversized?;
    }
  }

  lemma {:induction false} LinesDoNotTrip<E>(d: Decoder<E>, p: Parser, lines: seq<Bytes>)
    ensures !Trips(Results(d, p, lines))
    decreases |lines|
  {
    hide HandleLine, Trips;
    if lines == [] {
      assert !Trips<E>([]) by { NothingTrips<E>(); }
    } else {
      var (parser, outcome) := HandleLine(d, p, lines[0]);
      var first := if outcome.Some? then [outcome.value] else [];
      LinesDoNotTrip(d, parser, lines[1..]);
      TripsSplits(first, Results(d, parser, lines[1..]));
      assert !Trips(first) by { OutcomeDoesNotTrip(d, p, lines[0]); }
    }
  }

  lemma {:induction false} NothingTrips<E>()
    ensures !Trips<E>([])
  {
  }

  lemma {:induction false} OutcomeDoesNotTrip<E>(d: Decoder<E>, p: Parser, raw: Bytes)
    ensures var outcome := HandleLine(d, p, raw).1; !Trips(if outcome.Some? then [outcome.value] else [])
  {
  }

  /** What a content reports. */
  function ReportsOf<E>(c: Content<E>): (r: seq<Outcome<E>>)
    ensures |r| == |c.parts|
  {
    seq(|c.parts|, i requires 0 <= i < |c.parts| => c.parts[i].1)
  }

  /** A content's reports trip the reading of it, and nothing else does. */
  lemma {:induction false} ReadingTrips<E>(d: Decoder<E>, p: Parser, held: Bytes, c: Content<E>)
    ensures Trips(Reading(d, p, held, c)) <==> Trips(ReportsOf(c))
    decreases |c.parts|
  {
    hide Results, Lines, Unfinished, ParserAfter, Trips;
    if c.parts == [] {
      LinesDoNotTrip(d, p, Lines(held + c.last));
      NothingTrips<E>();
      assert ReportsOf(c) == [];
    } else {
      var all, more := held + c.parts[0].0, c.(parts := c.parts[1..]);
      var head := Results(d, p, Lines(all));
      var rest := Reading(d, ParserAfter(d, p, Lines(all)), Unfinished(all), more);
      LinesDoNotTrip(d, p, Lines(all));
      TripsSplits(head + [c.parts[0].1], rest);
      TripsSplits(head, [c.parts[0].1]);
      ReadingTrips(d, ParserAfter(d, p, Lines(all)), Unfinished(all), more);
      TripsSplits([c.parts[0].1], ReportsOf(more));
      assert ReportsOf(c) == [c.parts[0].1] + ReportsOf(more);
    }
  }

  lemma {:induction false} OneTrips<E>(outcome: Outcome<E>)
    ensures Trips([outcome]) <==> outcome.Oversized?
  {
    assert [outcome][0] == outcome;
  }

  lemma {:induction false} NothingReported<E>()
    ensures ReportsOf(ContentOf<E>([])) == []
  {
  }

  lemma {:induction false} ReportsStep<E>(items: seq<Judged<E>>)
    requires items != []
    ensures var rest := ReportsOf(ContentOf(items[1..]));
            ReportsOf(ContentOf(items)) == if items[0].Report? then [items[0].outcome] + rest else rest
  {
    var rest := ContentOf(items[1..]);
    match items[0]
    case Read(_) => assert ReportsOf(ContentOf(items)) == ReportsOf(rest);
    case Report(outcome) => assert ReportsOf(ContentOf(items)) == [outcome] + ReportsOf(rest);
  }

  lemma {:induction false} ContentTrips<E>(items: seq<Judged<E>>)
    ensures Limited(items) <==> Trips(ReportsOf(ContentOf(items)))
  {
    hide Limited, Trips, ContentOf, ReportsOf;
    if items == [] {
      NothingLimited<E>();
      NothingTrips<E>();
      NothingReported<E>();
    } else {
      ContentTrips(items[1..]);
      LimitedSplits(items[0], items[1..]);
      assert items == [items[0]] + items[1..];
      ReportsStep(items);
      if items[0].Report? {
        TripsSplits([items[0].outcome], ReportsOf(ContentOf(items[1..])));
        OneTrips(items[0].outcome);
      }
    }
  }

  /** Some call trips the limit exactly when some chunk does not fit beside the unfinished line before it. */
  lemma {:induction false} TripsExactlyWhen<E>(d: Decoder<E>, items: seq<Item>)
    ensures (exists n :: Call(d, Fresh(items), n).Oversized?) <==> !Fits([], items)
  {
    hide Call, Reading, ContentOf, Judge;
    FitsMeansUnlimited<E>([], items);
    ContentTrips(Judge<E>([], items));
    ReadingTrips(d, FRESH, [], ContentOf(Judge([], items)));
    var rs := Whole(d, items);
    forall n: nat ensures Call(d, Fresh(items), n).Oversized? <==> n < |rs| && rs[n].Oversized? {
      CallsMatchWholeInput(d, items, n);
    }
    if Trips(rs) {
      var k :| 0 <= k < |rs| && rs[k].Oversized?;
      assert Call(d, Fresh(items), k).Oversized?;
    }
  }

  /** The items when there is no limit to exceed. */
  function Unlimited<E>(items: seq<Item>): (r: seq<Judged<E>>)
    ensures |r| == |items|
  {
    seq(|items|, i requires 0 <= i < |items| =>
      match items[i] case Chunk(bytes) => Read(bytes) case Failure(error) => Report(Failed(error)))
  }

  lemma {:induction false} FittingIsUnlimited<E>(held: Bytes, items: seq<Item>)
    requires Fits(held, items)
    ensures Judge<E>(held, items) == Unlimited<E>(items)
    decreases |items|
  {
    hide Unfinished;
    if items != [] {
      assert Unlimited<E>(items) == [Unlimited<E>(items)[0]] + Unlimited<E>(items[1..]);
      match items[0]
      case Failure(_) => FittingIsUnlimited<E>(held, items[1..]);
      case Chunk(bytes) => FittingIsUnlimited<E>(Unfinished(held) + bytes, items[1..]);
    }
  }

  /**
   So chunk boundaries do not matter: two streams of one content that both fit give the same results, call by call.
   */
  lemma {:induction false} ChunkingDoesNotMatter<E>(d: Decoder<E>, a: seq<Item>, b: seq<Item>, n: nat)
    requires ContentOf(Unlimited<E>(a)) == ContentOf(Unlimited<E>(b)) && Fits([], a) && Fits([], b)
    ensures Call(d, Fresh(a), n) == Call(d, Fresh(b), n)
  {
    hide Call, Reading, ContentOf, Judge, Fits, Unlimited;
    FittingIsUnlimited<E>([], a);
    FittingIsUnlimited<E>([], b);
    CallsMatchWholeInput(d, a, n);
    CallsMatchWholeInput(d, b, n);
  }

  /** A stream that only delivers chunks. */
  function Chunks(chunks: seq<Bytes>): (items: seq<Item>)
    ensures |items| == |chunks|
  {
    seq(|chunks|, i requires 0 <= i < |chunks| => Chunk(chunks[i]))
  }

  lemma {:induction false} ContentOfChunks<E>(chunks: seq<Bytes>)
    ensures ContentOf(Unlimited<E>(Chunks(chunks))) == Content([], Concat(chunks))
  {
    if chunks != [] {
      assert Unlimited<E>(Chunks(chunks))[1..] == Unlimited<E>(Chunks(chunks[1..]));
      ContentOfChunks<E>(chunks[1..]);
    }
  }

  /** If it fits, its simple form is that of the lines of all the bytes. */
  lemma {:induction false} WholeOfChunks<E>(d: Decoder<E>, chunks: seq<Bytes>)
    requires Fits([], Chunks(chunks))
    ensures Whole(d, Chunks(chunks)) == Results(d, FRESH, Lines(Concat(chunks)))
  {
    hide Lines, Results, Judge;
    FittingIsUnlimited<E>([], Chunks(chunks));
    ContentOfChunks<E>(chunks);
    assert [] + Concat(chunks) == Concat(chunks);
  }

  function BytesIn(items: seq<Item>): (n: nat) {
    if items == [] then 0 else BytesIn(items[1..]) + (match items[0] case Chunk(bytes) => |bytes| case Failure(_) => 0)
  }

  /** Input that fits the buffer altogether fits however it is cut. */
  lemma {:induction false} SmallInputFits(held: Bytes, items: seq<Item>)
    requires |held| + BytesIn(items) <= MAX_EVENT_BUFFER_SIZE
    ensures Fits(held, items)
    decreases |items|
  {
    if items != [] {
      match items[0]
      case Failure(_) => SmallInputFits(held, items[1..]);
      case Chunk(bytes) => SmallInputFits(Unfinished(held) + bytes, items[1..]);
    }
  }

  function Blanks(n: nat): (r: Bytes)
    ensures |r| == n
  {
    seq(n, _ => NEWLINE)
  }

  lemma {:induction false} BlanksFinish(n: nat)
    ensures Unfinished(Blanks(n)) == []
  {
    if n > 0 {
      assert Blanks(n)[1..] == Blanks(n - 1);
      BlanksFinish(n - 1);
    }
  }

  /** One chunk of blank lines, a byte over the limit, trips it; cut in two, the same bytes do not. */
  lemma {:induction false} LargeChunkTrips<E>(d: Decoder<E>)
    ensures var whole := [Chunk(Blanks(1024 * 1024 + 1))];
            var cut := [Chunk(Blanks(1024 * 1024)), Chunk(Blanks(1))];
            && ContentOf(Unlimited<E>(whole)) == ContentOf(Unlimited<E>(cut))
            && Call(d, Fresh(whole), 0).Oversized?
            && forall n :: !Call(d, Fresh(cut), n).Oversized?
  {
    hide Next, Unfinished, Blanks, ContentOf, Fits;
    var n := MAX_EVENT_BUFFER_SIZE;
    var whole, cut := [Chunk(Blanks(n + 1))], [Chunk(Blanks(n)), Chunk(Blanks(1))];
    assert ContentOf(Unlimited<E>(whole)) == ContentOf(Unlimited<E>(cut)) by { BlanksJoin<E>(n); }
    NextCases(d, Fresh(whole));
    BlanksFit(n);
    TripsExactlyWhen(d, cut);
  }

  lemma {:induction false} BlanksJoin<E>(n: nat)
    ensures ContentOf(Unlimited<E>([Chunk(Blanks(n + 1))])) ==
            ContentOf(Unlimited<E>([Chunk(Blanks(n)), Chunk(Blanks(1))]))
  {
    var one: Judged<E>, two: Judged<E> := Read(Blanks(n)), Read(Blanks(1));
    assert Unlimited<E>([Chunk(Blanks(n + 1))]) == [Read(Blanks(n + 1))];
    assert Unlimited<E>([Chunk(Blanks(n)), Chunk(Blanks(1))]) == [one, two];
    assert ContentOf([two]) == Content([], Blanks(1) + []);
    assert [one, two][1..] == [two];
    assert Blanks(n + 1) + [] == Blanks(n) + (Blanks(1) + []);
  }

  lemma {:induction false} BlanksFit(n: nat)
    requires 1 <= n <= MAX_EVENT_BUFFER_SIZE
    ensures Fits([], [Chunk(Blanks(n)), Chunk(Blanks(1))])
  {
    hide Blanks;
    BlanksFinish(n);
    assert [Chunk(Blanks(n)), Chunk(Blanks(1))][1..] == [Chunk(Blanks(1))];
    assert [] + Blanks(n) == Blanks(n);
    assert Fits(Blanks(n), [Chunk(Blanks(1))]);
  }

  // ----- a written event is read back -----

  /** A field line, with the optional space after the colon and the optional carriage return at the end. */
  function FieldLine(field: Bytes, value: Bytes, spaced: bool, returned: bool): (r: Bytes) {
    field + [COLON] + (if spaced then [SPACE] else []) + value + (if returned then [RETURN] else [])
  }

  /** The bytes of ASCII text. */
  ghost function Text(s: string): (r: Bytes)
    requires forall i :: 0 <= i < |s| ==> s[i] < '\U{80}'
  {
    seq(|s|, i requires 0 <= i < |s| => s[i] as int)
  }

  /** The two field lines as they look on the wire, and the newline that ends a line and joins the data. */
  lemma {:induction false} LinesAsText(value: Bytes)
    ensures FieldLine(EVENT, PUNCH, true, false) == Text("event: punch")
    ensures FieldLine(DATA, value, true, true) == Text("data: ") + value + Text("\r")
    ensures Accumulated([], [Text("a"), Text("b")]) == Text("a\nb")
  {
    var head := Text("data: ");
    assert head == DATA + [COLON, SPACE];
    assert Accumulated(Text("a"), [Text("b")]) == Accumulated(Text("a") + [NEWLINE] + Text("b"), []);
  }

  /** The values joined by newlines, as the reader accumulates them. */
  function Accumulated(data: Bytes, values: seq<Bytes>): (r: Bytes)
    decreases |values|
  {
    if values == [] then data
    else Accumulated(if data == [] then values[0] else data + [NEWLINE] + values[0], values[1..])
  }

  /** A value a sender can put on one line and have back unchanged. */
  predicate Plain(value: Bytes, spaced: bool, returned: bool) {
    && (value != [] && value[0] == SPACE ==> spaced)
    && (value != [] && value[|value| - 1] == RETURN ==> returned)
  }

  lemma {:induction false} StripReturn(line: Bytes, returned: bool)
    requires !returned ==> line == [] || line[|line| - 1] != RETURN
    ensures var raw := line + (if returned then [RETURN] else []);
            (if raw != [] && raw[|raw| - 1] == RETURN then raw[..|raw| - 1] else raw) == line
  {
  }

  /** What a field line does: two fields are kept, and every other one, a comment included, is ignored. */
  function Assigned(p: Parser, field: Bytes, value: Bytes): (r: Parser) {
    if field == EVENT then p.(name := value)
    else if field == DATA then p.(data := if p.data == [] then value else p.data + [NEWLINE] + value)
    else p
  }

  /** A line assigns its field exactly the value, whatever the spacing and line ending; comments have an empty field. */
  lemma {:induction false} FieldLineIsRead<E>(
    d: Decoder<E>, p: Parser, field: Bytes, value: Bytes, spaced: bool, returned: bool)
    requires COLON !in field && Plain(value, spaced, returned)
    requires d.utf8(FieldLine(field, value, spaced, false))
    ensures HandleLine(d, p, FieldLine(field, value, spaced, returned)) == (Assigned(p, field, value), None)
  {
    hide ProcessLine;
    var line := FieldLine(field, value, spaced, false);
    assert line != [] && (line[|line| - 1] == RETURN ==> returned);
    StripReturn(line, returned);
    assert FieldLine(field, value, spaced, returned) == line + (if returned then [RETURN] else []);
    FieldLineIsProcessed(d, p, field, value, spaced);
  }

  lemma {:induction false} FieldLineIsProcessed<E>(d: Decoder<E>, p: Parser, field: Bytes, value: Bytes, spaced: bool)
    requires COLON !in field && (value != [] && value[0] == SPACE ==> spaced)
    ensures ProcessLine(d, p, FieldLine(field, value, spaced, false)) == (Assigned(p, field, value), None)
  {
    hide Find;
    var rest := (if spaced then [SPACE] else []) + value;
    FieldLineSplits(field, value, spaced, rest);
    assert spaced ==> rest[0] == SPACE && rest[1..] == value;
    assert !spaced ==> rest == value;
  }

  lemma {:induction false} FieldLineSplits(field: Bytes, value: Bytes, spaced: bool, rest: Bytes)
    requires COLON !in field
    requires rest == (if spaced then [SPACE] else []) + value
    ensures var line := FieldLine(field, value, spaced, false);
            && line != [] && (line[0] == COLON <==> field == [])
            && Find(line, COLON, 0) == |field| < |line|
            && line[..|field|] == field && line[|field| + 1..] == rest
  {
    hide Find;
    var line := FieldLine(field, value, spaced, false);
    assert line == field + ([COLON] + rest);
    assert forall k :: 0 <= k < |field| ==> line[k] == field[k] != COLON;
    FindIsFirst(line, COLON, 0, |field|);
  }

  /** The `data` lines of an event. */
  function DataLines(values: seq<Bytes>, spaced: bool, returned: bool): (r: seq<Bytes>)
    ensures |r| == |values|
  {
    seq(|values|, i requires 0 <= i < |values| => FieldLine(DATA, values[i], spaced, returned))
  }

  /** An event as a sender writes it. */
  function EventLines(name: Bytes, values: seq<Bytes>, spaced: bool, returned: bool): (r: seq<Bytes>) {
    [FieldLine(EVENT, name, spaced, returned)] + DataLines(values, spaced, returned) +
    [if returned then [RETURN] else []]
  }

  lemma {:induction false} DataLinesAreRead<E>(
    d: Decoder<E>, p: Parser, values: seq<Bytes>, spaced: bool, returned: bool, after: seq<Bytes>)
    requires forall i :: 0 <= i < |values| ==> Plain(values[i], spaced, returned)
    requires forall i :: 0 <= i < |values| ==> d.utf8(FieldLine(DATA, values[i], spaced, false))
    ensures Results(d, p, DataLines(values, spaced, returned) + after) ==
            Results(d, p.(data := Accumulated(p.data, values)), after)
    decreases |values|
  {
    hide HandleLine, FieldLine, Plain;
    var lines := DataLines(values, spaced, returned) + after;
    if values == [] {
      assert lines == after;
    } else {
      FieldLineIsRead(d, p, DATA, values[0], spaced, returned);
      assert lines[0] == FieldLine(DATA, values[0], spaced, returned);
      assert lines[1..] == DataLines(values[1..], spaced, returned) + after;
      DataLinesAreRead(d, p.(data := if p.data == [] then values[0] else p.data + [NEWLINE] + values[0]), values[1..],
                       spaced, returned, after);
    }
  }

  /**
   A written event: its name, any number of data lines, a blank line. Read from any earlier state, a punch event
   yields exactly what the data kept from before, joined with its own, parses to, and leaves the reader as new; data
   that does not parse yields an error and is kept; an event of any other name yields nothing and clears it.
   */
  lemma {:induction false} WrittenEventIsRead<E>(
    d: Decoder<E>, p: Parser, name: Bytes, values: seq<Bytes>, spaced: bool, returned: bool, after: seq<Bytes>)
    requires d.utf8([])
    requires Plain(name, spaced, returned) && d.utf8(FieldLine(EVENT, name, spaced, false))
    requires forall i :: 0 <= i < |values| ==> Plain(values[i], spaced, returned)
    requires forall i :: 0 <= i < |values| ==> d.utf8(FieldLine(DATA, values[i], spaced, false))
    ensures Results(d, p, EventLines(name, values, spaced, returned) + after) ==
            if name != PUNCH then Results(d, FRESH, after)
            else match d.json(Accumulated(p.data, values))
                 case Some(event) => [Event(event)] + Results(d, FRESH, after)
                 case None => [InvalidJson] + Results(d, Parser(PUNCH, Accumulated(p.data, values)), after)
  {
    hide FieldLine, HandleLine, Plain;
    var blank := if returned then [RETURN] else [];
    var head := FieldLine(EVENT, name, spaced, returned);
    var tail := DataLines(values, spaced, returned) + ([blank] + after);
    assert EventLines(name, values, spaced, returned) + after == [head] + tail;
    FieldLineIsRead(d, p, EVENT, name, spaced, returned);
    assert ([head] + tail)[0] == head && ([head] + tail)[1..] == tail;
    DataLinesAreRead(d, Parser(name, p.data), values, spaced, returned, [blank] + after);
    BlankLineIsRead(d, Parser(name, Accumulated(p.data, values)), returned);
    assert ([blank] + after)[0] == blank && ([blank] + after)[1..] == after;
  }

  /** A punch event that does not parse spoils the next one, which is parsed together with the data kept from it. */
  lemma {:induction false} BadEventSpoilsNext<E>(
    d: Decoder<E>, first: seq<Bytes>, second: seq<Bytes>, spaced: bool, returned: bool, after: seq<Bytes>)
    requires d.utf8([]) && d.utf8(FieldLine(EVENT, PUNCH, spaced, false))
    requires forall i :: 0 <= i < |first| ==>
               Plain(first[i], spaced, returned) && d.utf8(FieldLine(DATA, first[i], spaced, false))
    requires forall i :: 0 <= i < |second| ==>
               Plain(second[i], spaced, returned) && d.utf8(FieldLine(DATA, second[i], spaced, false))
    requires d.json(Accumulated([], first)).None?
    ensures var both := Accumulated(Accumulated([], first), second);
            var written := EventLines(PUNCH, second, spaced, returned) + after;
            Results(d, FRESH, EventLines(PUNCH, first, spaced, returned) + written) ==
            [InvalidJson] + match d.json(both)
                            case Some(event) => [Event(event)] + Results(d, FRESH, after)
                            case None => [InvalidJson] + Results(d, Parser(PUNCH, both), after)
  {
    hide Results, EventLines, FieldLine, Accumulated;
    WrittenEventIsRead(d, FRESH, PUNCH, first, spaced, returned, EventLines(PUNCH, second, spaced, returned) + after);
    WrittenEventIsRead(d, Parser(PUNCH, Accumulated([], first)), PUNCH, second, spaced, returned, after);
  }

  /** A line without a colon is ignored. */
  lemma {:induction false} BareLineIsIgnored<E>(d: Decoder<E>, p: Parser, line: Bytes, returned: bool)
    requires line != [] && COLON !in line && d.utf8(line)
    requires !returned ==> line[|line| - 1] != RETURN
    ensures HandleLine(d, p, line + (if returned then [RETURN] else [])) == (p, None)
  {
    StripReturn(line, returned);
    FindIsFirst(line, COLON, 0, |line|);
  }

  lemma {:induction false} BlankLineIsRead<E>(d: Decoder<E>, p: Parser, returned: bool)
    requires d.utf8([])
    ensures HandleLine(d, p, if returned then [RETURN] else []) == ProcessLine(d, p, [])
  {
    assert [RETURN][..0] == [];
  }

  /** A line that is not UTF-8 is reported, and the fields read so far are kept. */
  lemma {:induction false} BadTextIsReported<E>(d: Decoder<E>, p: Parser, line: Bytes, returned: bool)
    requires !d.utf8(line) && (!returned ==> line == [] || line[|line| - 1] != RETURN)
    ensures HandleLine(d, p, line + (if returned then [RETURN] else [])) == (p, Some(InvalidUtf8))
  {
    StripReturn(line, returned);
  }
}
