/** The QUIC sniffer's packet-number decoding (RFC 9000, appendix A.3) and CRYPTO frame reassembly (section 19.6). */
module QuicSniff {
  import opened Bytes
  import opened Sets
  import opened Varint

  // ----- packet numbers -----

  const PACKET_NUMBER_LIMIT: nat := 0x4000_0000_0000_0000

  /** How many packet numbers `length` bytes tell apart. */
  function Span(length: nat): (w: nat)
    requires 1 <= length <= 4
  {
    if length == 1 then 0x100 else if length == 2 then 0x1_0000 else if length == 3 then 0x100_0000 else 0x1_0000_0000
  }

  /** Masking off the low bytes of the expected number and or-ing in the truncated one. */
  function DecodePacketNumber(largest: nat, truncated: nat, length: nat): (pn: nat)
    requires 1 <= length <= 4 && largest < PACKET_NUMBER_LIMIT && truncated < Span(length)
  {
    var expected, window := largest + 1, Span(length);
    var half := window / 2;
    var candidate := expected - expected % window + truncated;
    if candidate + half <= expected && candidate < PACKET_NUMBER_LIMIT - window then candidate + window
    else if candidate > expected + half && candidate >= window then candidate - window
    else candidate
  }

  /** The half-open window around the expected number that the encoding is meant to resolve. */
  predicate InWindow(largest: nat, pn: nat, length: nat)
    requires 1 <= length <= 4
  {
    largest + 1 < pn + Span(length) / 2 && pn <= largest + 1 + Span(length) / 2
  }

  /** Numbers outside the window that still decode, because a step would leave the packet-number space. */
  predicate AtAnEnd(largest: nat, pn: nat, length: nat)
    requires 1 <= length <= 4
  {
    var expected, window := largest + 1, Span(length);
    || (pn < window && expected + window / 2 < pn)
    || (0x4000_0000_0000_0000 - window <= pn && expected < 0x4000_0000_0000_0000 && pn + window / 2 <= expected)
  }

  /** Decoding inverts truncation exactly on the window and on the stretches at the two ends of the number space. */
  lemma {:induction false} PacketNumberDecodesExactlyWhen(largest: nat, pn: nat, length: nat)
    requires 1 <= length <= 4 && largest < 0x4000_0000_0000_0000 && pn < 0x4000_0000_0000_0000
    ensures DecodePacketNumber(largest, pn % Span(length), length) == pn <==>
            InWindow(largest, pn, length) || AtAnEnd(largest, pn, length)
  {
    match length
    case 1 => OneByte(largest, pn);
    case 2 => TwoBytes(largest, pn);
    case 3 => ThreeBytes(largest, pn);
    case 4 => FourBytes(largest, pn);
  }

  lemma {:induction false} OneByte(largest: nat, pn: nat)
    requires largest < 0x4000_0000_0000_0000 && pn < 0x4000_0000_0000_0000
    ensures DecodePacketNumber(largest, pn % 0x100, 1) == pn <==> InWindow(largest, pn, 1) || AtAnEnd(largest, pn, 1)
  {
  }

  lemma {:induction false} TwoBytes(largest: nat, pn: nat)
    requires largest < 0x4000_0000_0000_0000 && pn < 0x4000_0000_0000_0000
    ensures DecodePacketNumber(largest, pn % 0x1_0000, 2) == pn <==> InWindow(largest, pn, 2) || AtAnEnd(largest, pn, 2)
  {
  }

  lemma {:induction false} ThreeBytes(largest: nat, pn: nat)
    requires largest < 0x4000_0000_0000_0000 && pn < 0x4000_0000_0000_0000
    ensures DecodePacketNumber(largest, pn % 0x100_0000, 3) == pn <==>
            InWindow(largest, pn, 3) || AtAnEnd(largest, pn, 3)
  {
  }

  lemma {:induction false} FourBytes(largest: nat, pn: nat)
    requires largest < 0x4000_0000_0000_0000 && pn < 0x4000_0000_0000_0000
    ensures DecodePacketNumber(largest, pn % 0x1_0000_0000, 4) == pn <==>
            InWindow(largest, pn, 4) || AtAnEnd(largest, pn, 4)
  {
  }

  // ----- CRYPTO frames -----

  const CRYPTO_LIMIT: nat := 256 * 1024

  type FrameMap = map<nat, Bytes>

  /** Reads one item off the payload: padding or a ping, or a CRYPTO frame kept under its offset, or a refusal. */
  datatype Item = Skip(rest: Bytes) | Keep(offset: nat, data: Bytes, rest: Bytes) | Refuse

  function ReadItem(payload: Bytes): (r: Item) {
    match ReadVarint(payload)
    case None => Refuse
    case Some((kind, n)) =>
      if kind == 0 || kind == 1 then Skip(payload[n..])
      else if kind != 6 then Refuse
      else ReadCrypto(payload[n..])
  }

  function ReadCrypto(payload: Bytes): (r: Item) {
    match ReadVarint(payload)
    case None => Refuse
    case Some((offset, n)) =>
      match ReadVarint(payload[n..])
      case None => Refuse
      case Some((length, m)) =>
        var rest := payload[n..][m..];
        if length > CRYPTO_LIMIT || length > |rest| then Refuse else Keep(offset, rest[..length], rest[length..])
  }

  lemma {:induction false} ItemsShrink(payload: Bytes)
    requires payload != []
    ensures !ReadItem(payload).Refuse? ==> |ReadItem(payload).rest| < |payload|
  {
  }

  /** The frames of a whole payload, a later frame replacing an earlier one at the same offset. */
  function ParseFrames(payload: Bytes, frames: FrameMap): (r: Option<FrameMap>)
    decreases |payload|
  {
    if payload == [] then Some(frames)
    else
      ItemsShrink(payload);
      match ReadItem(payload)
      case Refuse => None
      case Skip(rest) => ParseFrames(rest, frames)
      case Keep(offset, data, rest) => ParseFrames(rest, frames[offset := data])
  }

  /** Some frame supplies byte `i`. */
  ghost predicate Covered(frames: FrameMap, i: int) {
    exists o :: o in frames && o <= i < o + |frames[o]|
  }

  /** Frames tile a string: each lies in it and agrees with it, none reaches past the next, and none is missing. */
  ghost predicate Tiles(frames: FrameMap, s: Bytes) {
    && (forall o :: o in frames ==> o + |frames[o]| <= |s| && s[o..o + |frames[o]|] == frames[o])
    && (forall o, p :: o in frames && p in frames && o < p ==> o + |frames[o]| <= p)
    && (forall i :: 0 <= i < |s| ==> Covered(frames, i))
  }

  /** A tiled string is determined by its tiles. */
  lemma {:induction false} TilingIsUnique(frames: FrameMap, a: Bytes, b: Bytes)
    requires Tiles(frames, a) && Tiles(frames, b)
    ensures a == b
  {
    TilingLengths(frames, a, b);
    TilingLengths(frames, b, a);
    forall i | 0 <= i < |a| ensures a[i] == b[i] {
      assert Covered(frames, i);
      var o :| o in frames && o <= i < o + |frames[o]|;
      assert a[i] == a[o..o + |frames[o]|][i - o] && b[i] == b[o..o + |frames[o]|][i - o];
    }
  }

  lemma {:induction false} TilingLengths(frames: FrameMap, a: Bytes, b: Bytes)
    requires Tiles(frames, a) && Tiles(frames, b)
    ensures |b| <= |a|
  {
    UncoveredBeyond(frames, a, |a|);
  }

  lemma {:induction false} UncoveredBeyond(frames: FrameMap, s: Bytes, i: nat)
    requires Tiles(frames, s) && |s| <= i
    ensures !Covered(frames, i)
  {
  }

  /** The frames at the offsets in `done`. */
  function Restricted(frames: FrameMap, done: set<nat>): (r: FrameMap) {
    map o | o in frames && o in done :: frames[o]
  }

  /** Laying the next frame, in offset order, end to end with what is already tiled. */
  lemma {:induction false} LayNext(frames: FrameMap, done: set<nat>, result: Bytes, o: nat)
    requires o in frames && o !in done && o == |result|
    requires Tiles(Restricted(frames, done), result)
    requires forall d :: d in done && d in frames ==> d < o
    ensures Tiles(Restricted(frames, done + {o}), result + frames[o])
  {
    hide Covered;
    var before, after, s := Restricted(frames, done), Restricted(frames, done + {o}), result + frames[o];
    forall p | p in after ensures p + |after[p]| <= |s| && s[p..p + |after[p]|] == after[p] {
      if p == o {
        assert s[o..o + |frames[o]|] == frames[o];
      } else {
        assert p in before && s[p..p + |after[p]|] == result[p..p + |after[p]|];
      }
    }
    forall p, q | p in after && q in after && p < q ensures p + |after[p]| <= q {
      assert p in before && (q == o || q in before);
    }
    forall i | 0 <= i < |s| ensures Covered(after, i) {
      if i < |result| { StillCovered(frames, done, o, i); } else { CoveredBy(after, o, i); }
    }
  }

  lemma {:induction false} CoveredBy(frames: FrameMap, o: nat, i: nat)
    requires o in frames && o <= i < o + |frames[o]|
    ensures Covered(frames, i)
  {
  }

  lemma {:induction false} StillCovered(frames: FrameMap, done: set<nat>, o: nat, i: nat)
    requires Covered(Restricted(frames, done), i)
    ensures Covered(Restricted(frames, done + {o}), i)
  {
    var before := Restricted(frames, done);
    var p :| p in before && p <= i < p + |before[p]|;
    assert p in Restricted(frames, done + {o});
  }

  /** If the smallest remaining offset is not where the tiling stands, nothing tiles. */
  lemma {:induction false} GapOrOverlap(frames: FrameMap, done: set<nat>, result: Bytes, o: nat, s: Bytes)
    requires o in frames && o != |result|
    requires Tiles(Restricted(frames, done), result)
    requires forall d :: d in done && d in frames ==> d < o
    requires forall p :: p in frames && p !in done ==> o <= p
    ensures !Tiles(frames, s)
  {
    var before := Restricted(frames, done);
    if o < |result| {
      assert Covered(before, |result| - 1);
      var p :| p in before && p <= |result| - 1 < p + |before[p]|;
      assert p in frames && p < o < p + |frames[p]|;
    } else {
      assert !Covered(frames, |result|) by {
        forall p | p in frames ensures !(p <= |result| < p + |frames[p]|) {
          if p <= |result| { assert p in before; }
        }
      }
    }
  }

  lemma {:induction false} FrameFits(frames: FrameMap, s: Bytes, o: nat)
    requires Tiles(frames, s) && o in frames
    ensures o + |frames[o]| <= |s|
  {
  }

  lemma {:induction false} AllRestricted(frames: FrameMap)
    ensures Restricted(frames, frames.Keys) == frames
  {
  }

  lemma {:induction false} NothingTiled(frames: FrameMap)
    ensures Tiles(Restricted(frames, {}), [])
  {
    assert Restricted(frames, {}) == map[];
  }

  /** The second loop: the kept frames in offset order, each required to start where the last one ended. */
  method Assemble(frames: FrameMap) returns (r: Option<Bytes>)
    ensures forall s :: r == Some(s) <==> s != [] && |s| <= CRYPTO_LIMIT && Tiles(frames, s)
  {
    hide Tiles, Restricted;
    var result: Bytes := [];
    var remaining := frames.Keys;
    NothingTiled(frames);
    ghost var done: set<nat> := {};
    while remaining != {}
      invariant remaining !! done && remaining + done == frames.Keys
      invariant forall d, p :: d in done && p in remaining ==> d < p
      invariant Tiles(Restricted(frames, done), result) && |result| <= CRYPTO_LIMIT
      decreases |remaining|
    {
      LeastExists(remaining);
      var o :| IsLeast(o, remaining);
      var frame := frames[o];
      if o != |result| {
        forall s: Bytes ensures !Tiles(frames, s) { GapOrOverlap(frames, done, result, o, s); }
        return None;
      }
      if |result| + |frame| > CRYPTO_LIMIT {
        forall s: Bytes | Tiles(frames, s) ensures |s| > CRYPTO_LIMIT { FrameFits(frames, s, o); }
        return None;
      }
      LayNext(frames, done, result, o);
      result := result + frame;
      remaining, done := remaining - {o}, done + {o};
    }
    AllRestricted(frames);
    assert done == frames.Keys;
    forall s | Tiles(frames, s) ensures s == result { TilingIsUnique(frames, s, result); }
    r := if result == [] then None else Some(result);
  }

  // ----- what a payload is made of -----

  /** One thing a sender may write: padding or a ping, or a CRYPTO frame, with varints of any lawful length. */
  datatype Written =
    | Filler(code: Bytes)
    | Frame(at: nat, data: Bytes, kind: Bytes, offset: Bytes, length: Bytes)

  predicate Lawful(w: Written) {
    match w
    case Filler(code) => IsVarint(code, 0) || IsVarint(code, 1)
    case Frame(at, data, kind, offset, length) =>
      IsVarint(kind, 6) && IsVarint(offset, at) && IsVarint(length, |data|) && |data| <= CRYPTO_LIMIT
  }

  function BytesOf(w: Written): (r: Bytes) {
    match w
    case Filler(code) => code
    case Frame(_, data, kind, offset, length) => kind + (offset + (length + data))
  }

  function PayloadOf(ws: seq<Written>): (r: Bytes) {
    if ws == [] then [] else BytesOf(ws[0]) + PayloadOf(ws[1..])
  }

  /** The frames kept after `ws` on top of `frames`: for each offset, the last one written. */
  function Kept(ws: seq<Written>, frames: FrameMap): (r: FrameMap) {
    if ws == [] then frames
    else Kept(ws[1..], if ws[0].Frame? then frames[ws[0].at := ws[0].data] else frames)
  }

  /** The payload is exactly these things, one after the other. */
  predicate Writes(ws: seq<Written>, payload: Bytes) {
    (forall k :: 0 <= k < |ws| ==> Lawful(ws[k])) && PayloadOf(ws) == payload
  }

  /** How a written thing reads back. */
  function ItemOf(w: Written, rest: Bytes): (r: Item) {
    match w
    case Filler(_) => Skip(rest)
    case Frame(at, data, _, _, _) => Keep(at, data, rest)
  }

  lemma {:induction false} ReadWritten(w: Written, rest: Bytes)
    requires Lawful(w)
    ensures BytesOf(w) != [] && ReadItem(BytesOf(w) + rest) == ItemOf(w, rest)
  {
    hide ReadVarint, IsVarint;
    match w
    case Filler(code) =>
      if IsVarint(code, 0) { ReadIgnoresSuffix(code, 0, rest); } else { ReadIgnoresSuffix(code, 1, rest); }
    case Frame(at, data, kind, offset, length) =>
      var afterLength := data + rest;
      var afterOffset := length + afterLength;
      var afterKind := offset + afterOffset;
      ReadIgnoresSuffix(kind, 6, afterKind);
      ReadIgnoresSuffix(offset, at, afterOffset);
      ReadIgnoresSuffix(length, |data|, afterLength);
      Reassociate(kind, offset, length, data, rest);
      assert afterLength[..|data|] == data && afterLength[|data|..] == rest;
  }

  lemma {:induction false} Reassociate(a: Bytes, b: Bytes, c: Bytes, d: Bytes, rest: Bytes)
    ensures a + (b + (c + d)) + rest == a + (b + (c + (d + rest)))
  {
  }

  lemma {:induction false} ParseWritten(ws: seq<Written>, frames: FrameMap)
    requires forall k :: 0 <= k < |ws| ==> Lawful(ws[k])
    ensures ParseFrames(PayloadOf(ws), frames) == Some(Kept(ws, frames))
    decreases |ws|
  {
    hide ReadItem, Lawful;
    if ws != [] {
      ReadWritten(ws[0], PayloadOf(ws[1..]));
      ParseWritten(ws[1..], if ws[0].Frame? then frames[ws[0].at := ws[0].data] else frames);
    }
  }

  lemma {:induction false} SplitVarint(input: Bytes) returns (code: Bytes, rest: Bytes)
    requires ReadVarint(input).Some?
    ensures var (value, n) := ReadVarint(input).value;
            n <= |input| && IsVarint(code, value) && rest == input[n..] && input == code + rest
  {
    code := AcceptedPrefix(input);
    rest := DecodeVarint(input).value.1;
  }

  /** Whatever one step of the reader accepts is one of the things a sender may write. */
  lemma {:induction false} ReadIsWritten(payload: Bytes) returns (w: Written)
    requires !ReadItem(payload).Refuse?
    ensures Lawful(w) && payload == BytesOf(w) + ReadItem(payload).rest
    ensures ReadItem(payload) == ItemOf(w, ReadItem(payload).rest)
  {
    hide ReadVarint, IsVarint;
    var kind, afterKind := SplitVarint(payload);
    if ReadItem(payload).Skip? {
      w := Filler(kind);
    } else {
      var offset, afterOffset := SplitVarint(afterKind);
      var length, afterLength := SplitVarint(afterOffset);
      var item := ReadItem(payload);
      assert afterLength == item.data + item.rest;
      w := Frame(item.offset, item.data, kind, offset, length);
      Reassociate(kind, offset, length, item.data, item.rest);
    }
  }

  lemma {:induction false} ParsedIsWritten(payload: Bytes, frames: FrameMap) returns (ws: seq<Written>)
    requires ParseFrames(payload, frames).Some?
    ensures Writes(ws, payload)
    decreases |payload|
  {
    hide ReadItem, Lawful, BytesOf;
    if payload == [] {
      ws := [];
    } else {
      var w := ReadIsWritten(payload);
      ItemsShrink(payload);
      var rest := ReadItem(payload).rest;
      var more := ParsedIsWritten(rest, if w.Frame? then frames[w.at := w.data] else frames);
      ws := [w] + more;
      assert ws[1..] == more;
    }
  }

  /** What extraction is for: the payload is made of lawful things, and the frames kept tile the string. */
  ghost predicate Extracts(payload: Bytes, s: Bytes) {
    && s != [] && |s| <= 256 * 1024
    && exists ws :: Writes(ws, payload) && Tiles(Kept(ws, map[]), s)
  }

  /** The reader accepts exactly the payloads made of lawful things, and keeps exactly their frames. */
  lemma {:induction false} ExtractsExactlyWhen(payload: Bytes, s: Bytes)
    ensures Extracts(payload, s) <==>
            && s != [] && |s| <= CRYPTO_LIMIT
            && ParseFrames(payload, map[]).Some? && Tiles(ParseFrames(payload, map[]).value, s)
  {
    hide Tiles, PayloadOf, Kept, ParseFrames;
    var parsed := ParseFrames(payload, map[]);
    if s != [] && |s| <= CRYPTO_LIMIT && parsed.Some? && Tiles(parsed.value, s) {
      var ws := ParsedIsWritten(payload, map[]);
      ParseWritten(ws, map[]);
    }
    if Extracts(payload, s) {
      var ws :| Writes(ws, payload) && Tiles(Kept(ws, map[]), s);
      ParseWritten(ws, map[]);
    }
  }

  /** Extraction returns a string exactly when the payload's frames tile it. */
  method ExtractCryptoFrames(payload: Bytes) returns (r: Option<Bytes>)
    ensures forall s :: r == Some(s) <==> Extracts(payload, s)
  {
    hide Tiles, Extracts;
    var rest: Bytes, frames: FrameMap := payload, map[];
    while rest != []
      invariant ParseFrames(payload, map[]) == ParseFrames(rest, frames)
      decreases |rest|
    {
      ItemsShrink(rest);
      match ReadItem(rest)
      case Refuse =>
        forall s ensures !Extracts(payload, s) { ExtractsExactlyWhen(payload, s); }
        return None;
      case Skip(after) => rest := after;
      case Keep(offset, data, after) => rest, frames := after, frames[offset := data];
    }
    r := Assemble(frames);
    forall s ensures r == Some(s) <==> Extracts(payload, s) { ExtractsExactlyWhen(payload, s); }
  }

  // ----- every way of writing a string is read back -----

  /** Where chunk `i` starts. */
  function Offset(chunks: seq<Bytes>, i: nat): (r: nat)
    requires i <= |chunks|
  {
    |Concat(chunks[..i])|
  }

  /** `data` is the chunk that starts at `o`. */
  ghost predicate IsChunk(chunks: seq<Bytes>, o: nat, data: Bytes) {
    exists i :: 0 <= i < |chunks| && Offset(chunks, i) == o && chunks[i] == data
  }

  /** The frames are some of the chunks, each at its offset. */
  ghost predicate FromChunks(chunks: seq<Bytes>, frames: FrameMap) {
    forall o :: o in frames ==> IsChunk(chunks, o, frames[o])
  }

  lemma {:induction false} OffsetsAscend(chunks: seq<Bytes>, i: nat, j: nat)
    requires i < j <= |chunks|
    ensures Offset(chunks, i) + |chunks[i]| <= Offset(chunks, j)
    decreases j
  {
    assert chunks[..j] == chunks[..j - 1] + [chunks[j - 1]];
    ConcatAppend(chunks[..j - 1], [chunks[j - 1]]);
    assert Concat([chunks[j - 1]]) == chunks[j - 1] + Concat([]);
    if i < j - 1 { OffsetsAscend(chunks, i, j - 1); }
  }

  lemma {:induction false} ChunkSits(chunks: seq<Bytes>, i: nat)
    requires i < |chunks|
    ensures var s := Concat(chunks);
            Offset(chunks, i) + |chunks[i]| <= |s| &&
            s[Offset(chunks, i)..Offset(chunks, i) + |chunks[i]|] == chunks[i]
  {
    var before, after := chunks[..i], chunks[i + 1..];
    assert chunks == before + ([chunks[i]] + after);
    ConcatAppend(before, [chunks[i]] + after);
    ConcatAppend([chunks[i]], after);
    assert Concat([chunks[i]]) == chunks[i] + Concat([]);
    assert Concat(chunks) == Concat(before) + (chunks[i] + Concat(after));
  }

  lemma {:induction false} WholeOffset(chunks: seq<Bytes>)
    ensures Offset(chunks, |chunks|) == |Concat(chunks)|
  {
    assert chunks[..|chunks|] == chunks;
  }

  lemma {:induction false} FindChunk(chunks: seq<Bytes>, p: nat, n: nat) returns (i: nat)
    requires n <= |chunks| && p < Offset(chunks, n)
    ensures i < n && Offset(chunks, i) <= p < Offset(chunks, i) + |chunks[i]|
    decreases n
  {
    assert n > 0 by { assert chunks[..0] == []; }
    assert chunks[..n] == chunks[..n - 1] + [chunks[n - 1]];
    ConcatAppend(chunks[..n - 1], [chunks[n - 1]]);
    assert Concat([chunks[n - 1]]) == chunks[n - 1] + Concat([]);
    if Offset(chunks, n - 1) <= p { i := n - 1; } else { i := FindChunk(chunks, p, n - 1); }
  }

  /** Only chunks are written. */
  ghost predicate WritesChunks(chunks: seq<Bytes>, ws: seq<Written>) {
    forall k :: 0 <= k < |ws| && ws[k].Frame? ==> IsChunk(chunks, ws[k].at, ws[k].data)
  }

  lemma {:induction false} KeptFromChunks(chunks: seq<Bytes>, ws: seq<Written>, frames: FrameMap)
    requires WritesChunks(chunks, ws) && FromChunks(chunks, frames)
    ensures FromChunks(chunks, Kept(ws, frames))
    decreases |ws|
  {
    hide IsChunk;
    if ws != [] {
      KeptFromChunks(chunks, ws[1..], if ws[0].Frame? then frames[ws[0].at := ws[0].data] else frames);
    }
  }

  /** Something is written at offset `o`. */
  ghost predicate WrittenAt(ws: seq<Written>, o: nat) {
    exists k :: 0 <= k < |ws| && ws[k].Frame? && ws[k].at == o
  }

  lemma {:induction false} KeptOffsets(ws: seq<Written>, frames: FrameMap, o: nat)
    requires o in frames || WrittenAt(ws, o)
    ensures o in Kept(ws, frames)
    decreases |ws|
  {
    if ws != [] {
      var more := if ws[0].Frame? then frames[ws[0].at := ws[0].data] else frames;
      if o !in more {
        var k :| 0 <= k < |ws| && ws[k].Frame? && ws[k].at == o;
        assert ws[1..][k - 1] == ws[k];
      }
      KeptOffsets(ws[1..], more, o);
    }
  }

  /** All the chunks, each at its own offset and none empty, tile their concatenation. */
  lemma {:induction false} ChunksTile(chunks: seq<Bytes>, frames: FrameMap)
    requires forall i :: 0 <= i < |chunks| ==> chunks[i] != []
    requires FromChunks(chunks, frames)
    requires forall i :: 0 <= i < |chunks| ==> Offset(chunks, i) in frames
    ensures Tiles(frames, Concat(chunks))
  {
    hide Offset, Covered, Concat;
    var s := Concat(chunks);
    forall o | o in frames ensures o + |frames[o]| <= |s| && s[o..o + |frames[o]|] == frames[o] {
      assert IsChunk(chunks, o, frames[o]);
      var i :| 0 <= i < |chunks| && Offset(chunks, i) == o && chunks[i] == frames[o];
      ChunkSits(chunks, i);
    }
    forall o, p | o in frames && p in frames && o < p ensures o + |frames[o]| <= p {
      assert IsChunk(chunks, o, frames[o]);
      var i :| 0 <= i < |chunks| && Offset(chunks, i) == o && chunks[i] == frames[o];
      assert IsChunk(chunks, p, frames[p]);
      var j :| 0 <= j < |chunks| && Offset(chunks, j) == p && chunks[j] == frames[p];
      if i < j { OffsetsAscend(chunks, i, j); } else if j < i { OffsetsAscend(chunks, j, i); }
    }
    forall p | 0 <= p < |s| ensures Covered(frames, p) {
      WholeOffset(chunks);
      var i := FindChunk(chunks, p, |chunks|);
      ChunkAtOffset(chunks, frames, i);
      CoveredBy(frames, Offset(chunks, i), p);
    }
  }

  lemma {:induction false} ChunkAtOffset(chunks: seq<Bytes>, frames: FrameMap, i: nat)
    requires forall j :: 0 <= j < |chunks| ==> chunks[j] != []
    requires FromChunks(chunks, frames) && i < |chunks| && Offset(chunks, i) in frames
    ensures frames[Offset(chunks, i)] == chunks[i]
  {
    hide Offset;
    var o := Offset(chunks, i);
    assert IsChunk(chunks, o, frames[o]);
    var j :| 0 <= j < |chunks| && Offset(chunks, j) == o && chunks[j] == frames[o];
    if i < j { OffsetsAscend(chunks, i, j); }
    if j < i { OffsetsAscend(chunks, j, i); }
  }

  lemma {:induction false} ChunkWithinWhole(chunks: seq<Bytes>, i: nat)
    requires i < |chunks|
    ensures |chunks[i]| <= |Concat(chunks)|
  {
    ChunkSits(chunks, i);
  }

  /**
   Any string within the limit, cut into non-empty chunks in any way, written as CRYPTO frames in any order, with
   repeats, with padding and pings anywhere, and with varints of any lawful length, is what extraction returns.
   */
  lemma {:induction false} CryptoRoundTrip(chunks: seq<Bytes>, ws: seq<Written>)
    requires chunks != [] && forall i :: 0 <= i < |chunks| ==> chunks[i] != []
    requires |Concat(chunks)| <= CRYPTO_LIMIT
    requires (forall k :: 0 <= k < |ws| ==> Lawful(ws[k])) && WritesChunks(chunks, ws)
    requires forall i :: 0 <= i < |chunks| ==> WrittenAt(ws, Offset(chunks, i))
    ensures Extracts(PayloadOf(ws), Concat(chunks))
  {
    hide Lawful, PayloadOf, Kept, Tiles, Offset, FromChunks, WritesChunks, WrittenAt;
    NothingFromChunks(chunks);
    KeptFromChunks(chunks, ws, map[]);
    forall i | 0 <= i < |chunks| ensures Offset(chunks, i) in Kept(ws, map[]) {
      KeptOffsets(ws, map[], Offset(chunks, i));
    }
    ChunksTile(chunks, Kept(ws, map[]));
    assert Writes(ws, PayloadOf(ws));
    assert Concat(chunks) != [] by { ChunkWithinWhole(chunks, 0); }
  }

  lemma {:induction false} NothingFromChunks(chunks: seq<Bytes>)
    ensures FromChunks(chunks, map[])
  {
  }
}
