/** Gecko frames, and the encoder that hides one long-header packet in two to eight padded datagrams. */
module Gecko {
  import opened Bytes
  import opened Salamander

  const HEADER_SIZE: nat := 5
  const MIN_FRAGMENT_COUNT: nat := 2
  const MAX_FRAGMENT_COUNT: nat := 8
  const BUFFER_SIZE: nat := 2048

  datatype GeckoError =
    | InvalidFragmentCount(total: Byte)
    | InvalidChunkIndex(index: Byte, total: Byte)
    | TruncatedFrame

  datatype Outcome<+T> = Ok(value: T) | Err(error: GeckoError)

  datatype GeckoFrame = GeckoFrame(
    messageId: Byte, chunkIndex: Byte, totalChunks: Byte, padding: Bytes, payload: Bytes)

  function ValidateFragment(index: Byte, total: Byte): (r: Option<GeckoError>) {
    if !(MIN_FRAGMENT_COUNT <= total <= MAX_FRAGMENT_COUNT) then Some(InvalidFragmentCount(total))
    else if index >= total then Some(InvalidChunkIndex(index, total))
    else None
  }

  /** The index sits in the high nibble and the count in the low one, so or-ing them is an addition. */
  function EncodeFrame(f: GeckoFrame): (r: Outcome<Bytes>) {
    match ValidateFragment(f.chunkIndex, f.totalChunks)
    case Some(e) => Err(e)
    case None =>
      if |f.padding| > 0xffff then Err(TruncatedFrame)
      else Ok([0x80, f.messageId, f.chunkIndex * 16 + f.totalChunks, |f.padding| / 256, |f.padding| % 256]
              + f.padding + f.payload)
  }

  /** A two-byte big-endian number. */
  function Pair(high: nat, low: nat): (r: nat) {
    high * 256 + low
  }

  function DecodeFrame(input: Bytes): (r: Outcome<GeckoFrame>) {
    if |input| < HEADER_SIZE then Err(TruncatedFrame)
    else if input[0] < 0x80 then Err(InvalidFragmentCount(0))
    else match ValidateFragment(input[2] / 16, input[2] % 16)
      case Some(e) => Err(e)
      case None =>
        var offset := HEADER_SIZE + Pair(input[3], input[4]);
        if offset > |input| then Err(TruncatedFrame)
        else Ok(GeckoFrame(input[1], input[2] / 16, input[2] % 16, input[HEADER_SIZE..offset], input[offset..]))
  }

  /** Frames the encoder accepts. */
  predicate Encodable(f: GeckoFrame) {
    f.chunkIndex < f.totalChunks && MIN_FRAGMENT_COUNT <= f.totalChunks <= MAX_FRAGMENT_COUNT && |f.padding| <= 0xffff
  }

  lemma {:induction false} FrameRoundTrip(f: GeckoFrame)
    ensures EncodeFrame(f).Ok? <==> Encodable(f)
    ensures Encodable(f) ==> DecodeFrame(EncodeFrame(f).value) == Ok(f)
    ensures Encodable(f) ==> |EncodeFrame(f).value| == HEADER_SIZE + |f.padding| + |f.payload|
    ensures Encodable(f) ==> EncodeFrame(f).value[0] == 0x80
  {
    if Encodable(f) {
      var bytes := EncodeFrame(f).value;
      var n := |f.padding|;
      assert bytes[HEADER_SIZE..HEADER_SIZE + n] == f.padding;
      assert bytes[HEADER_SIZE + n..] == f.payload;
    }
  }

  /** The bytes of a frame: flag, id, index and count in one byte, padding length, padding, payload. */
  lemma {:induction false} FrameBytes(f: GeckoFrame)
    requires Encodable(f)
    ensures EncodeFrame(f).Ok? && |EncodeFrame(f).value| == 5 + |f.padding| + |f.payload|
    ensures var bytes := EncodeFrame(f).value;
            && bytes[0] == 0x80 && bytes[1] == f.messageId
            && bytes[2] / 16 == f.chunkIndex && bytes[2] % 16 == f.totalChunks
            && bytes[3] == |f.padding| / 256 && bytes[4] == |f.padding| % 256
            && bytes[5..] == f.padding + f.payload
  {
    assert EncodeFrame(f).value[5..] == f.padding + f.payload;
  }

  /** The errors of both directions, in the order they are noticed. */
  lemma {:induction false} FrameErrors(f: GeckoFrame, input: Bytes)
    ensures !(2 <= f.totalChunks <= 8) ==> EncodeFrame(f) == Err(InvalidFragmentCount(f.totalChunks))
    ensures 2 <= f.totalChunks <= 8 && f.chunkIndex >= f.totalChunks ==>
              EncodeFrame(f) == Err(InvalidChunkIndex(f.chunkIndex, f.totalChunks))
    ensures f.chunkIndex < f.totalChunks && 2 <= f.totalChunks <= 8 && |f.padding| > 65535 ==>
              EncodeFrame(f) == Err(TruncatedFrame)
    ensures |input| < 5 ==> DecodeFrame(input) == Err(TruncatedFrame)
    ensures |input| >= 5 && input[0] < 0x80 ==> DecodeFrame(input) == Err(InvalidFragmentCount(0))
    ensures |input| >= 5 && input[0] >= 0x80 && !(2 <= input[2] % 16 <= 8) ==>
              DecodeFrame(input) == Err(InvalidFragmentCount(input[2] % 16))
    ensures |input| >= 5 && input[0] >= 0x80 && 2 <= input[2] % 16 <= 8 && input[2] / 16 >= input[2] % 16 ==>
              DecodeFrame(input) == Err(InvalidChunkIndex(input[2] / 16, input[2] % 16))
  {
  }

  /** Decoding loses only the seven unused bits of the first byte. */
  lemma {:induction false} DecodeFrameIsFaithful(input: Bytes)
    requires DecodeFrame(input).Ok?
    ensures Encodable(DecodeFrame(input).value)
    ensures EncodeFrame(DecodeFrame(input).value) == Ok([0x80] + input[1..])
  {
    var f := DecodeFrame(input).value;
    var n := Pair(input[3], input[4]);
    assert |f.padding| == n && n / 256 == input[3] && n % 256 == input[4];
    var header := [0x80, f.messageId, f.chunkIndex * 16 + f.totalChunks, n / 256, n % 256];
    assert header == [0x80] + input[1..HEADER_SIZE];
    assert [0x80] + input[1..] == header + f.padding + f.payload;
  }

  /**
   A datagram decodes to a frame exactly when it is that frame's encoding, the unused bits of the first byte aside.
   */
  lemma {:induction false} DecodeFrameExactlyWhen(input: Bytes, f: GeckoFrame)
    ensures DecodeFrame(input) == Ok(f) <==>
            input != [] && input[0] >= 0x80 && EncodeFrame(f) == Ok([0x80] + input[1..])
  {
    if DecodeFrame(input) == Ok(f) { DecodeFrameIsFaithful(input); }
    if input != [] && input[0] >= 0x80 && EncodeFrame(f) == Ok([0x80] + input[1..]) {
      FrameRoundTrip(f);
      var canonical := [0x80] + input[1..];
      assert forall n :: HEADER_SIZE <= n <= |input| ==>
               input[HEADER_SIZE..n] == canonical[HEADER_SIZE..n] && input[n..] == canonical[n..];
    }
  }

  // ----- the encoder -----

  /** Packet-size bounds after defaults, as the constructor validates them. */
  datatype Options = Options(minPacketSize: nat, maxPacketSize: nat)

  predicate ValidOptions(o: Options) {
    o.minPacketSize <= o.maxPacketSize <= BUFFER_SIZE
  }

  /** The padding for a chunk, given the random number drawn for it. */
  function PaddingLength(o: Options, chunk: nat, roll: nat): (n: nat) {
    var base := SALT_LENGTH + HEADER_SIZE + chunk;
    var low := if o.minPacketSize < base then base else o.minPacketSize;
    if low > o.maxPacketSize then 0 else low - base + roll % (o.maxPacketSize - low + 1)
  }

  /** A padded datagram is never below the minimum, and above the maximum only if it already was unpadded. */
  lemma {:induction false} PaddedSizeInRange(o: Options, chunk: nat, roll: nat)
    requires ValidOptions(o)
    ensures var size := SALT_LENGTH + HEADER_SIZE + chunk + PaddingLength(o, chunk, roll);
            && o.minPacketSize <= size
            && (size <= o.maxPacketSize <==> SALT_LENGTH + HEADER_SIZE + chunk <= o.maxPacketSize)
    ensures PaddingLength(o, chunk, roll) <= BUFFER_SIZE
  {
  }

  /** Every size from the larger of the unpadded size and the minimum up to the maximum is drawn by some roll. */
  lemma {:induction false} EverySizeIsDrawn(o: Options, chunk: nat, size: nat) returns (roll: nat)
    requires 8 + 5 + chunk <= size && o.minPacketSize <= size <= o.maxPacketSize
    ensures 8 + 5 + chunk + PaddingLength(o, chunk, roll) == size
  {
    var base := SALT_LENGTH + HEADER_SIZE + chunk;
    var low := if o.minPacketSize < base then base else o.minPacketSize;
    roll := size - low;
    SmallResidue(roll, o.maxPacketSize - low + 1);
  }

  lemma {:induction false} SmallResidue(a: nat, b: nat)
    requires a < b
    ensures a % b == a
  {
  }

  /** Where chunk `i` of `total` begins; chunk `total` begins at the end. */
  function ChunkStart(length: nat, total: nat, i: nat): (r: nat)
    requires total > 0 && i <= total
    ensures r <= length
    ensures i < total ==> r == i * (length / total)
    ensures i == total ==> r == length
  {
    if i == total then length
    else
      MulMonotone(i, total, length / total);
      assert length == total * (length / total) + length % total;
      i * (length / total)
  }

  lemma {:induction false} ChunkStartsAscend(length: nat, total: nat, i: nat)
    requires i < total
    ensures ChunkStart(length, total, i) <= ChunkStart(length, total, i + 1)
  {
    MulDistributes(i, 1, length / total);
  }

  function Chunk(packet: Bytes, total: nat, i: nat): (r: Bytes)
    requires i < total
  {
    ChunkStartsAscend(|packet|, total, i);
    packet[ChunkStart(|packet|, total, i)..ChunkStart(|packet|, total, i + 1)]
  }

  function Chunks(packet: Bytes, total: nat): (r: seq<Bytes>)
    ensures |r| == total
  {
    seq(total, i requires 0 <= i < total => Chunk(packet, total, i))
  }

  lemma {:induction false} ChunksPrefix(packet: Bytes, total: nat, n: nat)
    requires 0 < total && n <= total
    ensures Concat(Chunks(packet, total)[..n]) == packet[..ChunkStart(|packet|, total, n)]
    decreases n
  {
    var chunks := Chunks(packet, total);
    if n == 0 {
      assert chunks[..0] == [];
    } else {
      ChunksPrefix(packet, total, n - 1);
      ChunkStartsAscend(|packet|, total, n - 1);
      assert chunks[..n] == chunks[..n - 1] + [chunks[n - 1]];
      ConcatAppend(chunks[..n - 1], [chunks[n - 1]]);
      assert Concat([chunks[n - 1]]) == chunks[n - 1] + Concat([]);
    }
  }

  /** The chunks tile the packet, whatever the count, even when some are empty. */
  lemma {:induction false} ChunksTile(packet: Bytes, total: nat)
    requires total > 0
    ensures Concat(Chunks(packet, total)) == packet
  {
    ChunksPrefix(packet, total, total);
    assert Chunks(packet, total)[..total] == Chunks(packet, total);
  }

  /** All chunks but the last have the same size, and the last has what is left. */
  lemma {:induction false} ChunkSizes(packet: Bytes, total: nat, i: nat)
    requires i < total
    ensures i < total - 1 ==> |Chunk(packet, total, i)| == |packet| / total
    ensures i == total - 1 ==> |Chunk(packet, total, i)| == |packet| / total + |packet| % total
  {
    ChunkStartsAscend(|packet|, total, i);
    MulDistributes(i, 1, |packet| / total);
    MulDistributes(total, -1, |packet| / total);
    assert |packet| == total * (|packet| / total) + |packet| % total;
  }

  /** The random choices behind one encoded packet. */
  datatype Randomness = Randomness(total: Byte, rolls: seq<nat>, noise: seq<Bytes>, salts: seq<Salt>)

  /** One draw per datagram; the padding bytes are as many as the roll asks for. */
  predicate Drawn(o: Options, packet: Bytes, rnd: Randomness) {
    && MIN_FRAGMENT_COUNT <= rnd.total <= MAX_FRAGMENT_COUNT
    && |rnd.rolls| == |rnd.noise| == |rnd.salts| == rnd.total
    && forall i :: 0 <= i < rnd.total ==>
         |rnd.noise[i]| == PaddingLength(o, |Chunk(packet, rnd.total, i)|, rnd.rolls[i])
  }

  function FrameOf(packet: Bytes, messageId: Byte, rnd: Randomness, i: nat): (f: GeckoFrame)
    requires i < rnd.total == |rnd.noise|
  {
    GeckoFrame(messageId, i, rnd.total, rnd.noise[i], Chunk(packet, rnd.total, i))
  }

  /** The masked form of frame `i`. */
  ghost predicate IsDatagramOf(codec: Codec, packet: Bytes, messageId: Byte, rnd: Randomness, i: nat, wire: Bytes)
    requires i < rnd.total == |rnd.noise| == |rnd.salts|
  {
    var encoded := EncodeFrame(FrameOf(packet, messageId, rnd, i));
    encoded.Ok? && wire == Obfuscate(codec, encoded.value, rnd.salts[i])
  }

  /** The sender's message counter: what it becomes and the id it yields. */
  function NextMessageId(counter: nat): (r: (nat, Byte)) {
    var next := (counter + 1) % 0x1_0000_0000;
    (next, next % 256)
  }

  /** The counter after `n` packets. */
  function CounterAfter(counter: nat, n: nat): (r: nat) {
    if n == 0 then counter else NextMessageId(CounterAfter(counter, n - 1)).0
  }

  /** Message ids run through all 256 values, also across the wrap of the 32-bit counter. */
  lemma {:induction false} MessageIdsCycle(counter: nat, n: nat)
    ensures NextMessageId(CounterAfter(counter, n)).1 == (counter + n + 1) % 256
  {
    if n > 0 { MessageIdsCycle(counter, n - 1); }
    var c := CounterAfter(counter, n);
    LowByteOfCounter(c + 1);
    LowByteSteps(c, counter + n);
  }

  lemma {:induction false} LowByteOfCounter(x: nat)
    ensures x % 0x1_0000_0000 % 256 == x % 256
  {
    var q, r := x / 0x1_0000_0000, x % 0x1_0000_0000;
    assert x == 256 * (0x100_0000 * q) + r;
  }

  lemma {:induction false} LowByteSteps(a: nat, b: nat)
    requires a % 256 == b % 256
    ensures (a + 1) % 256 == (b + 1) % 256
  {
  }

  class GeckoEncoder {
    const codec: Codec
    const options: Options
    var nextMessageId: nat

    constructor (codec: Codec, options: Options)
      requires ValidOptions(options)
      ensures this.codec == codec && this.options == options && nextMessageId == 0
    {
      this.codec, this.options, nextMessageId := codec, options, 0;
    }

    /**
     Empty packets produce nothing, short-header packets one masked datagram, long-header packets one masked and
     padded datagram per chunk. Encoding never fails, and padded sizes stay in range whenever that is possible.
     */
    method EncodePacket(packet: Bytes, rnd: Randomness) returns (output: seq<Bytes>)
      requires ValidOptions(options) && Drawn(options, packet, rnd)
      modifies this`nextMessageId
      ensures packet == [] ==> output == []
      ensures packet != [] && packet[0] < 0x80 ==> output == [Obfuscate(codec, packet, rnd.salts[0])]
      ensures packet == [] || packet[0] < 0x80 ==> nextMessageId == old(nextMessageId)
      ensures packet != [] && packet[0] >= 0x80 ==>
                && nextMessageId == NextMessageId(old(nextMessageId)).0
                && |output| == rnd.total
                && (forall i :: 0 <= i < rnd.total ==>
                      IsDatagramOf(codec, packet, NextMessageId(old(nextMessageId)).1, rnd, i, output[i]))
                && (forall i :: 0 <= i < rnd.total ==> DatagramFits(options, packet, rnd.total, i, output[i]))
    {
      hide Chunk, EncodeFrame, Obfuscate, PaddingLength, DatagramFits;
      if packet == [] { return []; }
      if packet[0] < 0x80 { return [Obfuscate(codec, packet, rnd.salts[0])]; }
      var total := rnd.total;
      var (next, messageId) := NextMessageId(nextMessageId);
      nextMessageId := next;
      var chunkSize := |packet| / total;
      output := [];
      for index := 0 to total
        invariant |output| == index && nextMessageId == next
        invariant forall i :: 0 <= i < index ==> IsDatagramOf(codec, packet, messageId, rnd, i, output[i])
      {
        ChunkBounds(packet, total, index);
        var start := index * chunkSize;
        var end := if index == total - 1 then |packet| else start + chunkSize;
        var frame := GeckoFrame(messageId, index, total, rnd.noise[index], packet[start..end]);
        PaddedSizeInRange(options, |frame.payload|, rnd.rolls[index]);
        FrameRoundTrip(frame);
        output := output + [Obfuscate(codec, EncodeFrame(frame).value, rnd.salts[index])];
      }
      forall i | 0 <= i < total
        ensures DatagramFits(options, packet, total, i, output[i])
      {
        DatagramSize(codec, options, packet, messageId, rnd, i, output[i]);
      }
    }
  }

  lemma {:induction false} ChunkBounds(packet: Bytes, total: nat, i: nat)
    requires i < total
    ensures var start := i * (|packet| / total);
            var end := if i == total - 1 then |packet| else start + |packet| / total;
            0 <= start <= end <= |packet| && Chunk(packet, total, i) == packet[start..end]
  {
    ChunkStartsAscend(|packet|, total, i);
    MulDistributes(i, 1, |packet| / total);
  }

  /** Never below the minimum size, and within the maximum exactly when the unpadded datagram is. */
  predicate DatagramFits(o: Options, packet: Bytes, total: nat, i: nat, wire: Bytes)
    requires i < total
  {
    && o.minPacketSize <= |wire|
    && (|wire| <= o.maxPacketSize <==> SALT_LENGTH + HEADER_SIZE + |Chunk(packet, total, i)| <= o.maxPacketSize)
  }

  lemma {:induction false} DatagramSize(
    codec: Codec, o: Options, packet: Bytes, messageId: Byte, rnd: Randomness, i: nat, wire: Bytes)
    requires ValidOptions(o) && Drawn(o, packet, rnd) && i < rnd.total
    requires IsDatagramOf(codec, packet, messageId, rnd, i, wire)
    ensures DatagramFits(o, packet, rnd.total, i, wire)
  {
    hide Chunk, EncodeFrame, PaddingLength;
    FrameRoundTrip(FrameOf(packet, messageId, rnd, i));
    PaddedSizeInRange(o, |Chunk(packet, rnd.total, i)|, rnd.rolls[i]);
  }

  /** What the receiver makes of one wire datagram before any reassembly. */
  datatype Cleartext = Malformed | Whole(packet: Bytes) | Fragment(frame: GeckoFrame)

  function Open(codec: Codec, wire: Bytes): (r: Cleartext) {
    match Deobfuscate(codec, wire)
    case None => Malformed
    case Some(cleartext) =>
      if cleartext[0] < 0x80 then Whole(cleartext)
      else match DecodeFrame(cleartext)
        case Ok(f) => Fragment(f)
        case Err(_) => Malformed
  }

  /** The receiver sees exactly the frame the encoder masked. */
  lemma {:induction false} OpenDatagram(
    codec: Codec, packet: Bytes, messageId: Byte, rnd: Randomness, i: nat, wire: Bytes)
    requires i < rnd.total == |rnd.noise| == |rnd.salts|
    requires IsDatagramOf(codec, packet, messageId, rnd, i, wire)
    ensures Open(codec, wire) == Fragment(FrameOf(packet, messageId, rnd, i))
  {
    hide Obfuscate, Deobfuscate, EncodeFrame, DecodeFrame;
    var f := FrameOf(packet, messageId, rnd, i);
    FrameRoundTrip(f);
    ObfuscateRoundTrip(codec, EncodeFrame(f).value, rnd.salts[i]);
  }

  /** A short-header packet comes back from its single datagram at once. */
  lemma {:induction false} OpenShortHeader(codec: Codec, packet: Bytes, salt: Salt)
    requires packet != [] && packet[0] < 0x80
    ensures Open(codec, Obfuscate(codec, packet, salt)) == Whole(packet)
  {
    hide Obfuscate, Deobfuscate;
    ObfuscateRoundTrip(codec, packet, salt);
  }

  /** Every frame the receiver hands to reassembly has a count and an index in range. */
  lemma {:induction false} OpenedFramesAreValid(codec: Codec, wire: Bytes)
    requires Open(codec, wire).Fragment?
    ensures Encodable(Open(codec, wire).frame)
  {
    hide Deobfuscate;
    DecodeFrameIsFaithful(Deobfuscate(codec, wire).value);
  }

  /** A wire datagram is a whole packet exactly when it is the masked form of a short-header packet. */
  lemma {:induction false} OpensWholeExactlyWhen(codec: Codec, wire: Bytes, packet: Bytes)
    ensures Open(codec, wire) == Whole(packet) <==>
            |wire| > 8 && packet != [] && packet[0] < 0x80 && wire == Obfuscate(codec, packet, wire[..8])
  {
    hide Obfuscate, Deobfuscate, DecodeFrame;
    if Open(codec, wire) == Whole(packet) {
      Longer(codec, wire);
      DeobfuscateRoundTrip(codec, wire);
    }
    if |wire| > 8 && packet != [] && packet[0] < 0x80 && wire == Obfuscate(codec, packet, wire[..8]) {
      ObfuscateRoundTrip(codec, packet, wire[..8]);
    }
  }

  lemma {:induction false} Longer(codec: Codec, wire: Bytes)
    requires Deobfuscate(codec, wire).Some?
    ensures |wire| > 8 && |Deobfuscate(codec, wire).value| == |wire| - 8
  {
  }

  /** And a frame exactly when it is the masked form of that frame, the unused bits of its first byte aside. */
  lemma {:induction false} OpensFrameExactlyWhen(codec: Codec, wire: Bytes, f: GeckoFrame)
    ensures Open(codec, wire) == Fragment(f) <==>
            && |wire| > 8 && EncodeFrame(f).Ok?
            && exists first: Byte :: first >= 0x80 && wire == Obfuscate(codec, Flagged(first, f), wire[..8])
  {
    hide Obfuscate, Deobfuscate, DecodeFrame, EncodeFrame;
    if Open(codec, wire) == Fragment(f) {
      Longer(codec, wire);
      var cleartext := Deobfuscate(codec, wire).value;
      DeobfuscateRoundTrip(codec, wire);
      DecodeFrameExactlyWhen(cleartext, f);
      assert Flagged(cleartext[0], f) == cleartext;
      var first: Byte := cleartext[0];
      assert first >= 0x80 && wire == Obfuscate(codec, Flagged(first, f), wire[..8]);
    }
    if |wire| > 8 && EncodeFrame(f).Ok? {
      forall first: Byte | first >= 0x80 && wire == Obfuscate(codec, Flagged(first, f), wire[..8])
        ensures Open(codec, wire) == Fragment(f)
      {
        var cleartext := Flagged(first, f);
        FrameRoundTrip(f);
        assert cleartext != [];
        ObfuscateRoundTrip(codec, cleartext, wire[..8]);
        DecodeFrameExactlyWhen(cleartext, f);
        assert [0x80] + cleartext[1..] == EncodeFrame(f).value;
      }
    }
  }

  /** The frame's bytes with another first byte. */
  function Flagged(first: Byte, f: GeckoFrame): (r: Bytes) {
    match EncodeFrame(f)
    case Ok(bytes) => if bytes == [] then [] else [first] + bytes[1..]
    case Err(_) => []
  }
}
