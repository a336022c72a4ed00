/**
 Variable-length integers of RFC 9000, section 16: the protocol crate's encoder and loop decoder, and the sniffer's
 fold decoder.
 */
module Varint {
  import opened Bytes

  const MAX_VARINT: nat := 0x3fff_ffff_ffff_ffff

  datatype ProtocolError =
    | UnexpectedEnd
    | VarintTooLarge(value: nat)
    | InvalidFrameType(value: nat)
    | InvalidAddressLength(value: nat)
    | InvalidMessageLength(value: nat)
    | InvalidPaddingLength(value: nat)
    | TooManyFragments(count: nat)

  datatype Result<+T> = Ok(value: T) | Err(error: ProtocolError) {
    predicate IsFailure() { Err? }

    function PropagateFailure<U>(): Result<U>
      requires Err?
    {
      Err(error)
    }

    function Extract(): T
      requires Ok?
    {
      value
    }
  }

  function VarintLen(value: nat): (n: nat) {
    if value <= 63 then 1
    else if value <= 16383 then 2
    else if value <= 1073741823 then 4
    else 8
  }

  /** The bytes the encoder appends; or-ing the length tag into a value too small to reach it is an addition. */
  function EncodeVarint(value: nat): (r: Result<Bytes>) {
    if value > MAX_VARINT then Err(VarintTooLarge(value))
    else match VarintLen(value)
      case 1 => Ok([value])
      case 2 => Ok(BigEndian(value + 0x4000, 2))
      case 4 => Ok(BigEndian(value + 0x8000_0000, 4))
      case _ => Ok(BigEndian(value + 0xc000_0000_0000_0000, 8))
  }

  /** The encoded length named by the two top bits of the first byte. */
  function TaggedLength(first: Byte): (n: nat)
    ensures n in {1, 2, 4, 8}
  {
    if first < 64 then 1 else if first < 128 then 2 else if first < 192 then 4 else 8
  }

  /** The sniffer's decoder: the value and how many bytes it took. */
  function ReadVarint(bytes: Bytes): (r: Option<(nat, nat)>) {
    if bytes == [] || |bytes| < TaggedLength(bytes[0]) then None
    else
      var n := TaggedLength(bytes[0]);
      Some((FromBigEndian([bytes[0] % 64] + bytes[1..n]), n))
  }

  /** The protocol crate's decoder as a value: what it returns and the input it leaves. */
  function DecodeVarint(input: Bytes): (r: Result<(nat, Bytes)>) {
    match ReadVarint(input)
    case None => Err(UnexpectedEnd)
    case Some((value, n)) => Ok((value, input[n..]))
  }

  /** The loop that shifts bytes in one at a time agrees with the fold on every input, truncated ones included. */
  method DecodeVarintLoop(input: Bytes) returns (r: Result<(nat, Bytes)>)
    ensures r == DecodeVarint(input)
  {
    if input == [] { return Err(UnexpectedEnd); }
    var length := TaggedLength(input[0]);
    if |input| < length { return Err(UnexpectedEnd); }
    var value: nat := input[0] % 64;
    ghost var masked := [input[0] % 64] + input[1..length];
    assert masked[..1] == [value];
    for i := 1 to length
      invariant value == FromBigEndian(masked[..i])
    {
      assert masked[..i + 1][..i] == masked[..i] && masked[i] == input[1..length][i - 1] == input[i];
      value := value * 256 + input[i];
    }
    assert masked[..length] == masked;
    return Ok((value, input[length..]));
  }

  /** `bytes` is exactly one encoding of `value`, shortest or not. */
  predicate IsVarint(bytes: Bytes, value: nat) {
    ReadVarint(bytes) == Some((value, |bytes|))
  }

  /** Decoding reads no further than its own bytes. */
  lemma {:induction false} ReadIgnoresSuffix(bytes: Bytes, value: nat, rest: Bytes)
    requires IsVarint(bytes, value)
    ensures bytes != [] && ReadVarint(bytes + rest) == Some((value, |bytes|))
    ensures (bytes + rest)[|bytes|..] == rest
    ensures DecodeVarint(bytes + rest) == Ok((value, rest))
  {
    assert (bytes + rest)[1..|bytes|] == bytes[1..|bytes|];
  }

  /** And whatever it accepts begins with one encoding of the value it returns. */
  lemma {:induction false} AcceptedPrefix(input: Bytes) returns (code: Bytes)
    requires DecodeVarint(input).Ok?
    ensures IsVarint(code, DecodeVarint(input).value.0) && input == code + DecodeVarint(input).value.1
  {
    var (_, n) := ReadVarint(input).value;
    code := input[..n];
    assert code[1..n] == input[1..n];
  }

  lemma {:induction false} Pow256Values()
    ensures Pow256(0) == 1 && Pow256(1) == 0x100 && Pow256(3) == 0x100_0000
    ensures Pow256(7) == 0x100_0000_0000_0000
  {
    assert Pow256(3) == 256 * Pow256(2);
    assert Pow256(7) == 256 * Pow256(6) == 256 * 256 * Pow256(5) == 256 * 256 * 256 * Pow256(4);
  }

  /** Splitting a number below `64 * place` at its place value. */
  lemma {:induction false} SplitAtPlace(value: nat, tag: nat, place: nat) returns (high: Byte, low: nat)
    requires place > 0 && tag < 4 && value < 64 * place
    ensures high < 64 && low < place && value == high * place + low
    ensures value + 64 * tag * place == (high + 64 * tag) * place + low
  {
    var q, r := value / place, value % place;
    assert value == q * place + r;
    MulCancels(q, 64, place);
    high, low := q, r;
    MulDistributes(high, 64 * tag, place);
  }

  /** Tagging the leading byte of an `n`-byte big-endian number leaves the number readable under the mask. */
  lemma {:induction false} TaggedBigEndian(value: nat, tag: nat, n: nat)
    requires n > 0 && tag < 4 && value < 64 * Pow256(n - 1)
    ensures var e := BigEndian(value + 64 * tag * Pow256(n - 1), n);
            e[0] / 64 == tag && FromBigEndian([e[0] % 64] + e[1..]) == value
  {
    hide BigEndian, FromBigEndian, Pow256;
    var high, low := SplitAtPlace(value, tag, Pow256(n - 1));
    var first: Byte := high + 64 * tag;
    assert first / 64 == tag && first % 64 == high;
    BigEndianLead(first, low, n);
    FromBigEndianLead(high, BigEndian(low, n - 1));
    BigEndianRoundTrip(low, n - 1);
  }

  /** Every encodable value decodes to itself, in exactly `VarintLen` bytes. */
  lemma {:induction false} VarintRoundTrip(value: nat)
    requires value <= MAX_VARINT
    ensures EncodeVarint(value).Ok? && |EncodeVarint(value).value| == VarintLen(value)
    ensures IsVarint(EncodeVarint(value).value, value)
  {
    Pow256Values();
    var n := VarintLen(value);
    var e := EncodeVarint(value).value;
    if n == 1 {
      assert [e[0] % 64] + e[1..1] == e;
      assert FromBigEndian(e[..0]) == 0;
    } else {
      var tag := if n == 2 then 1 else if n == 4 then 2 else 3;
      TaggedBigEndian(value, tag, n);
      assert e == BigEndian(value + 64 * tag * Pow256(n - 1), n) && e[1..n] == e[1..];
    }
  }

  /** The encoder's choice is the shortest: no decodable string of fewer bytes carries the value. */
  lemma {:induction false} EncodingIsShortest(bytes: Bytes, value: nat)
    requires IsVarint(bytes, value)
    ensures value <= MAX_VARINT && VarintLen(value) <= |bytes|
  {
    Pow256Values();
    var low := bytes[1..];
    assert bytes[1..|bytes|] == low;
    FromBigEndianLead(bytes[0] % 64, low);
    FromBigEndianRoundTrip(low);
    assert (bytes[0] % 64) * Pow256(|low|) <= 63 * Pow256(|low|);
    assert value < 64 * Pow256(|low|);
  }

  /** Two encodings of one value that have the same length are the same bytes. */
  lemma {:induction false} VarintUniquePerLength(a: Bytes, b: Bytes, value: nat)
    requires IsVarint(a, value) && IsVarint(b, value) && |a| == |b|
    ensures a == b
  {
    SameMasked([a[0] % 64] + a[1..|a|], [b[0] % 64] + b[1..|b|]);
    assert a[0] / 64 == b[0] / 64;
    assert ([a[0] % 64] + a[1..|a|])[1..] == a[1..] && ([b[0] % 64] + b[1..|b|])[1..] == b[1..];
  }

  lemma {:induction false} SameMasked(x: Bytes, y: Bytes)
    requires |x| == |y| && FromBigEndian(x) == FromBigEndian(y)
    ensures x == y
  {
    FromBigEndianRoundTrip(x);
    FromBigEndianRoundTrip(y);
  }

  /** The two top bits of an encoding of this length. */
  function TagOf(n: nat): (tag: nat)
    ensures tag < 4
  {
    if n == 1 then 0 else if n == 2 then 1 else if n == 4 then 2 else 3
  }

  /** Every length that has room for a value encodes it, shortest or not. */
  lemma {:induction false} EveryLengthIsRead(value: nat, n: nat)
    requires n in {1, 2, 4, 8} && value < 64 * Pow256(n - 1)
    ensures IsVarint(BigEndian(value + 64 * TagOf(n) * Pow256(n - 1), n), value)
  {
    hide BigEndian, Pow256, FromBigEndian;
    TaggedBigEndian(value, TagOf(n), n);
    var code := BigEndian(value + 64 * TagOf(n) * Pow256(n - 1), n);
    assert TaggedLength(code[0]) == n;
    assert code[1..n] == code[1..];
  }

  /** Decoding fails exactly on input shorter than its first byte announces, and encoding exactly beyond 62 bits. */
  lemma {:induction false} FailsExactlyWhen(input: Bytes, value: nat)
    ensures DecodeVarint(input).Err? <==>
            || input == []
            || (64 <= input[0] < 128 && |input| < 2)
            || (128 <= input[0] < 192 && |input| < 4)
            || (192 <= input[0] && |input| < 8)
    ensures DecodeVarint(input).Err? ==> DecodeVarint(input).error == UnexpectedEnd
    ensures EncodeVarint(value).Err? <==> value >= 0x4000_0000_0000_0000
    ensures EncodeVarint(value).Err? ==> EncodeVarint(value).error == VarintTooLarge(value)
  {
    hide FromBigEndian, BigEndian;
  }
}
