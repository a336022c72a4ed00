/**
 The Hysteria stream and datagram messages. Text is its UTF-8 bytes; decoding a byte string that is not UTF-8
 is outside the model.
 */
module Proxy {
  import opened Bytes
  import opened Varint

  const FRAME_TYPE_TCP_REQUEST: nat := 0x401
  const MAX_ADDRESS_LENGTH: nat := 2048
  const MAX_MESSAGE_LENGTH: nat := 2048
  const MAX_PADDING_LENGTH: nat := 4096
  const MAX_UDP_SIZE: nat := 4096

  datatype TcpRequest = TcpRequest(address: Bytes)

  datatype TcpResponse = TcpResponse(ok: bool, message: Bytes)

  datatype UdpMessage = UdpMessage(
    sessionId: U32, packetId: U16, fragmentId: Byte, fragmentCount: Byte, address: Bytes, data: Bytes)
  {
    function HeaderSize(): nat {
      8 + VarintLen(|address|) + |address|
    }

    function EncodedSize(): nat {
      HeaderSize() + |data|
    }
  }

  function Take(input: Bytes, n: nat): (r: Result<(Bytes, Bytes)>) {
    if |input| < n then Err(UnexpectedEnd) else Ok((input[..n], input[n..]))
  }

  function CheckWriteLengths(address: nat, padding: nat, message: nat): (r: Result<()>) {
    if address > MAX_ADDRESS_LENGTH then Err(InvalidAddressLength(address))
    else if padding > MAX_PADDING_LENGTH then Err(InvalidPaddingLength(padding))
    else if message > MAX_MESSAGE_LENGTH then Err(InvalidMessageLength(message))
    else Ok(())
  }

  function EncodeRequest(request: TcpRequest, padding: Bytes): (r: Result<Bytes>) {
    var _ :- CheckWriteLengths(|request.address|, |padding|, 0);
    var kind :- EncodeVarint(FRAME_TYPE_TCP_REQUEST);
    var addressLength :- EncodeVarint(|request.address|);
    var paddingLength :- EncodeVarint(|padding|);
    Ok(kind + (addressLength + (request.address + (paddingLength + padding))))
  }

  function DecodeRequest(input: Bytes): (r: Result<(TcpRequest, Bytes)>) {
    var (kind, rest) :- DecodeVarint(input);
    if kind != FRAME_TYPE_TCP_REQUEST then Err(InvalidFrameType(kind)) else DecodeRequestBody(rest)
  }

  function DecodeRequestBody(input: Bytes): (r: Result<(TcpRequest, Bytes)>) {
    var (addressLength, rest) :- DecodeVarint(input);
    if addressLength == 0 || addressLength > MAX_ADDRESS_LENGTH then Err(InvalidAddressLength(addressLength))
    else
      var (address, rest) :- Take(rest, addressLength);
      var rest :- SkipPadding(rest);
      Ok((TcpRequest(address), rest))
  }

  function SkipPadding(input: Bytes): (r: Result<Bytes>) {
    var (paddingLength, rest) :- DecodeVarint(input);
    if paddingLength > MAX_PADDING_LENGTH then Err(InvalidPaddingLength(paddingLength))
    else
      var (_, rest) :- Take(rest, paddingLength);
      Ok(rest)
  }

  function EncodeResponse(response: TcpResponse, padding: Bytes): (r: Result<Bytes>) {
    var _ :- CheckWriteLengths(0, |padding|, |response.message|);
    var messageLength :- EncodeVarint(|response.message|);
    var paddingLength :- EncodeVarint(|padding|);
    Ok([if response.ok then 0 else 1] + (messageLength + (response.message + (paddingLength + padding))))
  }

  function DecodeResponse(input: Bytes): (r: Result<(TcpResponse, Bytes)>) {
    var (status, rest) :- Take(input, 1);
    var (messageLength, rest) :- DecodeVarint(rest);
    if messageLength > MAX_MESSAGE_LENGTH then Err(InvalidMessageLength(messageLength))
    else
      var (message, rest) :- Take(rest, messageLength);
      var rest :- SkipPadding(rest);
      Ok((TcpResponse(status[0] == 0, message), rest))
  }

  function FixedHeader(m: UdpMessage): (r: Bytes)
    ensures |r| == 8
  {
    BigEndian(m.sessionId, 4) + BigEndian(m.packetId, 2) + [m.fragmentId, m.fragmentCount]
  }

  function EncodeUdp(m: UdpMessage): (r: Result<Bytes>) {
    if |m.address| > MAX_MESSAGE_LENGTH then Err(InvalidAddressLength(|m.address|))
    else
      var addressLength :- EncodeVarint(|m.address|);
      Ok(FixedHeader(m) + (addressLength + (m.address + m.data)))
  }

  function DecodeUdp(input: Bytes): (r: Result<UdpMessage>) {
    var (fixed, rest) :- Take(input, 8);
    var (addressLength, rest) :- DecodeVarint(rest);
    if addressLength == 0 || addressLength > MAX_MESSAGE_LENGTH then Err(InvalidAddressLength(addressLength))
    else if |rest| <= addressLength then Err(InvalidMessageLength(|rest|))
    else
      FixedFieldsFit(fixed);
      Ok(UdpMessage(FromBigEndian(fixed[..4]), FromBigEndian(fixed[4..6]), fixed[6], fixed[7],
                    rest[..addressLength], rest[addressLength..]))
  }

  lemma {:induction false} FixedFieldsFit(fixed: Bytes)
    requires |fixed| == 8
    ensures FromBigEndian(fixed[..4]) < 0x1_0000_0000 && FromBigEndian(fixed[4..6]) < 0x1_0000
    ensures BigEndian(FromBigEndian(fixed[..4]), 4) == fixed[..4]
    ensures BigEndian(FromBigEndian(fixed[4..6]), 2) == fixed[4..6]
  {
    FromBigEndianRoundTrip(fixed[..4]);
    FromBigEndianRoundTrip(fixed[4..6]);
    assert Pow256(4) == 256 * 256 * Pow256(2);
  }

  // ----- round trips -----

  lemma {:induction false} SkipPaddingRoundTrip(padding: Bytes, rest: Bytes)
    requires |padding| <= MAX_PADDING_LENGTH
    ensures EncodeVarint(|padding|).Ok?
    ensures SkipPadding(EncodeVarint(|padding|).value + (padding + rest)) == Ok(rest)
  {
    VarintRoundTrip(|padding|);
    ReadIgnoresSuffix(EncodeVarint(|padding|).value, |padding|, padding + rest);
  }

  lemma {:induction false} Regroup(a: Bytes, b: Bytes, c: Bytes, d: Bytes, e: Bytes, rest: Bytes)
    ensures a + (b + (c + (d + e))) + rest == a + (b + (c + (d + (e + rest))))
  {
  }

  lemma {:induction false} TakeFront(front: Bytes, rest: Bytes)
    ensures Take(front + rest, |front|) == Ok((front, rest))
  {
  }

  lemma {:induction false} RequestBodyRoundTrip(address: Bytes, padding: Bytes, rest: Bytes)
    requires |address| <= MAX_ADDRESS_LENGTH && |padding| <= MAX_PADDING_LENGTH
    ensures EncodeVarint(|address|).Ok? && EncodeVarint(|padding|).Ok?
    ensures DecodeRequestBody(
              EncodeVarint(|address|).value + (address + (EncodeVarint(|padding|).value + (padding + rest)))) ==
            if address == [] then Err(InvalidAddressLength(0)) else Ok((TcpRequest(address), rest))
  {
    VarintRoundTrip(|address|);
    SkipPaddingRoundTrip(padding, rest);
    var tail := EncodeVarint(|padding|).value + (padding + rest);
    ReadIgnoresSuffix(EncodeVarint(|address|).value, |address|, address + tail);
    TakeFront(address, tail);
  }

  /**
   A request is writable exactly when both parts are within their limits, and reading it back from the front of
   any stream returns it and leaves the stream, exactly when its address is not empty.
   */
  lemma {:induction false} RequestRoundTrip(request: TcpRequest, padding: Bytes, rest: Bytes)
    ensures EncodeRequest(request, padding).Ok? <==>
            |request.address| <= MAX_ADDRESS_LENGTH && |padding| <= MAX_PADDING_LENGTH
    ensures EncodeRequest(request, padding).Ok? ==>
              DecodeRequest(EncodeRequest(request, padding).value + rest) ==
              if request.address == [] then Err(InvalidAddressLength(0)) else Ok((request, rest))
  {
    if CheckWriteLengths(|request.address|, |padding|, 0).Ok? {
      var n := |request.address|;
      RequestBodyRoundTrip(request.address, padding, rest);
      VarintRoundTrip(FRAME_TYPE_TCP_REQUEST);
      var kind := EncodeVarint(FRAME_TYPE_TCP_REQUEST).value;
      var length, pad := EncodeVarint(n).value, EncodeVarint(|padding|).value;
      ReadIgnoresSuffix(kind, FRAME_TYPE_TCP_REQUEST, length + (request.address + (pad + (padding + rest))));
      Regroup(kind, length, request.address, pad, padding, rest);
    }
  }

  lemma {:induction false} ResponseBodyRoundTrip(status: Byte, message: Bytes, padding: Bytes, rest: Bytes)
    requires |message| <= MAX_MESSAGE_LENGTH && |padding| <= MAX_PADDING_LENGTH
    ensures EncodeVarint(|message|).Ok? && EncodeVarint(|padding|).Ok?
    ensures var length, pad := EncodeVarint(|message|).value, EncodeVarint(|padding|).value;
            DecodeResponse([status] + (length + (message + (pad + (padding + rest))))) ==
            Ok((TcpResponse(status == 0, message), rest))
  {
    VarintRoundTrip(|message|);
    SkipPaddingRoundTrip(padding, rest);
    var tail := EncodeVarint(|padding|).value + (padding + rest);
    ReadIgnoresSuffix(EncodeVarint(|message|).value, |message|, message + tail);
    TakeFront([status], EncodeVarint(|message|).value + (message + tail));
    TakeFront(message, tail);
  }

  /** As for requests, but an empty message is allowed both ways. */
  lemma {:induction false} ResponseRoundTrip(response: TcpResponse, padding: Bytes, rest: Bytes)
    ensures EncodeResponse(response, padding).Ok? <==>
            |response.message| <= MAX_MESSAGE_LENGTH && |padding| <= MAX_PADDING_LENGTH
    ensures EncodeResponse(response, padding).Ok? ==>
              DecodeResponse(EncodeResponse(response, padding).value + rest) == Ok((response, rest))
  {
    if CheckWriteLengths(0, |padding|, |response.message|).Ok? {
      var status := if response.ok then 0 else 1;
      ResponseBodyRoundTrip(status, response.message, padding, rest);
      var length, pad := EncodeVarint(|response.message|).value, EncodeVarint(|padding|).value;
      Regroup([status], length, response.message, pad, padding, rest);
    }
  }

  // ----- exactly what the stream decoders accept -----

  /** A padding field followed by `rest`. */
  ghost predicate IsPadding(input: Bytes, rest: Bytes) {
    exists code: Bytes, padding: Bytes ::
      IsVarint(code, |padding|) && |padding| <= MAX_PADDING_LENGTH && input == code + (padding + rest)
  }

  lemma {:induction false} SkipPaddingExactlyWhen(input: Bytes, rest: Bytes)
    ensures SkipPadding(input) == Ok(rest) <==> IsPadding(input, rest)
  {
    hide IsVarint, DecodeVarint;
    if SkipPadding(input) == Ok(rest) {
      var (n, after) := DecodeVarint(input).value;
      var code := AcceptedPrefix(input);
      assert after == after[..n] + rest && IsVarint(code, |after[..n]|);
    }
    if IsPadding(input, rest) {
      var code: Bytes, padding: Bytes :|
        IsVarint(code, |padding|) && |padding| <= MAX_PADDING_LENGTH && input == code + (padding + rest);
      ReadIgnoresSuffix(code, |padding|, padding + rest);
      TakeFront(padding, rest);
    }
  }

  /** A length-prefixed text, then padding, then `rest`. */
  ghost predicate IsTextAndPadding(input: Bytes, text: Bytes, rest: Bytes) {
    exists code: Bytes, tail: Bytes :: IsVarint(code, |text|) && IsPadding(tail, rest) && input == code + (text + tail)
  }

  /** The request decoder accepts exactly the length-prefixed addresses of 1 to 2048 bytes with lawful padding. */
  lemma {:induction false} RequestBodyExactlyWhen(input: Bytes, address: Bytes, rest: Bytes)
    ensures DecodeRequestBody(input) == Ok((TcpRequest(address), rest)) <==>
            1 <= |address| <= MAX_ADDRESS_LENGTH && IsTextAndPadding(input, address, rest)
  {
    hide IsVarint, DecodeVarint, SkipPadding, IsPadding;
    if DecodeRequestBody(input) == Ok((TcpRequest(address), rest)) {
      var (n, after) := DecodeVarint(input).value;
      var code := AcceptedPrefix(input);
      SkipPaddingExactlyWhen(after[n..], rest);
      assert after == address + after[n..] && IsVarint(code, |address|);
    }
    if 1 <= |address| <= MAX_ADDRESS_LENGTH && IsTextAndPadding(input, address, rest) {
      var code: Bytes, tail: Bytes :|
        IsVarint(code, |address|) && IsPadding(tail, rest) && input == code + (address + tail);
      ReadIgnoresSuffix(code, |address|, address + tail);
      TakeFront(address, tail);
      SkipPaddingExactlyWhen(tail, rest);
    }
  }

  ghost predicate IsRequest(input: Bytes, request: TcpRequest, rest: Bytes) {
    && 1 <= |request.address| <= MAX_ADDRESS_LENGTH
    && exists kind: Bytes, body: Bytes ::
         IsVarint(kind, FRAME_TYPE_TCP_REQUEST) && IsTextAndPadding(body, request.address, rest) && input == kind + body
  }

  lemma {:induction false} RequestExactlyWhen(input: Bytes, request: TcpRequest, rest: Bytes)
    ensures DecodeRequest(input) == Ok((request, rest)) <==> IsRequest(input, request, rest)
  {
    hide IsVarint, DecodeVarint, DecodeRequestBody, IsTextAndPadding;
    if DecodeRequest(input) == Ok((request, rest)) {
      var kind := AcceptedPrefix(input);
      RequestBodyExactlyWhen(DecodeVarint(input).value.1, request.address, rest);
    }
    if IsRequest(input, request, rest) {
      var kind: Bytes, body: Bytes :|
        IsVarint(kind, FRAME_TYPE_TCP_REQUEST) && IsTextAndPadding(body, request.address, rest) && input == kind + body;
      ReadIgnoresSuffix(kind, FRAME_TYPE_TCP_REQUEST, body);
      RequestBodyExactlyWhen(body, request.address, rest);
    }
  }

  ghost predicate IsResponse(input: Bytes, response: TcpResponse, rest: Bytes) {
    && |response.message| <= MAX_MESSAGE_LENGTH
    && input != [] && response.ok == (input[0] == 0)
    && IsTextAndPadding(input[1..], response.message, rest)
  }

  /** The response decoder: any status byte, zero meaning success, then a message of up to 2048 bytes and padding. */
  lemma {:induction false} ResponseExactlyWhen(input: Bytes, response: TcpResponse, rest: Bytes)
    ensures DecodeResponse(input) == Ok((response, rest)) <==> IsResponse(input, response, rest)
  {
    hide IsVarint, DecodeVarint, SkipPadding, IsPadding;
    var message := response.message;
    if DecodeResponse(input) == Ok((response, rest)) {
      var (n, after) := DecodeVarint(input[1..]).value;
      var code := AcceptedPrefix(input[1..]);
      SkipPaddingExactlyWhen(after[n..], rest);
      assert after == message + after[n..] && IsVarint(code, |message|);
    }
    if IsResponse(input, response, rest) {
      var code: Bytes, tail: Bytes :|
        IsVarint(code, |message|) && IsPadding(tail, rest) && input[1..] == code + (message + tail);
      ReadIgnoresSuffix(code, |message|, message + tail);
      TakeFront(message, tail);
      SkipPaddingExactlyWhen(tail, rest);
    }
  }

  // ----- datagrams -----

  lemma {:induction false} FixedHeaderRoundTrip(m: UdpMessage)
    ensures FromBigEndian(FixedHeader(m)[..4]) == m.sessionId
    ensures FromBigEndian(FixedHeader(m)[4..6]) == m.packetId
    ensures FixedHeader(m)[6] == m.fragmentId && FixedHeader(m)[7] == m.fragmentCount
  {
    assert Pow256(4) == 256 * 256 * Pow256(2) && Pow256(2) == 0x1_0000;
    BigEndianRoundTrip(m.sessionId, 4);
    BigEndianRoundTrip(m.packetId, 2);
    assert FixedHeader(m)[..4] == BigEndian(m.sessionId, 4);
    assert FixedHeader(m)[4..6] == BigEndian(m.packetId, 2);
  }

  /**
   A datagram is writable exactly when its address is within the limit, takes exactly `EncodedSize` bytes, and
   reads back as itself exactly when neither its address nor its data is empty.
   */
  lemma {:induction false} UdpRoundTrip(m: UdpMessage)
    ensures EncodeUdp(m).Ok? <==> |m.address| <= MAX_MESSAGE_LENGTH
    ensures EncodeUdp(m).Ok? ==> |EncodeUdp(m).value| == m.EncodedSize()
    ensures EncodeUdp(m).Ok? ==>
              DecodeUdp(EncodeUdp(m).value) ==
              if m.address == [] then Err(InvalidAddressLength(0))
              else if m.data == [] then Err(InvalidMessageLength(|m.address|))
              else Ok(m)
  {
    if |m.address| <= MAX_MESSAGE_LENGTH {
      var n := |m.address|;
      VarintRoundTrip(n);
      FixedHeaderRoundTrip(m);
      var length := EncodeVarint(n).value;
      var body := m.address + m.data;
      ReadIgnoresSuffix(length, n, body);
      assert Take(FixedHeader(m) + (length + body), 8) == Ok((FixedHeader(m), length + body));
      assert body[..n] == m.address && body[n..] == m.data;
    }
  }

  lemma {:induction false} FixedHeaderIs(m: UdpMessage, fixed: Bytes)
    requires |fixed| == 8 && m.sessionId == FromBigEndian(fixed[..4]) && m.packetId == FromBigEndian(fixed[4..6])
    requires m.fragmentId == fixed[6] && m.fragmentCount == fixed[7]
    ensures FixedHeader(m) == fixed
  {
    FixedFieldsFit(fixed);
  }

  ghost predicate IsUdp(input: Bytes, m: UdpMessage) {
    && 1 <= |m.address| <= MAX_MESSAGE_LENGTH && m.data != []
    && exists code: Bytes :: IsVarint(code, |m.address|) && input == FixedHeader(m) + (code + (m.address + m.data))
  }

  /** The datagram decoder accepts exactly the fixed fields, a length-prefixed address within limits, and some data. */
  lemma {:induction false} UdpExactlyWhen(input: Bytes, m: UdpMessage)
    ensures DecodeUdp(input) == Ok(m) <==> IsUdp(input, m)
  {
    hide IsVarint, DecodeVarint, FixedHeader;
    if DecodeUdp(input) == Ok(m) {
      var fixed, rest := input[..8], input[8..];
      var (n, after) := DecodeVarint(rest).value;
      var code := AcceptedPrefix(rest);
      assert n == |m.address| && after == m.address + m.data;
      FixedHeaderIs(m, fixed);
      assert input == fixed + rest;
    }
    if IsUdp(input, m) {
      var code: Bytes :| IsVarint(code, |m.address|) && input == FixedHeader(m) + (code + (m.address + m.data));
      var body := m.address + m.data;
      TakeFront(FixedHeader(m), code + body);
      ReadIgnoresSuffix(code, |m.address|, body);
      FixedHeaderRoundTrip(m);
      assert body[..|m.address|] == m.address && body[|m.address|..] == m.data;
    }
  }

  /**
   The other direction: an accepted datagram is the encoding of what was decoded, byte for byte, exactly when it
   is no longer than that encoding; otherwise only its address-length varint was not the shortest.
   */
  lemma {:induction false} UdpDecodeIsFaithful(input: Bytes)
    requires DecodeUdp(input).Ok?
    ensures var m := DecodeUdp(input).value;
            && m.address != [] && m.data != [] && EncodeUdp(m).Ok?
            && m.EncodedSize() <= |input|
            && (EncodeUdp(m).value == input <==> |input| == m.EncodedSize())
  {
    hide IsVarint, DecodeUdp, FixedHeader, EncodeVarint, VarintLen;
    var m := DecodeUdp(input).value;
    var n := |m.address|;
    UdpExactlyWhen(input, m);
    var code: Bytes :| IsVarint(code, n) && input == FixedHeader(m) + (code + (m.address + m.data));
    EncodingIsShortest(code, n);
    UdpRoundTrip(m);
    VarintRoundTrip(n);
    if |input| == m.EncodedSize() { VarintUniquePerLength(code, EncodeVarint(n).value, n); }
  }

  // ----- wire bytes and errors -----

  /** The eight fixed bytes of a datagram, and the status byte of a response. */
  lemma {:induction false} FixedBytes(m: UdpMessage, response: TcpResponse, padding: Bytes)
    ensures EncodeUdp(m).Ok? ==>
              EncodeUdp(m).value[..8] ==
              [m.sessionId / 0x100_0000, m.sessionId / 0x1_0000 % 256, m.sessionId / 256 % 256, m.sessionId % 256,
               m.packetId / 256, m.packetId % 256, m.fragmentId, m.fragmentCount]
    ensures EncodeResponse(response, padding).Ok? ==>
              |EncodeResponse(response, padding).value| > 0 &&
              EncodeResponse(response, padding).value[0] == if response.ok then 0 else 1
  {
    hide BigEndian, EncodeVarint;
    BigEndianDigits(m.sessionId);
    BigEndianDigits(m.packetId);
    if EncodeUdp(m).Ok? { assert EncodeUdp(m).value[..8] == FixedHeader(m); }
  }

  /** The errors of the request decoders: wrong frame type, address length out of range, input cut short. */
  lemma {:induction false} RequestErrors(code: Bytes, n: nat, rest: Bytes)
    requires IsVarint(code, n)
    ensures n != 0x401 ==> DecodeRequest(code + rest) == Err(InvalidFrameType(n))
    ensures n == 0 || n > 2048 ==> DecodeRequestBody(code + rest) == Err(InvalidAddressLength(n))
    ensures 1 <= n <= 2048 && |rest| < n ==> DecodeRequestBody(code + rest) == Err(UnexpectedEnd)
    ensures 1 <= n <= 2048 && |rest| >= n && SkipPadding(rest[n..]).Err? ==>
              DecodeRequestBody(code + rest) == Err(SkipPadding(rest[n..]).error)
    ensures n > 4096 ==> SkipPadding(code + rest) == Err(InvalidPaddingLength(n))
    ensures n <= 4096 && |rest| < n ==> SkipPadding(code + rest) == Err(UnexpectedEnd)
  {
    hide IsVarint, DecodeVarint;
    ReadIgnoresSuffix(code, n, rest);
  }

  /** The errors of the response and datagram decoders. */
  lemma {:induction false} MessageErrors(status: Byte, fixed: Bytes, code: Bytes, n: nat, rest: Bytes)
    requires IsVarint(code, n) && |fixed| == 8
    ensures n > 2048 ==> DecodeResponse([status] + (code + rest)) == Err(InvalidMessageLength(n))
    ensures n <= 2048 && |rest| < n ==> DecodeResponse([status] + (code + rest)) == Err(UnexpectedEnd)
    ensures n <= 2048 && |rest| >= n && SkipPadding(rest[n..]).Err? ==>
              DecodeResponse([status] + (code + rest)) == Err(SkipPadding(rest[n..]).error)
    ensures n == 0 || n > 2048 ==> DecodeUdp(fixed + (code + rest)) == Err(InvalidAddressLength(n))
    ensures 1 <= n <= 2048 && |rest| <= n ==> DecodeUdp(fixed + (code + rest)) == Err(InvalidMessageLength(|rest|))
  {
    hide IsVarint, DecodeVarint, SkipPadding;
    ReadIgnoresSuffix(code, n, rest);
    TakeFront([status], code + rest);
    TakeFront(fixed, code + rest);
  }

  /** Input too short for a length is refused as such, and so are lengths over the limits when writing. */
  lemma {:induction false} ShortAndLong(input: Bytes, address: Bytes, padding: Bytes, message: Bytes, m: UdpMessage)
    ensures DecodeVarint(input).Err? ==>
              && DecodeRequest(input) == Err(UnexpectedEnd) && DecodeRequestBody(input) == Err(UnexpectedEnd)
              && SkipPadding(input) == Err(UnexpectedEnd)
    ensures |input| == 0 || DecodeVarint(input[1..]).Err? ==> DecodeResponse(input) == Err(UnexpectedEnd)
    ensures |input| < 8 || DecodeVarint(input[8..]).Err? ==> DecodeUdp(input) == Err(UnexpectedEnd)
    ensures |address| > 2048 ==> EncodeRequest(TcpRequest(address), padding) == Err(InvalidAddressLength(|address|))
    ensures |address| <= 2048 && |padding| > 4096 ==>
              EncodeRequest(TcpRequest(address), padding) == Err(InvalidPaddingLength(|padding|))
    ensures forall ok :: |padding| > 4096 ==>
              EncodeResponse(TcpResponse(ok, message), padding) == Err(InvalidPaddingLength(|padding|))
    ensures forall ok :: |padding| <= 4096 && |message| > 2048 ==>
              EncodeResponse(TcpResponse(ok, message), padding) == Err(InvalidMessageLength(|message|))
    ensures |m.address| > 2048 ==> EncodeUdp(m) == Err(InvalidAddressLength(|m.address|))
  {
    hide EncodeVarint;
    assert DecodeVarint(input).Err? ==> DecodeVarint(input).error == UnexpectedEnd;
  }
}
