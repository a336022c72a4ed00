/** STUN binding responses (RFC 5389, sections 6, 15.1 and 15.2): the attribute walk and the mapped-address forms. */
module Stun {
  import opened Bytes

  const MAGIC_COOKIE: Bytes := [0x21, 0x12, 0xa4, 0x42]
  const COOKIE_HIGH: nat := 0x2112
  const MAPPED_ADDRESS: nat := 0x0001
  const XOR_MAPPED_ADDRESS: nat := 0x0020
  const HEADER_SIZE: nat := 20

  datatype StunError = TruncatedHeader | NotBindingSuccess | InvalidHeader | TruncatedAttribute | MissingAddress

  datatype Result<+T> = Ok(value: T) | Err(error: StunError)

  type Octets4 = s: Bytes | |s| == 4 witness [0, 0, 0, 0]
  type Octets16 = s: Bytes | |s| == 16 witness seq(16, _ => 0)
  type Transaction = s: Bytes | |s| == 12 witness seq(12, _ => 0)

  datatype Ip = V4(octets: Octets4) | V6(octets6: Octets16)

  datatype SocketAddr = SocketAddr(ip: Ip, port: U16)

  // ----- addresses -----

  /** The two-byte big-endian number at `i`. */
  function Be16(s: Bytes, i: nat): (r: nat)
    requires i + 2 <= |s|
    ensures r < 0x1_0000
  {
    var high: nat, low: nat := s[i], s[i + 1];
    high * 256 + low
  }

  function XorBytes(a: Bytes, mask: Bytes): (r: Bytes)
    requires |a| <= |mask|
    ensures |r| == |a|
  {
    seq(|a|, i requires 0 <= i < |a| => Xor(a[i], mask[i]))
  }

  function Xor16(a: U16, b: U16): (r: U16)
    ensures XorBits(r, b, 16) == a
  {
    assert Pow2(16) == 256 * Pow2(8);
    XorBitsInvolution(a, b, 16);
    XorBits(a, b, 16)
  }

  /** Masking, when asked for, with the cookie followed by the transaction id. */
  function Masked(octets: Bytes, xor: bool, transaction: Transaction): (r: Bytes)
    requires |octets| <= 16
    ensures |r| == |octets|
  {
    if xor then XorBytes(octets, MAGIC_COOKIE + transaction) else octets
  }

  function ParseAddress(value: Bytes, xor: bool, transaction: Transaction): (r: Option<SocketAddr>) {
    if |value| < 4 || value[0] != 0 then None
    else
      var port := if xor then Xor16(Be16(value, 2), COOKIE_HIGH) else Be16(value, 2);
      if value[1] == 1 && |value| == 8 then Some(SocketAddr(V4(Masked(value[4..8], xor, transaction)), port))
      else if value[1] == 2 && |value| == 20 then Some(SocketAddr(V6(Masked(value[4..20], xor, transaction)), port))
      else None
  }

  function OctetsOf(ip: Ip): (r: Bytes)
    ensures |r| == 4 || |r| == 16
  {
    match ip case V4(o) => o case V6(o) => o
  }

  /** The attribute value a server sends for an address. */
  function AddressValue(a: SocketAddr, xor: bool, transaction: Transaction): (r: Bytes) {
    var port := if xor then Xor16(a.port, COOKIE_HIGH) else a.port;
    [0, if a.ip.V4? then 1 else 2, port / 256, port % 256] + Masked(OctetsOf(a.ip), xor, transaction)
  }

  lemma {:induction false} XorBytesInvolution(a: Bytes, mask: Bytes)
    requires |a| <= |mask|
    ensures XorBytes(XorBytes(a, mask), mask) == a
  {
    hide Xor;
    var x := XorBytes(a, mask);
    forall i | 0 <= i < |a| ensures XorBytes(x, mask)[i] == a[i] {
      XorInvolution(a[i], mask[i]);
    }
  }

  lemma {:induction false} MaskedTwice(octets: Bytes, xor: bool, transaction: Transaction)
    requires |octets| <= 16
    ensures Masked(Masked(octets, xor, transaction), xor, transaction) == octets
  {
    XorBytesInvolution(octets, MAGIC_COOKIE + transaction);
  }

  /** Both address forms, for both families, plain and masked, read back as what was written. */
  lemma {:induction false} AddressRoundTrip(a: SocketAddr, xor: bool, transaction: Transaction)
    ensures ParseAddress(AddressValue(a, xor, transaction), xor, transaction) == Some(a)
  {
    hide Masked, Xor16;
    var value, octets := AddressValue(a, xor, transaction), OctetsOf(a.ip);
    assert value[4..4 + |octets|] == Masked(octets, xor, transaction);
    MaskedTwice(octets, xor, transaction);
    Xor16Twice(a.port, COOKIE_HIGH);
  }

  /** And no other value reads as an address. */
  lemma {:induction false} AddressExactlyWhen(value: Bytes, a: SocketAddr, xor: bool, transaction: Transaction)
    ensures ParseAddress(value, xor, transaction) == Some(a) <==> value == AddressValue(a, xor, transaction)
  {
    hide ParseAddress, AddressValue;
    AddressRoundTrip(a, xor, transaction);
    if ParseAddress(value, xor, transaction) == Some(a) { ParsedIsValue(value, xor, transaction); }
  }

  lemma {:induction false} ParsedIsValue(value: Bytes, xor: bool, transaction: Transaction)
    requires ParseAddress(value, xor, transaction).Some?
    ensures value == AddressValue(ParseAddress(value, xor, transaction).value, xor, transaction)
  {
    hide Masked, Xor16, Be16;
    var octets := value[4..|value|];
    MaskedTwice(octets, xor, transaction);
    Xor16Twice(Be16(value, 2), COOKIE_HIGH);
    FrontOfValue(value);
  }

  lemma {:induction false} FrontOfValue(value: Bytes)
    requires |value| >= 4
    ensures var n := Be16(value, 2); value == [value[0], value[1], n / 256, n % 256] + value[4..|value|]
  {
  }

  lemma {:induction false} Xor16Twice(a: U16, b: U16)
    ensures Xor16(Xor16(a, b), b) == a
  {
  }

  // ----- the attribute walk -----

  function Padded(n: nat): (r: nat)
    ensures n <= r < n + 4 && r % 4 == 0
  {
    (n + 3) / 4 * 4
  }

  /** The last plain and the last masked address seen; a later malformed one erases an earlier good one. */
  datatype Found = Found(mapped: Option<SocketAddr>, xorMapped: Option<SocketAddr>)

  function Noted(found: Found, kind: nat, value: Bytes, transaction: Transaction): (r: Found) {
    if kind == XOR_MAPPED_ADDRESS then found.(xorMapped := ParseAddress(value, true, transaction))
    else if kind == MAPPED_ADDRESS then found.(mapped := ParseAddress(value, false, transaction))
    else found
  }

  function Walk(packet: Bytes, position: nat, end: nat, found: Found, transaction: Transaction): (r: Result<Found>)
    requires end <= |packet|
    decreases if position + 4 <= end then end - position else 0
  {
    if position + 4 > end then Ok(found)
    else
      var kind, length := Be16(packet, position), Be16(packet, position + 2);
      if position + 4 + length > end then Err(TruncatedAttribute)
      else
        var value := packet[position + 4..position + 4 + length];
        Walk(packet, position + 4 + Padded(length), end, Noted(found, kind, value, transaction), transaction)
  }

  function Preferred(found: Found): (r: Option<SocketAddr>) {
    if found.xorMapped.Some? then found.xorMapped else found.mapped
  }

  function ParseResponse(packet: Bytes): (r: Result<(Transaction, SocketAddr)>) {
    if |packet| < HEADER_SIZE || packet[0] >= 0x40 then Err(TruncatedHeader)
    else if packet[..2] != [1, 1] then Err(NotBindingSuccess)
    else
      var end := HEADER_SIZE + Be16(packet, 2);
      if |packet| < end || packet[4..8] != MAGIC_COOKIE then Err(InvalidHeader)
      else
        var transaction := packet[8..20];
        match Walk(packet, HEADER_SIZE, end, Found(None, None), transaction)
        case Err(e) => Err(e)
        case Ok(found) =>
          (match Preferred(found)
           case Some(address) => Ok((transaction, address))
           case None => Err(MissingAddress))
  }

  // ----- what a response is made of -----

  /** An attribute as a server writes it, with whatever padding bytes. */
  datatype Attribute = Attribute(kind: U16, value: Bytes, padding: Bytes)

  /** What may follow the padded attributes: too few bytes to be another one, or a last one cut short in its padding. */
  datatype Tail = Stub(bytes: Bytes) | Unpadded(last: Attribute)

  predicate Writable(a: Attribute) {
    |a.value| < 0x1_0000 && |a.value| + |a.padding| == Padded(|a.value|)
  }

  predicate WritableTail(tail: Tail) {
    match tail
    case Stub(bytes) => |bytes| < 4
    case Unpadded(a) => |a.value| < 0x1_0000 && |a.value| + |a.padding| < Padded(|a.value|)
  }

  function AttributeBytes(a: Attribute): (r: Bytes)
    requires |a.value| < 0x1_0000
    ensures |r| == 4 + |a.value| + |a.padding|
  {
    [a.kind / 256, a.kind % 256, |a.value| / 256, |a.value| % 256] + a.value + a.padding
  }

  function Body(attributes: seq<Attribute>, tail: Tail): (r: Bytes)
    requires (forall i :: 0 <= i < |attributes| ==> Writable(attributes[i])) && WritableTail(tail)
    decreases |attributes|
  {
    if attributes != [] then
      assert Writable(attributes[0]);
      AttributeBytes(attributes[0]) + Body(attributes[1..], tail)
    else match tail case Stub(bytes) => bytes case Unpadded(a) => AttributeBytes(a)
  }

  /** All the attributes, the one cut short included. */
  function AllOf(attributes: seq<Attribute>, tail: Tail): (r: seq<Attribute>) {
    attributes + if tail.Unpadded? then [tail.last] else []
  }

  /** Header with the length of the body, the body, and whatever follows the declared length. */
  predicate IsResponse(packet: Bytes, transaction: Transaction, attributes: seq<Attribute>, tail: Tail, extra: Bytes) {
    && (forall i :: 0 <= i < |attributes| ==> Writable(attributes[i])) && WritableTail(tail)
    && var body := Body(attributes, tail);
    && |body| < 0x1_0000
    && packet == [1, 1, |body| / 256, |body| % 256] + MAGIC_COOKIE + transaction + body + extra
  }

  /** The value of the last attribute of a kind. */
  function LastOf(attributes: seq<Attribute>, kind: nat): (r: Option<Bytes>) {
    if attributes == [] then None
    else
      var n := |attributes| - 1;
      if attributes[n].kind == kind then Some(attributes[n].value) else LastOf(attributes[..n], kind)
  }

  /** What the attributes say, by looking only at the last one of each mapped kind. */
  function Meant(attributes: seq<Attribute>, transaction: Transaction): (r: Found) {
    Found(match LastOf(attributes, MAPPED_ADDRESS)
          case Some(v) => ParseAddress(v, false, transaction)
          case None => None,
          match LastOf(attributes, XOR_MAPPED_ADDRESS)
          case Some(v) => ParseAddress(v, true, transaction)
          case None => None)
  }

  /** Noting the attributes one after the other. */
  function NotedAll(found: Found, attributes: seq<Attribute>, transaction: Transaction): (r: Found)
    decreases |attributes|
  {
    if attributes == [] then found
    else NotedAll(Noted(found, attributes[0].kind, attributes[0].value, transaction), attributes[1..], transaction)
  }

  lemma {:induction false} NotedAllAppends(
    found: Found, attributes: seq<Attribute>, a: Attribute, transaction: Transaction)
    ensures NotedAll(found, attributes + [a], transaction) ==
            Noted(NotedAll(found, attributes, transaction), a.kind, a.value, transaction)
    decreases |attributes|
  {
    hide Noted;
    if attributes == [] {
      assert [a][1..] == [] && attributes + [a] == [a];
    } else {
      assert (attributes + [a])[1..] == attributes[1..] + [a];
      var noted := Noted(found, attributes[0].kind, attributes[0].value, transaction);
      NotedAllAppends(noted, attributes[1..], a, transaction);
    }
  }

  lemma {:induction false} NotedAllIsMeant(attributes: seq<Attribute>, transaction: Transaction)
    ensures NotedAll(Found(None, None), attributes, transaction) == Meant(attributes, transaction)
    decreases |attributes|
  {
    hide ParseAddress;
    if attributes != [] {
      var n := |attributes| - 1;
      NotedAllIsMeant(attributes[..n], transaction);
      assert attributes == attributes[..n] + [attributes[n]];
      NotedAllAppends(Found(None, None), attributes[..n], attributes[n], transaction);
    }
  }

  lemma {:induction false} WalkOne(
    packet: Bytes, position: nat, end: nat, found: Found, transaction: Transaction, a: Attribute, rest: Bytes)
    requires position <= end <= |packet| && Writable(a)
    requires packet[position..end] == AttributeBytes(a) + rest
    ensures var next := position + 4 + Padded(|a.value|);
            && next <= end && packet[next..end] == rest
            && Walk(packet, position, end, found, transaction) ==
               Walk(packet, next, end, Noted(found, a.kind, a.value, transaction), transaction)
  {
    hide Noted, AttributeBytes;
    var window := packet[position..end];
    AttributeFields(a, rest);
    SliceOfSlice(packet, position, end, 4, 4 + |a.value|);
    SliceOfSlice(packet, position, end, 4 + Padded(|a.value|), |window|);
    assert packet[position] == window[0] && packet[position + 1] == window[1];
    assert packet[position + 2] == window[2] && packet[position + 3] == window[3];
  }

  lemma {:induction false} WalkLast(
    packet: Bytes, position: nat, end: nat, found: Found, transaction: Transaction, a: Attribute)
    requires position <= end <= |packet| && WritableTail(Unpadded(a))
    requires packet[position..end] == AttributeBytes(a)
    ensures Walk(packet, position, end, found, transaction) == Ok(Noted(found, a.kind, a.value, transaction))
  {
    hide Noted, AttributeBytes;
    var window := packet[position..end];
    assert window == AttributeBytes(a) + [];
    AttributeFields(a, []);
    SliceOfSlice(packet, position, end, 4, 4 + |a.value|);
    assert packet[position] == window[0] && packet[position + 1] == window[1];
    assert packet[position + 2] == window[2] && packet[position + 3] == window[3];
  }

  lemma {:induction false} AttributeFields(a: Attribute, rest: Bytes)
    requires |a.value| < 0x1_0000
    ensures var window := AttributeBytes(a) + rest;
            && Be16(window, 0) == a.kind && Be16(window, 2) == |a.value|
            && window[4..4 + |a.value|] == a.value
            && window[4 + |a.value| + |a.padding|..|window|] == rest
  {
  }

  lemma {:induction false} SliceOfSlice(s: Bytes, low: nat, high: nat, i: nat, j: nat)
    requires low <= high <= |s| && i <= j <= high - low
    ensures s[low..high][i..j] == s[low + i..low + j]
  {
    var inner, outer := s[low..high][i..j], s[low + i..low + j];
    forall k | 0 <= k < j - i ensures inner[k] == outer[k] {
      assert inner[k] == s[low..high][i + k] == s[low + (i + k)];
      assert outer[k] == s[(low + i) + k];
    }
  }

  lemma {:induction false} WalkTail(
    packet: Bytes, position: nat, end: nat, found: Found, transaction: Transaction, tail: Tail)
    requires position <= end <= |packet| && WritableTail(tail) && packet[position..end] == Body([], tail)
    ensures Walk(packet, position, end, found, transaction) == Ok(NotedAll(found, AllOf([], tail), transaction))
  {
    hide Noted, AttributeBytes;
    if tail.Unpadded? {
      WalkLast(packet, position, end, found, transaction, tail.last);
      assert AllOf([], tail) == [tail.last] && [tail.last][1..] == [];
    }
  }

  lemma {:induction false} WalkAll(
    packet: Bytes, position: nat, end: nat, found: Found, transaction: Transaction,
    attributes: seq<Attribute>, tail: Tail)
    requires position <= end <= |packet|
    requires (forall i :: 0 <= i < |attributes| ==> Writable(attributes[i])) && WritableTail(tail)
    requires packet[position..end] == Body(attributes, tail)
    ensures Walk(packet, position, end, found, transaction) == Ok(NotedAll(found, AllOf(attributes, tail), transaction))
    decreases |attributes|
  {
    hide Noted, AttributeBytes, Walk, WritableTail;
    if attributes == [] {
      WalkTail(packet, position, end, found, transaction, tail);
    } else {
      var a, others := attributes[0], attributes[1..];
      WalkOne(packet, position, end, found, transaction, a, Body(others, tail));
      WalkAll(packet, position + 4 + Padded(|a.value|), end, Noted(found, a.kind, a.value, transaction), transaction,
              others, tail);
      assert AllOf(attributes, tail)[1..] == AllOf(others, tail);
    }
  }

  /** The attribute that starts at `position`, with the padding up to `stop`. */
  function AttributeAt(packet: Bytes, position: nat, stop: nat): (a: Attribute)
    requires position + 4 <= |packet|
    requires position + 4 + Be16(packet, position + 2) <= stop <= |packet|
  {
    var start := position + 4 + Be16(packet, position + 2);
    Attribute(Be16(packet, position), packet[position + 4..start], packet[start..stop])
  }

  lemma {:induction false} AttributeAtBytes(packet: Bytes, position: nat, stop: nat)
    requires position + 4 <= |packet|
    requires position + 4 + Be16(packet, position + 2) <= stop <= |packet|
    ensures var a := AttributeAt(packet, position, stop);
            |a.value| < 0x1_0000 && AttributeBytes(a) == packet[position..stop]
  {
    var a := AttributeAt(packet, position, stop);
    var head := [a.kind / 256, a.kind % 256, |a.value| / 256, |a.value| % 256];
    assert head == packet[position..position + 4];
  }

  /** The other direction: whatever the walk accepts is laid out as attributes and a tail. */
  lemma {:induction false} WalkedIsLaidOut(
    packet: Bytes, position: nat, end: nat, found: Found, transaction: Transaction)
    returns (attributes: seq<Attribute>, tail: Tail)
    requires position <= end <= |packet| && Walk(packet, position, end, found, transaction).Ok?
    ensures (forall i :: 0 <= i < |attributes| ==> Writable(attributes[i])) && WritableTail(tail)
    ensures packet[position..end] == Body(attributes, tail)
    decreases end - position
  {
    hide Noted, AttributeBytes;
    if position + 4 > end {
      attributes, tail := [], Stub(packet[position..end]);
    } else {
      var next := position + 4 + Padded(Be16(packet, position + 2));
      if next > end {
        attributes, tail := [], Unpadded(AttributeAt(packet, position, end));
        AttributeAtBytes(packet, position, end);
      } else {
        var a := AttributeAt(packet, position, next);
        AttributeAtBytes(packet, position, next);
        var others;
        others, tail := WalkedIsLaidOut(packet, next, end, Noted(found, a.kind, a.value, transaction), transaction);
        attributes := [a] + others;
        assert attributes[1..] == others;
        assert packet[position..end] == packet[position..next] + packet[next..end];
      }
    }
  }

  /**
   For every transaction and every list of attributes, parsing the response returns the transaction and the last
   XOR-MAPPED-ADDRESS if it is well formed, else the last MAPPED-ADDRESS if that is, else reports none.
   */
  lemma {:induction false} ResponseIsReadAsMeant(
    packet: Bytes, transaction: Transaction, attributes: seq<Attribute>, tail: Tail, extra: Bytes)
    requires IsResponse(packet, transaction, attributes, tail, extra)
    ensures ParseResponse(packet) ==
            match Preferred(Meant(AllOf(attributes, tail), transaction))
            case Some(address) => Ok((transaction, address))
            case None => Err(MissingAddress)
  {
    hide Walk, Meant, NotedAll, Body;
    var body := Body(attributes, tail);
    HeaderFields(transaction, body, extra);
    WalkAll(packet, HEADER_SIZE, HEADER_SIZE + |body|, Found(None, None), transaction, attributes, tail);
    NotedAllIsMeant(AllOf(attributes, tail), transaction);
  }

  lemma {:induction false} HeaderFields(transaction: Transaction, body: Bytes, extra: Bytes)
    requires |body| < 0x1_0000
    ensures var packet := [1, 1, |body| / 256, |body| % 256] + MAGIC_COOKIE + transaction + body + extra;
            && |packet| == HEADER_SIZE + |body| + |extra|
            && packet[..2] == [1, 1] && Be16(packet, 2) == |body|
            && packet[4..8] == MAGIC_COOKIE && packet[8..20] == transaction
            && packet[HEADER_SIZE..HEADER_SIZE + |body|] == body
  {
    var packet := [1, 1, |body| / 256, |body| % 256] + MAGIC_COOKIE + transaction + body + extra;
    assert packet[2] == |body| / 256 && packet[3] == |body| % 256;
  }

  /** The packet is a response to the transaction whose attributes mean the address. */
  ghost predicate Answers(packet: Bytes, transaction: Transaction, address: SocketAddr) {
    exists attributes, tail, extra ::
      IsResponse(packet, transaction, attributes, tail, extra) &&
      Preferred(Meant(AllOf(attributes, tail), transaction)) == Some(address)
  }

  /** On arbitrary bytes, the parser returns an address exactly when the bytes are a response that means it. */
  lemma {:induction false} ParsesExactlyWhen(packet: Bytes, transaction: Transaction, address: SocketAddr)
    ensures ParseResponse(packet) == Ok((transaction, address)) <==> Answers(packet, transaction, address)
  {
    hide Walk, Meant, Body, IsResponse, AllOf;
    if ParseResponse(packet) == Ok((transaction, address)) {
      var attributes, tail, extra := ParsedIsResponse(packet);
      ResponseIsReadAsMeant(packet, transaction, attributes, tail, extra);
    }
    if Answers(packet, transaction, address) {
      var attributes, tail, extra :|
        IsResponse(packet, transaction, attributes, tail, extra) &&
        Preferred(Meant(AllOf(attributes, tail), transaction)) == Some(address);
      ResponseIsReadAsMeant(packet, transaction, attributes, tail, extra);
    }
  }

  lemma {:induction false} ParsedIsResponse(
    packet: Bytes) returns (attributes: seq<Attribute>, tail: Tail, extra: Bytes)
    requires ParseResponse(packet).Ok?
    ensures IsResponse(packet, ParseResponse(packet).value.0, attributes, tail, extra)
  {
    hide Walk, Body;
    var end, transaction: Transaction := HEADER_SIZE + Be16(packet, 2), packet[8..20];
    attributes, tail := WalkedIsLaidOut(packet, HEADER_SIZE, end, Found(None, None), transaction);
    extra := packet[end..];
    var body := Body(attributes, tail);
    assert packet[..4] == [1, 1, |body| / 256, |body| % 256] by { assert packet[..2][0] == 1 && packet[..2][1] == 1; }
    assert packet == packet[..4] + packet[4..8] + packet[8..20] + packet[HEADER_SIZE..end] + packet[end..];
  }

  /**
   The walk as a loop: on arbitrary bytes it stays in bounds, ends, and finds exactly the address they answer with.
   */
  method ParseBindingResponse(packet: Bytes) returns (r: Result<(Transaction, SocketAddr)>)
    ensures r == ParseResponse(packet)
    ensures forall transaction, address :: r == Ok((transaction, address)) <==> Answers(packet, transaction, address)
  {
    hide ParseAddress, Answers;
    forall transaction, address
      ensures ParseResponse(packet) == Ok((transaction, address)) <==> Answers(packet, transaction, address)
    {
      ParsesExactlyWhen(packet, transaction, address);
    }
    if |packet| < HEADER_SIZE || packet[0] >= 0x40 { return Err(TruncatedHeader); }
    if packet[0] != 1 || packet[1] != 1 { return Err(NotBindingSuccess); }
    assert packet[..2] == [1, 1];
    var end := HEADER_SIZE + Be16(packet, 2);
    if |packet| < end || packet[4..8] != MAGIC_COOKIE { return Err(InvalidHeader); }
    var transaction: Transaction := packet[8..20];
    var found := Found(None, None);
    var position := HEADER_SIZE;
    while position + 4 <= end
      invariant Walk(packet, position, end, found, transaction) ==
                Walk(packet, HEADER_SIZE, end, Found(None, None), transaction)
      decreases if position + 4 <= end then end - position else 0
    {
      var kind, length := Be16(packet, position), Be16(packet, position + 2);
      position := position + 4;
      if position + length > end { return Err(TruncatedAttribute); }
      var value := packet[position..position + length];
      if kind == XOR_MAPPED_ADDRESS {
        found := found.(xorMapped := ParseAddress(value, true, transaction));
      } else if kind == MAPPED_ADDRESS {
        found := found.(mapped := ParseAddress(value, false, transaction));
      }
      position := position + Padded(length);
    }
    match Preferred(found)
    case Some(address) => return Ok((transaction, address));
    case None => return Err(MissingAddress);
  }

  /** Attributes that say nothing about the address. */
  predicate Unrelated(attributes: seq<Attribute>) {
    forall i :: 0 <= i < |attributes| ==>
      attributes[i].kind != MAPPED_ADDRESS && attributes[i].kind != XOR_MAPPED_ADDRESS
  }

  lemma {:induction false} UnrelatedHasNone(attributes: seq<Attribute>, kind: nat)
    requires forall i :: 0 <= i < |attributes| ==> attributes[i].kind != kind
    ensures LastOf(attributes, kind) == None
    decreases |attributes|
  {
    if attributes != [] { UnrelatedHasNone(attributes[..|attributes| - 1], kind); }
  }

  lemma {:induction false} LastOfSplit(before: seq<Attribute>, a: Attribute, after: seq<Attribute>, kind: nat)
    requires forall i :: 0 <= i < |after| ==> after[i].kind != kind
    ensures LastOf(before + [a] + after, kind) ==
            if a.kind == kind then Some(a.value) else LastOf(before, kind)
    decreases |after|
  {
    var all := before + [a] + after;
    if after == [] {
      assert all == before + [a] && all[..|before|] == before;
    } else {
      var n := |after| - 1;
      assert all[..|all| - 1] == before + [a] + after[..n];
      LastOfSplit(before, a, after[..n], kind);
    }
  }

  /** A masked address is the one returned, unless another masked one follows it. */
  lemma {:induction false} MaskedAddressIsReturned(
    packet: Bytes, transaction: Transaction, attributes: seq<Attribute>, tail: Tail, extra: Bytes,
    address: SocketAddr, before: seq<Attribute>, padding: Bytes, after: seq<Attribute>)
    requires IsResponse(packet, transaction, attributes, tail, extra)
    requires AllOf(attributes, tail) ==
             before + [Attribute(0x0020, AddressValue(address, true, transaction), padding)] + after
    requires forall i :: 0 <= i < |after| ==> after[i].kind != 0x0020
    ensures ParseResponse(packet) == Ok((transaction, address))
  {
    hide ParseResponse, IsResponse, AllOf, LastOf, ParseAddress, AddressValue;
    var a := Attribute(XOR_MAPPED_ADDRESS, AddressValue(address, true, transaction), padding);
    ResponseIsReadAsMeant(packet, transaction, attributes, tail, extra);
    LastOfSplit(before, a, after, XOR_MAPPED_ADDRESS);
    AddressRoundTrip(address, true, transaction);
  }

  /** A plain address among otherwise unrelated attributes is the one returned. */
  lemma {:induction false} PlainAddressIsReturned(
    packet: Bytes, transaction: Transaction, attributes: seq<Attribute>, tail: Tail, extra: Bytes,
    address: SocketAddr, before: seq<Attribute>, padding: Bytes, after: seq<Attribute>)
    requires IsResponse(packet, transaction, attributes, tail, extra)
    requires AllOf(attributes, tail) ==
             before + [Attribute(0x0001, AddressValue(address, false, transaction), padding)] + after
    requires Unrelated(before) && Unrelated(after)
    ensures ParseResponse(packet) == Ok((transaction, address))
  {
    hide ParseResponse, IsResponse, AllOf, LastOf, ParseAddress, AddressValue;
    var a := Attribute(MAPPED_ADDRESS, AddressValue(address, false, transaction), padding);
    ResponseIsReadAsMeant(packet, transaction, attributes, tail, extra);
    LastOfSplit(before, a, after, MAPPED_ADDRESS);
    LastOfSplit(before, a, after, XOR_MAPPED_ADDRESS);
    UnrelatedHasNone(before, XOR_MAPPED_ADDRESS);
    AddressRoundTrip(address, false, transaction);
  }

  // ----- wire bytes -----

  /** The mask is the cookie's four bytes, then the transaction's, and the port's mask the cookie's first two. */
  lemma {:induction false} MaskedBytes(octets: Bytes, transaction: Transaction, port: U16, i: nat, b: nat)
    requires |octets| <= 16 && i < |octets| && b < 16
    ensures Masked(octets, false, transaction) == octets
    ensures var mask := if i < 4 then [0x21, 0x12, 0xa4, 0x42][i] else transaction[i - 4];
            b < 8 ==> (Bit(Masked(octets, true, transaction)[i], b) <==> Bit(octets[i], b) != Bit(mask, b))
    ensures Bit(Xor16(port, 0x2112), b) <==> Bit(port, b) != Bit(0x2112, b)
  {
    hide Bit, XorBits;
    var mask := (MAGIC_COOKIE + transaction)[i];
    if b < 8 { XorIsBitwise(octets[i], mask, 8, b); }
    XorIsBitwise(port, 0x2112, 16, b);
  }

  /** The bytes of an address value: zero, the family, the port, the octets. */
  lemma {:induction false} AddressBytes(a: SocketAddr, transaction: Transaction)
    ensures AddressValue(a, false, transaction) ==
            [0, if a.ip.V4? then 1 else 2, a.port / 256, a.port % 256] +
            (if a.ip.V4? then a.ip.octets else a.ip.octets6)
    ensures AddressValue(a, true, transaction) ==
            [0, if a.ip.V4? then 1 else 2, Xor16(a.port, 0x2112) / 256, Xor16(a.port, 0x2112) % 256] +
            Masked(if a.ip.V4? then a.ip.octets else a.ip.octets6, true, transaction)
  {
    hide Xor16;
  }

  /** The errors of a response, in the order they are noticed. */
  lemma {:induction false} ResponseErrors(packet: Bytes)
    ensures |packet| < 20 || packet[0] >= 0x40 ==> ParseResponse(packet) == Err(TruncatedHeader)
    ensures |packet| >= 20 && packet[0] < 0x40 && !(packet[0] == 1 && packet[1] == 1) ==>
              ParseResponse(packet) == Err(NotBindingSuccess)
    ensures |packet| >= 20 && packet[0] == 1 && packet[1] == 1 &&
            (packet[4..8] != [0x21, 0x12, 0xa4, 0x42] || |packet| < 20 + (packet[2] as nat * 256 + packet[3])) ==>
              ParseResponse(packet) == Err(InvalidHeader)
  {
    hide Walk, Noted;
    if |packet| >= 20 { assert packet[..2] == [packet[0], packet[1]]; }
  }
}
