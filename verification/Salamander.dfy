/** Per-packet XOR masking under a keyed digest. The digest is a parameter: any function to 32 bytes. */
module Salamander {
  import opened Bytes

  const SALT_LENGTH: nat := 8
  const KEY_LENGTH: nat := 32

  type Digest = k: Bytes | |k| == KEY_LENGTH witness seq(KEY_LENGTH, _ => 0)

  type Salt = s: Bytes | |s| == SALT_LENGTH witness seq(SALT_LENGTH, _ => 0)

  /** A codec: the shared password and the hash it is fed to. */
  datatype Codec = Codec(password: Bytes, hash: Bytes -> Digest)

  function Mask(payload: Bytes, key: Digest): (r: Bytes)
    ensures |r| == |payload|
  {
    seq(|payload|, i requires 0 <= i < |payload| => Xor(payload[i], key[i % KEY_LENGTH]))
  }

  function Obfuscate(codec: Codec, payload: Bytes, salt: Salt): (r: Bytes) {
    salt + Mask(payload, codec.hash(codec.password + salt))
  }

  /** `None` is the packet-too-short error. */
  function Deobfuscate(codec: Codec, packet: Bytes): (r: Option<Bytes>) {
    if |packet| <= SALT_LENGTH then None
    else Some(Mask(packet[SALT_LENGTH..], codec.hash(codec.password + packet[..SALT_LENGTH])))
  }

  lemma {:induction false} MaskInvolution(payload: Bytes, key: Digest)
    ensures Mask(Mask(payload, key), key) == payload
  {
    hide Xor;
    var masked := Mask(payload, key);
    forall i | 0 <= i < |payload| ensures Mask(masked, key)[i] == payload[i] {
      XorInvolution(payload[i], key[i % KEY_LENGTH]);
    }
  }

  /** Under every password, digest and salt, unmasking a masked payload returns it, unless it is empty. */
  lemma {:induction false} ObfuscateRoundTrip(codec: Codec, payload: Bytes, salt: Salt)
    ensures Deobfuscate(codec, Obfuscate(codec, payload, salt)) == if payload == [] then None else Some(payload)
  {
    var packet := Obfuscate(codec, payload, salt);
    assert packet[..SALT_LENGTH] == salt;
    assert packet[SALT_LENGTH..] == Mask(payload, codec.hash(codec.password + salt));
    MaskInvolution(payload, codec.hash(codec.password + salt));
  }

  /** Conversely every accepted packet is the masked form of what it unmasks to, under its own salt. */
  lemma {:induction false} DeobfuscateRoundTrip(codec: Codec, packet: Bytes)
    requires Deobfuscate(codec, packet).Some?
    ensures Obfuscate(codec, Deobfuscate(codec, packet).value, packet[..SALT_LENGTH]) == packet
  {
    MaskInvolution(packet[SALT_LENGTH..], codec.hash(codec.password + packet[..SALT_LENGTH]));
  }

  /** What is on the wire: the salt, then each byte with the bits of the digest's, which repeats every 32, flipped. */
  lemma {:induction false} WireBytes(codec: Codec, payload: Bytes, salt: Salt, i: nat, b: nat)
    requires i < |payload| && b < 8
    ensures var wire := Obfuscate(codec, payload, salt);
            && |wire| == 8 + |payload| && wire[..8] == salt
            && (Bit(wire[8 + i], b) <==> Bit(payload[i], b) != Bit(codec.hash(codec.password + salt)[i % 32], b))
  {
    hide Bit, XorBits;
    XorIsBitwise(payload[i], codec.hash(codec.password + salt)[i % 32], 8, b);
  }
}
