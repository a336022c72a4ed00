/** Bytes, big-endian integers, byte-wise XOR and concatenation: the vocabulary every codec below shares. */
module Bytes {

  type Byte = x: int | 0 <= x < 256

  type Bytes = seq<Byte>

  type U16 = x: int | 0 <= x < 0x1_0000

  type U32 = x: int | 0 <= x < 0x1_0000_0000

  datatype Option<+T> = None | Some(value: T)

  // ----- multiplication, spelled out where the solver should not search -----

  lemma {:induction false} MulMonotone(a: int, b: int, c: int)
    requires a <= b && 0 <= c
    ensures a * c <= b * c
  {
  }

  lemma {:induction false} MulDistributes(a: int, b: int, c: int)
    ensures (a + b) * c == a * c + b * c
  {
  }

  lemma {:induction false} MulCancels(a: int, b: int, c: int)
    requires 0 < c && a * c < b * c
    ensures a < b
  {
    if a >= b { MulMonotone(b, a, c); }
  }

  /** 256 to the power `n`: the number of values that fit in `n` bytes. */
  function Pow256(n: nat): (r: nat)
    ensures r > 0
  {
    if n == 0 then 1 else 256 * Pow256(n - 1)
  }

  /** The `n` low-order bytes of `x`, most significant first. */
  function BigEndian(x: nat, n: nat): (r: Bytes)
    ensures |r| == n
  {
    if n == 0 then [] else BigEndian(x / 256, n - 1) + [x % 256]
  }

  function FromBigEndian(s: Bytes): (r: nat) {
    if s == [] then 0 else FromBigEndian(s[..|s| - 1]) * 256 + s[|s| - 1]
  }

  lemma {:induction false} BigEndianRoundTrip(x: nat, n: nat)
    requires x < Pow256(n)
    ensures FromBigEndian(BigEndian(x, n)) == x
  {
    if n > 0 {
      BigEndianRoundTrip(x / 256, n - 1);
      assert BigEndian(x, n)[..n - 1] == BigEndian(x / 256, n - 1);
    }
  }

  lemma {:induction false} FromBigEndianRoundTrip(s: Bytes)
    ensures FromBigEndian(s) < Pow256(|s|)
    ensures BigEndian(FromBigEndian(s), |s|) == s
  {
    if s != [] {
      FromBigEndianRoundTrip(s[..|s| - 1]);
      assert s == s[..|s| - 1] + [s[|s| - 1]];
    }
  }

  /** Most significant first: the two- and four-byte forms, spelled out. */
  lemma {:induction false} BigEndianDigits(x: nat)
    ensures x < 0x1_0000 ==> BigEndian(x, 2) == [x / 256, x % 256]
    ensures x < 0x1_0000_0000 ==>
              BigEndian(x, 4) == [x / 0x100_0000, x / 0x1_0000 % 256, x / 256 % 256, x % 256]
  {
    assert BigEndian(x, 2) == BigEndian(x / 256 / 256, 0) + [x / 256 % 256] + [x % 256];
    assert x / 256 / 256 == x / 0x1_0000 && x / 0x1_0000 / 256 == x / 0x100_0000;
    assert BigEndian(x, 4) == BigEndian(x / 0x1_0000, 2) + [x / 256 % 256] + [x % 256];
    assert BigEndian(x / 0x1_0000, 2) == [] + [x / 0x100_0000 % 256] + [x / 0x1_0000 % 256];
  }

  /** Setting the leading byte: `high` copies of the top place value only change the first byte. */
  lemma {:induction false} BigEndianLead(high: Byte, low: nat, n: nat)
    requires n > 0 && low < Pow256(n - 1)
    ensures BigEndian(high * Pow256(n - 1) + low, n) == [high] + BigEndian(low, n - 1)
  {
    if n > 1 {
      var p := Pow256(n - 2);
      assert high * Pow256(n - 1) == 256 * (high * p);
      assert (high * Pow256(n - 1) + low) / 256 == high * p + low / 256;
      BigEndianLead(high, low / 256, n - 1);
    } else {
      assert BigEndian(high * 1 + 0, 1) == [high];
    }
  }

  /** The leading byte's place value. */
  lemma {:induction false} FromBigEndianLead(high: Byte, low: Bytes)
    ensures FromBigEndian([high] + low) == high * Pow256(|low|) + FromBigEndian(low)
  {
    if low == [] {
      assert ([high] + low)[..0] == [];
    } else {
      var init := low[..|low| - 1];
      FromBigEndianLead(high, init);
      assert ([high] + low)[..|low|] == [high] + init;
      assert high * Pow256(|low|) == 256 * (high * Pow256(|init|));
    }
  }

  /** Bitwise exclusive or of two `bits`-wide numbers, bit by bit. */
  function XorBits(a: nat, b: nat, bits: nat): (r: nat) {
    if bits == 0 then 0 else 2 * XorBits(a / 2, b / 2, bits - 1) + (a + b) % 2
  }

  function Pow2(n: nat): (r: nat)
    ensures r > 0
  {
    if n == 0 then 1 else 2 * Pow2(n - 1)
  }

  lemma {:induction false} LowBitCancels(a: nat, b: nat, high: nat)
    ensures var x := 2 * high + (a + b) % 2; x / 2 == high && (x + b) % 2 == a % 2
  {
    var d := (a + b) % 2;
    assert (2 * high + d + b) % 2 == (d + b) % 2;
    assert a + b == 2 * ((a + b) / 2) + d;
  }

  lemma {:induction false} XorBitsInvolution(a: nat, b: nat, bits: nat)
    requires a < Pow2(bits)
    ensures XorBits(a, b, bits) < Pow2(bits)
    ensures XorBits(XorBits(a, b, bits), b, bits) == a
  {
    if bits > 0 {
      XorBitsInvolution(a / 2, b / 2, bits - 1);
      LowBitCancels(a, b, XorBits(a / 2, b / 2, bits - 1));
    }
  }

  function Xor(a: Byte, b: Byte): (r: Byte)
    ensures XorBits(r, b, 8) == a
  {
    assert Pow2(8) == 256;
    XorBitsInvolution(a, b, 8);
    XorBits(a, b, 8)
  }

  /** Bit `i` of a number, the lowest being bit 0. */
  predicate Bit(x: nat, i: nat) {
    if i == 0 then x % 2 == 1 else Bit(x / 2, i - 1)
  }

  /** Exclusive or, bit by bit. */
  lemma {:induction false} XorIsBitwise(a: nat, b: nat, bits: nat, i: nat)
    requires i < bits
    ensures Bit(XorBits(a, b, bits), i) <==> Bit(a, i) != Bit(b, i)
    decreases i
  {
    var high := XorBits(a / 2, b / 2, bits - 1);
    assert XorBits(a, b, bits) / 2 == high;
    if i > 0 { XorIsBitwise(a / 2, b / 2, bits - 1, i - 1); }
  }

  /** XOR is its own inverse. */
  lemma {:induction false} XorInvolution(a: Byte, b: Byte)
    ensures Xor(Xor(a, b), b) == a
  {
  }

  /** The chunks laid end to end. */
  function Concat(chunks: seq<Bytes>): (r: Bytes) {
    if chunks == [] then [] else chunks[0] + Concat(chunks[1..])
  }

  lemma {:induction false} ConcatAppend(a: seq<Bytes>, b: seq<Bytes>)
    ensures Concat(a + b) == Concat(a) + Concat(b)
  {
    if a == [] {
      assert a + b == b;
    } else {
      ConcatAppend(a[1..], b);
      assert (a + b)[1..] == a[1..] + b;
      calc {
        Concat(a + b);
        a[0] + Concat(a[1..] + b);
        a[0] + (Concat(a[1..]) + Concat(b));
        a[0] + Concat(a[1..]) + Concat(b);
      }
    }
  }
}
