/** Bytes on the wire: the XOR masking of section 5.3 of RFC 6455 and
    big-endian unsigned integers (section 5.2 of RFC 6455, Go's encoding/binary). */
module Wire {

  type byte = x: int | 0 <= x < 256
  type Bytes = seq<byte>

  /** The 4-byte masking key a client puts in every frame header. */
  type MaskKey = k: Bytes | |k| == 4 witness [0, 0, 0, 0]

  function Pow2(k: nat): (r: nat)
    ensures r >= 1
  {
    if k == 0 then 1 else 2 * Pow2(k - 1)
  }

  function Pow256(w: nat): (r: nat)
    ensures r >= 1
  {
    if w == 0 then 1 else 256 * Pow256(w - 1)
  }

  /** Bitwise exclusive or of the low k bits of a and b. */
  function XorBits(a: nat, b: nat, k: nat): (r: nat)
    ensures r < Pow2(k)
  {
    if k == 0 then 0 else (a % 2 + b % 2) % 2 + 2 * XorBits(a / 2, b / 2, k - 1)
  }

  function Xor(a: byte, b: byte): byte
  {
    assert Pow2(8) == 256;
    XorBits(a, b, 8)
  }

  /** The low k bits of a, bit by bit. */
  function LowBits(a: nat, k: nat): nat
  {
    if k == 0 then 0 else a % 2 + 2 * LowBits(a / 2, k - 1)
  }

  lemma {:induction false} LowBitsOfSmall(a: nat, k: nat)
    requires a < Pow2(k)
    ensures LowBits(a, k) == a
  {
    if k > 0 {
      LowBitsOfSmall(a / 2, k - 1);
    }
  }

  /** A low bit x below the higher bits rest splits back into x and rest. */
  lemma HalfOf(x: nat, rest: nat)
    requires x < 2
    ensures (x + 2 * rest) % 2 == x && (x + 2 * rest) / 2 == rest
  {
  }

  /** XOR of one bit with the same bit twice gives it back. */
  lemma BitTwice(a: nat, b: nat)
    requires a < 2 && b < 2
    ensures ((a + b) % 2 + b) % 2 == a
  {
  }

  /** XOR with the same b twice gives back the low k bits of a. */
  lemma {:induction false} XorBitsTwice(a: nat, b: nat, k: nat)
    ensures XorBits(XorBits(a, b, k), b, k) == LowBits(a, k)
  {
    if k > 0 {
      var x := (a % 2 + b % 2) % 2;
      var rest := XorBits(a / 2, b / 2, k - 1);
      var r := x + 2 * rest;
      assert XorBits(a, b, k) == r;
      HalfOf(x, rest);
      BitTwice(a % 2, b % 2);
      XorBitsTwice(a / 2, b / 2, k - 1);
      assert XorBits(r, b, k) == (x + b % 2) % 2 + 2 * XorBits(rest, b / 2, k - 1);
    }
  }

  lemma XorTwice(a: byte, b: byte)
    ensures Xor(Xor(a, b), b) == a
  {
    XorBitsTwice(a, b, 8);
    LowBitsOfSmall(a, 8);
  }

  /** Masks (or unmasks) payload bytes as section 5.3 of RFC 6455 says:
      byte i is XORed with byte i mod 4 of the key. */
  function Mask(p: Bytes, key: MaskKey): (r: Bytes)
    ensures |r| == |p|
  {
    seq(|p|, i requires 0 <= i < |p| => Xor(p[i], key[i % 4]))
  }

  /** Masking is its own inverse: the receiver unmasks with the same key. */
  lemma {:induction false} MaskTwice(p: Bytes, key: MaskKey)
    ensures Mask(Mask(p, key), key) == p
  {
    var m := Mask(p, key);
    forall i | 0 <= i < |p|
      ensures Mask(m, key)[i] == p[i]
    {
      XorTwice(p[i], key[i % 4]);
    }
  }

  /** n written on w bytes, most significant byte first. */
  function BigEndian(n: nat, w: nat): (r: Bytes)
    requires n < Pow256(w)
    ensures |r| == w
  {
    if w == 0 then [] else BigEndian(n / 256, w - 1) + [n % 256]
  }

  /** The unsigned integer that bs holds, most significant byte first. */
  function FromBigEndian(bs: Bytes): (n: nat)
    ensures n < Pow256(|bs|)
  {
    if bs == [] then 0 else FromBigEndian(bs[..|bs| - 1]) * 256 + bs[|bs| - 1]
  }

  lemma {:induction false} BigEndianRoundTrip(n: nat, w: nat)
    requires n < Pow256(w)
    ensures FromBigEndian(BigEndian(n, w)) == n
  {
    if w > 0 {
      var bs := BigEndian(n, w);
      assert bs[..|bs| - 1] == BigEndian(n / 256, w - 1);
      BigEndianRoundTrip(n / 256, w - 1);
    }
  }
}
