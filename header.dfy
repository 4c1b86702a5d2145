/** The frame header of section 5.2 of RFC 6455, as frameHeader.GenerateHeader
    writes it, and a reference reader for it.

      byte 0: FIN (0x80) | RSV1 (0x40, per-message deflate, RFC 7692) | opcode
      byte 1: MASK (0x80) | 7-bit length (126: 16-bit length follows, 127: 64-bit)
      then the extended length, big-endian, then the 4-byte mask key if MASK. */
module Header {
  import opened Wire
  import opened Errors

  type Opcode = x: int | 0 <= x < 16

  const OpcodeContinuation: Opcode := 0
  const OpcodeText: Opcode := 1
  const OpcodeBinary: Opcode := 2
  const OpcodeCloseConnection: Opcode := 8
  const OpcodePing: Opcode := 9
  const OpcodePong: Opcode := 10

  /** Opcode.isDataFrame: continuation, text and binary frames. */
  predicate IsDataFrame(op: Opcode)
  {
    op <= OpcodeBinary
  }

  /** The largest header: 2 fixed bytes, 8 length bytes and a 4-byte mask key. */
  const FrameHeaderSize: nat := 14

  /** Payload lengths the 64-bit length field can carry. */
  const MaxLength: nat := 0x1_0000_0000_0000_0000

  /** The 7-bit length and its extension, chosen by magnitude: lengths up
      to 125 fit the 7 bits, 126 announces a 16-bit and 127 a 64-bit
      extension, which reads back as n. */
  function LengthField(n: nat): (r: Bytes)
    requires n < MaxLength
    ensures |r| == (if n <= 125 then 1 else if n <= 0xFFFF then 3 else 9)
    ensures r[0] == (if n <= 125 then n else if n <= 0xFFFF then 126 else 127)
    ensures |r| > 1 ==> FromBigEndian(r[1..]) == n
  {
    Pow256Values();
    if n <= 125 then [n]
    else if n <= 0xFFFF then
      BigEndianRoundTrip(n, 2);
      assert ([126] + BigEndian(n, 2))[1..] == BigEndian(n, 2);
      [126] + BigEndian(n, 2)
    else
      BigEndianRoundTrip(n, 8);
      assert ([127] + BigEndian(n, 8))[1..] == BigEndian(n, 8);
      [127] + BigEndian(n, 8)
  }

  /** frameHeader.GenerateHeader: the header of a frame with payload length n;
      a client (not isServer) masks, with the given key. */
  function GenerateHeader(isServer: bool, fin: bool, compressed: bool, opcode: Opcode, n: nat, key: MaskKey): (h: Bytes)
    requires n < MaxLength
    ensures 2 <= |h| <= FrameHeaderSize
    ensures |h| == HeaderLength(isServer, n)
  {
    var b0 := (if fin then 0x80 else 0) + (if compressed then 0x40 else 0) + opcode;
    var len := LengthField(n);
    [b0, (if isServer then 0 else 0x80) + len[0]] + len[1..] + (if isServer then [] else key)
  }

  /** The header size section 5.2 of RFC 6455 prescribes for payload length n. */
  function HeaderLength(isServer: bool, n: nat): nat
  {
    2 + (if n <= 125 then 0 else if n <= 0xFFFF then 2 else 8) + (if isServer then 0 else 4)
  }

  datatype FrameHeader = FrameHeader(
    fin: bool, rsv1: bool, opcode: Opcode, masked: bool, length: nat, key: Bytes, size: nat)

  /** Reads a header from the front of h (size is the number of bytes it takes). */
  function ParseHeader(h: Bytes): (r: Option<FrameHeader>)
    ensures r.Some? ==> r.value.size <= |h|
  {
    if |h| < 2 then None
    else
      var b0, b1 := h[0], h[1];
      var masked := b1 >= 0x80;
      var len7 := b1 % 0x80;
      var ext := if len7 == 126 then 2 else if len7 == 127 then 8 else 0;
      var size := 2 + ext + (if masked then 4 else 0);
      if |h| < size then None
      else
        var length := if ext == 0 then len7 else FromBigEndian(h[2..2 + ext]);
        Some(FrameHeader(b0 >= 0x80, b0 % 0x80 >= 0x40, b0 % 16, masked, length,
                         if masked then h[2 + ext..size] else [], size))
  }

  /** The bit fields of the first two header bytes read back. */
  lemma FirstBytes(isServer: bool, fin: bool, compressed: bool, opcode: Opcode, len0: byte)
    requires len0 < 0x80
    ensures var b0 := (if fin then 0x80 else 0) + (if compressed then 0x40 else 0) + opcode;
      var b1 := (if isServer then 0 else 0x80) + len0;
      && (b0 >= 0x80 <==> fin) && (b0 % 0x80 >= 0x40 <==> compressed) && b0 % 16 == opcode
      && (b1 >= 0x80 <==> !isServer) && b1 % 0x80 == len0
  {
  }

  lemma Pow256Values()
    ensures Pow256(2) == 0x1_0000 && Pow256(8) == MaxLength
  {
  }

  /** What ParseHeader reads from the bytes of a header: the extended length
      taking ext bytes after the first two. */
  lemma {:induction false} ParseHeaderOf(f: Bytes, fin: bool, rsv1: bool, opcode: Opcode, masked: bool,
                                         len7: nat, ext: nat, length: nat, key: Bytes)
    requires |f| >= 2 + ext + |key|
    requires f[0] >= 0x80 <==> fin
    requires f[0] % 0x80 >= 0x40 <==> rsv1
    requires f[0] % 16 == opcode
    requires f[1] >= 0x80 <==> masked
    requires f[1] % 0x80 == len7
    requires ext == (if len7 == 126 then 2 else if len7 == 127 then 8 else 0)
    requires length == (if ext == 0 then len7 else FromBigEndian(f[2..2 + ext]))
    requires |key| == (if masked then 4 else 0) && key == f[2 + ext..2 + ext + |key|]
    ensures ParseHeader(f) == Some(FrameHeader(fin, rsv1, opcode, masked, length, key, 2 + ext + |key|))
  {
  }

  /** Reading back a generated header, whatever follows it, gives the fields
      it was generated from. */
  lemma {:induction false} HeaderRoundTrip(isServer: bool, fin: bool, compressed: bool, opcode: Opcode,
                                           n: nat, key: MaskKey, rest: Bytes)
    requires n < MaxLength
    ensures var h := GenerateHeader(isServer, fin, compressed, opcode, n, key);
      ParseHeader(h + rest)
        == Some(FrameHeader(fin, compressed, opcode, !isServer, n, if isServer then [] else key, |h|))
  {
    var h := GenerateHeader(isServer, fin, compressed, opcode, n, key);
    var len := LengthField(n);
    var f := h + rest;
    var ext := |len| - 1;
    var k: Bytes := if isServer then [] else key;
    assert h == [f[0], f[1]] + len[1..] + k;
    assert f[0] == (if fin then 0x80 else 0) + (if compressed then 0x40 else 0) + opcode;
    assert f[1] == (if isServer then 0 else 0x80) + len[0];
    assert f[..|h|] == h;
    assert h[2..2 + ext] == len[1..];
    assert f[2..2 + ext] == len[1..];
    assert f[2 + ext..2 + ext + |k|] == k;
    FirstBytes(isServer, fin, compressed, opcode, len[0]);
    ParseHeaderOf(f, fin, compressed, opcode, !isServer, len[0], ext, n, k);
  }

  /** The length-field boundaries: 125 fits the 7-bit field, 126 and 65535
      take the 16-bit extension, 65536 the 64-bit one. */
  lemma LengthFieldBoundaries()
    ensures |LengthField(125)| == 1 && |LengthField(126)| == 3
    ensures |LengthField(0xFFFF)| == 3 && |LengthField(0x1_0000)| == 9
  {
  }
}
