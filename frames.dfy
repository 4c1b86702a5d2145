/** What Conn.genFrame produces for one outgoing message (writer.go), as a
    function of the connection's settings, the opcode, the payload and the
    mask key; and a reference reader for frames (section 5.2 of RFC 6455)
    against which the produced bytes are checked. */
module Frames {
  import opened Wire
  import opened Utf8
  import opened Errors
  import opened Header

  /** The options genFrame reads (Config), and the compressor that
      config.compressors.Select() hands out, as a function: it yields the
      deflated bytes (RFC 7692) or an error. */
  datatype Config = Config(
    CompressThreshold: int64,
    WriteMaxPayloadSize: int64,
    CheckUtf8Enabled: bool,
    compress: Bytes -> Result<Bytes>)

  /** Conn.isTextValid: only text and close payloads are checked, and only
      when UTF-8 checking is on. */
  function IsTextValid(cfg: Config, opcode: Opcode, payload: Bytes): (r: bool)
    ensures !r ==> cfg.CheckUtf8Enabled && !ValidUtf8(payload)
    ensures !r ==> opcode == OpcodeText || opcode == OpcodeCloseConnection
  {
    if !cfg.CheckUtf8Enabled then true
    else if opcode == OpcodeText || opcode == OpcodeCloseConnection then ValidUtf8(payload)
    else true
  }

  /** isTextValid accepts every payload with checking off or for opcodes
      other than text and close, and otherwise exactly the well-formed ones;
      ASCII payloads always pass. */
  lemma IsTextValidCases(cfg: Config, opcode: Opcode, payload: Bytes)
    ensures IsTextValid(cfg, opcode, payload) <==>
      !cfg.CheckUtf8Enabled || (opcode != OpcodeText && opcode != OpcodeCloseConnection) || ValidUtf8(payload)
    ensures (forall i :: 0 <= i < |payload| ==> payload[i] <= 0x7F) ==> IsTextValid(cfg, opcode, payload)
  {
    if forall i :: 0 <= i < |payload| ==> payload[i] <= 0x7F {
      AsciiIsValid(payload);
    }
  }

  /** The condition under which genFrame takes the compressed path: never
      for close, ping or pong, and only on a connection that negotiated
      compression. */
  function Compresses(compressEnabled: bool, cfg: Config, opcode: Opcode, payload: Bytes): (r: bool)
    ensures r ==> compressEnabled
    ensures r ==> opcode != OpcodeCloseConnection && opcode != OpcodePing && opcode != OpcodePong
  {
    compressEnabled && IsDataFrame(opcode) && |payload| >= cfg.CompressThreshold
  }

  /** A final frame: header, then the payload, masked when a client sends it. */
  function Assemble(isServer: bool, compressed: bool, opcode: Opcode, payload: Bytes, key: MaskKey): Bytes
    requires |payload| < MaxLength
  {
    GenerateHeader(isServer, true, compressed, opcode, |payload|, key)
      + (if isServer then payload else Mask(payload, key))
  }

  /** Conn.compressData: the size limit applies to the compressed bytes. A
      frame is built only from compressor output within the limit, with RSV1
      and FIN set; otherwise the error is the compressor's or
      CloseMessageTooLarge. */
  function CompressedFrame(cfg: Config, isServer: bool, opcode: Opcode, payload: Bytes, key: MaskKey): (r: Result<Bytes>)
    ensures r.Ok? ==> cfg.compress(payload).Ok? && |cfg.compress(payload).value| <= cfg.WriteMaxPayloadSize
    ensures r.Ok? ==> |r.value| == HeaderLength(isServer, |cfg.compress(payload).value|) + |cfg.compress(payload).value|
    ensures r.Ok? ==> r.value[0] == 0x80 + 0x40 + opcode
    ensures r.Err? ==> r.error == Status(CloseMessageTooLarge) || cfg.compress(payload) == Err(r.error)
  {
    match cfg.compress(payload)
    case Err(e) => Err(e)
    case Ok(z) =>
      if |z| > cfg.WriteMaxPayloadSize then Err(Status(CloseMessageTooLarge))
      else Ok(Assemble(isServer, true, opcode, z, key))
  }

  /** Conn.genFrame. It fails for one of three reasons only: an ill-formed
      text payload, a payload over the limit, or a compressor error. */
  function FrameFor(cfg: Config, isServer: bool, compressEnabled: bool, opcode: Opcode, payload: Bytes, key: MaskKey): (r: Result<Bytes>)
    ensures r.Err? ==>
      || r.error == Coded(CloseUnsupportedData, TextEncoding)
      || r.error == Status(CloseMessageTooLarge)
      || cfg.compress(payload) == Err(r.error)
    ensures r.Ok? && opcode == OpcodeText ==> IsTextValid(cfg, opcode, payload)
  {
    if opcode == OpcodeText && !IsTextValid(cfg, opcode, payload) then
      Err(Coded(CloseUnsupportedData, TextEncoding))
    else if Compresses(compressEnabled, cfg, opcode, payload) then
      CompressedFrame(cfg, isServer, opcode, payload, key)
    else if |payload| > cfg.WriteMaxPayloadSize then
      Err(Status(CloseMessageTooLarge))
    else
      Ok(Assemble(isServer, false, opcode, payload, key))
  }

  /** The payload genFrame puts on the wire (before masking): the compressor's
      output on the compressed path, the payload itself otherwise. */
  function SentPayload(cfg: Config, compressEnabled: bool, opcode: Opcode, payload: Bytes): Bytes
  {
    if Compresses(compressEnabled, cfg, opcode, payload) && cfg.compress(payload).Ok? then
      cfg.compress(payload).value
    else payload
  }

  datatype ParsedFrame = ParsedFrame(header: FrameHeader, payload: Bytes)

  /** Reads one whole frame: a header, then exactly the payload it announces,
      unmasked with the header's key when the mask bit is set. */
  function ParseFrame(f: Bytes): Option<ParsedFrame>
  {
    match ParseHeader(f)
    case None => None
    case Some(h) =>
      if |f| - h.size != h.length then None
      else
        var body := f[h.size..];
        if h.masked && |h.key| == 4 then Some(ParsedFrame(h, Mask(body, h.key)))
        else if h.masked then None
        else Some(ParsedFrame(h, body))
  }

  /** Every frame genFrame builds reads back as one final frame with the
      requested opcode, RSV1 set exactly on the compressed path, the mask bit
      set exactly when a client sends, and the sent payload: the original
      bytes, or the compressor's output. A server's payload bytes follow the
      header unchanged; a client's are XOR-masked with the header's key. */
  lemma {:induction false} FrameRoundTrip(cfg: Config, isServer: bool, compressEnabled: bool,
                                          opcode: Opcode, payload: Bytes, key: MaskKey)
    requires FrameFor(cfg, isServer, compressEnabled, opcode, payload, key).Ok?
    ensures var f := FrameFor(cfg, isServer, compressEnabled, opcode, payload, key).value;
      var sent := SentPayload(cfg, compressEnabled, opcode, payload);
      var compressed := Compresses(compressEnabled, cfg, opcode, payload);
      var size := HeaderLength(isServer, |sent|);
      && size <= |f|
      && f[..size] == GenerateHeader(isServer, true, compressed, opcode, |sent|, key)
      && f[size..] == (if isServer then sent else Mask(sent, key))
      && ParseFrame(f) == Some(ParsedFrame(
           FrameHeader(true, compressed, opcode, !isServer, |sent|, if isServer then [] else key, size),
           sent))
  {
    var sent := SentPayload(cfg, compressEnabled, opcode, payload);
    var compressed := Compresses(compressEnabled, cfg, opcode, payload);
    var h := GenerateHeader(isServer, true, compressed, opcode, |sent|, key);
    var body := if isServer then sent else Mask(sent, key);
    assert FrameFor(cfg, isServer, compressEnabled, opcode, payload, key).value == h + body;
    HeaderRoundTrip(isServer, true, compressed, opcode, |sent|, key, body);
    if !isServer {
      MaskTwice(sent, key);
    }
  }

  /** With UTF-8 checking on, a text frame with an invalid payload is refused
      with an error carrying CloseUnsupportedData, and nothing is built. */
  lemma RejectsInvalidText(cfg: Config, isServer: bool, compressEnabled: bool, payload: Bytes, key: MaskKey)
    requires cfg.CheckUtf8Enabled && !ValidUtf8(payload)
    ensures FrameFor(cfg, isServer, compressEnabled, OpcodeText, payload, key)
         == Err(Coded(CloseUnsupportedData, TextEncoding))
  {
  }

  /** genFrame checks UTF-8 for text frames only: for any other opcode the
      frame is the same whether checking is on or off. */
  lemma Utf8CheckOnlyForText(cfg: Config, isServer: bool, compressEnabled: bool,
                             opcode: Opcode, payload: Bytes, key: MaskKey)
    requires opcode != OpcodeText
    ensures FrameFor(cfg, isServer, compressEnabled, opcode, payload, key)
         == FrameFor(cfg.(CheckUtf8Enabled := false), isServer, compressEnabled, opcode, payload, key)
  {
  }

  /** Control frames are never compressed: their RSV1 bit stays clear. */
  lemma {:induction false} ControlFramesNotCompressed(cfg: Config, isServer: bool, compressEnabled: bool,
                                                      opcode: Opcode, payload: Bytes, key: MaskKey)
    requires !IsDataFrame(opcode)
    requires FrameFor(cfg, isServer, compressEnabled, opcode, payload, key).Ok?
    ensures var f := FrameFor(cfg, isServer, compressEnabled, opcode, payload, key).value;
      ParseFrame(f).Some? && !ParseFrame(f).value.header.rsv1 && f[0] < 0x40 + 0x80
  {
    assert !Compresses(compressEnabled, cfg, opcode, payload);
    FrameRoundTrip(cfg, isServer, compressEnabled, opcode, payload, key);
  }

  /** On the plain path a payload longer than WriteMaxPayloadSize is refused
      with CloseMessageTooLarge before anything is built. */
  lemma PlainPathTooLarge(cfg: Config, isServer: bool, compressEnabled: bool,
                          opcode: Opcode, payload: Bytes, key: MaskKey)
    requires opcode != OpcodeText || IsTextValid(cfg, opcode, payload)
    requires !Compresses(compressEnabled, cfg, opcode, payload)
    ensures FrameFor(cfg, isServer, compressEnabled, opcode, payload, key).Err?
        <==> |payload| > cfg.WriteMaxPayloadSize
    ensures |payload| > cfg.WriteMaxPayloadSize ==>
      FrameFor(cfg, isServer, compressEnabled, opcode, payload, key) == Err(Status(CloseMessageTooLarge))
  {
  }

  /** On the compressed path the limit is checked against the compressed size,
      whatever the length of the original payload; a compressor error is
      passed through as it is. */
  lemma CompressedPathLimit(cfg: Config, isServer: bool, compressEnabled: bool,
                            opcode: Opcode, payload: Bytes, key: MaskKey)
    requires opcode != OpcodeText || IsTextValid(cfg, opcode, payload)
    requires Compresses(compressEnabled, cfg, opcode, payload)
    ensures cfg.compress(payload).Err? ==>
      FrameFor(cfg, isServer, compressEnabled, opcode, payload, key) == Err(cfg.compress(payload).error)
    ensures cfg.compress(payload).Ok? ==>
      (FrameFor(cfg, isServer, compressEnabled, opcode, payload, key).Err? <==>
       |cfg.compress(payload).value| > cfg.WriteMaxPayloadSize)
  {
  }

  /** Whatever the path, the payload a built frame announces never exceeds
      WriteMaxPayloadSize. */
  lemma {:induction false} FramePayloadWithinLimit(cfg: Config, isServer: bool, compressEnabled: bool,
                                                   opcode: Opcode, payload: Bytes, key: MaskKey)
    requires FrameFor(cfg, isServer, compressEnabled, opcode, payload, key).Ok?
    ensures var p := ParseFrame(FrameFor(cfg, isServer, compressEnabled, opcode, payload, key).value);
      p.Some? && p.value.header.length <= cfg.WriteMaxPayloadSize
  {
    var sent := SentPayload(cfg, compressEnabled, opcode, payload);
    assert |sent| <= cfg.WriteMaxPayloadSize by {
      if Compresses(compressEnabled, cfg, opcode, payload) {
        assert cfg.compress(payload).Ok?;
      }
    }
    FrameRoundTrip(cfg, isServer, compressEnabled, opcode, payload, key);
  }
}
