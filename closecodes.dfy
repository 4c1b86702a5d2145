/** The decisions Conn.emitError and Conn.emitClose take (conn.go): which
    status code answers an error or a peer's close frame, what the outgoing
    close payload holds, and what OnClose is told. */
module CloseCodes {
  import opened Wire
  import opened Utf8
  import opened Errors
  import opened Header
  import opened Frames

  /** emitError: the status code sent for an error. */
  function ResponseCode(err: Error): StatusCode
  {
    match err
    case Status(code) => code
    case Coded(code, _) => code
    case _ => CloseNormalClosure
  }

  /** The error value handed to OnClose. */
  datatype CloseReason =
    | NormalClosureErr                          // internal.CloseNormalClosure itself
    | ErrValue(err: Error)                      // an error value passed through
    | PeerClose(code: uint16, reason: Bytes)    // &CloseError{Code, Reason}

  /** emitError: what OnClose receives for an error. */
  function ResponseErr(err: Error): CloseReason
  {
    match err
    case Status(_) => NormalClosureErr
    case Coded(_, cause) => ErrValue(cause)
    case _ => ErrValue(err)
  }

  function Truncate(s: Bytes, limit: nat): (r: Bytes)
  {
    if |s| > limit then s[..limit] else s
  }

  /** emitError: the close payload, the code's two bytes then the error's
      text, cut to ThresholdV1 bytes. */
  function CloseContent(err: Error, ints: Internals): (r: Bytes)
    ensures |r| <= ints.thresholdV1
  {
    Truncate(CodeBytes(ResponseCode(err)) + ErrorText(err, ints), ints.thresholdV1)
  }

  /** emitError's choice of code: a bare StatusCode answers with itself, an
      *internal.Error with its Code, anything else with CloseNormalClosure. */
  lemma ResponseCodeCases(err: Error)
    ensures err.Status? ==> ResponseCode(err) == err.code && ResponseErr(err) == NormalClosureErr
    ensures err.Coded? ==> ResponseCode(err) == err.code && ResponseErr(err) == ErrValue(err.cause)
    ensures !err.Status? && !err.Coded? ==>
      ResponseCode(err) == CloseNormalClosure && ResponseErr(err) == ErrValue(err)
  {
  }

  /** The close payload is never longer than ThresholdV1, keeps the start of
      code ++ text, and cuts only what exceeds the limit; when the limit leaves
      room for two bytes the code itself is never cut. */
  lemma {:induction false} CloseContentBounded(err: Error, ints: Internals)
    ensures var full := CodeBytes(ResponseCode(err)) + ErrorText(err, ints);
      var c := CloseContent(err, ints);
      && |c| == (if |full| > ints.thresholdV1 then ints.thresholdV1 else |full|)
      && c == full[..|c|]
      && (ints.thresholdV1 >= 2 ==> c[..2] == CodeBytes(ResponseCode(err)))
  {
    var full := CodeBytes(ResponseCode(err)) + ErrorText(err, ints);
    var c := CloseContent(err, ints);
    if ints.thresholdV1 >= 2 {
      assert c[..2] == full[..2];
    }
  }

  /** emitClose's verdict on the code a peer sent in a close frame of two or
      more bytes. */
  function ClassifyPeerCode(realCode: uint16): (r: StatusCode)
    ensures AcceptedPeerCode(r)
  {
    if realCode in {1004, 1005, 1006, 1014, 1015} then CloseProtocolError
    else if realCode < 1000 || realCode >= 5000 || (1016 <= realCode < 3000) then CloseProtocolError
    else if realCode < 1016 then CloseNormalClosure
    else realCode
  }

  /** The codes a peer may put in a close frame: the ones section 7.4.1 of
      RFC 6455 defines for use on the wire (1000-1003, 1007-1011), 1012 and
      1013 from the IANA registry, and the ranges 3000-4999 of section 7.4.2. */
  predicate AcceptedPeerCode(code: uint16)
  {
    (1000 <= code <= 1003) || (1007 <= code <= 1013) || (3000 <= code < 5000)
  }

  /** The classification in terms of the accepted codes: refused codes get
      CloseProtocolError, accepted codes below 3000 get CloseNormalClosure,
      accepted codes from 3000 are echoed; so the reply is always a code that
      may be sent. */
  lemma ClassifyPeerCodeMeaning(code: uint16)
    ensures ClassifyPeerCode(code) == CloseProtocolError <==> !AcceptedPeerCode(code)
    ensures AcceptedPeerCode(code) && code < 3000 ==> ClassifyPeerCode(code) == CloseNormalClosure
    ensures AcceptedPeerCode(code) && code >= 3000 ==> ClassifyPeerCode(code) == code
    ensures AcceptedPeerCode(ClassifyPeerCode(code))
  {
  }

  /** What emitClose makes of a peer's close payload: the code it answers
      with, the code the peer sent (realCode) and the reason left in the buffer. */
  datatype PeerCloseOutcome = PeerCloseOutcome(response: StatusCode, realCode: uint16, reason: Bytes)

  function ReadPeerClose(cfg: Config, payload: Bytes): (o: PeerCloseOutcome)
    ensures |payload| >= 2 ==> AcceptedPeerCode(o.response) && o.reason == payload[2..]
    ensures |payload| < 2 ==> o.reason == [] && (o.response == 0 <==> |payload| == 0)
  {
    if |payload| == 0 then PeerCloseOutcome(0, 0, [])
    else if |payload| == 1 then PeerCloseOutcome(CloseProtocolError, payload[0], [])
    else
      var realCode := FromBigEndian(payload[..2]);
      var reason := payload[2..];
      var response := ClassifyPeerCode(realCode);
      PeerCloseOutcome(
        if IsTextValid(cfg, OpcodeCloseConnection, reason) then response else CloseUnsupportedData,
        realCode, reason)
  }

  /** Short close payloads: an empty one carries no code (0 both ways); a
      single byte is a protocol error, reported with that byte as the code and
      an empty reason. */
  lemma ShortPeerClose(cfg: Config, payload: Bytes)
    requires |payload| < 2
    ensures |payload| == 0 ==> ReadPeerClose(cfg, payload) == PeerCloseOutcome(0, 0, [])
    ensures |payload| == 1 ==> ReadPeerClose(cfg, payload) == PeerCloseOutcome(CloseProtocolError, payload[0], [])
  {
  }

  /** For payloads of two bytes or more the code is read big-endian from the
      first two bytes and the reason is the rest; an ill-formed UTF-8 reason
      (checking on) turns the answer into CloseUnsupportedData. */
  lemma {:induction false} LongPeerClose(cfg: Config, payload: Bytes)
    requires |payload| >= 2
    ensures var o := ReadPeerClose(cfg, payload);
      && o.realCode == payload[0] as int * 256 + payload[1] as int
      && o.reason == payload[2..]
      && (cfg.CheckUtf8Enabled && !ValidUtf8(payload[2..]) ==> o.response == CloseUnsupportedData)
      && (!cfg.CheckUtf8Enabled || ValidUtf8(payload[2..]) ==> o.response == ClassifyPeerCode(o.realCode))
  {
    var two := payload[..2];
    assert two[..1] == [payload[0]] && two[..1][..0] == [];
    assert FromBigEndian(two) == FromBigEndian([payload[0]]) * 256 + payload[1];
  }

  /** The two halves agree: a peer reading the close payload emitError sends
      recovers the status code and the (truncated) text, provided ThresholdV1
      leaves room for the code. */
  lemma {:induction false} PeerReadsCloseContent(cfg: Config, err: Error, ints: Internals)
    requires ints.thresholdV1 >= 2
    ensures var o := ReadPeerClose(cfg, CloseContent(err, ints));
      && o.realCode == ResponseCode(err)
      && o.reason == Truncate(ErrorText(err, ints), ints.thresholdV1 - 2)
  {
    var c := CloseContent(err, ints);
    CloseContentBounded(err, ints);
    assert c[..2] == CodeBytes(ResponseCode(err));
    BigEndianRoundTrip(ResponseCode(err), 2);
  }
}
