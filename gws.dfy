/** A WebSocket connection's write paths and close/error state machine
    (Conn, writer.go and conn.go) and the Broadcaster that builds a message
    once per compression variant and fans it out (writer.go).

    The socket is an effect: every internal.WriteN of a whole frame, the
    deadline forced on an error, and every OnClose callback is appended to the
    connection's ghost log, and what WriteN returns is a parameter (ioErr).
    Goroutine scheduling is sequential: the atomic compare-and-swap on
    closed is a test-and-set, and the write queue is a list of tasks that
    RunWriteTask runs one at a time. */
module Gws {
  import opened Wire
  import opened Errors
  import opened Header
  import opened Frames
  import opened CloseCodes
  import opened Buffers

  const MaxInt32: nat := 0x7FFF_FFFF

  /** One observable step of a connection. */
  datatype Event =
    | Wrote(frame: Bytes, closing: bool)   // internal.WriteN of a frame; closing marks the close-handshake write
    | DeadlineNow                          // conn.SetDeadline(time.Now())
    | OnClose(reason: CloseReason)         // handler.OnClose

  /** A write waiting in a connection's writeQueue. */
  datatype Task =
    | AsyncWrite(frame: Bytes)                          // pushed by WriteAsync
    | BroadcastWrite(owner: Broadcaster, frame: Bytes)  // pushed by Broadcaster.Broadcast

  function TaskOwner(t: Task): set<object>
  {
    if t.BroadcastWrite? then {t.owner} else {}
  }

  /** The number of writes of Broadcaster b waiting in queue q. */
  function QueuedFor(q: seq<Task>, b: Broadcaster): nat
  {
    if q == [] then 0
    else (if q[0].BroadcastWrite? && q[0].owner == b then 1 else 0) + QueuedFor(q[1..], b)
  }

  lemma {:induction false} QueuedForAppend(q: seq<Task>, t: Task, b: Broadcaster)
    ensures QueuedFor(q + [t], b) == QueuedFor(q, b) + (if t.BroadcastWrite? && t.owner == b then 1 else 0)
  {
    if q == [] {
      assert [t][1..] == [];
    } else {
      assert (q + [t])[1..] == q[1..] + [t];
      QueuedForAppend(q[1..], t, b);
    }
  }

  /** Broadcaster b counts as pending on connection c exactly the writes of b
      that wait in c's queue. */
  ghost predicate Linked(b: Broadcaster, c: Conn)
    reads b, c
  {
    b.holders[c] == QueuedFor(c.writeQueue, b)
  }

  /** The events of one doWrite: the frame is written when it could be built. */
  function Attempt(r: Result<Bytes>, closing: bool): seq<Event>
  {
    if r.Ok? then [Wrote(r.value, closing)] else []
  }

  /** Number of OnClose callbacks in a log. */
  function Callbacks(log: seq<Event>): nat
  {
    if log == [] then 0 else Callbacks(log[..|log| - 1]) + (if log[|log| - 1].OnClose? then 1 else 0)
  }

  /** Number of close-handshake frames written in a log. */
  function ClosingWrites(log: seq<Event>): nat
  {
    if log == [] then 0
    else ClosingWrites(log[..|log| - 1]) + (if log[|log| - 1].Wrote? && log[|log| - 1].closing then 1 else 0)
  }

  /** Number of frames written in a log. */
  function Writes(log: seq<Event>): nat
  {
    if log == [] then 0 else Writes(log[..|log| - 1]) + (if log[|log| - 1].Wrote? then 1 else 0)
  }

  /** No frame is written after an OnClose callback. */
  predicate NoWriteAfterClose(log: seq<Event>)
  {
    log == [] ||
    (NoWriteAfterClose(log[..|log| - 1]) && (log[|log| - 1].Wrote? ==> Callbacks(log[..|log| - 1]) == 0))
  }

  lemma {:induction false} LogAppend(a: seq<Event>, b: seq<Event>)
    ensures Callbacks(a + b) == Callbacks(a) + Callbacks(b)
    ensures ClosingWrites(a + b) == ClosingWrites(a) + ClosingWrites(b)
    ensures Writes(a + b) == Writes(a) + Writes(b)
    ensures NoWriteAfterClose(a + b) <==>
      NoWriteAfterClose(a) && NoWriteAfterClose(b) && (Callbacks(a) == 0 || Writes(b) == 0)
  {
    if b == [] {
      assert a + b == a;
    } else {
      var b' := b[..|b| - 1];
      assert (a + b)[..|a + b| - 1] == a + b';
      LogAppend(a, b');
    }
  }

  /** The counters of a one-event log. */
  lemma SingleEvent(e: Event)
    ensures Callbacks([e]) == (if e.OnClose? then 1 else 0)
    ensures ClosingWrites([e]) == (if e.Wrote? && e.closing then 1 else 0)
    ensures Writes([e]) == (if e.Wrote? then 1 else 0)
    ensures NoWriteAfterClose([e])
  {
    assert [e][..0] == [];
  }

  /** A doWrite adds at most one write and never a callback. */
  lemma AttemptCounts(r: Result<Bytes>, closing: bool)
    ensures Callbacks(Attempt(r, closing)) == 0
    ensures ClosingWrites(Attempt(r, closing)) == (if r.Ok? && closing then 1 else 0)
    ensures Writes(Attempt(r, closing)) == (if r.Ok? then 1 else 0)
    ensures NoWriteAfterClose(Attempt(r, closing))
  {
    if r.Ok? {
      SingleEvent(Wrote(r.value, closing));
    }
  }

  /** The close transition's events: at most the close frame, then the
      deadline and exactly one callback, with nothing written after it. */
  lemma {:induction false} TransitionCounts(r: Result<Bytes>, reason: CloseReason)
    ensures var t := Attempt(r, true) + [DeadlineNow, OnClose(reason)];
      && Callbacks(t) == 1 && ClosingWrites(t) <= 1 && NoWriteAfterClose(t)
  {
    AttemptCounts(r, true);
    SingleEvent(DeadlineNow);
    SingleEvent(OnClose(reason));
    LogAppend([DeadlineNow], [OnClose(reason)]);
    assert [DeadlineNow] + [OnClose(reason)] == [DeadlineNow, OnClose(reason)];
    LogAppend(Attempt(r, true), [DeadlineNow, OnClose(reason)]);
  }

  /** The sequence steps of compressData: copying the header into the tail of
      the padding, then skipping the padding's unused front, leaves exactly
      header ++ body. */
  lemma PaddingSplice(padding: Bytes, header: Bytes, body: Bytes)
    requires |header| <= |padding|
    ensures var skip := |padding| - |header|;
      && (padding + body)[..skip] + header + (padding + body)[skip + |header|..] == padding[..skip] + header + body
      && (padding[..skip] + header + body)[skip..] == header + body
  {
    var skip := |padding| - |header|;
    assert (padding + body)[..skip] == padding[..skip];
    assert (padding + body)[skip + |header|..] == body;
  }

  /** The end of compressData: the header is copied into the tail of the
      padding and the unused front of the padding is skipped, so the buffer
      then holds the header directly followed by the body. */
  method HeaderIntoPadding(buf: Buffer, padding: Bytes, header: Bytes, body: Bytes)
    requires buf.Valid() && buf.Bytes() == padding + body && |header| <= |padding|
    modifies buf
    ensures buf.Valid() && buf.Bytes() == header + body
  {
    var skip := |padding| - |header|;
    var copied := buf.CopyAt(skip, header);
    assert copied == |header| && header[..copied] == header;
    PaddingSplice(padding, header, body);
    ghost var spliced := buf.Bytes();
    assert spliced == padding[..skip] + header + body;
    var skipped := buf.Next(skip);
    assert skipped + buf.Bytes() == spliced && |skipped| == skip;
    assert buf.Bytes() == spliced[skip..];
  }

  class Conn {
    const isServer: bool
    const compressEnabled: bool
    const config: Config
    const internals: Internals
    /** The random mask keys GenerateHeader draws, in the order drawn. */
    const maskKeys: nat -> MaskKey
    var keyDraws: nat
    /** The closed flag: false is 0, true is 1. */
    var closed: bool
    var writeQueue: seq<Task>
    ghost var log: seq<Event>

    /** Exactly one OnClose once closed and none before, at most one
        close-handshake frame, and nothing written after OnClose. */
    ghost predicate Valid()
      reads this
    {
      && Callbacks(log) == (if closed then 1 else 0)
      && ClosingWrites(log) <= Callbacks(log)
      && NoWriteAfterClose(log)
    }

    /** serveWebSocket. */
    constructor (isServer: bool, compressEnabled: bool, config: Config, internals: Internals, maskKeys: nat -> MaskKey)
      ensures Valid() && !closed && log == [] && writeQueue == [] && keyDraws == 0
      ensures this.isServer == isServer && this.compressEnabled == compressEnabled
      ensures this.config == config && this.internals == internals && this.maskKeys == maskKeys
    {
      this.isServer, this.compressEnabled := isServer, compressEnabled;
      this.config, this.internals, this.maskKeys := config, internals, maskKeys;
      keyDraws, closed, writeQueue, log := 0, false, [], [];
    }

    /** The frame genFrame builds when draws keys have been drawn before. */
    function FrameAt(opcode: Opcode, payload: Bytes, draws: nat): Result<Bytes>
    {
      FrameFor(config, isServer, compressEnabled, opcode, payload, maskKeys(draws))
    }

    /** Mask keys a build draws: one for each header a client generates. */
    function KeysUsed(r: Result<Bytes>): nat
    {
      if r.Ok? && !isServer then 1 else 0
    }

    /** The events of the close transition emitError performs for err. */
    ghost function CloseTransition(err: Error, draws: nat): seq<Event>
    {
      Attempt(FrameAt(OpcodeCloseConnection, CloseContent(err, internals), draws), true)
        + [DeadlineNow, OnClose(ResponseErr(err))]
    }

    ghost function CloseKeys(err: Error, draws: nat): nat
    {
      KeysUsed(FrameAt(OpcodeCloseConnection, CloseContent(err, internals), draws))
    }

    /** isClosed. */
    predicate IsClosed()
      reads this
    {
      closed
    }

    /** atomic.CompareAndSwapUint32(&c.closed, 0, 1). */
    method CasClosed() returns (swapped: bool)
      modifies this`closed
      ensures swapped == !old(closed) && closed
    {
      swapped := !closed;
      closed := true;
    }

    /** frameHeader.GenerateHeader with fin set: a client draws a fresh mask key. */
    method GenerateHeader(compressed: bool, opcode: Opcode, n: nat) returns (header: Bytes, maskKey: MaskKey)
      requires n < MaxLength
      modifies this`keyDraws
      ensures maskKey == maskKeys(old(keyDraws))
      ensures header == Header.GenerateHeader(isServer, true, compressed, opcode, n, maskKey)
      ensures keyDraws == old(keyDraws) + (if isServer then 0 else 1)
    {
      maskKey := maskKeys(keyDraws);
      if !isServer {
        keyDraws := keyDraws + 1;
      }
      header := Header.GenerateHeader(isServer, true, compressed, opcode, n, maskKey);
    }

    /** genFrame: validates, then builds header ++ payload in a fresh buffer,
        masking the payload in place for a client. */
    method GenFrame(opcode: Opcode, payload: Bytes) returns (frame: Buffer?, err: Option<Error>)
      modifies this`keyDraws
      ensures var r := FrameAt(opcode, payload, old(keyDraws));
        && keyDraws == old(keyDraws) + KeysUsed(r)
        && (r.Ok? ==> err.None? && frame != null && fresh(frame) && frame.Valid() && frame.Bytes() == r.value)
        && (r.Err? ==> err == Some(r.error) && frame == null)
    {
      ghost var r := FrameAt(opcode, payload, keyDraws);
      if opcode == OpcodeText && !IsTextValid(config, opcode, payload) {
        assert r == Err(Coded(CloseUnsupportedData, TextEncoding));
        return null, Some(Coded(CloseUnsupportedData, TextEncoding));
      }
      if compressEnabled && IsDataFrame(opcode) && |payload| >= config.CompressThreshold {
        assert r == CompressedFrame(config, isServer, opcode, payload, maskKeys(keyDraws));
        frame, err := CompressData(opcode, payload);
        return;
      }
      var n := |payload|;
      if n > config.WriteMaxPayloadSize {
        assert r == Err(Status(CloseMessageTooLarge));
        return null, Some(Status(CloseMessageTooLarge));
      }
      assert r == Ok(Assemble(isServer, false, opcode, payload, maskKeys(keyDraws)));
      var header, maskBytes := GenerateHeader(false, opcode, n);
      frame := FillFrame(header, payload, maskBytes);
      return frame, None;
    }

    /** The buffer genFrame fills on the uncompressed path: the header, then
        the payload, masked in place when a client sends it. */
    method FillFrame(header: Bytes, payload: Bytes, maskKey: MaskKey) returns (buf: Buffer)
      ensures fresh(buf) && buf.Valid()
      ensures buf.Bytes() == header + (if isServer then payload else Mask(payload, maskKey))
    {
      buf := new Buffer();
      buf.Write(header);
      buf.Write(payload);
      ghost var written := buf.Bytes();
      assert written == header + payload;
      assert written[..|header|] == header && written[|header|..] == payload;
      if !isServer {
        buf.MaskFrom(|header|, maskKey);
      }
    }

    /** compressData: compresses after FrameHeaderSize bytes of padding, then
        writes the header into the tail of the padding and skips the unused
        front of it. */
    method CompressData(opcode: Opcode, payload: Bytes) returns (frame: Buffer?, err: Option<Error>)
      modifies this`keyDraws
      ensures var r := CompressedFrame(config, isServer, opcode, payload, maskKeys(old(keyDraws)));
        && keyDraws == old(keyDraws) + KeysUsed(r)
        && (r.Ok? ==> err.None? && frame != null && fresh(frame) && frame.Valid() && frame.Bytes() == r.value)
        && (r.Err? ==> err == Some(r.error) && frame == null)
    {
      var buf := new Buffer();
      var padding: Bytes := seq(FrameHeaderSize, _ => 0);
      buf.Write(padding);
      var compressed := config.compress(payload);
      if compressed.Err? {
        return null, Some(compressed.error);
      }
      buf.Write(compressed.value);
      var payloadSize := buf.Len() - FrameHeaderSize;
      if payloadSize > config.WriteMaxPayloadSize {
        return null, Some(Status(CloseMessageTooLarge));
      }
      assert payloadSize == |compressed.value|;
      var header, maskBytes := GenerateHeader(true, opcode, payloadSize);
      var body := compressed.value;
      if !isServer {
        buf.MaskFrom(FrameHeaderSize, maskBytes);
        body := Mask(body, maskBytes);
      }
      assert buf.Bytes() == padding + body;
      HeaderIntoPadding(buf, padding, header, body);
      assert header + body == Assemble(isServer, true, opcode, compressed.value, maskKeys(old(keyDraws)));
      return buf, None;
    }

    /** doWrite: builds the frame and writes it; no closed check, so that the
        close frame can still be sent while the connection closes. */
    method DoWrite(opcode: Opcode, payload: Bytes, ioErr: Option<Error>, ghost closing: bool) returns (err: Option<Error>)
      modifies this`keyDraws, this`log
      ensures var r := FrameAt(opcode, payload, old(keyDraws));
        && keyDraws == old(keyDraws) + KeysUsed(r)
        && log == old(log) + Attempt(r, closing)
        && err == (if r.Err? then Some(r.error) else ioErr)
    {
      var frame, e := GenFrame(opcode, payload);
      if e.Some? {
        return e;
      }
      log := log + [Wrote(frame.Bytes(), closing)];
      return ioErr;
    }

    /** emitError: nil changes nothing; otherwise only the call that finds the
        connection open closes it, writes the close frame, forces the deadline
        and calls OnClose. */
    method EmitError(err: Option<Error>)
      requires Valid()
      modifies this`closed, this`keyDraws, this`log
      ensures Valid()
      ensures err.None? || old(closed) ==>
        closed == old(closed) && keyDraws == old(keyDraws) && log == old(log)
      ensures err.Some? ==> closed
      ensures err.Some? && !old(closed) ==>
        && log == old(log) + CloseTransition(err.value, old(keyDraws))
        && keyDraws == old(keyDraws) + CloseKeys(err.value, old(keyDraws))
    {
      if err.None? {
        return;
      }
      var e := err.value;
      var content := CloseContent(e, internals);
      var swapped := CasClosed();
      if swapped {
        ghost var before := log;
        var _ := DoWrite(OpcodeCloseConnection, content, None, true);
        log := log + [DeadlineNow, OnClose(ResponseErr(e))];
        ghost var r := FrameAt(OpcodeCloseConnection, content, old(keyDraws));
        TransitionCounts(r, ResponseErr(e));
        LogAppend(before, CloseTransition(e, old(keyDraws)));
        assert log == before + CloseTransition(e, old(keyDraws));
      }
    }

    /** WriteMessage: fails fast on a closed connection; otherwise writes and
        hands any error to emitError. */
    method WriteMessage(opcode: Opcode, payload: Bytes, ioErr: Option<Error>) returns (err: Option<Error>)
      requires Valid()
      modifies this`closed, this`keyDraws, this`log
      ensures Valid()
      ensures old(closed) ==>
        err == Some(ConnClosed) && closed && keyDraws == old(keyDraws) && log == old(log)
      ensures !old(closed) ==>
        var r := FrameAt(opcode, payload, old(keyDraws));
        var d := old(keyDraws) + KeysUsed(r);
        && err == (if r.Err? then Some(r.error) else ioErr)
        && closed == err.Some?
        && log == old(log) + Attempt(r, false) + (if err.Some? then CloseTransition(err.value, d) else [])
        && keyDraws == d + (if err.Some? then CloseKeys(err.value, d) else 0)
    {
      if IsClosed() {
        return Some(ConnClosed);
      }
      ghost var before := log;
      err := DoWrite(opcode, payload, ioErr, false);
      ghost var r := FrameAt(opcode, payload, old(keyDraws));
      AttemptCounts(r, false);
      LogAppend(before, Attempt(r, false));
      EmitError(err);
    }

    /** WriteAsync: builds the frame now (errors go to emitError and back to
        the caller) and queues only the socket write. */
    method WriteAsync(opcode: Opcode, payload: Bytes) returns (err: Option<Error>)
      requires Valid()
      modifies this`closed, this`keyDraws, this`log, this`writeQueue
      ensures Valid()
      ensures var r := FrameAt(opcode, payload, old(keyDraws));
        && err == (if r.Err? then Some(r.error) else None)
        && (r.Ok? ==>
              && writeQueue == old(writeQueue) + [AsyncWrite(r.value)]
              && closed == old(closed) && log == old(log) && keyDraws == old(keyDraws) + KeysUsed(r))
        && (r.Err? ==>
              && writeQueue == old(writeQueue) && closed
              && log == old(log) + (if old(closed) then [] else CloseTransition(r.error, old(keyDraws)))
              && keyDraws == old(keyDraws) + (if old(closed) then 0 else CloseKeys(r.error, old(keyDraws))))
    {
      var frame, e := GenFrame(opcode, payload);
      if e.Some? {
        EmitError(e);
        return e;
      }
      Push(AsyncWrite(frame.Bytes()));
      return None;
    }

    /** writeQueue.Push. The queued writes of every broadcaster but the
        task's own stay as they were; so pushing a broadcast write outside
        Broadcast unlinks its broadcaster from this connection. */
    method Push(t: Task)
      modifies this`writeQueue
      ensures writeQueue == old(writeQueue) + [t]
      ensures forall b: Broadcaster ::
        QueuedFor(writeQueue, b) == QueuedFor(old(writeQueue), b) + (if t.BroadcastWrite? && t.owner == b then 1 else 0)
    {
      forall b: Broadcaster {
        QueuedForAppend(writeQueue, t, b);
      }
      writeQueue := writeQueue + [t];
    }

    /** The body of a queued write on an open connection: the frame goes to
        the socket, and the socket's error, if any, closes the connection. */
    method WriteQueued(frame: Bytes, ioErr: Option<Error>)
      requires Valid() && !closed
      modifies this`closed, this`keyDraws, this`log
      ensures Valid() && closed == ioErr.Some?
      ensures log == old(log) + [Wrote(frame, false)]
               + (if ioErr.Some? then CloseTransition(ioErr.value, old(keyDraws)) else [])
      ensures keyDraws == old(keyDraws) + (if ioErr.Some? then CloseKeys(ioErr.value, old(keyDraws)) else 0)
    {
      ghost var before := log;
      log := log + [Wrote(frame, false)];
      SingleEvent(Wrote(frame, false));
      LogAppend(before, [Wrote(frame, false)]);
      assert Valid();
      EmitError(ioErr);
    }

    /** A worker runs the oldest queued write. An async write is skipped on a
        closed connection; a broadcast write is skipped too, but always counts
        itself done with its Broadcaster. The frame written has not been
        handed back to the pool. */
    method RunWriteTask(ioErr: Option<Error>)
      requires Valid() && writeQueue != []
      requires writeQueue[0].BroadcastWrite? ==> writeQueue[0].owner.Valid() && Linked(writeQueue[0].owner, this)
      modifies this`closed, this`keyDraws, this`log, this`writeQueue, TaskOwner(writeQueue[0])
      ensures Valid() && writeQueue == old(writeQueue)[1..]
      ensures old(closed) ==> closed && log == old(log) && keyDraws == old(keyDraws)
      ensures !old(closed) ==>
        && log == old(log) + [Wrote(old(writeQueue)[0].frame, false)]
                 + (if ioErr.Some? then CloseTransition(ioErr.value, old(keyDraws)) else [])
        && keyDraws == old(keyDraws) + (if ioErr.Some? then CloseKeys(ioErr.value, old(keyDraws)) else 0)
        && closed == ioErr.Some?
      ensures var t := old(writeQueue)[0];
        t.BroadcastWrite? ==>
          && old(t.owner.closes) == 0
          && t.owner.Valid() && Linked(t.owner, this)
          && t.owner.holders == old(t.owner.holders) - multiset{this}
          && t.owner.state == old(t.owner.state) - 1 && t.owner.released == old(t.owner.released)
    {
      var t := writeQueue[0];
      writeQueue := writeQueue[1..];
      if !IsClosed() {
        WriteQueued(t.frame, ioErr);
      }
      if t.BroadcastWrite? {
        t.owner.TaskDone(this);
      }
    }

    /** WriteClose: closes with the given code, the reason as the error text. */
    method WriteClose(code: StatusCode, reason: Bytes)
      requires Valid()
      modifies this`closed, this`keyDraws, this`log
      ensures Valid() && closed
      ensures old(closed) ==> log == old(log) && keyDraws == old(keyDraws)
      ensures !old(closed) ==>
        && log == old(log) + CloseTransition(Coded(code, Plain(reason)), old(keyDraws))
        && keyDraws == old(keyDraws) + CloseKeys(Coded(code, Plain(reason)), old(keyDraws))
    {
      var err := Coded(code, Plain([]));       // internal.NewError(code, GwsError(""))
      if |reason| > 0 {
        err := Coded(code, Plain(reason));     // err.Err = errors.New(string(reason))
      }
      EmitError(Some(err));
    }

    /** A peer reading the close frame WriteClose sends recovers the code and
        the reason, cut to what fits in ThresholdV1 after the code. */
    lemma WriteCloseRoundTrip(code: StatusCode, reason: Bytes)
      requires internals.thresholdV1 >= 2
      ensures var o := ReadPeerClose(config, CloseContent(Coded(code, Plain(reason)), internals));
        o.realCode == code && o.reason == Truncate(reason, internals.thresholdV1 - 2)
    {
      PeerReadsCloseContent(config, Coded(code, Plain(reason)), internals);
    }

    /** emitClose's switch on the payload length: the code the peer sent,
        the code to answer with, and the reason left unread in buf. */
    method ReadCloseCode(buf: Buffer) returns (responseCode: StatusCode, realCode: uint16)
      requires buf.Valid()
      modifies buf
      ensures buf.Valid()
      ensures var o := ReadPeerClose(config, old(buf.Bytes()));
        responseCode == o.response && realCode == o.realCode && buf.Bytes() == o.reason
    {
      ghost var payload := buf.Bytes();
      responseCode, realCode := CloseNormalClosure, CloseNormalClosure;
      var n := buf.Len();
      if n == 0 {
        responseCode, realCode := 0, 0;
      } else if n == 1 {
        responseCode := CloseProtocolError;
        realCode := buf.Bytes()[0];
        buf.Reset();
      } else {
        var b, _ := buf.Read(2);
        assert b == payload[..2] && buf.Bytes() == payload[2..];
        Pow256Values();
        realCode := FromBigEndian(b);
        responseCode := ClassifyPeerCode(realCode);
        if !IsTextValid(config, OpcodeCloseConnection, buf.Bytes()) {
          responseCode := CloseUnsupportedData;
        }
      }
    }

    /** emitClose: reads the code from the peer's close payload and, if this
        is the call that closes the connection, answers with a close frame
        carrying only the chosen code and calls OnClose with the peer's code
        and reason. It reports CloseNormalClosure whatever happened. */
    method EmitClose(buf: Buffer) returns (result: Error)
      requires Valid() && buf.Valid()
      modifies buf, this`closed, this`keyDraws, this`log
      ensures Valid() && buf.Valid() && closed
      ensures result == Status(CloseNormalClosure)
      ensures var o := ReadPeerClose(config, old(buf.Bytes()));
        && buf.Bytes() == o.reason
        && (old(closed) ==> log == old(log) && keyDraws == old(keyDraws))
        && (!old(closed) ==>
              var r := FrameAt(OpcodeCloseConnection, CodeBytes(o.response), old(keyDraws));
              && log == old(log) + Attempt(r, true) + [OnClose(PeerClose(o.realCode, o.reason))]
              && keyDraws == old(keyDraws) + KeysUsed(r))
    {
      var responseCode, realCode := ReadCloseCode(buf);
      var swapped := CasClosed();
      if swapped {
        ghost var before := log;
        ghost var r := FrameAt(OpcodeCloseConnection, CodeBytes(responseCode), keyDraws);
        ghost var closeEvent := OnClose(PeerClose(realCode, buf.Bytes()));
        var _ := DoWrite(OpcodeCloseConnection, CodeBytes(responseCode), None, true);
        log := log + [closeEvent];
        AttemptCounts(r, true);
        SingleEvent(closeEvent);
        LogAppend(Attempt(r, true), [closeEvent]);
        LogAppend(before, Attempt(r, true) + [closeEvent]);
        assert log == before + (Attempt(r, true) + [closeEvent]);
      }
      return Status(CloseNormalClosure);
    }
  }

  /** The frames of the slots that were built without error, slot 0 first. */
  function BuiltFrames(slots: seq<Option<Result<Bytes>>>): seq<Bytes>
  {
    if slots == [] then []
    else
      var last := slots[|slots| - 1];
      BuiltFrames(slots[..|slots| - 1]) + (if last.Some? && last.value.Ok? then [last.value.value] else [])
  }

  class Broadcaster {
    const opcode: Opcode
    const payload: Bytes
    /** The two lazily built variants: slot 0 plain, slot 1 compressed; a
        slot holds the frame or the error its build gave. */
    const msgs: array<Option<Result<Bytes>>>
    /** The join counter: MaxInt32 until Release, plus one per write pending. */
    var state: int
    /** The connections holding a pending write of this broadcast, one entry
        per write. */
    ghost var holders: multiset<Conn>
    ghost var released: bool
    /** doClose runs so far. */
    ghost var closes: nat
    /** Frames doClose handed back to the buffer pool. */
    ghost var puts: seq<Bytes>

    /** state is the bias (until Release) plus the pending writes; doClose has
        run, once, exactly when Release has happened and nothing is pending,
        and then it has returned every built frame. */
    ghost predicate Valid()
      reads this, msgs
    {
      && msgs.Length == 2
      && state == (if released then 0 else MaxInt32) + |holders|
      && closes == (if released && |holders| == 0 then 1 else 0)
      && puts == (if closes == 1 then BuiltFrames(msgs[..]) else [])
    }

    /** NewBroadcaster. */
    constructor (opcode: Opcode, payload: Bytes)
      ensures Valid() && fresh(msgs) && msgs[..] == [None, None]
      ensures this.opcode == opcode && this.payload == payload
      ensures state == MaxInt32 && holders == multiset{} && !released && closes == 0 && puts == []
    {
      this.opcode, this.payload := opcode, payload;
      msgs := new Option<Result<Bytes>>[2](_ => None);
      state, holders, released, closes, puts := MaxInt32, multiset{}, false, 0, [];
    }

    /** Broadcast: builds this connection's variant on first use (keeping a
        build error for every later caller), then counts and queues one write
        of the shared frame. */
    method Broadcast(socket: Conn) returns (err: Option<Error>)
      requires Valid() && !released && socket.Valid() && Linked(this, socket)
      modifies this`state, this`holders, msgs, socket`keyDraws, socket`writeQueue
      ensures Valid() && !released && socket.Valid() && Linked(this, socket)
      ensures var idx := if socket.compressEnabled then 1 else 0;
        && (old(msgs[idx]).Some? ==> msgs[..] == old(msgs[..]) && socket.keyDraws == old(socket.keyDraws))
        && (old(msgs[idx]).None? ==>
              var r := socket.FrameAt(opcode, payload, old(socket.keyDraws));
              msgs[..] == old(msgs[..])[idx := Some(r)] && socket.keyDraws == old(socket.keyDraws) + socket.KeysUsed(r))
        && msgs[idx].Some?
        && (msgs[idx].value.Err? ==>
              && err == Some(msgs[idx].value.error)
              && state == old(state) && holders == old(holders) && socket.writeQueue == old(socket.writeQueue))
        && (msgs[idx].value.Ok? ==>
              && err.None? && state == old(state) + 1 && holders == old(holders) + multiset{socket}
              && socket.writeQueue == old(socket.writeQueue) + [BroadcastWrite(this, msgs[idx].value.value)])
    {
      var msg := Variant(socket);
      if msg.Err? {
        return Some(msg.error);
      }
      state := state + 1;
      holders := holders + multiset{socket};
      QueuedForAppend(socket.writeQueue, BroadcastWrite(this, msg.value), this);
      socket.Push(BroadcastWrite(this, msg.value));
      return None;
    }

    /** The first half of Broadcast: the connection's variant (slot 1 with
        compression, slot 0 without) is built on first use only, and the
        frame or the build error is kept for every later caller. */
    method Variant(socket: Conn) returns (msg: Result<Bytes>)
      requires Valid() && !released
      modifies msgs, socket`keyDraws
      ensures Valid()
      ensures var idx := if socket.compressEnabled then 1 else 0;
        && (old(msgs[idx]).Some? ==> msgs[..] == old(msgs[..]) && socket.keyDraws == old(socket.keyDraws))
        && (old(msgs[idx]).None? ==>
              var r := socket.FrameAt(opcode, payload, old(socket.keyDraws));
              msgs[..] == old(msgs[..])[idx := Some(r)] && socket.keyDraws == old(socket.keyDraws) + socket.KeysUsed(r))
        && msgs[idx] == Some(msg)
    {
      var idx := if socket.compressEnabled then 1 else 0;
      var slot := msgs[idx];
      if slot.None? {
        var frame, e := socket.GenFrame(opcode, payload);
        slot := if e.None? then Some(Ok(frame.Bytes())) else Some(Err(e.value));
        msgs[idx] := slot;
      }
      msg := slot.value;
    }

    /** doClose: hands every built frame back to the pool. */
    method DoClose()
      requires msgs.Length == 2
      modifies this`puts, this`closes
      ensures puts == old(puts) + BuiltFrames(msgs[..]) && closes == old(closes) + 1
    {
      for i := 0 to 2
        invariant closes == old(closes)
        invariant puts == old(puts) + BuiltFrames(msgs[..i])
      {
        assert msgs[..i + 1][..i] == msgs[..i];
        var item := msgs[i];
        if item.Some? && item.value.Ok? {
          puts := puts + [item.value.value];
        }
      }
      assert msgs[..2] == msgs[..];
      closes := closes + 1;
    }

    /** The end of a queued broadcast write: count it done, and run doClose if
        that brings the counter to zero. */
    method TaskDone(ghost socket: Conn)
      requires Valid() && socket in holders
      modifies this`state, this`holders, this`closes, this`puts
      ensures Valid()
      ensures state == old(state) - 1 && holders == old(holders) - multiset{socket} && released == old(released)
    {
      state := state - 1;
      holders := holders - multiset{socket};
      if state == 0 {
        DoClose();
      }
    }

    /** Release: takes the bias off; doClose runs now if no write is pending,
        otherwise when the last one completes. */
    method Release()
      requires Valid() && !released
      modifies this`state, this`released, this`closes, this`puts
      ensures Valid() && released && state == old(state) - MaxInt32 && holders == old(holders)
      ensures closes == (if |holders| == 0 then 1 else 0)
    {
      state := state - MaxInt32;
      released := true;
      if state == 0 {
        DoClose();
      }
    }
  }

  /** Three close triggers racing on one open connection (a local error, the
      peer's close frame, an application WriteClose), in that order: the first
      performs the whole close transition, the others change nothing, so
      OnClose runs once and one close frame at most is written. */
  method CloseRace(c: Conn, err: Error, peer: Buffer, code: StatusCode, reason: Bytes)
    requires c.Valid() && !c.closed && peer.Valid()
    modifies c, peer
    ensures c.Valid() && c.closed
    ensures c.log == old(c.log) + c.CloseTransition(err, old(c.keyDraws))
    ensures Callbacks(c.log) == 1 && ClosingWrites(c.log) <= 1
  {
    c.EmitError(Some(err));
    ghost var afterError := c.log;
    var _ := c.EmitClose(peer);
    c.WriteClose(code, reason);
    assert c.log == afterError;
  }

  /** Once doClose has run, no write of the broadcast waits in any linked
      connection's queue: the frames it returned to the pool are not written
      afterwards. */
  lemma NoQueuedWriteAfterClose(b: Broadcaster, c: Conn)
    requires b.Valid() && Linked(b, c) && b.closes == 1
    ensures QueuedFor(c.writeQueue, b) == 0
  {
    assert |b.holders| == 0;
  }

  /** A queue that is empty or holds a single write of b. */
  ghost predicate AtMostOneFor(q: seq<Task>, b: Broadcaster)
  {
    q == [] || (|q| == 1 && q[0].BroadcastWrite? && q[0].owner == b)
  }

  /** No connection appears twice. */
  ghost predicate Distinct(sockets: seq<Conn>)
  {
    forall j, k :: 0 <= j < k < |sockets| ==> sockets[j] != sockets[k]
  }

  lemma DistinctAt(sockets: seq<Conn>, i: nat)
    requires Distinct(sockets) && i < |sockets|
    ensures sockets[i] !in sockets[..i] && sockets[i] !in sockets[i + 1..]
  {
  }

  /** A connection before the round: open for writes, nothing queued. */
  ghost predicate Idle(c: Conn)
    reads c
  {
    c.Valid() && c.writeQueue == []
  }

  /** A connection after its Broadcast: at most the one write of b queued,
      and b counting exactly that. */
  ghost predicate Ready(b: Broadcaster, c: Conn)
    reads b, c
  {
    c.Valid() && Linked(b, c) && AtMostOneFor(c.writeQueue, b)
  }

  /** One Broadcast of a round, on a connection with an empty queue. */
  method BroadcastOne(b: Broadcaster, socket: Conn)
    requires b.Valid() && !b.released && Idle(socket) && socket !in b.holders
    modifies b`state, b`holders, b.msgs, socket`keyDraws, socket`writeQueue
    ensures b.Valid() && !b.released && Ready(b, socket)
    ensures forall c :: c != socket ==> b.holders[c] == old(b.holders)[c]
  {
    var _ := b.Broadcast(socket);
  }

  /** The worker running the queued write of one connection of a round. */
  method RunOne(b: Broadcaster, socket: Conn, ioErr: Option<Error>)
    requires b.Valid() && b.released && Ready(b, socket)
    modifies b, socket
    ensures b.Valid() && b.released && Idle(socket) && socket !in b.holders
    ensures forall c :: c != socket ==> b.holders[c] == old(b.holders)[c]
  {
    if socket.writeQueue != [] {
      socket.RunWriteTask(ioErr);
    }
  }

  /** Broadcast to the i-th connection of a round: the ones before it are
      ready, it and the ones after it idle, and b holds only the ones before. */
  method BroadcastStep(b: Broadcaster, sockets: seq<Conn>, i: nat)
    requires b.Valid() && !b.released && Distinct(sockets) && i < |sockets|
    requires forall c :: c in b.holders ==> c in sockets[..i]
    requires forall c :: c in sockets[..i] ==> Ready(b, c)
    requires forall c :: c in sockets[i..] ==> Idle(c)
    modifies b`state, b`holders, b.msgs, sockets[i]
    ensures b.Valid() && !b.released
    ensures forall c :: c in b.holders ==> c in sockets[..i + 1]
    ensures forall c :: c in sockets[..i + 1] ==> Ready(b, c)
    ensures forall c :: c in sockets[i + 1..] ==> Idle(c)
  {
    var socket := sockets[i];
    DistinctAt(sockets, i);
    assert sockets[i..] == [socket] + sockets[i + 1..];
    BroadcastOne(b, socket);
    assert sockets[..i + 1] == sockets[..i] + [socket];
    forall c | c in sockets[..i]
      ensures Ready(b, c)
    {
      assert c != socket;
    }
  }

  /** The first half of a broadcast round: Broadcast to every connection in
      turn, queuing at most one write on each. */
  method BroadcastEach(b: Broadcaster, sockets: seq<Conn>)
    requires b.Valid() && !b.released && b.holders == multiset{}
    requires Distinct(sockets) && forall c :: c in sockets ==> Idle(c)
    modifies b, b.msgs, sockets
    ensures b.Valid() && !b.released
    ensures forall c :: c in b.holders ==> c in sockets
    ensures forall c :: c in sockets ==> Ready(b, c)
  {
    for i := 0 to |sockets|
      invariant b.Valid() && !b.released
      invariant forall c :: c in b.holders ==> c in sockets[..i]
      invariant forall c :: c in sockets[..i] ==> Ready(b, c)
      invariant forall c :: c in sockets[i..] ==> Idle(c)
    {
      BroadcastStep(b, sockets, i);
    }
    assert sockets[..|sockets|] == sockets;
  }

  /** Run the queued write of the i-th connection of a round: the ones
      before it are idle, it and the ones after it ready, and b holds only
      the ones from it on. */
  method RunStep(b: Broadcaster, sockets: seq<Conn>, i: nat, ioErr: Option<Error>)
    requires b.Valid() && b.released && Distinct(sockets) && i < |sockets|
    requires forall c :: c in b.holders ==> c in sockets[i..]
    requires forall c :: c in sockets[..i] ==> Idle(c)
    requires forall c :: c in sockets[i..] ==> Ready(b, c)
    modifies b, sockets[i]
    ensures b.Valid() && b.released
    ensures forall c :: c in b.holders ==> c in sockets[i + 1..]
    ensures forall c :: c in sockets[..i + 1] ==> Idle(c)
    ensures forall c :: c in sockets[i + 1..] ==> Ready(b, c)
  {
    var socket := sockets[i];
    DistinctAt(sockets, i);
    assert sockets[i..] == [socket] + sockets[i + 1..];
    RunOne(b, socket, ioErr);
    assert sockets[..i + 1] == sockets[..i] + [socket];
    forall c | c in sockets[i + 1..]
      ensures Ready(b, c)
    {
      assert c in sockets[i..] && c != socket;
    }
  }

  /** The second half: a worker runs each connection's queued write. */
  method RunEach(b: Broadcaster, sockets: seq<Conn>, ioErr: Option<Error>)
    requires b.Valid() && b.released
    requires Distinct(sockets) && forall c :: c in b.holders ==> c in sockets
    requires forall c :: c in sockets ==> Ready(b, c)
    modifies b, sockets
    ensures b.Valid() && b.released && b.holders == multiset{} && b.closes == 1
    ensures forall c :: c in sockets ==> Idle(c)
  {
    for i := 0 to |sockets|
      invariant b.Valid() && b.released
      invariant forall c :: c in b.holders ==> c in sockets[i..]
      invariant forall c :: c in sockets[..i] ==> Idle(c)
      invariant forall c :: c in sockets[i..] ==> Ready(b, c)
    {
      RunStep(b, sockets, i, ioErr);
    }
    assert sockets[|sockets|..] == [];
    if b.holders != multiset{} {
      assert false;
    }
  }

  /** Broadcasting one message to any number of distinct connections, each
      with or without compression, then Release, then every queued write:
      each variant is built at most once, and doClose runs exactly once, after
      the last write, returning every built frame. */
  method BroadcastToAll(b: Broadcaster, sockets: seq<Conn>, ioErr: Option<Error>)
    requires b.Valid() && !b.released && b.holders == multiset{}
    requires Distinct(sockets) && forall c :: c in sockets ==> Idle(c)
    modifies b, b.msgs, sockets
    ensures b.Valid() && b.released && b.holders == multiset{} && b.closes == 1 && b.state == 0
    ensures b.puts == BuiltFrames(b.msgs[..])
    ensures forall c :: c in sockets ==> Idle(c)
  {
    BroadcastEach(b, sockets);
    b.Release();
    RunEach(b, sockets, ioErr);
  }
}
