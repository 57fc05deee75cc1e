/**
 * Properties of the command engine over whole exchanges: a frame received
 * byte by byte, a frame sent byte by byte, a request and its response
 * crossing the wire between a host and a slave, and the session invariant
 * kept by every entry point.
 */
module CmdProtocol {
  import opened Bytes
  import opened Wrappers
  import opened CmdDefs
  import opened CmdFrame
  import opened CmdSession
  import opened CmdSpec

  // ---------------------------------------------------------------------
  // Receiving a frame

  /**
   * Ready for a new frame: nothing partial is buffered, and the engine is
   * either idle (it will answer as a slave) or a host waiting for its
   * response.
   */
  predicate AwaitingFrame(c: EngineState)
  {
    && Wf(c) && !c.rxStarted
    && ((c.session.mode == IdleMode && c.session.state == Idle) ||
        (c.session.mode == HostMode && c.session.state == ReqSent))
  }

  /** The engine after the first `k` bytes of frame `f`, before the last one. */
  function Partial(c: EngineState, f: seq<byte>, k: nat): EngineState
    requires k <= |f| <= PACKET_LENGTH
  {
    c.(session := OnSignal(c.session, ReceiveStart), rxStarted := true, rx := Buf(true, k, 0),
       rxPool := f[..k] + Zeros(PACKET_LENGTH - k), cmdLen := if k < 3 then 0 else |f|)
  }

  /** Storing byte `k` of `f` into a pool holding its first `k` bytes. */
  lemma StoreNext(f: seq<byte>, k: nat)
    requires k < |f| <= PACKET_LENGTH
    ensures (f[..k] + Zeros(PACKET_LENGTH - k))[k := f[k]] == f[..k + 1] + Zeros(PACKET_LENGTH - (k + 1))
  {
    var a := (f[..k] + Zeros(PACKET_LENGTH - k))[k := f[k]];
    var b := f[..k + 1] + Zeros(PACKET_LENGTH - (k + 1));
    assert |a| == |b|;
    forall i | 0 <= i < |a| ensures a[i] == b[i] {
      if i > k {
        assert a[i] == 0 && b[i] == 0;
      }
    }
  }

  /** Feeding one byte more is one more call of on_uart_rx_ready. */
  lemma FeedSnoc(c: EngineState, bytes: seq<byte>, k: nat, cfg: Config)
    requires Wf(c) && 0 < k <= |bytes|
    ensures Feed(c, bytes[..k], cfg) == RxReady(Feed(c, bytes[..k - 1], cfg), bytes[k - 1], cfg)
  {
    assert bytes[..k][..k - 1] == bytes[..k - 1];
  }

  /** The byte stored at the filled length of the receive pool, counted. */
  function Stored(p: EngineState, b: byte): EngineState
    requires Wf(p) && p.rx.length < PACKET_LENGTH
  {
    p.(rx := p.rx.(length := p.rx.length + 1), rxPool := p.rxPool[p.rx.length := b])
  }

  /** The first byte of a cycle resets the receive buffer and signals receive-start. */
  lemma RxFirst(c: EngineState, b: byte, cfg: Config)
    requires Wf(c) && !c.rxStarted && RxGate(c.session)
    ensures RxReady(c, b, cfg) ==
      c.(session := OnSignal(c.session, ReceiveStart), rxStarted := true, rx := Buf(true, 1, 0),
         rxPool := Zeros(PACKET_LENGTH)[0 := b], cmdLen := 0)
  {
    var c1 := RxStore(RxStart(c), b);
    assert c1.cmdLen == 0 && c1.rx.length == 1;
    assert CmdLenGet(c1.rxPool, 1) == 0;
  }

  /**
   * A byte that neither completes the length field nor the frame is only
   * stored: nothing is signalled and cmd_len does not change.
   */
  lemma RxMiddle(p: EngineState, b: byte, cfg: Config)
    requires Wf(p) && p.rxStarted && RxGate(p.session) && p.rx.attached && p.rx.length < PACKET_LENGTH
    requires (p.cmdLen == 0 && 1 <= p.rx.length && p.rx.length != 2) || (p.cmdLen != 0 && p.rx.length + 1 < p.cmdLen)
    ensures RxReady(p, b, cfg) == Stored(p, b)
  {
    var c1 := RxStore(RxStart(p), b);
    assert c1 == Stored(p, b);
    if p.cmdLen == 0 {
      assert CmdLenGet(c1.rxPool, c1.rx.length) == 0;
    }
  }

  /** The third byte completes the length field and fixes cmd_len. */
  lemma RxHeader(p: EngineState, b: byte, cfg: Config)
    requires Wf(p) && p.rxStarted && RxGate(p.session) && p.rx.attached && p.rx.length == 2 && p.cmdLen == 0
    requires 3 < CmdLenGet(p.rxPool[2 := b], 3) <= PACKET_LENGTH
    ensures RxReady(p, b, cfg) == Stored(p, b).(cmdLen := CmdLenGet(p.rxPool[2 := b], 3))
  {
    var c1 := RxStore(RxStart(p), b);
    assert c1 == Stored(p, b);
  }

  /** The byte that reaches cmd_len ends the cycle through format_check. */
  lemma RxLast(p: EngineState, b: byte, cfg: Config)
    requires Wf(p) && p.rxStarted && RxGate(p.session) && p.rx.attached && p.rx.length < PACKET_LENGTH
    requires p.cmdLen != 0 && p.rx.length + 1 == p.cmdLen
    ensures RxReady(p, b, cfg) == RxFinish(Stored(p, b), cfg)
  {
    var c1 := RxStore(RxStart(p), b);
    assert c1 == Stored(p, b);
  }

  /** From an awaiting engine, receive-start leads into a state whose gate stays open. */
  lemma StartGate(s: Session)
    requires (s.mode == IdleMode && s.state == Idle) || (s.mode == HostMode && s.state == ReqSent)
    ensures RxGate(s) && RxGate(OnSignal(s, ReceiveStart))
    ensures s.mode == IdleMode ==> OnSignal(s, ReceiveStart) == s.(mode := SlaveMode, state := ReqReceiving)
    ensures s.mode == HostMode ==> OnSignal(s, ReceiveStart) == s.(state := RspReceiving)
  {
  }

  /** The third byte of an encoded frame fixes cmd_len to the frame size. */
  lemma PartialHeader(c: EngineState, cmd: AppCmd, cfg: Config)
    requires AwaitingFrame(c) && |cmd.pdu| <= MAX_PDU
    ensures var f := EncodeFrame(cmd, cfg.crc16);
      3 < |f| && RxReady(Partial(c, f, 2), f[2], cfg) == Partial(c, f, 3)
  {
    var f := EncodeFrame(cmd, cfg.crc16);
    EncodeFrameLayout(cmd, cfg.crc16);
    StoreNext(f, 2);
    StartGate(c.session);
    var p := Partial(c, f, 2);
    var pool := p.rxPool[2 := f[2]];
    assert pool == f[..3] + Zeros(PACKET_LENGTH - 3);
    assert pool[OFFSET_LEN..OFFSET_OPCODE] == f[OFFSET_LEN..OFFSET_OPCODE];
    EncodedCmdLen(cmd, cfg.crc16, pool);
    RxHeader(p, f[2], cfg);
  }

  /** Any other byte of an encoded frame but the last is only stored. */
  lemma PartialMiddle(c: EngineState, cmd: AppCmd, cfg: Config, k: nat)
    requires AwaitingFrame(c) && |cmd.pdu| <= MAX_PDU
    requires 2 <= k < |EncodeFrame(cmd, cfg.crc16)| && k != 3
    ensures var f := EncodeFrame(cmd, cfg.crc16);
      RxReady(Partial(c, f, k - 1), f[k - 1], cfg) == Partial(c, f, k)
  {
    var f := EncodeFrame(cmd, cfg.crc16);
    EncodeFrameLength(cmd, cfg.crc16);
    StoreNext(f, k - 1);
    StartGate(c.session);
    var p := Partial(c, f, k - 1);
    RxMiddle(p, f[k - 1], cfg);
    assert Stored(p, f[k - 1]) == Partial(c, f, k);
  }

  /** The first byte of an encoded frame opens the cycle. */
  lemma PartialFirst(c: EngineState, cmd: AppCmd, cfg: Config)
    requires AwaitingFrame(c) && |cmd.pdu| <= MAX_PDU
    ensures var f := EncodeFrame(cmd, cfg.crc16);
      1 < |f| && Feed(c, f[..1], cfg) == Partial(c, f, 1)
  {
    var f := EncodeFrame(cmd, cfg.crc16);
    EncodeFrameLength(cmd, cfg.crc16);
    FeedSnoc(c, f, 1, cfg);
    StoreNext(f, 0);
    StartGate(c.session);
    assert f[..0] == [];
    assert Zeros(PACKET_LENGTH) == f[..0] + Zeros(PACKET_LENGTH);
    RxFirst(c, f[0], cfg);
  }

  /**
   * Every byte of an encoded frame but the last is accumulated: the first
   * signals receive-start, the third fixes cmd_len to the frame size, and the
   * receive pool holds the bytes so far with zeros behind them.
   */
  lemma {:induction false} FeedPrefix(c: EngineState, cmd: AppCmd, cfg: Config, k: nat)
    requires AwaitingFrame(c) && |cmd.pdu| <= MAX_PDU
    requires 1 <= k < |EncodeFrame(cmd, cfg.crc16)|
    ensures Feed(c, EncodeFrame(cmd, cfg.crc16)[..k], cfg) == Partial(c, EncodeFrame(cmd, cfg.crc16), k)
    decreases k
  {
    if k == 1 {
      PartialFirst(c, cmd, cfg);
    } else {
      var f := EncodeFrame(cmd, cfg.crc16);
      FeedPrefix(c, cmd, cfg, k - 1);
      FeedSnoc(c, f, k, cfg);
      if k == 3 {
        PartialHeader(c, cmd, cfg);
      } else {
        PartialMiddle(c, cmd, cfg, k);
      }
    }
  }

  /**
   * format_check on a completely received encoded frame decides by the role
   * rule: receive-complete exactly when the frame is a response to the
   * outstanding opcode (HOST) or a request (SLAVE).
   */
  lemma FinishEncoded(c: EngineState, cmd: AppCmd, cfg: Config)
    requires AwaitingFrame(c) && |cmd.pdu| <= MAX_PDU
    ensures var f := EncodeFrame(cmd, cfg.crc16);
      var q := Partial(c, f, |f|);
      var ok := && (q.session.mode == HostMode ==> cmd.cmdType == CMD_TYPE_RESPONSE && cmd.opCode == ExpectedOp(q))
                && (q.session.mode == SlaveMode ==> cmd.cmdType != CMD_TYPE_RESPONSE);
      RxFinish(q, cfg) == q.(rxStarted := false, session := OnSignal(q.session, if ok then ReceiveComplete else ReceiveError))
  {
    var f := EncodeFrame(cmd, cfg.crc16);
    EncodeFrameLayout(cmd, cfg.crc16);
    var q := Partial(c, f, |f|);
    assert f[..|f|] == f;
    assert q.rxPool == TxImage(cmd, cfg.crc16);
    EncodedFrameValid(cmd, ExpectedOp(q), q.session.mode, SKIP_CRC_CHECK, cfg.crc16);
  }

  /** The last byte of an encoded frame completes it and format_check ends the cycle. */
  lemma PartialLast(c: EngineState, cmd: AppCmd, cfg: Config)
    requires AwaitingFrame(c) && |cmd.pdu| <= MAX_PDU
    ensures var f := EncodeFrame(cmd, cfg.crc16);
      1 < |f| && RxReady(Partial(c, f, |f| - 1), f[|f| - 1], cfg) == RxFinish(Partial(c, f, |f|), cfg)
  {
    var f := EncodeFrame(cmd, cfg.crc16);
    var n := |f|;
    EncodeFrameLength(cmd, cfg.crc16);
    StoreNext(f, n - 1);
    StartGate(c.session);
    var p := Partial(c, f, n - 1);
    RxLast(p, f[n - 1], cfg);
    assert Stored(p, f[n - 1]) == Partial(c, f, n);
  }

  /**
   * A whole encoded frame: after its last byte the receive pool is exactly
   * the sender's transmit pool, the cycle has ended, and format_check decided
   * between receive-complete and receive-error by the role rule.
   */
  lemma FeedFrame(c: EngineState, cmd: AppCmd, cfg: Config)
    requires AwaitingFrame(c) && |cmd.pdu| <= MAX_PDU
    ensures var f := EncodeFrame(cmd, cfg.crc16);
      var q := Partial(c, f, |f|);
      var ok := && (q.session.mode == HostMode ==> cmd.cmdType == CMD_TYPE_RESPONSE && cmd.opCode == ExpectedOp(q))
                && (q.session.mode == SlaveMode ==> cmd.cmdType != CMD_TYPE_RESPONSE);
      Feed(c, f, cfg) == q.(rxStarted := false, session := OnSignal(q.session, if ok then ReceiveComplete else ReceiveError))
  {
    var f := EncodeFrame(cmd, cfg.crc16);
    var n := |f|;
    PartialLast(c, cmd, cfg);
    FeedPrefix(c, cmd, cfg, n - 1);
    FeedSnoc(c, f, n, cfg);
    assert f[..n] == f;
    FinishEncoded(c, cmd, cfg);
  }

  /** After a whole encoded frame the receive pool is the sender's transmit pool. */
  lemma FrameReceived(c: EngineState, cmd: AppCmd, cfg: Config)
    requires |cmd.pdu| <= MAX_PDU
    ensures var f := EncodeFrame(cmd, cfg.crc16);
      |f| <= PACKET_LENGTH &&
      Partial(c, f, |f|) ==
        c.(session := OnSignal(c.session, ReceiveStart), rxStarted := true, rx := Buf(true, |cmd.pdu| + 6, 0),
           rxPool := TxImage(cmd, cfg.crc16), cmdLen := |f|)
  {
    var f := EncodeFrame(cmd, cfg.crc16);
    EncodeFrameLength(cmd, cfg.crc16);
    assert f[..|f|] == f;
  }

  /**
   * A slave (idle engine) receiving an encoded request ends in REQ_RECEIVED
   * in SLAVE mode with proc_req_handler queued, and its receive pool is the
   * sender's transmit pool byte for byte; an encoded response is refused and
   * the engine stays idle.
   */
  lemma SlaveReceives(c: EngineState, cmd: AppCmd, cfg: Config)
    requires Wf(c) && !c.rxStarted && c.session.mode == IdleMode && c.session.state == Idle
    requires |cmd.pdu| <= MAX_PDU
    ensures var r := Feed(c, EncodeFrame(cmd, cfg.crc16), cfg);
      && r.rxPool == TxImage(cmd, cfg.crc16) && r.rx == Buf(true, |cmd.pdu| + 6, 0)
      && !r.rxStarted && r.rxFault == c.rxFault
      && (cmd.cmdType != CMD_TYPE_RESPONSE ==>
            r.session == c.session.(mode := SlaveMode, state := ReqReceived, pending := c.session.pending + [ReqDispatch]))
      && (cmd.cmdType == CMD_TYPE_RESPONSE ==> r.session == c.session)
  {
    FeedFrame(c, cmd, cfg);
    FrameReceived(c, cmd, cfg);
    StartGate(c.session);
    SlaveSession(c.session);
  }

  /** receive-complete and receive-error for an idle engine that became a slave. */
  lemma SlaveSession(s: Session)
    requires s.mode == IdleMode && s.state == Idle
    ensures var t := s.(mode := SlaveMode, state := ReqReceiving);
      && OnSignal(t, ReceiveComplete) == s.(mode := SlaveMode, state := ReqReceived, pending := s.pending + [ReqDispatch])
      && OnSignal(t, ReceiveError) == s
  {
  }

  /**
   * A host waiting in REQ_SENT that receives an encoded response to its own
   * opcode ends in RSP_RECEIVED with the timer stopped and proc_rsp_handler
   * queued; any other frame leaves it in ERR_RECEIVE in HOST mode, with the
   * timer still running.
   */
  lemma HostReceives(c: EngineState, cmd: AppCmd, cfg: Config)
    requires Wf(c) && !c.rxStarted && c.session.mode == HostMode && c.session.state == ReqSent
    requires c.tx.attached && |cmd.pdu| <= MAX_PDU
    ensures var r := Feed(c, EncodeFrame(cmd, cfg.crc16), cfg);
      && r.rxPool == TxImage(cmd, cfg.crc16) && r.rx == Buf(true, |cmd.pdu| + 6, 0)
      && !r.rxStarted && r.rxFault == c.rxFault
      && (cmd.cmdType == CMD_TYPE_RESPONSE && cmd.opCode == c.txPool[OFFSET_OPCODE] ==>
            r.session == c.session.(state := RspReceived, timerArmed := false, pending := c.session.pending + [RspDispatch]))
      && (!(cmd.cmdType == CMD_TYPE_RESPONSE && cmd.opCode == c.txPool[OFFSET_OPCODE]) ==>
            r.session == c.session.(state := ErrReceive))
  {
    FeedFrame(c, cmd, cfg);
    FrameReceived(c, cmd, cfg);
    StartGate(c.session);
    HostSession(c.session);
    var f := EncodeFrame(cmd, cfg.crc16);
    assert ExpectedOp(Partial(c, f, |f|)) == c.txPool[OFFSET_OPCODE];
  }

  /** receive-complete and receive-error for a host waiting for its response. */
  lemma HostSession(s: Session)
    requires s.mode == HostMode && s.state == ReqSent
    ensures var t := s.(state := RspReceiving);
      && OnSignal(t, ReceiveComplete) == s.(state := RspReceived, timerArmed := false, pending := s.pending + [RspDispatch])
      && OnSignal(t, ReceiveError) == s.(state := ErrReceive)
  {
  }

  // ---------------------------------------------------------------------
  // Sending a frame

  /**
   * Once the first byte is out, each further buff_send with the byte
   * accepted puts the next pool byte on the wire and moves the cursor by
   * one, and the session does not change.
   */
  lemma {:induction false} SendRest(c: EngineState, k: nat)
    requires Wf(c) && 1 <= c.tx.offset && c.tx.offset + k <= c.tx.length
    ensures SendN(c, k) == Sent(c, k)
    decreases k
  {
    if k > 0 {
      SendRest(c, k - 1);
      SendNext(c, k);
    }
  }

  /** The engine after `k` more bytes of its transmit buffer went on the wire. */
  function Sent(c: EngineState, k: nat): EngineState
    requires Wf(c) && c.tx.offset + k <= c.tx.length
  {
    c.(tx := c.tx.(offset := c.tx.offset + k), wire := c.wire + c.txPool[c.tx.offset..c.tx.offset + k])
  }

  /** One buff_send in the middle of a frame, byte accepted, after k - 1 earlier ones. */
  lemma SendNext(c: EngineState, k: nat)
    requires Wf(c) && 1 <= c.tx.offset && 0 < k && c.tx.offset + k <= c.tx.length
    ensures Wf(Sent(c, k - 1)) && SendStep(Sent(c, k - 1), true).next == Sent(c, k)
  {
    WireSnoc(c.wire, c.txPool, c.tx.offset, c.tx.offset + k);
  }

  /** A wire extended by one more byte of a slice. */
  lemma WireSnoc(w: seq<byte>, s: seq<byte>, i: nat, j: nat)
    requires i < j <= |s|
    ensures (w + s[i..j - 1]) + [s[j - 1]] == w + s[i..j]
  {
    assert s[i..j] == s[i..j - 1] + [s[j - 1]];
  }

  /**
   * After the first byte, the rest of the transmit buffer goes on the wire,
   * and the call after the last byte signals send-complete and gives
   * SUCCESS.
   */
  lemma SendWhole(c: EngineState)
    requires Wf(c) && c.tx.offset == 1
    ensures var r := SendStep(SendN(c, c.tx.length - 1), true);
      && r.status == Success
      && r.next == c.(session := OnSignal(c.session, SendComplete), tx := c.tx.(offset := c.tx.length),
                      wire := c.wire + c.txPool[1..c.tx.length])
  {
    var d := SendN(c, c.tx.length - 1);
    SendRest(c, c.tx.length - 1);
    assert d.tx.offset == d.tx.length && d.session == c.session;
    assert SendStep(d, true) == Step(Sig(d, SendComplete), Success);
  }


  /** An idle engine's app_cmd_request with the first byte accepted, as one state. */
  lemma RequestStarts(c: EngineState, op: byte, pdu: seq<byte>, cfg: Config)
    requires Wf(c) && c.session.mode == IdleMode && c.session.state == Idle && |pdu| <= MAX_PDU
    ensures var cmd := AppCmd(CMD_TYPE_REQUEST, op, pdu);
      Request(c, op, pdu, true, cfg) ==
        Step(c.(session := c.session.(mode := HostMode, state := ReqSending), tx := Buf(true, |pdu| + 6, 1),
                txPool := TxImage(cmd, cfg.crc16), wire := c.wire + [START_REQ]), ErrBusy)
  {
  }

  /** A slave's app_cmd_respond with the first byte accepted, as one state. */
  lemma RespondStarts(c: EngineState, pdu: seq<byte>, cfg: Config)
    requires Wf(c) && c.session.mode == SlaveMode && c.session.state == ReqReceived && c.rx.attached
    requires |pdu| <= MAX_PDU
    ensures var cmd := AppCmd(CMD_TYPE_RESPONSE, c.rxPool[OFFSET_OPCODE], pdu);
      Respond(c, pdu, true, cfg) ==
        Step(c.(session := c.session.(state := RspSending), tx := Buf(true, |pdu| + 6, 1),
                txPool := TxImage(cmd, cfg.crc16), wire := c.wire + [START_RSP]), ErrBusy)
  {
  }

  /**
   * A slave's app_cmd_respond whose first byte the UART refuses: INTERNAL,
   * the frame stays in the transmit buffer, and send-error returns the
   * session to IDLE.
   */
  lemma RespondRefused(c: EngineState, pdu: seq<byte>, cfg: Config)
    requires Wf(c) && c.session.mode == SlaveMode && c.session.state == ReqReceived && c.rx.attached
    requires |pdu| <= MAX_PDU
    ensures var cmd := AppCmd(CMD_TYPE_RESPONSE, c.rxPool[OFFSET_OPCODE], pdu);
      Respond(c, pdu, false, cfg) ==
        Step(c.(session := c.session.(mode := IdleMode, state := Idle), tx := Buf(true, |pdu| + 6, 1),
                txPool := TxImage(cmd, cfg.crc16)), ErrInternal)
  {
  }

  /**
   * A transmit buffer holding an encoded frame whose start marker is already
   * on the wire: the following buff_send calls complete the frame on the
   * wire, and the call after the last byte signals send-complete.
   */
  lemma FrameSent(x: EngineState, cmd: AppCmd, crc16: Crc16, w: seq<byte>)
    requires Wf(x) && |cmd.pdu| <= MAX_PDU
    requires x.tx == Buf(true, |cmd.pdu| + 6, 1) && x.txPool == TxImage(cmd, crc16)
    requires x.wire == w + [StartMarker(cmd.cmdType)]
    ensures var f := EncodeFrame(cmd, crc16);
      var r := SendStep(SendN(x, |f| - 1), true);
      && r.status == Success
      && r.next == x.(session := OnSignal(x.session, SendComplete), tx := x.tx.(offset := |f|), wire := w + f)
  {
    var f := EncodeFrame(cmd, crc16);
    EncodeFrameLength(cmd, crc16);
    assert x.tx.length == |f|;
    SendWhole(x);
    TxTail(cmd, crc16);
    WireTail(w, StartMarker(cmd.cmdType), x.txPool[1..|f|], f);
  }

  /** Appending the rest of a frame to a wire that already ends with its first byte. */
  lemma WireTail(w: seq<byte>, m: byte, tail: seq<byte>, f: seq<byte>)
    requires [m] + tail == f
    ensures (w + [m]) + tail == w + f
  {
    assert (w + [m]) + tail == w + ([m] + tail);
  }

  /** The rest of an encoded frame after its start marker, as it sits in the transmit pool. */
  lemma TxTail(cmd: AppCmd, crc16: Crc16)
    requires |cmd.pdu| <= MAX_PDU
    ensures var f := EncodeFrame(cmd, crc16);
      [StartMarker(cmd.cmdType)] + TxImage(cmd, crc16)[1..|f|] == f
  {
    var f := EncodeFrame(cmd, crc16);
    EncodeFrameLayout(cmd, crc16);
    assert TxImage(cmd, crc16)[1..|f|] == f[1..];
    assert [f[0]] + f[1..] == f;
  }

  /**
   * An idle engine's request goes out whole: app_cmd_request sends the first
   * byte and moves to REQ_SENDING in HOST mode, the following buff_send
   * calls put the rest of the frame on the wire, and the one after the last
   * byte signals send-complete, which arms the response timer in REQ_SENT.
   */
  lemma HostSendsRequest(c: EngineState, op: byte, pdu: seq<byte>, cfg: Config)
    requires Wf(c) && c.session.mode == IdleMode && c.session.state == Idle && |pdu| <= MAX_PDU
    ensures var f := EncodeFrame(AppCmd(CMD_TYPE_REQUEST, op, pdu), cfg.crc16);
      var r := SendStep(SendN(Request(c, op, pdu, true, cfg).next, |f| - 1), true);
      && r.status == Success && r.next.wire == c.wire + f
      && r.next.session == c.session.(mode := HostMode, state := ReqSent, timerArmed := true)
      && r.next.tx.attached && r.next.txPool == TxImage(AppCmd(CMD_TYPE_REQUEST, op, pdu), cfg.crc16)
  {
    var cmd := AppCmd(CMD_TYPE_REQUEST, op, pdu);
    var x := Request(c, op, pdu, true, cfg).next;
    RequestStarts(c, op, pdu, cfg);
    FrameSent(x, cmd, cfg.crc16, c.wire);
    RequestSent(x.session);
  }

  /**
   * A slave holding a received request sends its response whole:
   * app_cmd_respond sends the first byte in RSP_SENDING, the following
   * buff_send calls put the rest on the wire, and send-complete passes
   * through RSP_SENT back to IDLE.
   */
  lemma SlaveSendsResponse(c: EngineState, pdu: seq<byte>, cfg: Config)
    requires Wf(c) && c.session.mode == SlaveMode && c.session.state == ReqReceived && c.rx.attached
    requires |pdu| <= MAX_PDU
    ensures var f := EncodeFrame(AppCmd(CMD_TYPE_RESPONSE, c.rxPool[OFFSET_OPCODE], pdu), cfg.crc16);
      var r := SendStep(SendN(Respond(c, pdu, true, cfg).next, |f| - 1), true);
      && r.status == Success && r.next.wire == c.wire + f
      && r.next.session == c.session.(mode := IdleMode, state := Idle)
  {
    var cmd := AppCmd(CMD_TYPE_RESPONSE, c.rxPool[OFFSET_OPCODE], pdu);
    var x := Respond(c, pdu, true, cfg).next;
    RespondStarts(c, pdu, cfg);
    FrameSent(x, cmd, cfg.crc16, c.wire);
    ResponseSent(x.session);
  }

  // ---------------------------------------------------------------------
  // A request and its response across the wire

  /**
   * The bytes an idle host puts on the wire for a request, delivered to an
   * idle slave, leave the slave in REQ_RECEIVED with a receive buffer that
   * decodes to the host's opcode and payload.
   */
  lemma RequestDelivered(host: EngineState, slave: EngineState, op: byte, pdu: seq<byte>, cfg: Config)
    requires Wf(host) && host.session.mode == IdleMode && host.session.state == Idle && |pdu| <= MAX_PDU
    requires Wf(slave) && !slave.rxStarted && slave.session.mode == IdleMode && slave.session.state == Idle
    ensures var f := EncodeFrame(AppCmd(CMD_TYPE_REQUEST, op, pdu), cfg.crc16);
      var h := SendStep(SendN(Request(host, op, pdu, true, cfg).next, |f| - 1), true).next;
      var s := Feed(slave, f, cfg);
      && h.wire == host.wire + f && h.session.state == ReqSent
      && s.session.state == ReqReceived && s.session.mode == SlaveMode
      && BuffToCmd(s.rxPool, s.rx.attached) == Ok(CmdHeader(START_REQ, op, |pdu|))
      && PayloadView(s.rxPool, |pdu|) == pdu
  {
    HostSendsRequest(host, op, pdu, cfg);
    SlaveReceives(slave, AppCmd(CMD_TYPE_REQUEST, op, pdu), cfg);
    EncodeDecodeRoundTrip(AppCmd(CMD_TYPE_REQUEST, op, pdu), cfg.crc16);
  }

  /**
   * The slave's response to a delivered request, fed back to the host that
   * sent it, is accepted (the opcodes match): the host reaches RSP_RECEIVED
   * with the timer stopped, and its receive buffer decodes to the request's
   * opcode and the slave's payload.
   */
  lemma ResponseDelivered(host: EngineState, slave: EngineState, pdu: seq<byte>, cfg: Config)
    requires Wf(host) && !host.rxStarted && host.session.mode == HostMode && host.session.state == ReqSent
    requires host.tx.attached
    requires Wf(slave) && slave.session.mode == SlaveMode && slave.session.state == ReqReceived && slave.rx.attached
    requires slave.rxPool[OFFSET_OPCODE] == host.txPool[OFFSET_OPCODE]
    requires |pdu| <= MAX_PDU
    ensures var op := host.txPool[OFFSET_OPCODE];
      var f := EncodeFrame(AppCmd(CMD_TYPE_RESPONSE, op, pdu), cfg.crc16);
      var s := SendStep(SendN(Respond(slave, pdu, true, cfg).next, |f| - 1), true).next;
      var h := Feed(host, f, cfg);
      && s.wire == slave.wire + f && s.session.state == Idle
      && h.session == host.session.(state := RspReceived, timerArmed := false, pending := host.session.pending + [RspDispatch])
      && BuffToCmd(h.rxPool, h.rx.attached) == Ok(CmdHeader(START_RSP, op, |pdu|))
      && PayloadView(h.rxPool, |pdu|) == pdu
  {
    var cmd := AppCmd(CMD_TYPE_RESPONSE, host.txPool[OFFSET_OPCODE], pdu);
    SlaveSendsResponse(slave, pdu, cfg);
    HostReceives(host, cmd, cfg);
    EncodeDecodeRoundTrip(cmd, cfg.crc16);
  }

  // ---------------------------------------------------------------------
  // The session invariant

  /** buff_send and app_cmd_respond keep the session coherent. */
  lemma SendKeepsCoherent(c: EngineState, pdu: seq<byte>, putOk: bool, cfg: Config)
    requires Wf(c) && Coherent(c.session) && |pdu| <= MAX_PDU
    ensures Coherent(SendStep(c, putOk).next.session)
    ensures Coherent(Respond(c, pdu, putOk, cfg).next.session)
  {
    SignalCoherent(c.session, SendStart);
    SignalCoherent(c.session, SendComplete);
    SignalCoherent(c.session, SendError);
  }

  /** app_cmd_request keeps the session coherent. */
  lemma RequestKeepsCoherent(c: EngineState, op: byte, pdu: seq<byte>, putOk: bool, cfg: Config)
    requires Wf(c) && Coherent(c.session) && |pdu| <= MAX_PDU
    ensures Coherent(Request(c, op, pdu, putOk, cfg).next.session)
  {
  }

  /** proc_req_handler keeps the session coherent. */
  lemma ProcReqKeepsCoherent(c: EngineState, reply: Option<seq<byte>>, putOk: bool, cfg: Config)
    requires Wf(c) && Coherent(c.session) && (reply.Some? ==> |reply.value| <= MAX_PDU)
    ensures Coherent(ProcReq(c, reply, putOk, cfg).session)
  {
    SendKeepsCoherent(c, RSP_UNREG, putOk, cfg);
    match BuffToCmd(c.rxPool, c.rx.attached)
    case Err(_) =>
    case Ok(h) =>
      match Lookup(cfg.registry, h.opCode)
      case None =>
      case Some(cb) =>
        HandleReqKeepsCoherent(c, cb, h, PayloadView(c.rxPool, h.length), reply, putOk, cfg);
  }

  /** The registered half of proc_req_handler keeps the session coherent. */
  lemma HandleReqKeepsCoherent(c: EngineState, cb: CmdCb, h: CmdHeader, payload: seq<byte>,
                               reply: Option<seq<byte>>, putOk: bool, cfg: Config)
    requires Wf(c) && Coherent(c.session) && (reply.Some? ==> |reply.value| <= MAX_PDU)
    ensures Coherent(HandleReq(c, cb, h, payload, reply, putOk, cfg).session)
  {
    var c1 := c.(log := c.log + [ReqHandlerCall(h.opCode, payload, h.length)]);
    SendKeepsCoherent(c, [], putOk, cfg);
    if reply.Some? {
      SendKeepsCoherent(c1, reply.value, putOk, cfg);
    }
  }

  /** proc_rsp_handler, the response timeout and app_cmd_init keep the session coherent. */
  lemma IdleStepsKeepCoherent(c: EngineState, cfg: Config)
    requires Wf(c) && Coherent(c.session)
    ensures Coherent(ProcRsp(c, cfg).session)
    ensures Coherent(RspTimeout(c, cfg).session)
    ensures Coherent(Init(c).session)
  {
    IdleCoherent(c.session);
    IdleCoherent(c.session.(timerArmed := false));
  }
}
