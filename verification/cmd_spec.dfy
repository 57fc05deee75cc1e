/**
 * The command engine of app_cmd.c as a value: every entry point of the
 * engine (buff_send, app_cmd_request, app_cmd_respond, on_uart_rx_ready,
 * the two deferred dispatchers, the response timeout and app_cmd_init) is a
 * function from the engine state before the call to the state after it.
 * The class in cmd_engine.dfy is proved against these functions, and the
 * properties of the protocol are proved about them here.
 */
module CmdSpec {
  import opened Bytes
  import opened Wrappers
  import opened CmdDefs
  import opened CmdFrame
  import opened CmdSession

  /**
   * buffer_t: whether `p_data` points at its pool (or is NULL), the number of
   * bytes filled and the transmit cursor.
   */
  datatype Buf = Buf(attached: bool, length: u16, offset: u16)

  /** A buffer after memset to zero: no pool, nothing filled. */
  const DETACHED: Buf := Buf(false, 0, 0)

  /**
   * Everything the engine keeps between calls:
   * - the session (m_cmd_ctx mode and state, the response timer, the
   *   scheduler's queue);
   * - the receive and transmit buffers and their 1040-byte pools;
   * - on_uart_rx_ready's statics `rx_started` and `cmd_len`;
   * - `rxFault`, set once a received byte is written outside the receive
   *   pool (past its end, or through a buffer with no pool);
   * - `wire`, every byte app_uart_put accepted, in order;
   * - `log`, every call into a registered handler or into the observer.
   */
  datatype EngineState = EngineState(
    session: Session,
    rx: Buf, rxPool: seq<byte>,
    tx: Buf, txPool: seq<byte>,
    rxStarted: bool, cmdLen: u16, rxFault: bool,
    wire: seq<byte>, log: seq<Callback>)

  /**
   * What is fixed at build time: the registry (the cmd_cb_list linker
   * section, in link order) and the CRC routine.
   */
  datatype Config = Config(registry: seq<CmdCb>, crc16: Crc16)

  /** The result of a call that returns a status code. */
  datatype Step = Step(next: EngineState, status: Status)

  /**
   * Well-formed engine state: both pools have 1040 bytes, and the transmit
   * cursor never passes the filled length, which never passes the pool.
   */
  predicate Wf(c: EngineState)
  {
    && |c.rxPool| == PACKET_LENGTH && |c.txPool| == PACKET_LENGTH
    && c.tx.offset <= c.tx.length <= PACKET_LENGTH
    && (c.tx.length > 0 ==> c.tx.attached)
  }

  /** The state before app_cmd_init: everything zero. */
  const BOOT: EngineState :=
    EngineState(INITIAL, DETACHED, Zeros(PACKET_LENGTH), DETACHED, Zeros(PACKET_LENGTH),
                false, 0, false, [], [])

  /** Deliver one of the on_cmd_* events. */
  function Sig(c: EngineState, sig: Signal): (r: EngineState)
    ensures r == c.(session := OnSignal(c.session, sig))
    ensures Coherent(c.session) ==> Coherent(r.session)
  {
    if Coherent(c.session) then SignalCoherent(c.session, sig); c.(session := OnSignal(c.session, sig))
    else c.(session := OnSignal(c.session, sig))
  }

  // ---------------------------------------------------------------------
  // Registry

  /** cmd_cb_get: the first registry entry with the opcode, if any. */
  function Lookup(registry: seq<CmdCb>, op: byte): (r: Option<CmdCb>)
    ensures r.None? <==> forall i :: 0 <= i < |registry| ==> registry[i].opCode != op
    ensures r.Some? ==> r.value.opCode == op
    ensures r.Some? ==>
      exists i :: 0 <= i < |registry| && registry[i] == r.value &&
        forall j :: 0 <= j < i ==> registry[j].opCode != op
  {
    if |registry| == 0 then None
    else if registry[0].opCode == op then Some(registry[0])
    else
      var r := Lookup(registry[1..], op);
      assert forall i :: 1 <= i < |registry| ==> registry[i] == registry[1..][i - 1];
      if r.Some? then
        var k :| 0 <= k < |registry[1..]| && registry[1..][k] == r.value &&
          forall j :: 0 <= j < k ==> registry[1..][j].opCode != op;
        assert registry[k + 1] == r.value;
        assert forall j :: 0 <= j < k + 1 ==> registry[j].opCode != op by {
          forall j | 0 <= j < k + 1 ensures registry[j].opCode != op {
            if j > 0 { assert registry[j] == registry[1..][j - 1]; }
          }
        }
        r
      else r
  }

  // ---------------------------------------------------------------------
  // Transmit side

  /**
   * cmd_to_buff into the transmit buffer: the pool is zeroed and filled with
   * the frame, the cursor is rewound and the filled length is the frame size.
   */
  function CmdToBuff(c: EngineState, cmd: AppCmd, crc16: Crc16): (r: EngineState)
    requires Wf(c) && |cmd.pdu| <= MAX_PDU
    ensures Wf(r)
    ensures r.txPool[..r.tx.length] == EncodeFrame(cmd, crc16)
    ensures forall i :: r.tx.length <= i < PACKET_LENGTH ==> r.txPool[i] == 0
    ensures r.tx == Buf(true, |cmd.pdu| + OFFSET_PDU + SIZE_CRC, 0)
    ensures r == c.(tx := r.tx, txPool := r.txPool)
  {
    var f := EncodeFrame(cmd, crc16);
    EncodeFrameLayout(cmd, crc16);
    c.(tx := Buf(true, |f|, 0), txPool := TxImage(cmd, crc16))
  }

  /**
   * buff_send on the transmit buffer, with `putOk` the outcome of
   * app_uart_put: DATA_SIZE on an empty buffer, send-complete (SUCCESS) once
   * the cursor reaches the end; otherwise the cursor advances by one before
   * the put, an accepted byte goes on the wire (the first one signals
   * send-start) and gives BUSY, and a refused one signals send-error and
   * gives INTERNAL.
   */
  function SendStep(c: EngineState, putOk: bool): (r: Step)
    requires Wf(c)
    ensures Wf(r.next)
    ensures c.tx.length == 0 ==> r == Step(c, ErrDataSize)
    ensures c.tx.length > 0 && c.tx.offset == c.tx.length ==> r == Step(Sig(c, SendComplete), Success)
    ensures c.tx.offset < c.tx.length ==>
      && r.next.tx == c.tx.(offset := c.tx.offset + 1)
      && (putOk ==> r.status == ErrBusy && r.next.wire == c.wire + [c.txPool[c.tx.offset]])
      && (!putOk ==> r.status == ErrInternal && r.next.wire == c.wire &&
                     r.next.session == OnSignal(c.session, SendError))
      && (putOk && c.tx.offset == 0 ==> r.next.session == OnSignal(c.session, SendStart))
      && (putOk && c.tx.offset > 0 ==> r.next.session == c.session)
    ensures r.next == c.(session := r.next.session, tx := r.next.tx, wire := r.next.wire)
  {
    if c.tx.length == 0 then Step(c, ErrDataSize)
    else if c.tx.offset == c.tx.length then Step(Sig(c, SendComplete), Success)
    else
      var b := c.txPool[c.tx.offset];
      var c1 := c.(tx := c.tx.(offset := c.tx.offset + 1));
      if putOk then
        var c2 := c1.(wire := c1.wire + [b]);
        Step(if c2.tx.offset == 1 then Sig(c2, SendStart) else c2, ErrBusy)
      else
        Step(Sig(c1, SendError), ErrInternal)
  }

  /** `k` further calls of buff_send, each with the byte accepted. */
  function SendN(c: EngineState, k: nat): (r: EngineState)
    requires Wf(c)
    ensures Wf(r)
    decreases k
  {
    if k == 0 then c else SendStep(SendN(c, k - 1), true).next
  }

  /**
   * cmd_send: encode into the transmit buffer and send the first byte. The
   * transmit pool holds the frame, the cursor is past the start marker, and
   * the marker is on the wire (send-start) or was refused (send-error).
   */
  function CmdSend(c: EngineState, cmd: AppCmd, putOk: bool, crc16: Crc16): (r: Step)
    requires Wf(c) && |cmd.pdu| <= MAX_PDU
    ensures Wf(r.next)
    ensures r.next.txPool == TxImage(cmd, crc16)
    ensures r.next.tx == Buf(true, |cmd.pdu| + OFFSET_PDU + SIZE_CRC, 1)
    ensures r.status == (if putOk then ErrBusy else ErrInternal)
    ensures r.next.wire == c.wire + (if putOk then [StartMarker(cmd.cmdType)] else [])
    ensures r.next.session == OnSignal(c.session, if putOk then SendStart else SendError)
    ensures r.next == c.(session := r.next.session, tx := r.next.tx, txPool := r.next.txPool, wire := r.next.wire)
  {
    EncodeFrameLayout(cmd, crc16);
    SendStep(CmdToBuff(c, cmd, crc16), putOk)
  }

  /**
   * app_cmd_request: INVALID_STATE and no change unless the mode is IDLE;
   * otherwise the mode becomes HOST, the request frame is encoded into the
   * transmit pool and its first byte is sent.
   */
  function Request(c: EngineState, op: byte, pdu: seq<byte>, putOk: bool, cfg: Config): (r: Step)
    requires Wf(c) && |pdu| <= MAX_PDU
    ensures Wf(r.next)
    ensures c.session.mode != IdleMode ==> r == Step(c, ErrInvalidState)
    ensures c.session.mode == IdleMode ==>
      && r.next.txPool == TxImage(AppCmd(CMD_TYPE_REQUEST, op, pdu), cfg.crc16)
      && r.next.tx == Buf(true, |pdu| + OFFSET_PDU + SIZE_CRC, 1)
      && r.status == (if putOk then ErrBusy else ErrInternal)
      && r.next.wire == c.wire + (if putOk then [START_REQ] else [])
    ensures c.session.mode == IdleMode && c.session.state == Idle ==>
      r.next.session == (if putOk then c.session.(mode := HostMode, state := ReqSending) else c.session)
    ensures r.next == c.(session := r.next.session, tx := r.next.tx, txPool := r.next.txPool, wire := r.next.wire)
  {
    if c.session.mode != IdleMode then Step(c, ErrInvalidState)
    else
      CmdSend(c.(session := c.session.(mode := HostMode)), AppCmd(CMD_TYPE_REQUEST, op, pdu), putOk, cfg.crc16)
  }

  /**
   * app_cmd_respond: INVALID_STATE and no change unless the state is
   * REQ_RECEIVED or REQ_SENT; INVALID_DATA and send-error when the receive
   * buffer has no pool; otherwise a response frame carrying the opcode of
   * receive byte 3 is encoded and its first byte sent.
   */
  function Respond(c: EngineState, pdu: seq<byte>, putOk: bool, cfg: Config): (r: Step)
    requires Wf(c) && |pdu| <= MAX_PDU
    ensures Wf(r.next)
    ensures c.session.state != ReqReceived && c.session.state != ReqSent ==> r == Step(c, ErrInvalidState)
    ensures (c.session.state == ReqReceived || c.session.state == ReqSent) && !c.rx.attached ==>
      r == Step(Sig(c, SendError), ErrInvalidData)
    ensures (c.session.state == ReqReceived || c.session.state == ReqSent) && c.rx.attached ==>
      r == CmdSend(c, AppCmd(CMD_TYPE_RESPONSE, c.rxPool[OFFSET_OPCODE], pdu), putOk, cfg.crc16)
    ensures r.next == c.(session := r.next.session, tx := r.next.tx, txPool := r.next.txPool, wire := r.next.wire)
  {
    if c.session.state != ReqReceived && c.session.state != ReqSent then Step(c, ErrInvalidState)
    else
      match OpCodeGet(c.rxPool, c.rx.attached)
      case None => Step(Sig(c, SendError), ErrInvalidData)
      case Some(op) =>
        CmdSend(c, AppCmd(CMD_TYPE_RESPONSE, op, pdu), putOk, cfg.crc16)
  }

  // ---------------------------------------------------------------------
  // Receive side

  /**
   * The role gate of on_uart_rx_ready: in HOST mode bytes are taken only in
   * REQ_SENT or RSP_RECEIVING, in SLAVE mode only in REQ_RECEIVING, in IDLE
   * mode always.
   */
  predicate RxGate(s: Session)
  {
    && (s.mode == HostMode ==> s.state == ReqSent || s.state == RspReceiving)
    && (s.mode == SlaveMode ==> s.state == ReqReceiving)
  }

  /** The first byte of a cycle: buff_alloc on the receive buffer, and cmd_len = 0. */
  function RxStart(c: EngineState): (r: EngineState)
    requires Wf(c)
    ensures Wf(r) && r.rxStarted && r.session == c.session
  {
    if c.rxStarted then c
    else c.(rxStarted := true, rx := Buf(true, 0, 0), rxPool := Zeros(PACKET_LENGTH), cmdLen := 0)
  }

  /**
   * Store a byte at the filled length and count it (16-bit). A store outside
   * the pool is not performed; it raises `rxFault` instead.
   */
  function RxStore(c: EngineState, b: byte): (r: EngineState)
    requires Wf(c)
    ensures Wf(r)
    ensures r.rx == c.rx.(length := (c.rx.length + 1) % U16_LIMIT)
    ensures c.rx.attached && c.rx.length < PACKET_LENGTH ==>
      r == c.(rx := r.rx, rxPool := c.rxPool[c.rx.length := b])
    ensures !(c.rx.attached && c.rx.length < PACKET_LENGTH) ==>
      r == c.(rx := r.rx, rxFault := true)
  {
    var c1 := if c.rx.attached && c.rx.length < PACKET_LENGTH then c.(rxPool := c.rxPool[c.rx.length := b])
              else c.(rxFault := true);
    c1.(rx := c.rx.(length := (c.rx.length + 1) % U16_LIMIT))
  }

  /**
   * While the total size is unknown (cmd_len == 0): ask cmd_len_get, signal
   * receive-start on the first byte and receive-error when the size exceeds
   * the pool. The error does not end the cycle.
   */
  function RxLength(c: EngineState): (r: EngineState)
    requires Wf(c)
    ensures Wf(r)
    ensures Coherent(c.session) ==> Coherent(r.session)
    ensures r == c.(session := r.session, cmdLen := CmdLenGet(c.rxPool, c.rx.length))
  {
    var n := CmdLenGet(c.rxPool, c.rx.length);
    var c1 := c.(cmdLen := n);
    var c2 := if c.rx.length == 1 then Sig(c1, ReceiveStart) else c1;
    if n > PACKET_LENGTH then Sig(c2, ReceiveError) else c2
  }

  /** The opcode a HOST expects in a response: transmit byte 3, or 0 without a transmit pool. */
  function ExpectedOp(c: EngineState): byte
    requires Wf(c)
  {
    if c.session.mode != HostMode then 0
    else match OpCodeGet(c.txPool, c.tx.attached)
      case Some(op) => op
      case None => 0
  }

  /** The complete frame is checked: receive-complete or receive-error, and the cycle ends. */
  function RxFinish(c: EngineState, cfg: Config): (r: EngineState)
    requires Wf(c)
    ensures Wf(r)
    ensures Coherent(c.session) ==> Coherent(r.session)
  {
    var st := FormatCheck(c.rxPool, c.rx.length, ExpectedOp(c), c.session.mode, SKIP_CRC_CHECK, cfg.crc16);
    Sig(c, if st == Success then ReceiveComplete else ReceiveError).(rxStarted := false)
  }

  /** on_uart_rx_ready: one received byte. */
  function RxReady(c: EngineState, b: byte, cfg: Config): (r: EngineState)
    requires Wf(c)
    ensures Wf(r)
    ensures !RxGate(c.session) ==> r == c
    ensures r.tx == c.tx && r.txPool == c.txPool && r.wire == c.wire && r.log == c.log
    ensures c.rxFault ==> r.rxFault
    ensures Coherent(c.session) ==> Coherent(r.session)
  {
    if !RxGate(c.session) then c
    else
      var c1 := RxStore(RxStart(c), b);
      if c1.cmdLen == 0 then
        var c2 := RxLength(c1);
        if c2.cmdLen == 0 then c2
        else if c2.rx.length < c2.cmdLen then c2
        else RxFinish(c2, cfg)
      else if c1.rx.length < c1.cmdLen then c1
      else RxFinish(c1, cfg)
  }

  /** A byte stream delivered to on_uart_rx_ready one byte after another. */
  function Feed(c: EngineState, bytes: seq<byte>, cfg: Config): (r: EngineState)
    requires Wf(c)
    ensures Wf(r)
    decreases |bytes|
  {
    if |bytes| == 0 then c
    else RxReady(Feed(c, bytes[..|bytes| - 1], cfg), bytes[|bytes| - 1], cfg)
  }

  // ---------------------------------------------------------------------
  // Deferred dispatchers and timeout

  /**
   * proc_req_handler. `reply` is what the registered request handler passes
   * to the respond callback it is given (None when it does not call it).
   * Decoding fails only without a receive pool, and then nothing happens. A
   * registered opcode calls its request handler, or without one responds
   * with an empty payload, and then calls the observer; an unregistered
   * opcode is answered with "ur" and the observer is not called.
   */
  function ProcReq(c: EngineState, reply: Option<seq<byte>>, putOk: bool, cfg: Config): (r: EngineState)
    requires Wf(c) && (reply.Some? ==> |reply.value| <= MAX_PDU)
    ensures Wf(r)
    ensures !c.rx.attached ==> r == c
    ensures c.rx.attached && Lookup(cfg.registry, c.rxPool[OFFSET_OPCODE]).None? ==>
      r == Respond(c, RSP_UNREG, putOk, cfg).next
    ensures c.rx.attached && Lookup(cfg.registry, c.rxPool[OFFSET_OPCODE]).Some? ==>
      |r.log| >= |c.log| + 1 && r.log[|r.log| - 1].ObserverCall? &&
      r.log[|r.log| - 1].opCode == c.rxPool[OFFSET_OPCODE] && !r.log[|r.log| - 1].timeout
  {
    match BuffToCmd(c.rxPool, c.rx.attached)
    case Err(_) => c
    case Ok(h) =>
      var payload := PayloadView(c.rxPool, h.length);
      match Lookup(cfg.registry, h.opCode)
      case None => Respond(c, RSP_UNREG, putOk, cfg).next
      case Some(cb) =>
        var c2 := HandleReq(c, cb, h, payload, reply, putOk, cfg);
        c2.(log := c2.log + [ObserverCall(h.opCode, payload, h.length, false)])
  }

  /**
   * The registered half of proc_req_handler: the request handler, if there
   * is one, sees the payload and may answer through app_cmd_respond (its
   * answer, when it gives one, is `reply`); without a handler the request is
   * answered with an empty payload.
   */
  function HandleReq(c: EngineState, cb: CmdCb, h: CmdHeader, payload: seq<byte>, reply: Option<seq<byte>>,
                     putOk: bool, cfg: Config): (r: EngineState)
    requires Wf(c) && (reply.Some? ==> |reply.value| <= MAX_PDU)
    ensures Wf(r)
    ensures r.log == c.log + (if cb.hasReq then [ReqHandlerCall(h.opCode, payload, h.length)] else [])
    ensures r.rx == c.rx && r.rxPool == c.rxPool && r.rxStarted == c.rxStarted
    ensures cb.hasReq && reply.None? ==> r == c.(log := r.log)
    ensures !cb.hasReq ==> r == Respond(c, [], putOk, cfg).next
    ensures cb.hasReq && reply.Some? ==>
      r == Respond(c.(log := c.log + [ReqHandlerCall(h.opCode, payload, h.length)]), reply.value, putOk, cfg).next
  {
    if !cb.hasReq then Respond(c, [], putOk, cfg).next
    else
      var c1 := c.(log := c.log + [ReqHandlerCall(h.opCode, payload, h.length)]);
      if reply.Some? then Respond(c1, reply.value, putOk, cfg).next else c1
  }

  /**
   * proc_rsp_handler: back to IDLE first; then, when the receive buffer
   * decodes and its opcode is registered, the response handler (if any) and
   * the observer see the response.
   */
  function ProcRsp(c: EngineState, cfg: Config): (r: EngineState)
    requires Wf(c)
    ensures Wf(r)
    ensures r.session == Transition(c.session, Idle)
    ensures r == c.(session := r.session, log := r.log)
    ensures !c.rx.attached || Lookup(cfg.registry, c.rxPool[OFFSET_OPCODE]).None? ==> r.log == c.log
    ensures c.rx.attached && Lookup(cfg.registry, c.rxPool[OFFSET_OPCODE]).Some? ==>
      var h := BuffToCmd(c.rxPool, true).value;
      var payload := PayloadView(c.rxPool, h.length);
      r.log == c.log
        + (if Lookup(cfg.registry, h.opCode).value.hasRsp then [RspHandlerCall(h.opCode, payload, h.length)] else [])
        + [ObserverCall(h.opCode, payload, h.length, false)]
  {
    var c0 := c.(session := Transition(c.session, Idle));
    match BuffToCmd(c0.rxPool, c0.rx.attached)
    case Err(_) => c0
    case Ok(h) =>
      var payload := PayloadView(c0.rxPool, h.length);
      match Lookup(cfg.registry, h.opCode)
      case None => c0
      case Some(cb) =>
        var c1 := if cb.hasRsp then c0.(log := c0.log + [RspHandlerCall(h.opCode, payload, h.length)]) else c0;
        c1.(log := c1.log + [ObserverCall(h.opCode, payload, h.length, false)])
  }

  /**
   * tmr_rsp_timeout_handler (the single-shot timer has expired, so it is no
   * longer armed). Without a transmit pool it returns at once. Otherwise a
   * registered opcode of the outstanding request has its response handler
   * (if any) and the observer see "to" with timeout set, and the engine
   * returns to IDLE.
   */
  function RspTimeout(c: EngineState, cfg: Config): (r: EngineState)
    requires Wf(c)
    ensures Wf(r)
    ensures !c.tx.attached ==> r == c.(session := c.session.(timerArmed := false))
    ensures c.tx.attached ==>
      && r.session == Transition(c.session.(timerArmed := false), Idle)
      && r == c.(session := r.session, log := r.log)
    ensures c.tx.attached && Lookup(cfg.registry, c.txPool[OFFSET_OPCODE]).None? ==> r.log == c.log
    ensures c.tx.attached && Lookup(cfg.registry, c.txPool[OFFSET_OPCODE]).Some? ==>
      var op := c.txPool[OFFSET_OPCODE];
      r.log == c.log
        + (if Lookup(cfg.registry, op).value.hasRsp then [RspHandlerCall(op, RSP_TIMEOUT, 2)] else [])
        + [ObserverCall(op, RSP_TIMEOUT, 2, true)]
  {
    var c0 := c.(session := c.session.(timerArmed := false));
    match BuffToCmd(c0.txPool, c0.tx.attached)
    case Err(_) => c0
    case Ok(h) =>
      var c2 :=
        match Lookup(cfg.registry, h.opCode)
        case None => c0
        case Some(cb) =>
          var c1 := if cb.hasRsp then c0.(log := c0.log + [RspHandlerCall(h.opCode, RSP_TIMEOUT, 2)]) else c0;
          c1.(log := c1.log + [ObserverCall(h.opCode, RSP_TIMEOUT, 2, true)]);
      c2.(session := Transition(c2.session, Idle))
  }

  /**
   * app_cmd_init: mode and state IDLE, both pools zeroed, both buffers
   * detached. The statics of on_uart_rx_ready, a running timer and the
   * scheduler's queue are left as they were.
   */
  function Init(c: EngineState): (r: EngineState)
    ensures Wf(r) && Coherent(r.session)
    ensures r.session == c.session.(mode := IdleMode, state := Idle)
    ensures r.rxPool == Zeros(PACKET_LENGTH) && r.txPool == Zeros(PACKET_LENGTH)
    ensures r.rx == DETACHED && r.tx == DETACHED
    ensures r.rxStarted == c.rxStarted && r.cmdLen == c.cmdLen && r.rxFault == c.rxFault
    ensures r.wire == c.wire && r.log == c.log
  {
    var s := Transition(c.session.(mode := IdleMode), Idle);
    c.(session := s, rx := DETACHED, rxPool := Zeros(PACKET_LENGTH), tx := DETACHED, txPool := Zeros(PACKET_LENGTH))
  }
}
