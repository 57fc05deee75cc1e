/**
 * The command engine of app_cmd.c as an object: the two 1040-byte pools are
 * arrays, and the context, the buffers, on_uart_rx_ready's statics, the
 * timer, the scheduler queue, the wire and the handler log are fields. Each
 * C function is a method, and each method is proved to change the engine
 * exactly as the step function of the same name in CmdSpec says, so every
 * property proved about those functions holds of the object.
 */
module CmdEngine {
  import opened Bytes
  import opened Wrappers
  import opened CmdDefs
  import opened CmdFrame
  import opened CmdSession
  import opened CmdSpec

  /** Recursion measure of state_set/state_handler: entering IDLE never re-enters. */
  function Rank(st: CmdState): nat
  {
    if st == Idle then 0 else 1
  }

  class Engine {
    /** m_cmd_ctx: mode and state. */
    var mode: Mode
    var state: CmdState
    /** m_tmr_wait_rsp is running. */
    var timerArmed: bool
    /** Dispatchers queued with app_sched_event_put, oldest first. */
    var pending: seq<Dispatch>
    /** m_rx_pool, m_tx_pool. */
    const rxPool: array<byte>
    const txPool: array<byte>
    /** m_rx_buff, m_tx_buff. */
    var rx: Buf
    var tx: Buf
    /** on_uart_rx_ready's statics. */
    var rxStarted: bool
    var cmdLen: u16
    /** A received byte was written outside m_rx_pool. */
    var rxFault: bool
    /** Bytes app_uart_put accepted, in order. */
    var wire: seq<byte>
    /** Calls into registered handlers and the observer, in order. */
    var log: seq<Callback>
    /** The registry and the CRC routine. */
    const cfg: Config

    /** The session part of the state. */
    function Ctx(): Session
      reads this
    {
      Session(mode, state, timerArmed, pending)
    }

    /** The whole engine as a value. */
    function View(): EngineState
      reads this, rxPool, txPool
    {
      EngineState(Ctx(), rx, rxPool[..], tx, txPool[..], rxStarted, cmdLen, rxFault, wire, log)
    }

    ghost predicate Valid()
      reads this, rxPool, txPool
    {
      && rxPool.Length == PACKET_LENGTH && txPool.Length == PACKET_LENGTH
      && rxPool != txPool
      && Wf(View())
    }

    /** The zero-initialised statics, before app_cmd_init. */
    constructor(config: Config)
      ensures Valid() && fresh(rxPool) && fresh(txPool)
      ensures View() == BOOT && cfg == config
    {
      mode, state, timerArmed, pending := IdleMode, Idle, false, [];
      rxPool := new byte[PACKET_LENGTH](_ => 0);
      txPool := new byte[PACKET_LENGTH](_ => 0);
      rx, tx := DETACHED, DETACHED;
      rxStarted, cmdLen, rxFault := false, 0, false;
      wire, log := [], [];
      cfg := config;
    }

    // -------------------------------------------------------------------
    // State machine

    /** mode_set. */
    method ModeSet(newMode: Mode)
      modifies this
      ensures View() == old(View()).(session := old(Ctx()).(mode := newMode))
    {
      if mode != newMode {
        mode := newMode;
      }
    }

    /** state_set: a new state runs its entry action through state_handler. */
    method StateSet(newState: CmdState)
      modifies this
      ensures View() == old(View()).(session := Transition(old(Ctx()), newState))
      decreases Rank(newState), 1
    {
      if state != newState {
        state := newState;
        StateHandler();
      }
    }

    /** state_handler: the entry action of the current state. */
    method StateHandler()
      modifies this
      ensures View() == old(View()).(session := Entry(old(Ctx())))
      decreases Rank(state), 0
    {
      match state
      case Idle => ModeSet(IdleMode);
      case ReqSending => ModeSet(HostMode);
      case ReqSent => timerArmed := true;
      case RspReceiving =>
      case RspReceived =>
        timerArmed := false;
        pending := pending + [RspDispatch];
      case ReqReceiving => ModeSet(SlaveMode);
      case ReqReceived => pending := pending + [ReqDispatch];
      case ErrTimeout => StateSet(Idle);
      case ErrReceive =>
        if mode != HostMode {
          StateSet(Idle);
        }
      case RspSent => StateSet(Idle);
      case ErrSend => StateSet(Idle);
      case RspSending =>
    }

    /** on_cmd_send_start. */
    method OnCmdSendStart()
      modifies this
      ensures View() == Sig(old(View()), SendStart)
    {
      if mode == SlaveMode {
        StateSet(RspSending);
      } else {
        StateSet(ReqSending);
      }
    }

    /** on_cmd_send_complete: outside HOST and SLAVE mode nothing happens. */
    method OnCmdSendComplete()
      modifies this
      ensures View() == Sig(old(View()), SendComplete)
    {
      if mode == HostMode {
        StateSet(ReqSent);
      } else if mode == SlaveMode {
        StateSet(RspSent);
      }
    }

    /** on_cmd_send_error. */
    method OnCmdSendError()
      modifies this
      ensures View() == Sig(old(View()), SendError)
    {
      StateSet(ErrSend);
    }

    /** on_cmd_receive_start. */
    method OnCmdReceiveStart()
      modifies this
      ensures View() == Sig(old(View()), ReceiveStart)
    {
      if mode == HostMode {
        StateSet(RspReceiving);
      } else {
        StateSet(ReqReceiving);
      }
    }

    /** on_cmd_receive_complete: outside HOST and SLAVE mode nothing happens. */
    method OnCmdReceiveComplete()
      modifies this
      ensures View() == Sig(old(View()), ReceiveComplete)
    {
      if mode == HostMode {
        StateSet(RspReceived);
      } else if mode == SlaveMode {
        StateSet(ReqReceived);
      }
    }

    /** on_cmd_receive_error. */
    method OnCmdReceiveError()
      modifies this
      ensures View() == Sig(old(View()), ReceiveError)
    {
      StateSet(ErrReceive);
    }

    // -------------------------------------------------------------------
    // Registry

    /**
     * cmd_cb_get: a linear search of the registry in link order. SUCCESS
     * with the first entry whose opcode matches, NOT_FOUND when there is
     * none.
     */
    method CmdCbGet(op: byte) returns (status: Status, cb: CmdCb)
      ensures status == Success || status == ErrNotFound
      ensures status == Success <==> Lookup(cfg.registry, op).Some?
      ensures status == Success ==> cb == Lookup(cfg.registry, op).value
    {
      status, cb := ErrNotFound, CmdCb(op, false, false);
      var i := 0;
      while i < |cfg.registry|
        invariant 0 <= i <= |cfg.registry|
        invariant forall j :: 0 <= j < i ==> cfg.registry[j].opCode != op
      {
        if cfg.registry[i].opCode == op {
          var found := Lookup(cfg.registry, op);
          var k :| 0 <= k < |cfg.registry| && cfg.registry[k] == found.value &&
            forall j :: 0 <= j < k ==> cfg.registry[j].opCode != op;
          assert k == i;
          status, cb := Success, cfg.registry[i];
          return;
        }
        i := i + 1;
      }
    }

    // -------------------------------------------------------------------
    // Transmit side

    /** buff_alloc: the pool is zeroed and the buffer points at it, empty. */
    static method BuffAlloc(pool: array<byte>) returns (b: Buf)
      requires pool.Length == PACKET_LENGTH
      modifies pool
      ensures pool[..] == Zeros(PACKET_LENGTH)
      ensures b == Buf(true, 0, 0)
    {
      forall i | 0 <= i < pool.Length {
        pool[i] := 0;
      }
      b := Buf(true, 0, 0);
    }

    /**
     * The writes of cmd_to_buff into a zeroed pool: start marker, length
     * field, opcode and the pdu copied byte by byte, then the CRC of bytes
     * [1, 4 + n).
     */
    static method WriteFrame(pool: array<byte>, cmd: AppCmd, crc16: Crc16)
      requires pool.Length == PACKET_LENGTH && pool[..] == Zeros(PACKET_LENGTH) && |cmd.pdu| <= MAX_PDU
      modifies pool
      ensures pool[..] == TxImage(cmd, crc16)
    {
      var n := |cmd.pdu|;
      WriteBody(pool, cmd);
      ghost var span := CrcSpan(cmd.opCode, cmd.pdu);
      ghost var rest := PACKET_LENGTH - OFFSET_PDU - n - SIZE_CRC;
      HeadSpan(StartMarker(cmd.cmdType), span, Zeros(rest + SIZE_CRC));
      var crc := Le16(crc16(pool[OFFSET_LEN..OFFSET_PDU + n]));
      ghost var before: seq<byte> := pool[..];
      pool[OFFSET_PDU + n] := crc[0];
      pool[OFFSET_PDU + n + 1] := crc[1];
      assert pool[..] == before[OFFSET_PDU + n := crc[0]][OFFSET_PDU + n + 1 := crc[1]];
      PatchTrailer([StartMarker(cmd.cmdType)] + span, crc, rest);
    }

    /** The start marker, length field, opcode and pdu written into a zeroed pool. */
    static method WriteBody(pool: array<byte>, cmd: AppCmd)
      requires pool.Length == PACKET_LENGTH && pool[..] == Zeros(PACKET_LENGTH) && |cmd.pdu| <= MAX_PDU
      modifies pool
      ensures pool[..] == [StartMarker(cmd.cmdType)] + CrcSpan(cmd.opCode, cmd.pdu) + Zeros(PACKET_LENGTH - OFFSET_PDU - |cmd.pdu|)
    {
      var n := |cmd.pdu|;
      var len := Le16(SIZE_OPCODE + n);
      pool[OFFSET_START] := StartMarker(cmd.cmdType);
      pool[OFFSET_LEN] := len[0];
      pool[OFFSET_LEN + 1] := len[1];
      pool[OFFSET_OPCODE] := cmd.opCode;
      ghost var header := [StartMarker(cmd.cmdType), len[0], len[1], cmd.opCode];
      var i := 0;
      while i < n
        invariant 0 <= i <= n
        invariant forall k :: 0 <= k < PACKET_LENGTH ==>
          pool[k] == (if k < OFFSET_PDU then header[k] else if k < OFFSET_PDU + i then cmd.pdu[k - OFFSET_PDU] else 0)
      {
        pool[OFFSET_PDU + i] := cmd.pdu[i];
        i := i + 1;
      }
      ghost var body := [StartMarker(cmd.cmdType)] + CrcSpan(cmd.opCode, cmd.pdu) + Zeros(PACKET_LENGTH - OFFSET_PDU - n);
      assert body == header + cmd.pdu + Zeros(PACKET_LENGTH - OFFSET_PDU - n);
      forall k | 0 <= k < PACKET_LENGTH
        ensures pool[k] == body[k]
      {
        if OFFSET_PDU <= k < OFFSET_PDU + n {
          assert body[k] == (header + cmd.pdu)[k];
        }
      }
    }

    /** cmd_to_buff into the transmit buffer. The clamp to 1040 never applies below MAX_PDU. */
    method CmdToBuff(cmd: AppCmd)
      requires Valid() && |cmd.pdu| <= MAX_PDU
      modifies this, txPool
      ensures Valid()
      ensures View() == CmdSpec.CmdToBuff(old(View()), cmd, cfg.crc16)
    {
      tx := BuffAlloc(txPool);
      WriteFrame(txPool, cmd, cfg.crc16);
      EncodeFrameLayout(cmd, cfg.crc16);
      tx := tx.(length := OFFSET_PDU + |cmd.pdu| + SIZE_CRC);
    }

    /**
     * buff_send on the transmit buffer, with `putOk` the outcome of
     * app_uart_put.
     */
    method BuffSend(putOk: bool) returns (status: Status)
      requires Valid()
      modifies this
      ensures Valid()
      ensures Step(View(), status) == SendStep(old(View()), putOk)
    {
      if tx.length == 0 {
        return ErrDataSize;
      }
      if tx.offset == tx.length {
        OnCmdSendComplete();
        return Success;
      }
      var b := txPool[tx.offset];
      tx := tx.(offset := tx.offset + 1);
      if putOk {
        wire := wire + [b];
        if tx.offset == 1 {
          OnCmdSendStart();
        }
        return ErrBusy;
      } else {
        OnCmdSendError();
        return ErrInternal;
      }
    }

    /** cmd_send: encode into the transmit buffer and send its first byte. */
    method CmdSend(cmd: AppCmd, putOk: bool) returns (status: Status)
      requires Valid() && |cmd.pdu| <= MAX_PDU
      modifies this, txPool
      ensures Valid()
      ensures Step(View(), status) == CmdSpec.CmdSend(old(View()), cmd, putOk, cfg.crc16)
    {
      CmdToBuff(cmd);
      status := BuffSend(putOk);
    }

    /** on_uart_tx_empty: the UART has room for the next byte. */
    method OnUartTxEmpty(putOk: bool)
      requires Valid()
      modifies this
      ensures Valid()
      ensures View() == SendStep(old(View()), putOk).next
    {
      var _ := BuffSend(putOk);
    }

    /** app_cmd_request. */
    method AppCmdRequest(op: byte, pdu: seq<byte>, putOk: bool) returns (status: Status)
      requires Valid() && |pdu| <= MAX_PDU
      modifies this, txPool
      ensures Valid()
      ensures Step(View(), status) == Request(old(View()), op, pdu, putOk, cfg)
    {
      if mode != IdleMode {
        return ErrInvalidState;
      }
      ModeSet(HostMode);
      status := CmdSend(AppCmd(CMD_TYPE_REQUEST, op, pdu), putOk);
    }

    /** app_cmd_respond. */
    method AppCmdRespond(pdu: seq<byte>, putOk: bool) returns (status: Status)
      requires Valid() && |pdu| <= MAX_PDU
      modifies this, txPool
      ensures Valid()
      ensures Step(View(), status) == Respond(old(View()), pdu, putOk, cfg)
    {
      if state != ReqReceived && state != ReqSent {
        return ErrInvalidState;
      }
      var op := OpCodeGet(rxPool[..], rx.attached);
      if op.None? {
        OnCmdSendError();
        return ErrInvalidData;
      }
      status := CmdSend(AppCmd(CMD_TYPE_RESPONSE, op.value, pdu), putOk);
    }

    // -------------------------------------------------------------------
    // Receive side

    /**
     * on_uart_rx_ready, first part: a new cycle allocates the receive
     * buffer and clears cmd_len; the byte is stored at the filled length
     * (outside the pool it is a fault) and counted in 16 bits.
     */
    method RxAccept(b: byte)
      requires Valid()
      modifies this, rxPool
      ensures Valid()
      ensures View() == RxStore(RxStart(old(View())), b)
    {
      if !rxStarted {
        rxStarted := true;
        rx := BuffAlloc(rxPool);
        cmdLen := 0;
      }
      if rx.attached && rx.length < PACKET_LENGTH {
        rxPool[rx.length] := b;
      } else {
        rxFault := true;
      }
      rx := rx.(length := (rx.length + 1) % U16_LIMIT);
    }

    /**
     * on_uart_rx_ready, while the total size is unknown: cmd_len_get, then
     * receive-start on the first byte and receive-error on a size beyond the
     * pool.
     */
    method RxSize()
      requires Valid()
      modifies this
      ensures Valid()
      ensures View() == RxLength(old(View()))
    {
      cmdLen := CmdLenGet(rxPool[..], rx.length);
      if rx.length == 1 {
        OnCmdReceiveStart();
      }
      if cmdLen > PACKET_LENGTH {
        OnCmdReceiveError();
      }
    }

    /**
     * on_uart_rx_ready, once cmd_len bytes are in: format_check against the
     * opcode of the outstanding request (HOST mode), receive-complete or
     * receive-error, and the cycle ends.
     */
    method RxComplete()
      requires Valid()
      modifies this
      ensures Valid()
      ensures View() == RxFinish(old(View()), cfg)
    {
      var reqOp: byte := 0;
      if mode == HostMode {
        var op := OpCodeGet(txPool[..], tx.attached);
        if op.Some? {
          reqOp := op.value;
        }
      }
      var status := FormatCheck(rxPool[..], rx.length, reqOp, mode, SKIP_CRC_CHECK, cfg.crc16);
      if status == Success {
        OnCmdReceiveComplete();
      } else {
        OnCmdReceiveError();
      }
      rxStarted := false;
    }

    /** on_uart_rx_ready on the receive buffer: the role gate, then the three parts above. */
    method OnUartRxReady(b: byte)
      requires Valid()
      modifies this, rxPool
      ensures Valid()
      ensures View() == RxReady(old(View()), b, cfg)
    {
      if mode == HostMode && state != ReqSent && state != RspReceiving {
        return;
      }
      if mode == SlaveMode && state != ReqReceiving {
        return;
      }
      RxAccept(b);
      if cmdLen == 0 {
        RxSize();
        if cmdLen == 0 {
          return;
        }
      }
      if rx.length < cmdLen {
        return;
      }
      RxComplete();
    }

    /** The DATA_READY branch of app_cmd_uart_event_handler: every byte the UART holds, in order. */
    method UartDataReady(bytes: seq<byte>)
      requires Valid()
      modifies this, rxPool
      ensures Valid()
      ensures View() == Feed(old(View()), bytes, cfg)
    {
      var i := 0;
      while i < |bytes|
        invariant 0 <= i <= |bytes|
        invariant Valid()
        invariant View() == Feed(old(View()), bytes[..i], cfg)
      {
        assert bytes[..i + 1][..i] == bytes[..i];
        OnUartRxReady(bytes[i]);
        i := i + 1;
      }
      assert bytes[..i] == bytes;
    }

    // -------------------------------------------------------------------
    // Deferred dispatchers and timeout

    /**
     * proc_req_handler, with `reply` what the registered request handler
     * passes to its respond callback (None when it does not call it).
     */
    method ProcReqHandler(reply: Option<seq<byte>>, putOk: bool)
      requires Valid() && (reply.Some? ==> |reply.value| <= MAX_PDU)
      modifies this, txPool
      ensures Valid()
      ensures View() == ProcReq(old(View()), reply, putOk, cfg)
    {
      var decoded := BuffToCmd(rxPool[..], rx.attached);
      if decoded.Err? {
        return;
      }
      var cmd := decoded.value;
      var payload := PayloadView(rxPool[..], cmd.length);
      var found, cb := CmdCbGet(cmd.opCode);
      if found == Success {
        HandleRequest(cb, cmd, payload, reply, putOk);
        log := log + [ObserverCall(cmd.opCode, payload, cmd.length, false)];
      } else {
        var _ := AppCmdRespond(RSP_UNREG, putOk);
      }
    }

    /** The registered half of proc_req_handler: the request handler, or an empty response. */
    method HandleRequest(cb: CmdCb, h: CmdHeader, payload: seq<byte>, reply: Option<seq<byte>>, putOk: bool)
      requires Valid() && (reply.Some? ==> |reply.value| <= MAX_PDU)
      modifies this, txPool
      ensures Valid()
      ensures View() == HandleReq(old(View()), cb, h, payload, reply, putOk, cfg)
    {
      if cb.hasReq {
        log := log + [ReqHandlerCall(h.opCode, payload, h.length)];
        if reply.Some? {
          var _ := AppCmdRespond(reply.value, putOk);
        }
      } else {
        var _ := AppCmdRespond([], putOk);
      }
    }

    /** proc_rsp_handler. */
    method ProcRspHandler()
      requires Valid()
      modifies this
      ensures Valid()
      ensures View() == ProcRsp(old(View()), cfg)
    {
      StateSet(Idle);
      var decoded := BuffToCmd(rxPool[..], rx.attached);
      if decoded.Err? {
        return;
      }
      var cmd := decoded.value;
      var payload := PayloadView(rxPool[..], cmd.length);
      var found, cb := CmdCbGet(cmd.opCode);
      if found == Success {
        if cb.hasRsp {
          log := log + [RspHandlerCall(cmd.opCode, payload, cmd.length)];
        }
        log := log + [ObserverCall(cmd.opCode, payload, cmd.length, false)];
      }
    }

    /** tmr_rsp_timeout_handler: the single-shot timer has expired. */
    method TmrRspTimeoutHandler()
      requires Valid()
      modifies this
      ensures Valid()
      ensures View() == RspTimeout(old(View()), cfg)
    {
      timerArmed := false;
      var decoded := BuffToCmd(txPool[..], tx.attached);
      if decoded.Err? {
        return;
      }
      var cmd := decoded.value;
      var found, cb := CmdCbGet(cmd.opCode);
      if found == Success {
        if cb.hasRsp {
          log := log + [RspHandlerCall(cmd.opCode, RSP_TIMEOUT, 2)];
        }
        log := log + [ObserverCall(cmd.opCode, RSP_TIMEOUT, 2, true)];
      }
      StateSet(Idle);
    }

    /** app_cmd_init. */
    method AppCmdInit()
      requires Valid()
      modifies this, rxPool, txPool
      ensures Valid()
      ensures View() == Init(old(View()))
    {
      ModeSet(IdleMode);
      StateSet(Idle);
      forall i | 0 <= i < rxPool.Length {
        rxPool[i] := 0;
      }
      forall i | 0 <= i < txPool.Length {
        txPool[i] := 0;
      }
      rx, tx := DETACHED, DETACHED;
    }
  }
}
