/**
 * Wire-format constants, enumerations and records of the UART command
 * protocol (app_cmd.h).
 */
module CmdDefs {
  import opened Bytes

  // Command type of an app_cmd_t being encoded
  const CMD_TYPE_REQUEST: byte := 0
  const CMD_TYPE_RESPONSE: byte := 1

  // Start markers: the first byte of every frame
  const START_REQ: byte := 0x59
  const START_RSP: byte := 0x51

  // Field sizes of a frame: start | length(2) | opcode | pdu | crc(2)
  const SIZE_START: nat := 1
  const SIZE_LEN: nat := 2
  const SIZE_OPCODE: nat := 1
  const SIZE_CRC: nat := 2

  // Field offsets of a frame
  const OFFSET_START: nat := 0
  const OFFSET_LEN: nat := 1
  const OFFSET_OPCODE: nat := 3
  const OFFSET_PDU: nat := 4

  // Internal operation codes: 0x10 - 0x1F
  const OP_INTERNAL: byte := 0x10
  const OP_PING: byte := OP_INTERNAL + 1
  const OP_RAW_DATA: byte := OP_INTERNAL + 2

  // Sentinel response payloads
  const RSP_OK: seq<byte> := ['o' as byte, 'k' as byte]
  const RSP_TIMEOUT: seq<byte> := ['t' as byte, 'o' as byte]
  const RSP_UNREG: seq<byte> := ['u' as byte, 'r' as byte]

  /** cmd_mode_t: which role the endpoint currently plays. */
  datatype Mode = IdleMode | HostMode | SlaveMode

  /** cmd_state_t: progress within the current send/receive cycle. */
  datatype CmdState =
    | Idle
    | ReqSending
    | ReqSent
    | ReqReceiving
    | ReqReceived
    | RspSending
    | RspSent
    | RspReceiving
    | RspReceived
    | ErrTimeout
    | ErrSend
    | ErrReceive

  /** The enumerator value C gives each mode. */
  function ModeOrdinal(m: Mode): nat
  {
    match m
    case IdleMode => 0
    case HostMode => 1
    case SlaveMode => 2
  }

  /** The enumerator value C gives each state. */
  function StateOrdinal(s: CmdState): nat
  {
    match s
    case Idle => 0
    case ReqSending => 1
    case ReqSent => 2
    case ReqReceiving => 3
    case ReqReceived => 4
    case RspSending => 5
    case RspSent => 6
    case RspReceiving => 7
    case RspReceived => 8
    case ErrTimeout => 9
    case ErrSend => 10
    case ErrReceive => 11
  }

  const ALL_MODES: seq<Mode> := [IdleMode, HostMode, SlaveMode]
  const ALL_STATES: seq<CmdState> :=
    [Idle, ReqSending, ReqSent, ReqReceiving, ReqReceived, RspSending,
     RspSent, RspReceiving, RspReceived, ErrTimeout, ErrSend, ErrReceive]

  /** The NRF_* status codes the engine returns. */
  datatype Status =
    | Success
    | ErrInternal
    | ErrNotFound
    | ErrInvalidParam
    | ErrInvalidState
    | ErrInvalidData
    | ErrDataSize
    | ErrBusy

  /**
   * cmd_cb_t: one registry entry, an operation code with an optional request
   * handler and an optional response handler (either may be
   * absent independently of the other). The handlers themselves are outside the model; an
   * entry only records which of them exist.
   */
  datatype CmdCb = CmdCb(opCode: byte, hasReq: bool, hasRsp: bool)

  /** CMD_CALLBACK_REG: an entry for the registry table. */
  function CallbackReg(opCode: byte, hasReq: bool, hasRsp: bool): (cb: CmdCb)
    ensures cb.opCode == opCode && cb.hasReq == hasReq && cb.hasRsp == hasRsp
  {
    CmdCb(opCode, hasReq, hasRsp)
  }

  /** app_cmd_t as handed to the encoder: the pdu bytes stand for p_data/length. */
  datatype AppCmd = AppCmd(cmdType: byte, opCode: byte, pdu: seq<byte>)

  /**
   * app_cmd_t as produced by the decoder: `cmdType` is the raw start marker,
   * and the payload is not copied (it aliases the buffer from offset 4).
   */
  datatype CmdHeader = CmdHeader(cmdType: byte, opCode: byte, length: u16)

  /** An invocation of a registered handler or of the event observer. */
  datatype Callback =
    | ReqHandlerCall(opCode: byte, payload: seq<byte>, length: u16)
    | RspHandlerCall(opCode: byte, payload: seq<byte>, length: u16)
    | ObserverCall(opCode: byte, payload: seq<byte>, length: u16, timeout: bool)

  /** Each field offset is the sum of the sizes before it: a 4-byte header and a 2-byte trailer. */
  lemma FrameOffsetsCumulative()
    ensures OFFSET_LEN == OFFSET_START + SIZE_START
    ensures OFFSET_OPCODE == OFFSET_LEN + SIZE_LEN
    ensures OFFSET_PDU == OFFSET_OPCODE + SIZE_OPCODE
    ensures OFFSET_PDU == 4 && SIZE_CRC == 2
  {
  }

  /** The two start markers can be told apart. */
  lemma MarkersDistinct()
    ensures START_REQ != START_RSP
  {
  }

  /** The sentinel payloads "ok", "to" and "ur" have 2 bytes each and differ pairwise. */
  lemma SentinelsDistinct()
    ensures |RSP_OK| == 2 && |RSP_TIMEOUT| == 2 && |RSP_UNREG| == 2
    ensures RSP_OK != RSP_TIMEOUT && RSP_OK != RSP_UNREG && RSP_TIMEOUT != RSP_UNREG
  {
  }

  /** PING and RAW_DATA are in the internal range 0x10..0x1F. */
  lemma InternalOpcodes()
    ensures OP_PING == 0x11 && OP_RAW_DATA == 0x12
    ensures OP_INTERNAL <= OP_PING <= 0x1F && OP_INTERNAL <= OP_RAW_DATA <= 0x1F
  {
  }

  /** There are exactly 3 modes and 12 states, numbered 0.. in declaration order. */
  lemma EnumerationsInOrder(m: Mode, s: CmdState)
    ensures |ALL_MODES| == 3 && ModeOrdinal(m) < 3 && ALL_MODES[ModeOrdinal(m)] == m
    ensures forall i :: 0 <= i < 3 ==> ModeOrdinal(ALL_MODES[i]) == i
    ensures |ALL_STATES| == 12 && StateOrdinal(s) < 12 && ALL_STATES[StateOrdinal(s)] == s
    ensures forall i :: 0 <= i < 12 ==> StateOrdinal(ALL_STATES[i]) == i
  {
  }
}
