# UART DFU bridge: command engine, upload sequencer and flat-file serialiser

This project models the core of the nRF52 side of a UART DFU bridge and
proves properties of that model. A BLE central uploads a firmware image to
the nRF52. The nRF52 forwards the image over UART to an nRF9160, which
writes it to its flash. The model has three parts.

- **The UART command engine** (`app_cmd.c`, `app_cmd.h`). Commands travel as
  frames `start | len16 | opcode | pdu | crc16`. A request starts with 0x59
  and a response with 0x51. The engine is a host or a slave in a 3-mode,
  12-state machine. It sends a frame one byte per UART TX-empty event and
  assembles a received frame one byte at a time. It then checks the frame
  and hands it to the handler registered for its opcode.
  - `CmdDefs`: the constants and types of the header.
  - `CmdFrame`: the frame codec and frame checks, on values.
  - `CmdSession`: the state machine.
  - `CmdSpec`: one function per C function over the whole engine state.
  - `CmdEngine.Engine`: a class with the two 1040-byte pools as arrays. Each
    of its methods is proved to change the object exactly as the matching
    `CmdSpec` function says.
  - `CmdProtocol`: properties of whole exchanges.
  - `CmdOverrun`: the receive-pool overrun and its correction.
- **The image-upload sequencer** (`dfu_helper.c`). It packs the central's
  128-byte IMG_DATA packets into blocks of at most 1024 bytes. Each block
  becomes a FLASH_WRITE request behind an 8-byte offset/length header. Around
  the writes, the sequencer asks for the flash geometry (FLASH_INFO), erases
  the pages the image needs (FLASH_ERASE) and finishes with FLASH_DONE.
  - `DfuSpec`: the sequencer on values.
  - `DfuHelper.Helper`: a class with the 1032-byte command buffer as an
    array. Its methods are proved against `DfuSpec`.
  - `DfuUpload` and `DfuProps`: single-callback properties, and the whole
    upload of an image.
- **The DFU flat-file serialiser** (`scripts/dfu_zip_to_bin.py`). It turns an
  nRF Secure DFU package into one flat binary with this layout:
  - a 128-byte header of little-endian 32-bit fields, padded with 0xFF;
  - each image's init packet, padded with 0xFF to 512 bytes;
  - its firmware, padded to a multiple of 4;
  - the CRC32 of everything before it.

  The modules are:
  - `FlatFileSpec`: the layout and bytes on values.
  - `FlatFileMaker.FlatFile`: `make` as a method with the script's loops,
    proved to produce those bytes.
  - `FlatFileProps`: what a reader of the file finds in it.

`Bytes` holds the byte types and the little-endian codecs. `Wrappers` holds
`Option` and `Result`.

## Model

Paths are relative to the repository root. `app_cmd.c`, `app_cmd.h` and
`dfu_helper.c` are in `cross_dfu/UART_DFU/SDK_52/sdk16.0/_project/cross_dfu_52/src/`.

| member | source | states |
|---|---|---|
| Bytes.Fill | cross_dfu/UART_DFU/SDK_52/scripts/dfu_zip_to_bin.py:128 | `[b] * n` has exactly n bytes, every one of them b |
| Bytes.Le16RoundTrip | cross_dfu/UART_DFU/SDK_52/sdk16.0/_project/cross_dfu_52/src/app_cmd.c:456-470 | decoding the two little-endian bytes of a 16-bit value gives it back, and every byte pair is the encoding of its decoding |
| Bytes.Le32RoundTrip | cross_dfu/UART_DFU/SDK_52/scripts/dfu_zip_to_bin.py:158-160 | get_le32 gives 4 bytes whose little-endian decoding is the number; every 4-byte string is the encoding of its decoding, so the encoding is a bijection on [0, 2^32) |
| Bytes.Le32sAppend | cross_dfu/UART_DFU/SDK_52/scripts/dfu_zip_to_bin.py:113-124 | extending the file data field by field concatenates the runs of encoded fields |
| CmdDefs.CallbackReg | cross_dfu/UART_DFU/SDK_52/sdk16.0/_project/cross_dfu_52/src/app_cmd.h:106-112 | a registry entry carries its opcode and, independently of each other, whether it has a request handler and a response handler |
| CmdDefs.FrameOffsetsCumulative | cross_dfu/UART_DFU/SDK_52/sdk16.0/_project/cross_dfu_52/src/app_cmd.h:16-24 | each field offset is the sum of the sizes before it; the header is 4 bytes and the trailer 2 |
| CmdDefs.MarkersDistinct | cross_dfu/UART_DFU/SDK_52/sdk16.0/_project/cross_dfu_52/src/app_cmd.h:13-14 | the request and response start markers differ |
| CmdDefs.SentinelsDistinct | cross_dfu/UART_DFU/SDK_52/sdk16.0/_project/cross_dfu_52/src/app_cmd.h:31-36 | "ok", "to" and "ur" have 2 bytes each and are pairwise distinct |
| CmdDefs.InternalOpcodes | cross_dfu/UART_DFU/SDK_52/sdk16.0/_project/cross_dfu_52/src/app_cmd.h:26-29 | PING is 0x11 and RAW_DATA is 0x12, both in the internal range 0x10..0x1F |
| CmdDefs.EnumerationsInOrder | cross_dfu/UART_DFU/SDK_52/sdk16.0/_project/cross_dfu_52/src/app_cmd.h:39-62 | there are exactly 3 modes and 12 states; the ordinal of each is its position in the declaration, in both directions |
| CmdFrame.EncodeFrameLayout | cross_dfu/UART_DFU/SDK_52/sdk16.0/_project/cross_dfu_52/src/app_cmd.c:540-583 | an encoded frame is pdu + 6 bytes, never beyond the 1040-byte pool; the marker is 0x51 for a response and 0x59 otherwise; the length field is 1 + pdu length; opcode and pdu sit at offsets 3 and 4; the trailer is the CRC of bytes [1, 4 + n) |
| CmdFrame.EncodeFrameLength | cross_dfu/UART_DFU/SDK_52/sdk16.0/_project/cross_dfu_52/src/app_cmd.c:578-580 | the filled length is the pdu length + 6, which for a pdu of at most 1034 bytes never exceeds 1040 |
| CmdFrame.TxImageBytes | cross_dfu/UART_DFU/SDK_52/sdk16.0/_project/cross_dfu_52/src/app_cmd.c:540-583 | the transmit pool after cmd_to_buff, byte by byte: marker, length field, opcode, pdu, CRC, then zeros to the end of the pool |
| CmdFrame.CmdLenGet | cross_dfu/UART_DFU/SDK_52/sdk16.0/_project/cross_dfu_52/src/app_cmd.c:456-470 | 0 unless exactly 3 bytes are filled; then length field + 5 in 16 bits, which is at least 5 below 0xFFFB and wraps to 0..4 from 0xFFFB on |
| CmdFrame.Crc16Check | cross_dfu/UART_DFU/SDK_52/sdk16.0/_project/cross_dfu_52/src/app_cmd.c:89-104 | with checking skipped the check passes; otherwise it passes exactly when the CRC of the data equals the target |
| CmdFrame.FormatCheck | cross_dfu/UART_DFU/SDK_52/sdk16.0/_project/cross_dfu_52/src/app_cmd.c:472-524 | the result is SUCCESS or INVALID_DATA; success in HOST mode implies a response marker and the request's opcode; in SLAVE mode it implies a request marker; the filled length equals length field + 5 whenever that sum fits 16 bits; with CRC checking on, the trailer inside the pool matches the CRC; and success holds exactly when the role's marker (and, in HOST mode, opcode) match, the filled length equals length field + 5 taken modulo 2^16, and the trailer is accepted |
| CmdFrame.OpCodeGet | cross_dfu/UART_DFU/SDK_52/sdk16.0/_project/cross_dfu_52/src/app_cmd.c:526-537 | an opcode is returned exactly when the buffer has a pool, and it is byte 3 |
| CmdFrame.BuffToCmd | cross_dfu/UART_DFU/SDK_52/sdk16.0/_project/cross_dfu_52/src/app_cmd.c:585-604 | INVALID_PARAM exactly without a pool; otherwise the type is the raw marker, the opcode is byte 3 and the length is length field - 1, which is 0xFFFF for a length field of 0 |
| CmdFrame.PayloadView | cross_dfu/UART_DFU/SDK_52/sdk16.0/_project/cross_dfu_52/src/app_cmd.c:596-601 | a payload inside the pool has the announced length |
| CmdFrame.EncodeDecodeRoundTrip | cross_dfu/UART_DFU/SDK_52/sdk16.0/_project/cross_dfu_52/src/app_cmd.c:540-604 | buff_to_cmd on the pool cmd_to_buff filled gives back the opcode, the pdu length and the pdu bytes; the type comes back as the start marker |
| CmdFrame.EncodedFrameValid | cross_dfu/UART_DFU/SDK_52/sdk16.0/_project/cross_dfu_52/src/app_cmd.c:472-524 | a self-encoded frame passes format_check if and only if it suits the role: in HOST mode a response to the outstanding opcode, in SLAVE mode a request, in IDLE mode anything; with or without the CRC check |
| CmdFrame.EncodedCmdLen | cross_dfu/UART_DFU/SDK_52/sdk16.0/_project/cross_dfu_52/src/app_cmd.c:456-470 | once the first 3 bytes of an encoded frame are in, cmd_len_get yields the frame's total size |
| CmdFrame.CmdLenGetAgrees | cross_dfu/UART_DFU/SDK_52/sdk16.0/_project/cross_dfu_52/src/app_cmd.c:456-470 | the 16-bit frame size equals the true frame size if and only if the length field is below 0xFFFB |
| CmdFrame.CmdLenWraps | cross_dfu/UART_DFU/SDK_52/sdk16.0/_project/cross_dfu_52/src/app_cmd.c:456-470 | as written, length field 0xFFFF gives cmd_len 4; that 4-byte frame passes format_check as a slave and decodes with a 0xFFFE-byte payload |
| CmdFrame.DecodeUnderflow | cross_dfu/UART_DFU/SDK_52/sdk16.0/_project/cross_dfu_52/src/app_cmd.c:585-604 | as written, a 5-byte request with length field 0 passes format_check as a slave and decodes with a 0xFFFF-byte payload |
| CmdFrame.CheckedDecodeRoundTrip | cross_dfu/UART_DFU/SDK_52/sdk16.0/_project/cross_dfu_52/src/app_cmd.c:585-604 | the corrected decoder gives back exactly the command that was encoded, for requests and responses |
| CmdFrame.CheckedDecodeSound | cross_dfu/UART_DFU/SDK_52/sdk16.0/_project/cross_dfu_52/src/app_cmd.c:585-604 | whatever the corrected decoder accepts is, up to the CRC, the encoding of what it returns; its payload never reaches beyond the frame |
| CmdSession.TransitionSettles | cross_dfu/UART_DFU/SDK_52/sdk16.0/_project/cross_dfu_52/src/app_cmd.c:125-224 | from a settled session, state_set never leaves the machine in RSP_SENT, ERR_SEND or ERR_TIMEOUT, in ERR_RECEIVE outside HOST mode, or in IDLE in SLAVE mode |
| CmdSession.SignalSettles | cross_dfu/UART_DFU/SDK_52/sdk16.0/_project/cross_dfu_52/src/app_cmd.c:226-302 | every on_cmd_* event keeps the machine settled |
| CmdSession.CollapseToIdle | cross_dfu/UART_DFU/SDK_52/sdk16.0/_project/cross_dfu_52/src/app_cmd.c:165-224 | a state change ends in IDLE/IDLE if and only if it enters IDLE, RSP_SENT, ERR_SEND or ERR_TIMEOUT, or enters ERR_RECEIVE outside HOST mode; in HOST mode ERR_RECEIVE stays |
| CmdSession.TransitionMode | cross_dfu/UART_DFU/SDK_52/sdk16.0/_project/cross_dfu_52/src/app_cmd.c:165-224 | entering REQ_SENDING makes the mode HOST, REQ_RECEIVING makes it SLAVE, IDLE makes it IDLE; no other state changes the mode except by falling back to IDLE |
| CmdSession.TransitionEffects | cross_dfu/UART_DFU/SDK_52/sdk16.0/_project/cross_dfu_52/src/app_cmd.c:165-224 | only entering REQ_SENT arms the timer and only RSP_RECEIVED disarms it; RSP_RECEIVED queues the response dispatcher, REQ_RECEIVED the request dispatcher, and no other state touches the queue |
| CmdSession.HostCycle | cross_dfu/UART_DFU/SDK_52/sdk16.0/_project/cross_dfu_52/src/app_cmd.c:226-302 | send-start, send-complete, receive-start and receive-complete take a host from IDLE through REQ_SENDING, REQ_SENT (timer armed) and RSP_RECEIVING to RSP_RECEIVED with the timer stopped and the response dispatcher queued |
| CmdSession.SlaveCycle | cross_dfu/UART_DFU/SDK_52/sdk16.0/_project/cross_dfu_52/src/app_cmd.c:226-302 | receive-start and receive-complete take an idle engine to SLAVE REQ_RECEIVED with the request dispatcher queued; the response's send-start and send-complete return it to IDLE |
| CmdSession.RequestSent | cross_dfu/UART_DFU/SDK_52/sdk16.0/_project/cross_dfu_52/src/app_cmd.c:240-256 | send-complete of a request moves to REQ_SENT and arms the timer, nothing else |
| CmdSession.ResponseSent | cross_dfu/UART_DFU/SDK_52/sdk16.0/_project/cross_dfu_52/src/app_cmd.c:240-256 | send-complete of a response passes through RSP_SENT back to IDLE/IDLE |
| CmdSession.SignalCoherent | cross_dfu/UART_DFU/SDK_52/sdk16.0/_project/cross_dfu_52/src/app_cmd.c:226-302 | every event keeps a coherent session coherent: settled, and the mode is IDLE exactly when the state is |
| CmdSession.IdleCoherent | cross_dfu/UART_DFU/SDK_52/sdk16.0/_project/cross_dfu_52/src/app_cmd.c:125-138 | state_set(IDLE) ends in IDLE/IDLE and restores the invariant |
| CmdSession.InitialCoherent | cross_dfu/UART_DFU/SDK_52/sdk16.0/_project/cross_dfu_52/src/app_cmd.c:47 | the zero-initialised context satisfies the invariant |
| CmdSession.SendErrorRecovers | cross_dfu/UART_DFU/SDK_52/sdk16.0/_project/cross_dfu_52/src/app_cmd.c:258-263 | a send error always returns to IDLE/IDLE |
| CmdSession.ReceiveErrorRecovers | cross_dfu/UART_DFU/SDK_52/sdk16.0/_project/cross_dfu_52/src/app_cmd.c:297-302 | a receive error returns to IDLE if and only if the mode is not HOST; a host rests in ERR_RECEIVE |
| CmdSpec.Lookup | cross_dfu/UART_DFU/SDK_52/sdk16.0/_project/cross_dfu_52/src/app_cmd.c:306-328 | nothing is found if and only if no entry has the opcode; otherwise the result has the opcode and no earlier entry has it |
| CmdSpec.CmdToBuff | cross_dfu/UART_DFU/SDK_52/sdk16.0/_project/cross_dfu_52/src/app_cmd.c:540-583 | the transmit pool holds the frame followed by zeros, the cursor is rewound, the filled length is the frame size, and nothing else changes |
| CmdSpec.SendStep | cross_dfu/UART_DFU/SDK_52/sdk16.0/_project/cross_dfu_52/src/app_cmd.c:606-642 | DATA_SIZE on an empty buffer; send-complete and SUCCESS at the end; otherwise the cursor moves by exactly one and stays within the length; an accepted byte goes on the wire (the first one signals send-start); a refused one signals send-error with INTERNAL |
| CmdSpec.CmdSend | cross_dfu/UART_DFU/SDK_52/sdk16.0/_project/cross_dfu_52/src/app_cmd.c:644-648 | the transmit pool holds the encoded frame, the cursor is past the marker, the marker is on the wire (send-start, BUSY) or refused (send-error, INTERNAL) |
| CmdSpec.Request | cross_dfu/UART_DFU/SDK_52/sdk16.0/_project/cross_dfu_52/src/app_cmd.c:679-699 | INVALID_STATE and no change unless the mode is IDLE; otherwise a request frame is encoded and its first byte sent, and an accepted byte leaves HOST REQ_SENDING |
| CmdSpec.Respond | cross_dfu/UART_DFU/SDK_52/sdk16.0/_project/cross_dfu_52/src/app_cmd.c:650-677 | INVALID_STATE and no change unless the state is REQ_RECEIVED or REQ_SENT; INVALID_DATA with send-error without a receive pool; otherwise a response with the opcode of receive byte 3 is sent |
| CmdSpec.RxStart | cross_dfu/UART_DFU/SDK_52/sdk16.0/_project/cross_dfu_52/src/app_cmd.c:741-746 | a cycle is open afterwards and the session is untouched |
| CmdSpec.RxStore | cross_dfu/UART_DFU/SDK_52/sdk16.0/_project/cross_dfu_52/src/app_cmd.c:748-749 | the byte is stored at the filled length inside the pool and the 16-bit count grows by one; a store outside the pool raises the fault flag instead |
| CmdSpec.RxLength | cross_dfu/UART_DFU/SDK_52/sdk16.0/_project/cross_dfu_52/src/app_cmd.c:751-769 | cmd_len becomes cmd_len_get of the pool, only the session changes besides, and the session invariant is kept |
| CmdSpec.RxFinish | cross_dfu/UART_DFU/SDK_52/sdk16.0/_project/cross_dfu_52/src/app_cmd.c:776-801 | the checked frame ends the cycle and keeps the session invariant |
| CmdSpec.RxReady | cross_dfu/UART_DFU/SDK_52/sdk16.0/_project/cross_dfu_52/src/app_cmd.c:715-802 | a byte outside the role gate changes nothing; the transmit side, wire and log never change; a fault is never cleared; the session invariant is kept |
| CmdSpec.ProcReq | cross_dfu/UART_DFU/SDK_52/sdk16.0/_project/cross_dfu_52/src/app_cmd.c:372-414 | nothing without a receive pool; an unregistered opcode is answered with "ur"; a registered one ends with an observer event for that opcode, without timeout |
| CmdSpec.HandleReq | cross_dfu/UART_DFU/SDK_52/sdk16.0/_project/cross_dfu_52/src/app_cmd.c:388-405 | the request handler, if any, sees the payload and its length; the receive side is untouched; a handler that does not answer changes nothing else; a handler's answer, or the empty answer when there is no handler, is sent as app_cmd_respond sends it |
| CmdSpec.ProcRsp | cross_dfu/UART_DFU/SDK_52/sdk16.0/_project/cross_dfu_52/src/app_cmd.c:416-454 | the session goes back to IDLE first; a decodable registered response reaches its response handler (if any) and then the observer; otherwise nothing is logged |
| CmdSpec.RspTimeout | cross_dfu/UART_DFU/SDK_52/sdk16.0/_project/cross_dfu_52/src/app_cmd.c:330-370 | without a transmit pool only the timer stops; otherwise the engine returns to IDLE, and a registered opcode has its response handler (if any) and the observer see "to" with timeout set |
| CmdSpec.Init | cross_dfu/UART_DFU/SDK_52/sdk16.0/_project/cross_dfu_52/src/app_cmd.c:831-854 | mode and state IDLE, both pools zero, both buffers detached; the receive statics, timer, queue, wire and log are left as they were |
| CmdEngine.Engine.constructor | cross_dfu/UART_DFU/SDK_52/sdk16.0/_project/cross_dfu_52/src/app_cmd.c:47-60 | the statics before app_cmd_init: zero pools, detached buffers, IDLE |
| CmdEngine.Engine.ModeSet | cross_dfu/UART_DFU/SDK_52/sdk16.0/_project/cross_dfu_52/src/app_cmd.c:140-151 | only the mode changes |
| CmdEngine.Engine.StateSet | cross_dfu/UART_DFU/SDK_52/sdk16.0/_project/cross_dfu_52/src/app_cmd.c:125-138 | the recursive state_set/state_handler pair changes the session exactly as the transition function |
| CmdEngine.Engine.StateHandler | cross_dfu/UART_DFU/SDK_52/sdk16.0/_project/cross_dfu_52/src/app_cmd.c:165-224 | the entry action of the current state, as the entry function |
| CmdEngine.Engine.OnCmdSendStart | cross_dfu/UART_DFU/SDK_52/sdk16.0/_project/cross_dfu_52/src/app_cmd.c:226-238 | the send-start event |
| CmdEngine.Engine.OnCmdSendComplete | cross_dfu/UART_DFU/SDK_52/sdk16.0/_project/cross_dfu_52/src/app_cmd.c:240-256 | the send-complete event |
| CmdEngine.Engine.OnCmdSendError | cross_dfu/UART_DFU/SDK_52/sdk16.0/_project/cross_dfu_52/src/app_cmd.c:258-263 | the send-error event |
| CmdEngine.Engine.OnCmdReceiveStart | cross_dfu/UART_DFU/SDK_52/sdk16.0/_project/cross_dfu_52/src/app_cmd.c:265-277 | the receive-start event |
| CmdEngine.Engine.OnCmdReceiveComplete | cross_dfu/UART_DFU/SDK_52/sdk16.0/_project/cross_dfu_52/src/app_cmd.c:279-295 | the receive-complete event |
| CmdEngine.Engine.OnCmdReceiveError | cross_dfu/UART_DFU/SDK_52/sdk16.0/_project/cross_dfu_52/src/app_cmd.c:297-302 | the receive-error event |
| CmdEngine.Engine.CmdCbGet | cross_dfu/UART_DFU/SDK_52/sdk16.0/_project/cross_dfu_52/src/app_cmd.c:306-328 | the search loop gives SUCCESS exactly when some entry has the opcode, and then the first such entry; NOT_FOUND otherwise |
| CmdEngine.Engine.BuffAlloc | cross_dfu/UART_DFU/SDK_52/sdk16.0/_project/cross_dfu_52/src/app_cmd.c:107-117 | the pool is all zeros and the buffer points at it, empty, cursor 0 |
| CmdEngine.Engine.WriteBody | cross_dfu/UART_DFU/SDK_52/sdk16.0/_project/cross_dfu_52/src/app_cmd.c:553-569 | marker, length field, opcode and pdu written into a zeroed pool, zeros behind them |
| CmdEngine.Engine.WriteFrame | cross_dfu/UART_DFU/SDK_52/sdk16.0/_project/cross_dfu_52/src/app_cmd.c:553-576 | the zeroed pool ends up holding exactly the encoded frame followed by zeros |
| CmdEngine.Engine.CmdToBuff | cross_dfu/UART_DFU/SDK_52/sdk16.0/_project/cross_dfu_52/src/app_cmd.c:540-583 | the transmit pool and buffer change as CmdSpec.CmdToBuff says |
| CmdEngine.Engine.BuffSend | cross_dfu/UART_DFU/SDK_52/sdk16.0/_project/cross_dfu_52/src/app_cmd.c:606-642 | state and status as CmdSpec.SendStep says |
| CmdEngine.Engine.CmdSend | cross_dfu/UART_DFU/SDK_52/sdk16.0/_project/cross_dfu_52/src/app_cmd.c:644-648 | state and status as CmdSpec.CmdSend says |
| CmdEngine.Engine.OnUartTxEmpty | cross_dfu/UART_DFU/SDK_52/sdk16.0/_project/cross_dfu_52/src/app_cmd.c:709-712 | one buff_send step |
| CmdEngine.Engine.AppCmdRequest | cross_dfu/UART_DFU/SDK_52/sdk16.0/_project/cross_dfu_52/src/app_cmd.c:679-699 | state and status as CmdSpec.Request says |
| CmdEngine.Engine.AppCmdRespond | cross_dfu/UART_DFU/SDK_52/sdk16.0/_project/cross_dfu_52/src/app_cmd.c:650-677 | state and status as CmdSpec.Respond says |
| CmdEngine.Engine.RxAccept | cross_dfu/UART_DFU/SDK_52/sdk16.0/_project/cross_dfu_52/src/app_cmd.c:741-749 | a new cycle allocates the receive buffer; the byte is stored and counted as CmdSpec.RxStore says |
| CmdEngine.Engine.RxSize | cross_dfu/UART_DFU/SDK_52/sdk16.0/_project/cross_dfu_52/src/app_cmd.c:751-769 | as CmdSpec.RxLength |
| CmdEngine.Engine.RxComplete | cross_dfu/UART_DFU/SDK_52/sdk16.0/_project/cross_dfu_52/src/app_cmd.c:776-801 | as CmdSpec.RxFinish |
| CmdEngine.Engine.OnUartRxReady | cross_dfu/UART_DFU/SDK_52/sdk16.0/_project/cross_dfu_52/src/app_cmd.c:715-802 | as CmdSpec.RxReady |
| CmdEngine.Engine.UartDataReady | cross_dfu/UART_DFU/SDK_52/sdk16.0/_project/cross_dfu_52/src/app_cmd.c:810-820 | the byte loop delivers every byte in order, as CmdSpec.Feed |
| CmdEngine.Engine.ProcReqHandler | cross_dfu/UART_DFU/SDK_52/sdk16.0/_project/cross_dfu_52/src/app_cmd.c:372-414 | as CmdSpec.ProcReq |
| CmdEngine.Engine.HandleRequest | cross_dfu/UART_DFU/SDK_52/sdk16.0/_project/cross_dfu_52/src/app_cmd.c:388-405 | as CmdSpec.HandleReq |
| CmdEngine.Engine.ProcRspHandler | cross_dfu/UART_DFU/SDK_52/sdk16.0/_project/cross_dfu_52/src/app_cmd.c:416-454 | as CmdSpec.ProcRsp |
| CmdEngine.Engine.TmrRspTimeoutHandler | cross_dfu/UART_DFU/SDK_52/sdk16.0/_project/cross_dfu_52/src/app_cmd.c:330-370 | as CmdSpec.RspTimeout |
| CmdEngine.Engine.AppCmdInit | cross_dfu/UART_DFU/SDK_52/sdk16.0/_project/cross_dfu_52/src/app_cmd.c:831-854 | as CmdSpec.Init |
| CmdProtocol.RxFirst | cross_dfu/UART_DFU/SDK_52/sdk16.0/_project/cross_dfu_52/src/app_cmd.c:741-758 | the first byte of a cycle resets the receive buffer and signals receive-start |
| CmdProtocol.RxMiddle | cross_dfu/UART_DFU/SDK_52/sdk16.0/_project/cross_dfu_52/src/app_cmd.c:748-774 | a byte that completes neither the length field nor the frame is only stored |
| CmdProtocol.RxHeader | cross_dfu/UART_DFU/SDK_52/sdk16.0/_project/cross_dfu_52/src/app_cmd.c:751-769 | the third byte fixes cmd_len |
| CmdProtocol.RxLast | cross_dfu/UART_DFU/SDK_52/sdk16.0/_project/cross_dfu_52/src/app_cmd.c:771-801 | the byte that reaches cmd_len ends the cycle through format_check |
| CmdProtocol.FeedPrefix | cross_dfu/UART_DFU/SDK_52/sdk16.0/_project/cross_dfu_52/src/app_cmd.c:715-802 | every byte of an encoded frame but the last accumulates in the pool: receive-start once, cmd_len fixed to the frame size at byte 3 |
| CmdProtocol.FinishEncoded | cross_dfu/UART_DFU/SDK_52/sdk16.0/_project/cross_dfu_52/src/app_cmd.c:776-801 | a fully received encoded frame completes exactly when it suits the role, and errors otherwise |
| CmdProtocol.FeedFrame | cross_dfu/UART_DFU/SDK_52/sdk16.0/_project/cross_dfu_52/src/app_cmd.c:715-802 | after a whole encoded frame the cycle has ended with receive-complete or receive-error by the role rule |
| CmdProtocol.FrameReceived | cross_dfu/UART_DFU/SDK_52/sdk16.0/_project/cross_dfu_52/src/app_cmd.c:715-802 | after a whole encoded frame the receive pool equals the sender's transmit pool |
| CmdProtocol.SlaveReceives | cross_dfu/UART_DFU/SDK_52/sdk16.0/_project/cross_dfu_52/src/app_cmd.c:715-802 | an idle engine receiving an encoded request ends in SLAVE REQ_RECEIVED with the request dispatcher queued and the sender's pool; a response is refused and it stays idle |
| CmdProtocol.HostReceives | cross_dfu/UART_DFU/SDK_52/sdk16.0/_project/cross_dfu_52/src/app_cmd.c:715-802 | a host in REQ_SENT receiving a response to its own opcode ends in RSP_RECEIVED with the timer stopped and the response dispatcher queued; any other frame leaves it in ERR_RECEIVE |
| CmdProtocol.SendRest | cross_dfu/UART_DFU/SDK_52/sdk16.0/_project/cross_dfu_52/src/app_cmd.c:606-642 | each further accepted buff_send puts the next pool byte on the wire and moves the cursor by one, leaving the session alone |
| CmdProtocol.SendWhole | cross_dfu/UART_DFU/SDK_52/sdk16.0/_project/cross_dfu_52/src/app_cmd.c:606-642 | after the first byte the rest of the buffer goes on the wire, and the next call signals send-complete with SUCCESS |
| CmdProtocol.FrameSent | cross_dfu/UART_DFU/SDK_52/sdk16.0/_project/cross_dfu_52/src/app_cmd.c:606-642 | a transmit buffer holding an encoded frame with its marker sent puts exactly the rest of the frame on the wire |
| CmdProtocol.RequestStarts | cross_dfu/UART_DFU/SDK_52/sdk16.0/_project/cross_dfu_52/src/app_cmd.c:679-699 | an idle engine's request with the first byte accepted, as one state |
| CmdProtocol.RespondStarts | cross_dfu/UART_DFU/SDK_52/sdk16.0/_project/cross_dfu_52/src/app_cmd.c:650-677 | a slave's response with the first byte accepted, as one state |
| CmdProtocol.RespondRefused | cross_dfu/UART_DFU/SDK_52/sdk16.0/_project/cross_dfu_52/src/app_cmd.c:650-677 | a refused first byte gives INTERNAL and returns the session to IDLE |
| CmdProtocol.HostSendsRequest | cross_dfu/UART_DFU/SDK_52/sdk16.0/_project/cross_dfu_52/src/app_cmd.c:679-699 | an idle engine's request goes on the wire whole, and send-complete leaves HOST REQ_SENT with the timer armed |
| CmdProtocol.SlaveSendsResponse | cross_dfu/UART_DFU/SDK_52/sdk16.0/_project/cross_dfu_52/src/app_cmd.c:650-677 | a slave's response goes on the wire whole, with the request's opcode, and the slave returns to IDLE |
| CmdProtocol.RequestDelivered | cross_dfu/UART_DFU/SDK_52/sdk16.0/_project/cross_dfu_52/src/app_cmd.c:679-699 | a host's request fed to an idle slave leaves it in REQ_RECEIVED with a receive buffer that decodes to the host's opcode and payload |
| CmdProtocol.ResponseDelivered | cross_dfu/UART_DFU/SDK_52/sdk16.0/_project/cross_dfu_52/src/app_cmd.c:650-677 | the slave's response fed back to the host reaches RSP_RECEIVED with the timer stopped and decodes to the request's opcode and the slave's payload |
| CmdProtocol.SendKeepsCoherent | cross_dfu/UART_DFU/SDK_52/sdk16.0/_project/cross_dfu_52/src/app_cmd.c:606-642 | buff_send and app_cmd_respond keep the session invariant |
| CmdProtocol.RequestKeepsCoherent | cross_dfu/UART_DFU/SDK_52/sdk16.0/_project/cross_dfu_52/src/app_cmd.c:679-699 | app_cmd_request keeps the session invariant |
| CmdProtocol.ProcReqKeepsCoherent | cross_dfu/UART_DFU/SDK_52/sdk16.0/_project/cross_dfu_52/src/app_cmd.c:372-414 | proc_req_handler keeps the session invariant |
| CmdProtocol.HandleReqKeepsCoherent | cross_dfu/UART_DFU/SDK_52/sdk16.0/_project/cross_dfu_52/src/app_cmd.c:388-405 | the registered half of proc_req_handler keeps the session invariant |
| CmdProtocol.IdleStepsKeepCoherent | cross_dfu/UART_DFU/SDK_52/sdk16.0/_project/cross_dfu_52/src/app_cmd.c:330-370 | proc_rsp_handler, the response timeout and app_cmd_init keep the session invariant |
| CmdOverrun.OversizedHeader | cross_dfu/UART_DFU/SDK_52/sdk16.0/_project/cross_dfu_52/src/app_cmd.c:751-769 | as written, the length byte of an oversized request signals receive-error, which returns a slave to IDLE, but the cycle stays open |
| CmdOverrun.OversizedPrefix | cross_dfu/UART_DFU/SDK_52/sdk16.0/_project/cross_dfu_52/src/app_cmd.c:715-802 | as written, after k (3..1040) bytes of the oversized request the engine is in IDLE with the cycle open, k bytes counted and cmd_len 0x1005 |
| CmdOverrun.OversizedOverruns | cross_dfu/UART_DFU/SDK_52/sdk16.0/_project/cross_dfu_52/src/app_cmd.c:748 | as written, the 1041st byte of a request announcing 0x1000 bytes is written past the receive pool |
| CmdOverrun.OverrunStep | cross_dfu/UART_DFU/SDK_52/sdk16.0/_project/cross_dfu_52/src/app_cmd.c:748-749 | as written, the byte after a full pool, in IDLE with cmd_len 0x1005, is a write outside the pool, and the session stays idle |
| CmdOverrun.RxReadyChecked | cross_dfu/UART_DFU/SDK_52/sdk16.0/_project/cross_dfu_52/src/app_cmd.c:715-802 | the corrected receiver keeps the engine well formed |
| CmdOverrun.CheckedStep | cross_dfu/UART_DFU/SDK_52/sdk16.0/_project/cross_dfu_52/src/app_cmd.c:748-769 | each byte the corrected receiver takes keeps the receive invariant and is stored inside the pool |
| CmdOverrun.CheckedNeverOverruns | cross_dfu/UART_DFU/SDK_52/sdk16.0/_project/cross_dfu_52/src/app_cmd.c:715-802 | whatever bytes arrive, the corrected receiver never writes outside the pool |
| CmdOverrun.CheckedRejectsOversized | cross_dfu/UART_DFU/SDK_52/sdk16.0/_project/cross_dfu_52/src/app_cmd.c:760-763 | the corrected receiver closes the oversized request's cycle at its third byte, back in IDLE |
| CmdOverrun.ReinitFault | cross_dfu/UART_DFU/SDK_52/sdk16.0/_project/cross_dfu_52/src/app_cmd.c:831-854 | as written, app_cmd_init during a receive cycle makes the next byte a write through the detached buffer |
| CmdOverrun.InitChecked | cross_dfu/UART_DFU/SDK_52/sdk16.0/_project/cross_dfu_52/src/app_cmd.c:831-854 | the corrected initialisation also ends any open cycle, and gives a state satisfying the receive and session invariants |
| CmdOverrun.ReinitCheckedSafe | cross_dfu/UART_DFU/SDK_52/sdk16.0/_project/cross_dfu_52/src/app_cmd.c:831-854 | after the corrected initialisation no byte stream makes the corrected receiver write outside the pool |
| DfuSpec.Initial | cross_dfu/UART_DFU/SDK_52/sdk16.0/_project/cross_dfu_52/src/dfu_helper.c:45-51 | the statics at start-up: a 1032-byte buffer with nothing buffered, offset 0, no requests, no fault |
| DfuSpec.AddressedPayload | cross_dfu/UART_DFU/SDK_52/sdk16.0/_project/cross_dfu_52/src/dfu_helper.c:88-113 | 8 bytes: the address decodes from bytes 0..3 and the length or page count from bytes 4..7 |
| DfuSpec.DonePayload | cross_dfu/UART_DFU/SDK_52/sdk16.0/_project/cross_dfu_52/src/dfu_helper.c:117-125 | 4 bytes that decode to the image size |
| DfuSpec.FlashInfo | cross_dfu/UART_DFU/SDK_52/sdk16.0/_project/cross_dfu_52/src/dfu_helper.c:132-157 | only the requests and the fault flag can change |
| DfuSpec.FlashErase | cross_dfu/UART_DFU/SDK_52/sdk16.0/_project/cross_dfu_52/src/dfu_helper.c:163-177 | the two bytes compared are read from the response and, when it is shorter, from the memory behind it; only the requests can change |
| DfuSpec.FlashEraseChecked | cross_dfu/UART_DFU/SDK_52/sdk16.0/_project/cross_dfu_52/src/dfu_helper.c:163-177 | corrected callback: only the requests can change |
| DfuSpec.FlashWrite | cross_dfu/UART_DFU/SDK_52/sdk16.0/_project/cross_dfu_52/src/dfu_helper.c:183-198 | only the requests and the offset can change |
| DfuSpec.Stage | cross_dfu/UART_DFU/SDK_52/sdk16.0/_project/cross_dfu_52/src/dfu_helper.c:312-331 | the buffer keeps its size, a full block never stays buffered, and the image size and fault flag are untouched |
| DfuSpec.BleWrite | cross_dfu/UART_DFU/SDK_52/sdk16.0/_project/cross_dfu_52/src/dfu_helper.c:289-333 | the buffer keeps its size, the fault flag is untouched, and only IMG_SIZE changes the image size |
| DfuHelper.Helper.constructor | cross_dfu/UART_DFU/SDK_52/sdk16.0/_project/cross_dfu_52/src/dfu_helper.c:45-51 | the object is the start-up state |
| DfuHelper.Helper.Uint32Encode | cross_dfu/UART_DFU/SDK_52/sdk16.0/_project/cross_dfu_52/src/dfu_helper.c:321-322 | the four little-endian bytes of v replace a[at..at + 4], and nothing else changes |
| DfuHelper.Helper.CopyInto | cross_dfu/UART_DFU/SDK_52/sdk16.0/_project/cross_dfu_52/src/dfu_helper.c:315 | the memcpy loop puts the data at a[at..] and leaves the rest |
| DfuHelper.Helper.RequestFlashInfo | cross_dfu/UART_DFU/SDK_52/sdk16.0/_project/cross_dfu_52/src/dfu_helper.c:63-68 | one FLASH_INFO request with no payload, nothing else |
| DfuHelper.Helper.RequestFlashWrite | cross_dfu/UART_DFU/SDK_52/sdk16.0/_project/cross_dfu_52/src/dfu_helper.c:76-81 | one FLASH_WRITE request carrying the data, nothing else |
| DfuHelper.Helper.RequestFlashRead | cross_dfu/UART_DFU/SDK_52/sdk16.0/_project/cross_dfu_52/src/dfu_helper.c:88-97 | one FLASH_READ request with the 8-byte address/length payload |
| DfuHelper.Helper.RequestFlashErase | cross_dfu/UART_DFU/SDK_52/sdk16.0/_project/cross_dfu_52/src/dfu_helper.c:104-113 | one FLASH_ERASE request with the 8-byte address/count payload |
| DfuHelper.Helper.Addressed | cross_dfu/UART_DFU/SDK_52/sdk16.0/_project/cross_dfu_52/src/dfu_helper.c:108-110 | the local array filled by two uint32_encode calls is the 8-byte payload |
| DfuHelper.Helper.RequestFlashDone | cross_dfu/UART_DFU/SDK_52/sdk16.0/_project/cross_dfu_52/src/dfu_helper.c:117-125 | one FLASH_DONE request carrying the image size |
| DfuHelper.Helper.RspFlashInfo | cross_dfu/UART_DFU/SDK_52/sdk16.0/_project/cross_dfu_52/src/dfu_helper.c:132-157 | changes the object exactly as DfuSpec.FlashInfo |
| DfuHelper.Helper.RspFlashErase | cross_dfu/UART_DFU/SDK_52/sdk16.0/_project/cross_dfu_52/src/dfu_helper.c:163-177 | exactly as DfuSpec.FlashErase, on the response and the memory behind it |
| DfuHelper.Helper.RspFlashWrite | cross_dfu/UART_DFU/SDK_52/sdk16.0/_project/cross_dfu_52/src/dfu_helper.c:183-198 | exactly as DfuSpec.FlashWrite |
| DfuHelper.Helper.OnBleWrite | cross_dfu/UART_DFU/SDK_52/sdk16.0/_project/cross_dfu_52/src/dfu_helper.c:289-333 | exactly as DfuSpec.BleWrite, keeping the buffer invariant |
| DfuHelper.Helper.StoreImageData | cross_dfu/UART_DFU/SDK_52/sdk16.0/_project/cross_dfu_52/src/dfu_helper.c:312-331 | exactly as DfuSpec.Stage, keeping the buffer invariant |
| DfuProps.PageLimitValues | cross_dfu/UART_DFU/SDK_52/sdk16.0/_project/cross_dfu_52/src/dfu_helper.c:149 | for 1 to 2^20 pages the limit is (pages - 1) * 4096; a page count of 0 wraps to 0xFFFFF000 |
| DfuProps.ErasePagesCeil | cross_dfu/UART_DFU/SDK_52/sdk16.0/_project/cross_dfu_52/src/dfu_helper.c:155 | the erase count is the number of 4096-byte pages the image occupies, rounded up |
| DfuProps.EraseSparesLastPage | cross_dfu/UART_DFU/SDK_52/sdk16.0/_project/cross_dfu_52/src/dfu_helper.c:132-157 | for 1 to 65536 pages an erase is requested if and only if the image fits below the last page; it starts at 0, covers the image and spares the last page |
| DfuProps.FlashInfoTimeoutFaults | cross_dfu/UART_DFU/SDK_52/sdk16.0/_project/cross_dfu_52/src/dfu_helper.c:136 | a 2-byte "to" response fails the length ASSERT and changes nothing else |
| DfuProps.ZeroPagesAccepted | cross_dfu/UART_DFU/SDK_52/sdk16.0/_project/cross_dfu_52/src/dfu_helper.c:149 | as written, a response reporting 0 pages accepts any image up to 0xFFFFF000 bytes and requests its erase |
| DfuProps.FlashInfoChecked | cross_dfu/UART_DFU/SDK_52/sdk16.0/_project/cross_dfu_52/src/dfu_helper.c:132-157 | like rsp_cb_flash_info, the corrected decision changes only the requests and the fault flag |
| DfuProps.CheckedEraseFits | cross_dfu/UART_DFU/SDK_52/sdk16.0/_project/cross_dfu_52/src/dfu_helper.c:132-157 | the corrected decision erases if and only if there is a page and the image fits below the last one; the erase covers the image and spares the last page |
| DfuProps.EraseContinuesOnOk | cross_dfu/UART_DFU/SDK_52/sdk16.0/_project/cross_dfu_52/src/dfu_helper.c:163-177 | data is requested from the central if and only if the two bytes read at the response are "ok"; anything else, "to" included, changes nothing; a response of two bytes or more is judged by its own bytes, as the corrected callback does |
| DfuProps.ShortEraseResponseReadsBehind | cross_dfu/UART_DFU/SDK_52/sdk16.0/_project/cross_dfu_52/src/dfu_helper.c:169 | as written, the one-byte response "o" followed in memory by 'k' is taken for "ok"; the corrected callback rejects it |
| DfuProps.CheckedEraseContinuesOnOk | cross_dfu/UART_DFU/SDK_52/sdk16.0/_project/cross_dfu_52/src/dfu_helper.c:163-177 | the corrected callback requests data if and only if the response itself starts with "ok"; otherwise nothing changes |
| DfuProps.FlashWriteSteps | cross_dfu/UART_DFU/SDK_52/sdk16.0/_project/cross_dfu_52/src/dfu_helper.c:183-198 | FLASH_DONE with the image size goes out and the offset resets if and only if the offset equals the size; more data is requested if and only if 0 < offset != size; at offset 0 of a non-empty image nothing happens |
| DfuProps.ImageSizeRoundTrip | cross_dfu/UART_DFU/SDK_52/sdk16.0/_project/cross_dfu_52/src/dfu_helper.c:304-310 | an IMG_SIZE write carrying a size little-endian sets the image size to exactly it and requests the flash info |
| DfuProps.StageBlock | cross_dfu/UART_DFU/SDK_52/sdk16.0/_project/cross_dfu_52/src/dfu_helper.c:312-331 | a FLASH_WRITE goes out if and only if the buffered bytes reach 1024 or the rest of the image; it carries offset, length, buffered bytes and chunk, the offset advances and the buffer empties; otherwise the chunk joins the buffered bytes |
| DfuProps.OffsetBounded | cross_dfu/UART_DFU/SDK_52/sdk16.0/_project/cross_dfu_52/src/dfu_helper.c:318-331 | offset + buffered bytes grow by exactly the chunk, and the chunk that completes the image flushes it with the offset at the size |
| DfuProps.OvershootPassesSize | cross_dfu/UART_DFU/SDK_52/sdk16.0/_project/cross_dfu_52/src/dfu_helper.c:318-331 | a chunk that overshoots the image carries the offset past the size, after which the write callback keeps asking for data |
| DfuProps.UploadStep | cross_dfu/UART_DFU/SDK_52/sdk16.0/_project/cross_dfu_52/src/dfu_helper.c:312-331 | one 128-byte packet of an upload fits the buffer, keeps the upload invariant, only appends requests, and the last packet empties the buffer |
| DfuProps.UploadRest | cross_dfu/UART_DFU/SDK_52/sdk16.0/_project/cross_dfu_52/src/dfu_helper.c:312-331 | the remaining packets of an upload all fit and bring it to the end with the buffer empty |
| DfuProps.UploadWhole | cross_dfu/UART_DFU/SDK_52/sdk16.0/_project/cross_dfu_52/src/dfu_helper.c:289-333 | an announced image sent as 128-byte packets reaches the nRF9160 whole: the FLASH_WRITEs carry exactly the image in order, each at its own offset with its length; the offset ends at the size and the next write response sends FLASH_DONE |
| FlatFileSpec.ImageSize | cross_dfu/UART_DFU/SDK_52/scripts/dfu_zip_to_bin.py:98-102 | an image takes 512 bytes plus its firmware, plus fewer than 4 bytes of padding |
| FlatFileSpec.ImageInfo | cross_dfu/UART_DFU/SDK_52/scripts/dfu_zip_to_bin.py:119-124 | an image's header entry is 20 bytes |
| FlatFileSpec.ImagesInfo | cross_dfu/UART_DFU/SDK_52/scripts/dfu_zip_to_bin.py:119-124 | the image entries take 20 bytes per image |
| FlatFileSpec.FixedFields | cross_dfu/UART_DFU/SDK_52/scripts/dfu_zip_to_bin.py:113-116 | the fixed header fields take 16 bytes |
| FlatFileMaker.FlatFile.constructor | cross_dfu/UART_DFU/SDK_52/scripts/dfu_zip_to_bin.py:47-52 | an empty file: size 0, no data, CRC 0, no images |
| FlatFileMaker.FlatFile.Make | cross_dfu/UART_DFU/SDK_52/scripts/dfu_zip_to_bin.py:54-150 | the result is exactly the specified file or the specified error (entry count, null manifest, not one step, field overflow); on success the object holds the file, the layout and the CRC32 of the data |
| FlatFileMaker.FlatFile.Serialise | cross_dfu/UART_DFU/SDK_52/scripts/dfu_zip_to_bin.py:112-150 | the header, the images and the CRC32, one behind the other |
| FlatFileMaker.FlatFile.AppendCrc | cross_dfu/UART_DFU/SDK_52/scripts/dfu_zip_to_bin.py:149-150 | the CRC32 of the data so far is appended little-endian, and removing the last 4 bytes gives the data back |
| FlatFileMaker.FlatFile.ScanImages | cross_dfu/UART_DFU/SDK_52/scripts/dfu_zip_to_bin.py:77-108 | the manifest loop builds the specified images and file size, and returns the last image built |
| FlatFileMaker.FlatFile.WriteHeader | cross_dfu/UART_DFU/SDK_52/scripts/dfu_zip_to_bin.py:112-128 | the data becomes the fixed fields, five fields per image and 0xFF up to 128 bytes |
| FlatFileMaker.FlatFile.WriteImages | cross_dfu/UART_DFU/SDK_52/scripts/dfu_zip_to_bin.py:133-145 | each image's init packet padded to 512 and its firmware padded by the amount the last image needs are appended in order |
| FlatFileProps.ImageSizeAligned | cross_dfu/UART_DFU/SDK_52/scripts/dfu_zip_to_bin.py:96-102 | the firmware and its padding take a multiple of 4 bytes |
| FlatFileProps.ScanLayout | cross_dfu/UART_DFU/SDK_52/scripts/dfu_zip_to_bin.py:71-110 | each image sits at the start plus the sizes before it: init packet there, firmware 512 bytes further; the file size after the scan is the start plus all image sizes; there are at most as many images as keys looked up |
| FlatFileProps.KindKeyRoundTrip | cross_dfu/UART_DFU/SDK_52/scripts/dfu_zip_to_bin.py:9-14 | the manifest key and the image type determine each other, and the scan order lists each key with its own type |
| FlatFileProps.OneEntryLayout | cross_dfu/UART_DFU/SDK_52/scripts/dfu_zip_to_bin.py:71-110 | a one-entry manifest gives one image at 128 when its key is an image type, and none otherwise; the file size is 128 + image size + 4 |
| FlatFileProps.AtMostOneImage | cross_dfu/UART_DFU/SDK_52/scripts/dfu_zip_to_bin.py:73-75 | a one-step manifest, the only kind make accepts, yields at most one image |
| FlatFileProps.HeaderOfOne | cross_dfu/UART_DFU/SDK_52/scripts/dfu_zip_to_bin.py:112-128 | the header of a file with at most one image is its fields followed by exactly the 0xFF padding to 128 bytes |
| FlatFileProps.ImageBytes | cross_dfu/UART_DFU/SDK_52/scripts/dfu_zip_to_bin.py:133-145 | an image's bytes are its init packet, 0xFF up to 512, its firmware and 0xFF up to a word |
| FlatFileProps.OneImageFile | cross_dfu/UART_DFU/SDK_52/scripts/dfu_zip_to_bin.py:54-150 | a one-image package with an init packet of at most 512 bytes gives a file whose header reads back (magics, size field = file length, type, addresses 128 and 640, sizes) and whose init packet, firmware and CRC32 sit where the header says |
| FlatFileProps.MakeOneImage | cross_dfu/UART_DFU/SDK_52/scripts/dfu_zip_to_bin.py:62-150 | a one-step package naming an image type, whose fields fit 32 bits, passes every check and gives the bytes of that one image behind the header at 128 |
| FlatFileProps.OversizeInitPacket | cross_dfu/UART_DFU/SDK_52/scripts/dfu_zip_to_bin.py:134-141 | as written, an init packet longer than 512 bytes is copied whole: the header still says 640 for the firmware, which lands the excess further on, and the file is longer than its size field |
| FlatFileProps.MakeChecked | cross_dfu/UART_DFU/SDK_52/scripts/dfu_zip_to_bin.py:54-150 | the corrected make refuses an init packet over 512 bytes and otherwise gives what make gives |
| FlatFileProps.CheckedFileReadsBack | cross_dfu/UART_DFU/SDK_52/scripts/dfu_zip_to_bin.py:54-150 | every file the corrected make gives has a size field equal to its length, and each image is where the header says, followed by the CRC32; without an image the count field is 0 |
| FlatFileProps.NoImageFile | cross_dfu/UART_DFU/SDK_52/scripts/dfu_zip_to_bin.py:77-110 | a one-step package whose key is no image type gives a 132-byte file: bare header and CRC, with image count 0 and size field 132 |

## Left out

- **UART driver I/O.** The outcome of app_uart_put is a `putOk` parameter. The bytes app_uart_get yields are the argument of `UartDataReady`.
- **Timer and scheduler.** app_timer and app_sched are a `timerArmed` flag and a FIFO of pending dispatcher tags. The 4-second timeout and the 5-tick delays are not modelled.
- **Interrupt context.** Each event is one sequential call. No interleaving of UART interrupts with the deferred handlers is modelled.
- **CRC routines.** crc16_compute and the CRC32 of the crc library are function parameters. SKIP_CRC_CHECK is the constant true, as in the source, and the CRC-on case is also proved.
- **Handlers.** The handler functions and the linker-section registry are a sequence of (opcode, hasReq, hasRsp) entries. Handler calls and observer events are appended to a log. A request handler's answer is the `reply` parameter of `ProcReqHandler`. app_cmd_event_cb_register is not modelled; the observer is the log.
- **Logging and dead code.** NRF_LOG, the state/mode name tables and the unused NRF_BALLOC pool are not modelled.
- **Reads outside a pool.** The source can read past a pool: format_check's CRC trailer and the payload address buff_to_cmd returns. The model never reads those bytes. `PayloadView` cuts the payload at the end of the pool, and `TrailerOk` does not accept a trailer outside it.
- **The write at app_cmd.c:748 outside the pool.** It is modelled as the `rxFault` flag, and the byte is dropped. What that write corrupts in neighbouring memory is not modelled.
- **BLE plumbing.** on_ble_evt, ble_send_req and its scheduler handler, and dfu_helper_init are not modelled. A BLE notification is a `BleRequest` entry in the request log.
- **Other dfu_helper.c handlers.** The bootloader entry (tmr_enter_bootloader_handler, req_cb_enter_bootloader) and req_cb_ping_app are not modelled. rsp_cb_flash_done only logs.
- **Request status.** The status app_cmd_request returns to the cmd_request_flash_* builders is not modelled; a request is an appended `CmdRequest`. The sequencer and the engine are modelled separately and are not wired together.
- **ASSERT.** A failed ASSERT is the `faulted` flag, and the callback returns. The reset that follows it is not modelled.
- **uint32_encode and uint32_decode.** They are read as little-endian. app_util.h is not part of this model.
- **The image opcodes.** They come from dfu_helper.h; only their values are used.
- **Zip and JSON.** The zip, the JSON parsing, the file-exists check, print, exit and the output file write are not modelled. A `Package` holds the entry count and the manifest's entries with their file contents, and the result is the file's bytes.
- **Missing manifest keys.** A manifest without a 'manifest' key (KeyError) and entries without 'dat_file'/'bin_file' are not modelled.
- **Partial file_data.** When get_le32 raises OverflowError the object keeps a partial file_data. The model gives `FieldOverflow` and says nothing about the object's fields then.
- **Python operator readings.** `is not 1` is read as `!=`, which CPython's small-integer cache makes equal. `& 3` is read as `% 4` on the non-negative sizes.
- **Line 144 of the script.** It pads each firmware by `image.firmware_size`, not `img.firmware_size`. It is modelled literally: the padding comes from the last image built. Since make accepts at most one image (`FlatFileProps.AtMostOneImage`), this never differs from the intended behaviour.
- DfuHelper.Helper.OnBleWrite: requires a write of at least the flag byte, at least 5 bytes for IMG_SIZE, and an IMG_DATA chunk that fits the command buffer behind the buffered bytes; on_ble_write checks none of these and would read or copy out of bounds.
- FlatFileMaker.FlatFile.Make: requires a new object (size 0, no data, no images), as the script's main creates one. A second make on the same object is not modelled.
- CmdSpec.CmdToBuff: requires a pdu of at most 1034 bytes, as do CmdSpec.CmdSend, CmdSpec.Request, CmdSpec.Respond, CmdSpec.ProcReq, CmdSpec.HandleReq and their CmdEngine.Engine counterparts (CmdToBuff, CmdSend, AppCmdRequest, AppCmdRespond, ProcReqHandler, HandleRequest, WriteFrame, WriteBody). app_cmd_request and app_cmd_respond accept any 16-bit length, and cmd_to_buff then writes the pdu and CRC past m_tx_pool (app_cmd.c:568 and 576) before the length clamp at line 580; that overflow is not modelled.
- CmdSpec.RxReady: its ensures states the frame properties only through the byte-level lemmas of CmdProtocol; on arbitrary byte streams it states only invariants, not the resulting state.

## Findings

| source | as written | input that shows it | evidently intended | confidence | as-written member | corrected member |
|---|---|---|---|---|---|---|
| cross_dfu/UART_DFU/SDK_52/sdk16.0/_project/cross_dfu_52/src/app_cmd.c:456-470 | cmd_len = length field + 5 in uint16_t wraps for length fields 0xFFFB..0xFFFF | request 59 FF FF: cmd_len 4, the frame passes format_check as a slave, and buff_to_cmd reports a 0xFFFE-byte payload | the frame size taken at full width; such a frame refused | not executed | CmdFrame.CmdLenWraps | CmdFrame.CheckedDecodeSound |
| cross_dfu/UART_DFU/SDK_52/sdk16.0/_project/cross_dfu_52/src/app_cmd.c:585-604 | cmd.length = length field - 1 underflows for a length field of 0 | request 59 00 00 00 00 (5 bytes): passes format_check as a slave, decodes with a 0xFFFF-byte payload | a frame without an opcode refused; the payload never longer than the frame | not executed | CmdFrame.DecodeUnderflow | CmdFrame.CheckedDecodeRoundTrip |
| cross_dfu/UART_DFU/SDK_52/sdk16.0/_project/cross_dfu_52/src/app_cmd.c:748 | a total size above 1040 signals receive-error but keeps the cycle open; the slave drops to IDLE, where every byte is taken, and the byte count runs past the pool | an idle engine receiving 59 00 10 followed by 1038 zero bytes: the 1041st byte is written past m_rx_pool | an oversized frame ends the cycle with its error; no write outside the pool | not executed | CmdOverrun.OversizedOverruns | CmdOverrun.CheckedNeverOverruns |
| cross_dfu/UART_DFU/SDK_52/sdk16.0/_project/cross_dfu_52/src/app_cmd.c:831-854 | app_cmd_init detaches the receive buffer but cannot reset on_uart_rx_ready's static rx_started | app_cmd_init while a frame is half received, then any byte: it is written through the detached buffer | initialisation also ends the receive cycle | not executed | CmdOverrun.ReinitFault | CmdOverrun.ReinitCheckedSafe |
| cross_dfu/UART_DFU/SDK_52/sdk16.0/_project/cross_dfu_52/src/dfu_helper.c:149 | (page_count - 1) * 0x1000 in uint32_t wraps for page_count 0 | a 12-byte FLASH_INFO response with page count 0: any image up to 0xFFFFF000 bytes is accepted and its erase requested | a flash without pages accepts no image | not executed | DfuProps.ZeroPagesAccepted | DfuProps.CheckedEraseFits |
| cross_dfu/UART_DFU/SDK_52/scripts/dfu_zip_to_bin.py:134-141 | an init packet over 512 bytes is copied whole and not padded, while the header puts the firmware at 640 and file_size counts 512 bytes for the init packet | a package whose .dat has 600 bytes: the firmware lands at 728, not 640, and the file is 88 bytes longer than its size field | such a package refused, so every file's header describes it | not executed | FlatFileProps.OversizeInitPacket | FlatFileProps.CheckedFileReadsBack |
| cross_dfu/UART_DFU/SDK_52/sdk16.0/_project/cross_dfu_52/src/dfu_helper.c:169 | memcmp compares two bytes whatever rsp_len is, so a response shorter than "ok" is completed by the bytes behind it in the receive pool | a FLASH_ERASE response frame 51 02 00 24 6F followed by a CRC trailer whose first byte is 6B: the one-byte response "o" is taken for "ok" and data is requested | a response shorter than two bytes is not an "ok" | not executed | DfuProps.ShortEraseResponseReadsBehind | DfuProps.CheckedEraseContinuesOnOk |
