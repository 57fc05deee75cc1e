/**
 * The frame codec of app_cmd.c: encoding a command into the transmit pool
 * (cmd_to_buff), and the read-only checks and decoders over a pool
 * (crc16_check, cmd_len_get, format_check, op_code_get, buff_to_cmd).
 *
 * A pool is the whole 1040-byte buffer as a sequence; `length` is the number
 * of bytes filled.
 */
module CmdFrame {
  import opened Bytes
  import opened Wrappers
  import opened CmdDefs

  /** CMD_PACKET_LENGTH: capacity of each of the two pools. */
  const PACKET_LENGTH: nat := 1040

  /** SKIP_CRC_CHECK: when set, every trailer is accepted. */
  const SKIP_CRC_CHECK: bool := true

  /** The largest pdu whose frame fits a pool: 1040 - 4 header bytes - 2 CRC bytes. */
  const MAX_PDU: nat := PACKET_LENGTH - OFFSET_PDU - SIZE_CRC

  /** crc16_compute of the nRF SDK with initial value 0 (code outside the model). */
  type Crc16 = seq<byte> -> u16

  function StartMarker(cmdType: byte): byte
  {
    if cmdType == CMD_TYPE_RESPONSE then START_RSP else START_REQ
  }

  /** The 16-bit length field at offset 1. */
  function LenField(pool: seq<byte>): u16
    requires |pool| >= OFFSET_OPCODE
  {
    Le16Decode(pool[OFFSET_LEN], pool[OFFSET_LEN + 1])
  }

  /** The bytes the CRC covers: length field, opcode and pdu. */
  function CrcSpan(opCode: byte, pdu: seq<byte>): seq<byte>
    requires |pdu| <= MAX_PDU
  {
    Le16(SIZE_OPCODE + |pdu|) + [opCode] + pdu
  }

  /** The frame start | len16 | opcode | pdu | crc16 that cmd_to_buff writes. */
  function EncodeFrame(cmd: AppCmd, crc16: Crc16): seq<byte>
    requires |cmd.pdu| <= MAX_PDU
  {
    var span := CrcSpan(cmd.opCode, cmd.pdu);
    [StartMarker(cmd.cmdType)] + span + Le16(crc16(span))
  }

  /** The whole transmit pool after cmd_to_buff: the frame, then the zeros left by buff_alloc. */
  function TxImage(cmd: AppCmd, crc16: Crc16): seq<byte>
    requires |cmd.pdu| <= MAX_PDU
  {
    var f := EncodeFrame(cmd, crc16);
    f + Zeros(PACKET_LENGTH - |f|)
  }

  /**
   * Frame-length arithmetic of an encoded frame: 6 bytes more than the pdu,
   * never beyond the pool, the length field is 1 + the pdu size and the wire
   * size is the length field + 5; each field sits at its offset and the
   * trailer is the CRC of bytes [1, 4 + pdu).
   */
  lemma EncodeFrameLayout(cmd: AppCmd, crc16: Crc16)
    requires |cmd.pdu| <= MAX_PDU
    ensures var f, n := EncodeFrame(cmd, crc16), |cmd.pdu|;
      && |f| == n + OFFSET_PDU + SIZE_CRC <= PACKET_LENGTH
      && f[OFFSET_START] == StartMarker(cmd.cmdType)
      && LenField(f) == SIZE_OPCODE + n
      && |f| == LenField(f) + OFFSET_OPCODE + SIZE_CRC
      && f[OFFSET_OPCODE] == cmd.opCode
      && f[OFFSET_PDU..OFFSET_PDU + n] == cmd.pdu
      && Le16Decode(f[OFFSET_PDU + n], f[OFFSET_PDU + n + 1]) == crc16(f[OFFSET_LEN..OFFSET_PDU + n])
  {
    var span := CrcSpan(cmd.opCode, cmd.pdu);
    var f, n := EncodeFrame(cmd, crc16), |cmd.pdu|;
    Le16RoundTrip(SIZE_OPCODE + n, 0, 0);
    Le16RoundTrip(crc16(span), 0, 0);
    assert f[OFFSET_LEN..OFFSET_PDU + n] == span;
    assert f[OFFSET_PDU..OFFSET_PDU + n] == cmd.pdu;
  }

  /**
   * cmd_len_get: 0 unless exactly start + length field (3 bytes) are filled,
   * then the total frame size length + 5, computed in 16 bits.
   */
  function CmdLenGet(pool: seq<byte>, length: u16): (r: u16)
    requires |pool| == PACKET_LENGTH
    ensures length != SIZE_START + SIZE_LEN ==> r == 0
    ensures length == SIZE_START + SIZE_LEN && LenField(pool) < 0xFFFB ==> r == LenField(pool) + 5 && r >= 5
    ensures length == SIZE_START + SIZE_LEN && LenField(pool) >= 0xFFFB ==> r == LenField(pool) + 5 - U16_LIMIT && r <= 4
  {
    if length == SIZE_START + SIZE_LEN then
      (OFFSET_OPCODE + SIZE_CRC + LenField(pool)) % U16_LIMIT
    else
      0
  }

  /** crc16_check: true when checking is skipped, else the CRC must match. */
  function Crc16Check(data: seq<byte>, target: u16, skipCrc: bool, crc16: Crc16): (ok: bool)
    ensures !skipCrc ==> (ok <==> crc16(data) == target)
    ensures skipCrc ==> ok
  {
    skipCrc || crc16(data) == target
  }

  /**
   * The CRC step of format_check. A trailer that does not lie inside the pool
   * is never accepted when CRC checking is on (the source would read outside
   * the pool there).
   */
  function TrailerOk(pool: seq<byte>, cmdLen: u16, skipCrc: bool, crc16: Crc16): bool
    requires |pool| == PACKET_LENGTH
  {
    if SIZE_START + SIZE_CRC <= cmdLen <= PACKET_LENGTH then
      Crc16Check(pool[OFFSET_LEN..cmdLen - SIZE_CRC],
                 Le16Decode(pool[cmdLen - SIZE_CRC], pool[cmdLen - 1]), skipCrc, crc16)
    else
      skipCrc
  }

  /**
   * format_check: the start marker the role expects (a response in HOST
   * mode, a request in SLAVE mode), the filled length equal to the 16-bit
   * length field + 5, in HOST mode the opcode of the outstanding request,
   * and the CRC. Every failure is INVALID_DATA.
   */
  function FormatCheck(pool: seq<byte>, length: u16, opCode: byte, mode: Mode, skipCrc: bool, crc16: Crc16): (r: Status)
    requires |pool| == PACKET_LENGTH
    ensures r == Success || r == ErrInvalidData
    ensures r == Success && mode == HostMode ==> pool[OFFSET_START] == START_RSP && pool[OFFSET_OPCODE] == opCode
    ensures r == Success && mode == SlaveMode ==> pool[OFFSET_START] == START_REQ
    ensures r == Success && LenField(pool) < 0xFFFB ==> length == LenField(pool) + 5
    ensures r == Success <==>
      && (mode == HostMode ==> pool[OFFSET_START] == START_RSP && pool[OFFSET_OPCODE] == opCode)
      && (mode == SlaveMode ==> pool[OFFSET_START] == START_REQ)
      && length == (LenField(pool) + 5) % U16_LIMIT
      && TrailerOk(pool, length, skipCrc, crc16)
    ensures r == Success && !skipCrc ==>
      && 3 <= length <= PACKET_LENGTH
      && crc16(pool[OFFSET_LEN..length - SIZE_CRC]) == Le16Decode(pool[length - 2], pool[length - 1])
  {
    if mode == HostMode && pool[OFFSET_START] != START_RSP then ErrInvalidData
    else if mode == SlaveMode && pool[OFFSET_START] != START_REQ then ErrInvalidData
    else
      var cmdLen: u16 := (LenField(pool) + OFFSET_OPCODE + SIZE_CRC) % U16_LIMIT;
      if length != cmdLen then ErrInvalidData
      else if mode == HostMode && pool[OFFSET_OPCODE] != opCode then ErrInvalidData
      else if !TrailerOk(pool, cmdLen, skipCrc, crc16) then ErrInvalidData
      else Success
  }

  /** op_code_get: the byte at offset 3, or nothing when the buffer has no pool. */
  function OpCodeGet(pool: seq<byte>, attached: bool): (r: Option<byte>)
    requires |pool| == PACKET_LENGTH
    ensures r.Some? <==> attached
    ensures r.Some? ==> r.value == pool[OFFSET_OPCODE]
  {
    if attached then Some(pool[OFFSET_OPCODE]) else None
  }

  /**
   * buff_to_cmd: the raw start marker, the opcode and the pdu length
   * `length field - 1` in 16 bits; INVALID_PARAM when the buffer has no pool.
   */
  function BuffToCmd(pool: seq<byte>, attached: bool): (r: Result<CmdHeader, Status>)
    requires |pool| == PACKET_LENGTH
    ensures r.Ok? <==> attached
    ensures r.Err? ==> r.error == ErrInvalidParam
    ensures r.Ok? ==> r.value.cmdType == pool[OFFSET_START] && r.value.opCode == pool[OFFSET_OPCODE]
    ensures r.Ok? && LenField(pool) >= SIZE_OPCODE ==> r.value.length == LenField(pool) - SIZE_OPCODE
    ensures r.Ok? && LenField(pool) == 0 ==> r.value.length == 0xFFFF
  {
    if !attached then Err(ErrInvalidParam)
    else
      Ok(CmdHeader(pool[OFFSET_START], pool[OFFSET_OPCODE],
                        (LenField(pool) - SIZE_OPCODE) % U16_LIMIT))
  }

  /**
   * The payload a decoded command points at: `length` bytes from offset 4,
   * cut at the end of the pool (bytes the source would read beyond it are
   * not modelled).
   */
  function PayloadView(pool: seq<byte>, length: u16): (r: seq<byte>)
    requires |pool| == PACKET_LENGTH
    ensures OFFSET_PDU + length <= PACKET_LENGTH ==> |r| == length
  {
    pool[OFFSET_PDU..if OFFSET_PDU + length <= PACKET_LENGTH then OFFSET_PDU + length else PACKET_LENGTH]
  }

  /** An encoded frame is 6 bytes longer than its pdu. */
  lemma EncodeFrameLength(cmd: AppCmd, crc16: Crc16)
    requires |cmd.pdu| <= MAX_PDU
    ensures |EncodeFrame(cmd, crc16)| == |cmd.pdu| + OFFSET_PDU + SIZE_CRC <= PACKET_LENGTH
  {
  }

  /** The bytes the CRC covers, read back from a pool that holds the marker and the span. */
  lemma HeadSpan(m: byte, span: seq<byte>, rest: seq<byte>)
    ensures ([m] + span + rest)[OFFSET_LEN..OFFSET_LEN + |span|] == span
  {
    assert ([m] + span + rest)[OFFSET_LEN..OFFSET_LEN + |span|] == ([m] + span)[OFFSET_LEN..];
  }

  /** Writing the two CRC bytes over the first zeros after a frame body. */
  lemma PatchTrailer(head: seq<byte>, crc: seq<byte>, rest: nat)
    requires |crc| == SIZE_CRC
    ensures (head + Zeros(rest + SIZE_CRC))[|head| := crc[0]][|head| + 1 := crc[1]] == head + crc + Zeros(rest)
  {
    var lhs := (head + Zeros(rest + SIZE_CRC))[|head| := crc[0]][|head| + 1 := crc[1]];
    assert forall k :: 0 <= k < |lhs| ==> lhs[k] == (head + crc + Zeros(rest))[k];
  }

  /** The transmit pool after cmd_to_buff, byte by byte. */
  lemma TxImageBytes(cmd: AppCmd, crc16: Crc16)
    requires |cmd.pdu| <= MAX_PDU
    ensures var img, n := TxImage(cmd, crc16), |cmd.pdu|;
      && |img| == PACKET_LENGTH
      && img[OFFSET_START] == StartMarker(cmd.cmdType)
      && img[OFFSET_LEN] == Le16(SIZE_OPCODE + n)[0] && img[OFFSET_LEN + 1] == Le16(SIZE_OPCODE + n)[1]
      && img[OFFSET_OPCODE] == cmd.opCode
      && (forall k :: 0 <= k < n ==> img[OFFSET_PDU + k] == cmd.pdu[k])
      && img[OFFSET_PDU + n] == Le16(crc16(CrcSpan(cmd.opCode, cmd.pdu)))[0]
      && img[OFFSET_PDU + n + 1] == Le16(crc16(CrcSpan(cmd.opCode, cmd.pdu)))[1]
      && (forall k :: OFFSET_PDU + n + SIZE_CRC <= k < PACKET_LENGTH ==> img[k] == 0)
  {
    var f := EncodeFrame(cmd, crc16);
    EncodeFrameLayout(cmd, crc16);
    assert forall k :: 0 <= k < |f| ==> TxImage(cmd, crc16)[k] == f[k];
  }

  /**
   * Round trip: decoding the pool that cmd_to_buff filled gives back the
   * opcode, the pdu length and the pdu bytes; the type comes back as the
   * start marker.
   */
  lemma {:induction false} EncodeDecodeRoundTrip(cmd: AppCmd, crc16: Crc16)
    requires |cmd.pdu| <= MAX_PDU
    ensures var pool := TxImage(cmd, crc16);
      && BuffToCmd(pool, true) == Ok(CmdHeader(StartMarker(cmd.cmdType), cmd.opCode, |cmd.pdu|))
      && PayloadView(pool, |cmd.pdu|) == cmd.pdu
  {
    var f := EncodeFrame(cmd, crc16);
    var pool := TxImage(cmd, crc16);
    EncodeFrameLayout(cmd, crc16);
    assert pool[..|f|] == f;
    assert pool[OFFSET_LEN] == f[OFFSET_LEN] && pool[OFFSET_LEN + 1] == f[OFFSET_LEN + 1];
    assert pool[OFFSET_PDU..OFFSET_PDU + |cmd.pdu|] == f[OFFSET_PDU..OFFSET_PDU + |cmd.pdu|];
  }

  /**
   * A self-encoded frame passes format_check exactly when it suits the role:
   * in HOST mode it must be a response to the outstanding opcode, in SLAVE
   * mode a request; in IDLE mode anything passes. This holds whether or not
   * the CRC is checked.
   */
  lemma {:induction false} EncodedFrameValid(cmd: AppCmd, opCode: byte, mode: Mode, skipCrc: bool, crc16: Crc16)
    requires |cmd.pdu| <= MAX_PDU
    ensures var n := |EncodeFrame(cmd, crc16)|;
      FormatCheck(TxImage(cmd, crc16), n, opCode, mode, skipCrc, crc16) == Success
      <==>
      && (mode == HostMode ==> cmd.cmdType == CMD_TYPE_RESPONSE && opCode == cmd.opCode)
      && (mode == SlaveMode ==> cmd.cmdType != CMD_TYPE_RESPONSE)
  {
    var pool := TxImage(cmd, crc16);
    var n := |EncodeFrame(cmd, crc16)|;
    ImageHeader(cmd, crc16);
    assert TrailerOk(pool, n, skipCrc, crc16);
  }

  /** The header fields and the trailer of a transmit pool, as format_check reads them. */
  lemma ImageHeader(cmd: AppCmd, crc16: Crc16)
    requires |cmd.pdu| <= MAX_PDU
    ensures var pool, n := TxImage(cmd, crc16), |EncodeFrame(cmd, crc16)|;
      && |pool| == PACKET_LENGTH && n == |cmd.pdu| + OFFSET_PDU + SIZE_CRC
      && pool[OFFSET_START] == StartMarker(cmd.cmdType) && pool[OFFSET_OPCODE] == cmd.opCode
      && LenField(pool) == SIZE_OPCODE + |cmd.pdu|
      && crc16(pool[OFFSET_LEN..n - SIZE_CRC]) == Le16Decode(pool[n - 2], pool[n - 1])
  {
    var f := EncodeFrame(cmd, crc16);
    var pool := TxImage(cmd, crc16);
    var n := |f|;
    EncodeFrameLayout(cmd, crc16);
    assert pool[..n] == f;
    assert pool[OFFSET_LEN] == f[OFFSET_LEN] && pool[OFFSET_LEN + 1] == f[OFFSET_LEN + 1];
    assert pool[OFFSET_LEN..n - SIZE_CRC] == f[OFFSET_LEN..n - SIZE_CRC];
    assert pool[n - 2] == f[n - 2] && pool[n - 1] == f[n - 1];
  }

  /**
   * While a frame accumulates, cmd_len_get at 3 bytes already yields its
   * total size.
   */
  lemma EncodedCmdLen(cmd: AppCmd, crc16: Crc16, pool: seq<byte>)
    requires |cmd.pdu| <= MAX_PDU && |pool| == PACKET_LENGTH
    requires pool[OFFSET_LEN..OFFSET_OPCODE] == EncodeFrame(cmd, crc16)[OFFSET_LEN..OFFSET_OPCODE]
    ensures CmdLenGet(pool, 3) == |EncodeFrame(cmd, crc16)|
  {
    var f := EncodeFrame(cmd, crc16);
    EncodeFrameLayout(cmd, crc16);
    assert pool[OFFSET_LEN] == f[OFFSET_LEN] && pool[OFFSET_LEN + 1] == f[OFFSET_LEN + 1];
  }

  // ---------------------------------------------------------------------
  // Length-field arithmetic: as written, and as evidently intended

  /** The total frame size a length field announces, without 16-bit wrap-around. */
  function FrameLen(pool: seq<byte>): (r: nat)
    requires |pool| >= OFFSET_OPCODE
    ensures r >= OFFSET_OPCODE + SIZE_CRC
  {
    LenField(pool) + OFFSET_OPCODE + SIZE_CRC
  }

  /** cmd_len_get and FrameLen agree except for the five largest length fields. */
  lemma CmdLenGetAgrees(pool: seq<byte>)
    requires |pool| == PACKET_LENGTH
    ensures LenField(pool) < 0xFFFB <==> CmdLenGet(pool, 3) == FrameLen(pool)
  {
  }

  /**
   * As written: a length field of 0xFFFF wraps cmd_len to 4, a 4-byte frame
   * (no opcode, no pdu) passes format_check in SLAVE mode, and buff_to_cmd
   * reports a 0xFFFE-byte payload for it.
   */
  lemma CmdLenWraps(crc16: Crc16)
    ensures var pool := [START_REQ, 0xFF, 0xFF] + Zeros(PACKET_LENGTH - 3);
      && |pool| == PACKET_LENGTH
      && CmdLenGet(pool, 3) == 4 && FrameLen(pool) == 0x1_0004
      && FormatCheck(pool, 4, 0, SlaveMode, SKIP_CRC_CHECK, crc16) == Success
      && BuffToCmd(pool, true) == Ok(CmdHeader(START_REQ, 0, 0xFFFE))
  {
    var pool := [START_REQ, 0xFF, 0xFF] + Zeros(PACKET_LENGTH - 3);
    assert LenField(pool) == 0xFFFF;
  }

  /**
   * As written: a 5-byte frame with length field 0 (no opcode) passes
   * format_check in SLAVE mode, and `length field - 1` underflows so that
   * buff_to_cmd reports a 0xFFFF-byte payload.
   */
  lemma DecodeUnderflow(crc16: Crc16)
    ensures var pool := [START_REQ, 0, 0] + Zeros(PACKET_LENGTH - 3);
      && |pool| == PACKET_LENGTH
      && FormatCheck(pool, 5, 0, SlaveMode, SKIP_CRC_CHECK, crc16) == Success
      && BuffToCmd(pool, true) == Ok(CmdHeader(START_REQ, 0, 0xFFFF))
  {
    var pool := [START_REQ, 0, 0] + Zeros(PACKET_LENGTH - 3);
    assert LenField(pool) == 0;
  }

  /**
   * Evidently intended decoder: the length field is taken at full width, a
   * frame must carry its opcode (length field >= 1), fit the pool, match the
   * filled length and start with one of the two markers; the pdu is copied
   * out of the frame.
   */
  function CheckedDecode(pool: seq<byte>, length: nat): Result<AppCmd, Status>
    requires |pool| == PACKET_LENGTH
  {
    if length < OFFSET_PDU + SIZE_CRC || length > PACKET_LENGTH || FrameLen(pool) != length then
      Err(ErrInvalidData)
    else if pool[OFFSET_START] != START_REQ && pool[OFFSET_START] != START_RSP then
      Err(ErrInvalidData)
    else
      var cmdType := if pool[OFFSET_START] == START_RSP then CMD_TYPE_RESPONSE else CMD_TYPE_REQUEST;
      Ok(AppCmd(cmdType, pool[OFFSET_OPCODE], pool[OFFSET_PDU..length - SIZE_CRC]))
  }

  /** The checked decoder inverts the encoder for both command types. */
  lemma {:induction false} CheckedDecodeRoundTrip(cmd: AppCmd, crc16: Crc16)
    requires |cmd.pdu| <= MAX_PDU && (cmd.cmdType == CMD_TYPE_REQUEST || cmd.cmdType == CMD_TYPE_RESPONSE)
    ensures CheckedDecode(TxImage(cmd, crc16), |EncodeFrame(cmd, crc16)|) == Ok(cmd)
  {
    var f := EncodeFrame(cmd, crc16);
    var img := TxImage(cmd, crc16);
    EncodeFrameLayout(cmd, crc16);
    assert img[..|f|] == f;
    assert img[OFFSET_LEN] == f[OFFSET_LEN] && img[OFFSET_LEN + 1] == f[OFFSET_LEN + 1];
    assert img[OFFSET_PDU..|f| - SIZE_CRC] == cmd.pdu;
  }

  /**
   * Whatever the checked decoder accepts is, up to the CRC trailer, the
   * encoding of what it returns: it never reports a payload longer than the
   * frame.
   */
  lemma {:induction false} CheckedDecodeSound(crc16: Crc16, pool: seq<byte>, length: nat)
    requires |pool| == PACKET_LENGTH
    requires CheckedDecode(pool, length).Ok?
    ensures var c := CheckedDecode(pool, length).value;
      && |c.pdu| <= MAX_PDU
      && |EncodeFrame(c, crc16)| == length
      && pool[..length - SIZE_CRC] == EncodeFrame(c, crc16)[..length - SIZE_CRC]
  {
    var c := CheckedDecode(pool, length).value;
    var n := |c.pdu|;
    var span := CrcSpan(c.opCode, c.pdu);
    var head := [StartMarker(c.cmdType)] + span;
    Le16RoundTrip(0, pool[OFFSET_LEN], pool[OFFSET_LEN + 1]);
    assert Le16(SIZE_OPCODE + n) == pool[OFFSET_LEN..OFFSET_OPCODE];
    PoolHead(pool, length);
    ConcatPrefix(head, Le16(crc16(span)));
  }

  /** The first `n` bytes of a pool as marker, length field, opcode and the rest. */
  lemma PoolHead(pool: seq<byte>, n: nat)
    requires OFFSET_PDU <= n <= |pool|
    ensures pool[..n] == [pool[OFFSET_START]] + (pool[OFFSET_LEN..OFFSET_OPCODE] + [pool[OFFSET_OPCODE]] + pool[OFFSET_PDU..n])
  {
    assert pool[..n] == pool[..OFFSET_LEN] + pool[OFFSET_LEN..OFFSET_OPCODE] + pool[OFFSET_OPCODE..OFFSET_PDU] + pool[OFFSET_PDU..n];
  }

  /** A concatenation cut after its first part. */
  lemma ConcatPrefix(a: seq<byte>, b: seq<byte>)
    ensures (a + b)[..|a|] == a
  {
  }
}
