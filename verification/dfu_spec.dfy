/**
 * The image-upload sequencer of the nRF52 bridge (dfu_helper.c), on values.
 *
 * A BLE central asks for an update with START_DFU, announces the image size
 * with IMG_SIZE and then sends the image in IMG_DATA packets. The sequencer
 * asks the nRF9160 for its flash geometry (FLASH_INFO), erases the pages the
 * image needs (FLASH_ERASE), collects the packets into blocks of at most
 * 1024 bytes, each sent as a FLASH_WRITE request behind an 8-byte
 * address/length header, and ends with FLASH_DONE. `HelperState` is the
 * sequencer's memory: the globals m_img_size and m_img_offset, on_ble_write's
 * static buffer_len, the contents of m_cmd_buffer, and the requests issued so
 * far (commands for the UART engine and one-byte BLE notifications).
 */
module DfuSpec {
  import opened Bytes
  import opened CmdDefs

  // Opcodes of the flash and control commands
  const CMD_OP_FLASH: byte := 0x20
  const CMD_OP_FLASH_INFO: byte := CMD_OP_FLASH + 1
  const CMD_OP_FLASH_READ: byte := CMD_OP_FLASH + 2
  const CMD_OP_FLASH_WRITE: byte := CMD_OP_FLASH + 3
  const CMD_OP_FLASH_ERASE: byte := CMD_OP_FLASH + 4
  const CMD_OP_FLASH_CRC: byte := CMD_OP_FLASH + 5
  const CMD_OP_FLASH_START: byte := CMD_OP_FLASH + 6
  const CMD_OP_FLASH_DONE: byte := CMD_OP_FLASH + 7
  const CMD_OP_CONTROL: byte := 0x30
  const CMD_OP_ENTER_BL: byte := CMD_OP_CONTROL + 1
  const CMD_OP_PING_APP: byte := CMD_OP_CONTROL + 2

  // Block geometry
  const IMG_PACKET_SIZE: nat := 128
  const PKTS_PER_BLOCK: nat := 8
  const IMG_BLOCK_SIZE: nat := IMG_PACKET_SIZE * PKTS_PER_BLOCK
  const CMD_WRITE_ADDR_SIZE: nat := 4
  const CMD_WRITE_LEN_SIZE: nat := 4
  const CMD_WRITE_HEADER_SIZE: nat := CMD_WRITE_ADDR_SIZE + CMD_WRITE_LEN_SIZE
  const CMD_BUFFER_SIZE: nat := IMG_BLOCK_SIZE + CMD_WRITE_HEADER_SIZE

  // The first byte of a BLE write, and of a BLE notification asking for the next step
  const REQ_START_DFU: byte := 0x00
  const REQ_GET_IMG_SIZE: byte := 0x01
  const REQ_GET_IMG_DATA: byte := 0x02

  /** A flash page of the nRF9160. */
  const PAGE_SIZE: nat := 0x1000
  /** A FLASH_INFO response: address, page count and first blank page, 4 bytes each. */
  const FLASH_INFO_RSP_LEN: nat := 12
  /** m_img_size before any IMG_SIZE write. */
  const INITIAL_IMG_SIZE: u32 := 100

  /** A request the sequencer issues: a command for the nRF9160, or a notification to the central. */
  datatype Outgoing =
    | CmdRequest(op: byte, payload: seq<byte>)
    | BleRequest(req: byte)

  datatype HelperState = HelperState(
    imgSize: u32,
    imgOffset: u32,
    bufferLen: u32,
    buffer: seq<byte>,
    out: seq<Outgoing>,
    faulted: bool)   // an ASSERT failed

  /** The state at start-up: static storage is zero, m_img_size is 100. */
  function Initial(): (r: HelperState)
    ensures |r.buffer| == CMD_BUFFER_SIZE && r.bufferLen == 0 && r.imgOffset == 0 && r.out == [] && !r.faulted
  {
    HelperState(INITIAL_IMG_SIZE, 0, 0, Zeros(CMD_BUFFER_SIZE), [], false)
  }

  // ---------------------------------------------------------------------
  // uint32_t and uint16_t arithmetic

  /** uint32_t subtraction, wrapping modulo 2^32. */
  function Sub32(a: u32, b: u32): (r: u32)
    ensures b <= a ==> r == a - b
  {
    (a - b) % U32_LIMIT
  }

  /** uint32_t addition, wrapping modulo 2^32. */
  function Add32(a: u32, b: u32): (r: u32)
    ensures a + b < U32_LIMIT ==> r == a + b
  {
    (a + b) % U32_LIMIT
  }

  /** uint32_t multiplication, wrapping modulo 2^32. */
  function Mul32(a: u32, b: u32): (r: u32)
  {
    (a * b) % U32_LIMIT
  }

  /** The largest image rsp_cb_flash_info accepts: (page_count - 1) * 0x1000 in uint32_t. */
  function PageLimit(pageCount: u32): (r: u32)
  {
    Mul32(Sub32(pageCount, 1), PAGE_SIZE)
  }

  /**
   * The page count of the erase request: CEIL_DIV(m_img_size, 0x1000), that
   * is (m_img_size + 0xFFF) / 0x1000 in uint32_t, passed to a uint16_t
   * parameter.
   */
  function ErasePages(size: u32): (r: u16)
  {
    (Add32(size, PAGE_SIZE - 1) / PAGE_SIZE) % U16_LIMIT
  }

  // ---------------------------------------------------------------------
  // Byte buffers

  /** `s` with `piece` copied over it from index `at` (memcpy, uint32_encode). */
  function Splice(s: seq<byte>, at: nat, piece: seq<byte>): (r: seq<byte>)
    requires at + |piece| <= |s|
    ensures |r| == |s|
    ensures forall i :: 0 <= i < |r| ==> r[i] == if at <= i < at + |piece| then piece[i - at] else s[i]
  {
    s[..at] + piece + s[at + |piece|..]
  }

  /** Two pieces spliced end to end over a buffer of their joint length replace it. */
  lemma SpliceJoin(s: seq<byte>, x: seq<byte>, y: seq<byte>)
    requires |s| == |x| + |y|
    ensures Splice(Splice(s, 0, x), |x|, y) == x + y
  {
    var r := Splice(Splice(s, 0, x), |x|, y);
    assert forall i :: 0 <= i < |r| ==> r[i] == (x + y)[i];
  }

  /** The image bytes waiting in the command buffer, behind the header space. */
  function Buffered(u: HelperState): (r: seq<byte>)
    requires CMD_WRITE_HEADER_SIZE + u.bufferLen <= |u.buffer|
    ensures |r| == u.bufferLen
  {
    u.buffer[CMD_WRITE_HEADER_SIZE..CMD_WRITE_HEADER_SIZE + u.bufferLen]
  }

  // ---------------------------------------------------------------------
  // Request payloads

  /**
   * The 8-byte payload of FLASH_READ and FLASH_ERASE: an address in bytes
   * 0..3 and a length or page count in bytes 4..7, both little-endian.
   */
  function AddressedPayload(address: u32, value: u16): (r: seq<byte>)
    ensures |r| == 8 && Le32Decode(r[..4]) == address && Le32Decode(r[4..]) == value
  {
    Le32RoundTrip(address, Le32(address));
    Le32RoundTrip(value, Le32(value));
    assert (Le32(address) + Le32(value))[..4] == Le32(address);
    assert (Le32(address) + Le32(value))[4..] == Le32(value);
    Le32(address) + Le32(value)
  }

  /** The 4-byte payload of FLASH_DONE: the image size, little-endian. */
  function DonePayload(size: u32): (r: seq<byte>)
    ensures |r| == 4 && Le32Decode(r) == size
  {
    Le32RoundTrip(size, Le32(size));
    Le32(size)
  }

  // ---------------------------------------------------------------------
  // Response callbacks

  /**
   * rsp_cb_flash_info: a response that is not 12 bytes long fails the
   * ASSERT; otherwise an image larger than the flash minus its last page is
   * refused, and a smaller one leads to an erase request from address 0.
   */
  function FlashInfo(u: HelperState, rsp: seq<byte>): (r: HelperState)
    ensures r.(out := u.out, faulted := u.faulted) == u
  {
    if |rsp| != FLASH_INFO_RSP_LEN then u.(faulted := true)
    else if u.imgSize > PageLimit(Le32Decode(rsp[4..8])) then u
    else u.(out := u.out + [CmdRequest(CMD_OP_FLASH_ERASE, AddressedPayload(0, ErasePages(u.imgSize)))])
  }

  /**
   * rsp_cb_flash_erase: the central is asked for data only after an "ok".
   * The comparison always reads two bytes from the start of the response,
   * whatever its length, so a response shorter than that is completed by
   * the memory that follows it (`behind`; in the receive pool, the CRC
   * trailer).
   */
  function FlashErase(u: HelperState, rsp: seq<byte>, behind: seq<byte>): (r: HelperState)
    requires |rsp| + |behind| >= |RSP_OK|
    ensures r.(out := u.out) == u
  {
    if (rsp + behind)[..|RSP_OK|] == RSP_OK then u.(out := u.out + [BleRequest(REQ_GET_IMG_DATA)])
    else u
  }

  /** rsp_cb_flash_erase as evidently intended: a response shorter than "ok" is not an "ok". */
  function FlashEraseChecked(u: HelperState, rsp: seq<byte>): (r: HelperState)
    ensures r.(out := u.out) == u
  {
    if |rsp| >= |RSP_OK| && rsp[..|RSP_OK|] == RSP_OK then u.(out := u.out + [BleRequest(REQ_GET_IMG_DATA)])
    else u
  }

  /**
   * rsp_cb_flash_write: a finished image resets the offset and sends
   * FLASH_DONE; an unfinished one asks the central for more data, unless
   * nothing has been written yet.
   */
  function FlashWrite(u: HelperState): (r: HelperState)
    ensures r.(out := u.out, imgOffset := u.imgOffset) == u
  {
    if u.imgOffset == u.imgSize then
      u.(imgOffset := 0, out := u.out + [CmdRequest(CMD_OP_FLASH_DONE, DonePayload(u.imgSize))])
    else if u.imgOffset > 0 then
      u.(out := u.out + [BleRequest(REQ_GET_IMG_DATA)])
    else u
  }

  // ---------------------------------------------------------------------
  // BLE writes

  /**
   * The IMG_DATA branch of on_ble_write: the chunk is copied behind the
   * buffered bytes; a full block, or the rest of the image, is sent as one
   * FLASH_WRITE with the current offset and the block length in front.
   */
  function Stage(u: HelperState, chunk: seq<byte>): (r: HelperState)
    requires |u.buffer| == CMD_BUFFER_SIZE
    requires CMD_WRITE_HEADER_SIZE + u.bufferLen + |chunk| <= CMD_BUFFER_SIZE
    ensures |r.buffer| == CMD_BUFFER_SIZE && r.bufferLen < IMG_BLOCK_SIZE
    ensures r.imgSize == u.imgSize && r.faulted == u.faulted
  {
    var filled := Splice(u.buffer, CMD_WRITE_HEADER_SIZE + u.bufferLen, chunk);
    var len := u.bufferLen + |chunk|;
    if len == IMG_BLOCK_SIZE || len == Sub32(u.imgSize, u.imgOffset) then
      var block := Splice(Splice(filled, 0, Le32(u.imgOffset)), CMD_WRITE_ADDR_SIZE, Le32(len));
      u.(buffer := block, bufferLen := 0, imgOffset := Add32(u.imgOffset, len),
         out := u.out + [CmdRequest(CMD_OP_FLASH_WRITE, block[..len + CMD_WRITE_HEADER_SIZE])])
    else
      u.(buffer := filled, bufferLen := len)
  }

  /** What on_ble_write demands of a write: a flag byte, and the bytes its branch reads or copies. */
  predicate WriteFits(u: HelperState, data: seq<byte>)
  {
    && |data| >= 1
    && |u.buffer| == CMD_BUFFER_SIZE
    && (data[0] == REQ_GET_IMG_SIZE ==> |data| >= 5)
    && (data[0] == REQ_GET_IMG_DATA ==> CMD_WRITE_HEADER_SIZE + u.bufferLen + (|data| - 1) <= CMD_BUFFER_SIZE)
  }

  /** on_ble_write: dispatch on the flag byte. */
  function BleWrite(u: HelperState, data: seq<byte>): (r: HelperState)
    requires WriteFits(u, data)
    ensures |r.buffer| == CMD_BUFFER_SIZE && r.faulted == u.faulted
    ensures data[0] != REQ_GET_IMG_SIZE ==> r.imgSize == u.imgSize
  {
    if data[0] == REQ_START_DFU then u.(out := u.out + [BleRequest(REQ_GET_IMG_SIZE)])
    else if data[0] == REQ_GET_IMG_SIZE then
      u.(imgSize := Le32Decode(data[1..5]), out := u.out + [CmdRequest(CMD_OP_FLASH_INFO, [])])
    else if data[0] == REQ_GET_IMG_DATA then Stage(u, data[1..])
    else u
  }
}
