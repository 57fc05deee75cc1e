/**
 * The image-upload sequencer of dfu_helper.c as an object: m_cmd_buffer is
 * a fixed 1032-byte array that on_ble_write copies packets into and stamps
 * block headers onto, and m_img_size, m_img_offset and on_ble_write's static
 * buffer_len are fields the callbacks update in place. Each C function is a
 * method proved to change the object exactly as the function of the same
 * name in DfuSpec says, so every property proved in DfuProps holds of it.
 */
module DfuHelper {
  import opened Bytes
  import opened CmdDefs
  import opened DfuSpec

  class Helper {
    /** m_img_size, m_img_offset. */
    var imgSize: u32
    var imgOffset: u32
    /** on_ble_write's static buffer_len: image bytes held in m_cmd_buffer. */
    var bufferLen: u32
    /** m_cmd_buffer: an 8-byte address/length header, then one block of image data. */
    const cmdBuffer: array<byte>
    /** Requests for the UART engine and notifications to the central, in order. */
    var out: seq<Outgoing>
    /** An ASSERT failed. */
    var faulted: bool

    /** The whole sequencer as a value. */
    function View(): HelperState
      reads this, cmdBuffer
    {
      HelperState(imgSize, imgOffset, bufferLen, cmdBuffer[..], out, faulted)
    }

    /** The buffer has its fixed size, and a full block never stays in it. */
    ghost predicate Valid()
      reads this
    {
      cmdBuffer.Length == CMD_BUFFER_SIZE && bufferLen < IMG_BLOCK_SIZE
    }

    /** The statics at start-up. */
    constructor()
      ensures Valid() && fresh(cmdBuffer) && View() == Initial()
    {
      imgSize, imgOffset, bufferLen := INITIAL_IMG_SIZE, 0, 0;
      cmdBuffer := new byte[CMD_BUFFER_SIZE](_ => 0);
      out, faulted := [], false;
      new;
      assert cmdBuffer[..] == Zeros(CMD_BUFFER_SIZE);
    }

    // -------------------------------------------------------------------
    // Byte copies

    /** uint32_encode: `v` little-endian into a[at..at + 4]. */
    static method Uint32Encode(a: array<byte>, at: nat, v: u32)
      requires at + 4 <= a.Length
      modifies a
      ensures a[..] == Splice(old(a[..]), at, Le32(v))
    {
      a[at] := v % 0x100;
      a[at + 1] := (v / 0x100) % 0x100;
      a[at + 2] := (v / 0x1_0000) % 0x100;
      a[at + 3] := v / 0x100_0000;
    }

    /** memcpy of `data` into a[at..]. */
    static method CopyInto(a: array<byte>, at: nat, data: seq<byte>)
      requires at + |data| <= a.Length
      modifies a
      ensures a[..] == Splice(old(a[..]), at, data)
    {
      var i := 0;
      while i < |data|
        invariant 0 <= i <= |data|
        invariant forall j :: 0 <= j < a.Length ==> a[j] == if at <= j < at + i then data[j - at] else old(a[j])
      {
        a[at + i] := data[i];
        i := i + 1;
      }
    }

    // -------------------------------------------------------------------
    // Requests to the nRF9160

    /** cmd_request_flash_info. */
    method RequestFlashInfo()
      modifies this
      ensures View() == old(View()).(out := old(out) + [CmdRequest(CMD_OP_FLASH_INFO, [])])
    {
      out := out + [CmdRequest(CMD_OP_FLASH_INFO, [])];
    }

    /** cmd_request_flash_write: `data` is the header and the block, as filled in by on_ble_write. */
    method RequestFlashWrite(data: seq<byte>)
      requires |data| < U16_LIMIT
      modifies this
      ensures View() == old(View()).(out := old(out) + [CmdRequest(CMD_OP_FLASH_WRITE, data)])
    {
      out := out + [CmdRequest(CMD_OP_FLASH_WRITE, data)];
    }

    /** cmd_request_flash_read: the address and the length, encoded into a local 8-byte array. */
    method RequestFlashRead(address: u32, length: u16)
      modifies this
      ensures View() == old(View()).(out := old(out) + [CmdRequest(CMD_OP_FLASH_READ, AddressedPayload(address, length))])
    {
      var p := Addressed(address, length);
      out := out + [CmdRequest(CMD_OP_FLASH_READ, p)];
    }

    /** cmd_request_flash_erase: the start address and the page count, encoded into a local 8-byte array. */
    method RequestFlashErase(address: u32, count: u16)
      modifies this
      ensures View() == old(View()).(out := old(out) + [CmdRequest(CMD_OP_FLASH_ERASE, AddressedPayload(address, count))])
    {
      var p := Addressed(address, count);
      out := out + [CmdRequest(CMD_OP_FLASH_ERASE, p)];
    }

    /** The local payload array of the read and erase requests. */
    static method Addressed(address: u32, value: u16) returns (p: seq<byte>)
      ensures p == AddressedPayload(address, value)
    {
      var a := new byte[8](_ => 0);
      ghost var blank := a[..];
      Uint32Encode(a, 0, address);
      Uint32Encode(a, 4, value);
      SpliceJoin(blank, Le32(address), Le32(value));
      p := a[..];
    }

    /** cmd_request_flash_done: m_img_size, encoded into a local 4-byte array. */
    method RequestFlashDone()
      modifies this
      ensures View() == old(View()).(out := old(out) + [CmdRequest(CMD_OP_FLASH_DONE, DonePayload(old(imgSize)))])
    {
      var a := new byte[4](_ => 0);
      Uint32Encode(a, 0, imgSize);
      assert a[..] == Le32(imgSize);
      out := out + [CmdRequest(CMD_OP_FLASH_DONE, a[..])];
    }

    // -------------------------------------------------------------------
    // Response callbacks

    /** rsp_cb_flash_info. */
    method RspFlashInfo(rsp: seq<byte>)
      requires Valid()
      modifies this
      ensures Valid() && View() == FlashInfo(old(View()), rsp)
    {
      if |rsp| != FLASH_INFO_RSP_LEN {
        faulted := true;
        return;
      }
      var pageCount := Le32Decode(rsp[4..8]);
      if imgSize > Mul32(Sub32(pageCount, 1), PAGE_SIZE) {
        // the image is too large: only logged
      } else {
        RequestFlashErase(0, ErasePages(imgSize));
      }
    }

    /** rsp_cb_flash_erase; `behind` is the memory after the response. */
    method RspFlashErase(rsp: seq<byte>, behind: seq<byte>)
      requires Valid() && |rsp| + |behind| >= |RSP_OK|
      modifies this
      ensures Valid() && View() == FlashErase(old(View()), rsp, behind)
    {
      var head := (rsp + behind)[..|RSP_OK|];
      if head == RSP_OK {
        out := out + [BleRequest(REQ_GET_IMG_DATA)];
      }
    }

    /** rsp_cb_flash_write: the response bytes are not looked at. */
    method RspFlashWrite(rsp: seq<byte>)
      requires Valid()
      modifies this
      ensures Valid() && View() == FlashWrite(old(View()))
    {
      if imgOffset == imgSize {
        imgOffset := 0;
        RequestFlashDone();
      } else if imgOffset > 0 {
        out := out + [BleRequest(REQ_GET_IMG_DATA)];
      }
    }

    // -------------------------------------------------------------------
    // BLE writes

    /** on_ble_write: the first byte says what the rest is. */
    method OnBleWrite(data: seq<byte>)
      requires Valid() && WriteFits(View(), data)
      modifies this, cmdBuffer
      ensures Valid() && View() == BleWrite(old(View()), data)
    {
      var flag := data[0];
      if flag == REQ_START_DFU {
        out := out + [BleRequest(REQ_GET_IMG_SIZE)];
      } else if flag == REQ_GET_IMG_SIZE {
        imgSize := Le32Decode(data[1..5]);
        RequestFlashInfo();
      } else if flag == REQ_GET_IMG_DATA {
        StoreImageData(data[1..]);
      }
    }

    /**
     * The IMG_DATA branch of on_ble_write: copy the chunk behind the buffered
     * bytes, and send a full block, or the rest of the image, as a
     * FLASH_WRITE behind its offset and length.
     */
    method StoreImageData(chunk: seq<byte>)
      requires cmdBuffer.Length == CMD_BUFFER_SIZE
      requires CMD_WRITE_HEADER_SIZE + bufferLen + |chunk| <= CMD_BUFFER_SIZE
      modifies this, cmdBuffer
      ensures Valid() && View() == Stage(old(View()), chunk)
    {
      CopyInto(cmdBuffer, CMD_WRITE_HEADER_SIZE + bufferLen, chunk);
      bufferLen := bufferLen + |chunk|;
      if bufferLen == IMG_BLOCK_SIZE || bufferLen == Sub32(imgSize, imgOffset) {
        Uint32Encode(cmdBuffer, 0, imgOffset);
        Uint32Encode(cmdBuffer, CMD_WRITE_ADDR_SIZE, bufferLen);
        RequestFlashWrite(cmdBuffer[..bufferLen + CMD_WRITE_HEADER_SIZE]);
        imgOffset := Add32(imgOffset, bufferLen);
        bufferLen := 0;
      }
    }
  }
}
