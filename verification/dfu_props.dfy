/**
 * What the image-upload sequencer guarantees: the payload layouts, the
 * flash-info decision, the erase and write callbacks, the block-flush rule,
 * and that an image sent in 128-byte packets reaches the nRF9160 as
 * consecutive FLASH_WRITE blocks, each addressed where its bytes belong.
 */
module DfuProps {
  import opened Bytes
  import opened CmdDefs
  import opened DfuSpec
  import opened DfuUpload

  // ---------------------------------------------------------------------
  // Flash info and erase

  /**
   * The size limit of rsp_cb_flash_info is the flash minus its last page
   * for every realistic page count, but a page count of 0 wraps to the
   * limit 0xFFFFF000.
   */
  lemma PageLimitValues(pageCount: u32)
    ensures pageCount == 0 ==> PageLimit(pageCount) == 0xFFFF_F000
    ensures 1 <= pageCount <= 0x10_0000 ==> PageLimit(pageCount) == (pageCount - 1) * PAGE_SIZE
  {
  }

  /** The erase count is the number of pages the image occupies, rounded up. */
  lemma ErasePagesCeil(size: u32)
    requires size <= 0xFFF_F000
    ensures size <= ErasePages(size) * PAGE_SIZE < size + PAGE_SIZE
  {
    assert Add32(size, PAGE_SIZE - 1) == size + PAGE_SIZE - 1;
    var q := (size + PAGE_SIZE - 1) / PAGE_SIZE;
    assert q <= 0xFFFF;
    assert ErasePages(size) == q;
  }

  /**
   * A 12-byte FLASH_INFO response from a flash of 1 to 65536 pages leads to
   * an erase request exactly when the image fits below the last page, and
   * then the erase starts at address 0, covers the whole image and leaves
   * the last page alone.
   */
  lemma EraseSparesLastPage(u: HelperState, rsp: seq<byte>)
    requires |rsp| == FLASH_INFO_RSP_LEN && 1 <= Le32Decode(rsp[4..8]) <= U16_LIMIT
    ensures var r := FlashInfo(u, rsp);
      var pages := Le32Decode(rsp[4..8]);
      var n := ErasePages(u.imgSize);
      && (r.out != u.out <==> u.imgSize <= (pages - 1) * PAGE_SIZE)
      && (r.out != u.out ==>
            && r.out == u.out + [CmdRequest(CMD_OP_FLASH_ERASE, AddressedPayload(0, n))]
            && u.imgSize <= n * PAGE_SIZE && n <= pages - 1)
      && r.faulted == u.faulted
  {
    var pages := Le32Decode(rsp[4..8]);
    PageLimitValues(pages);
    if u.imgSize <= (pages - 1) * PAGE_SIZE {
      ErasePagesCeil(u.imgSize);
    }
  }

  /** A FLASH_INFO timeout ("to", 2 bytes) fails the length ASSERT and changes nothing else. */
  lemma FlashInfoTimeoutFaults(u: HelperState)
    ensures FlashInfo(u, RSP_TIMEOUT) == u.(faulted := true)
  {
  }

  /**
   * As written, a FLASH_INFO response reporting no pages at all accepts any
   * image up to 0xFFFFF000 bytes and asks for it to be erased.
   */
  lemma ZeroPagesAccepted(u: HelperState, rsp: seq<byte>)
    requires |rsp| == FLASH_INFO_RSP_LEN && Le32Decode(rsp[4..8]) == 0 && u.imgSize <= 0xFFFF_F000
    ensures FlashInfo(u, rsp).out == u.out + [CmdRequest(CMD_OP_FLASH_ERASE, AddressedPayload(0, ErasePages(u.imgSize)))]
  {
    PageLimitValues(0);
  }

  /** The flash-info decision with the page arithmetic done without wrap-around. */
  function FlashInfoChecked(u: HelperState, rsp: seq<byte>): (r: HelperState)
    ensures r.(out := u.out, faulted := u.faulted) == u
  {
    if |rsp| != FLASH_INFO_RSP_LEN then u.(faulted := true)
    else if u.imgSize > (Le32Decode(rsp[4..8]) - 1) * PAGE_SIZE then u
    else u.(out := u.out + [CmdRequest(CMD_OP_FLASH_ERASE, AddressedPayload(0, ErasePages(u.imgSize)))])
  }

  /**
   * The checked decision never erases on a flash without pages; on any
   * flash of up to 65536 pages its erase covers the image and spares the
   * last page.
   */
  lemma CheckedEraseFits(u: HelperState, rsp: seq<byte>)
    requires |rsp| == FLASH_INFO_RSP_LEN && Le32Decode(rsp[4..8]) <= U16_LIMIT
    ensures var r := FlashInfoChecked(u, rsp);
      var pages := Le32Decode(rsp[4..8]);
      var n := ErasePages(u.imgSize);
      && (r.out != u.out <==> 1 <= pages && u.imgSize <= (pages - 1) * PAGE_SIZE)
      && (r.out != u.out ==>
            && r.out == u.out + [CmdRequest(CMD_OP_FLASH_ERASE, AddressedPayload(0, n))]
            && u.imgSize <= n * PAGE_SIZE && n <= pages - 1)
  {
    var pages := Le32Decode(rsp[4..8]);
    if 1 <= pages && u.imgSize <= (pages - 1) * PAGE_SIZE {
      ErasePagesCeil(u.imgSize);
    }
  }

  /**
   * The erase callback asks the central for data exactly when the two bytes
   * at the start of the response are "ok"; anything else, a timeout
   * included, changes nothing. A response of two bytes or more is decided by
   * its own bytes alone.
   */
  lemma EraseContinuesOnOk(u: HelperState, rsp: seq<byte>, behind: seq<byte>)
    requires |rsp| + |behind| >= 2
    ensures var r := FlashErase(u, rsp, behind);
      var ok := (rsp + behind)[..2] == RSP_OK;
      && (ok <==> r.out == u.out + [BleRequest(REQ_GET_IMG_DATA)])
      && (!ok ==> r == u)
    ensures |rsp| >= 2 ==> FlashErase(u, rsp, behind) == FlashEraseChecked(u, rsp)
    ensures FlashErase(u, RSP_TIMEOUT, behind) == u
  {
    if |rsp| >= 2 {
      assert (rsp + behind)[..2] == rsp[..2];
    }
    assert (RSP_TIMEOUT + behind)[..2][0] != RSP_OK[0];
  }

  /**
   * As written, a one-byte response "o" followed in memory by a 'k' (the
   * first byte of the CRC trailer in the receive pool) is taken for "ok",
   * where the length-checked comparison rejects it.
   */
  lemma ShortEraseResponseReadsBehind(u: HelperState, behind: seq<byte>)
    requires |behind| >= 1 && behind[0] == 'k' as byte
    ensures FlashErase(u, ['o' as byte], behind).out == u.out + [BleRequest(REQ_GET_IMG_DATA)]
    ensures FlashEraseChecked(u, ['o' as byte]) == u
  {
    assert (['o' as byte] + behind)[..2] == RSP_OK;
  }

  /**
   * The length-checked erase callback asks for data exactly when the
   * response itself starts with "ok", whatever lies behind it.
   */
  lemma CheckedEraseContinuesOnOk(u: HelperState, rsp: seq<byte>)
    ensures var r := FlashEraseChecked(u, rsp);
      var ok := |rsp| >= 2 && rsp[..2] == RSP_OK;
      && (ok <==> r.out == u.out + [BleRequest(REQ_GET_IMG_DATA)])
      && (!ok ==> r == u)
    ensures FlashEraseChecked(u, RSP_TIMEOUT) == u
  {
    assert RSP_TIMEOUT[..2][0] != RSP_OK[0];
  }

  /**
   * The write callback: FLASH_DONE, carrying the image size, goes out exactly
   * when the offset has reached the size, and the offset goes back to 0; the
   * central is asked for more data exactly when some but not all of the
   * image has been written; otherwise nothing happens.
   */
  lemma FlashWriteSteps(u: HelperState)
    ensures var r := FlashWrite(u);
      && (u.imgOffset == u.imgSize <==> r.out == u.out + [CmdRequest(CMD_OP_FLASH_DONE, DonePayload(u.imgSize))])
      && (0 < u.imgOffset != u.imgSize <==> r.out == u.out + [BleRequest(REQ_GET_IMG_DATA)])
      && r.imgOffset == (if u.imgOffset == u.imgSize then 0 else u.imgOffset)
      && (u.imgOffset == 0 < u.imgSize ==> r == u)
  {
    var r := FlashWrite(u);
    if u.imgOffset != u.imgSize {
      assert |r.out| == |u.out| || r.out[|u.out|].BleRequest?;
    } else {
      assert r.out[|u.out|].CmdRequest?;
    }
  }

  // ---------------------------------------------------------------------
  // BLE writes

  /** An IMG_SIZE write carrying the size little-endian sets m_img_size to it and asks for the flash info. */
  lemma ImageSizeRoundTrip(u: HelperState, size: u32)
    requires |u.buffer| == CMD_BUFFER_SIZE
    ensures WriteFits(u, [REQ_GET_IMG_SIZE] + Le32(size))
    ensures var r := BleWrite(u, [REQ_GET_IMG_SIZE] + Le32(size));
      r == u.(imgSize := size, out := u.out + [CmdRequest(CMD_OP_FLASH_INFO, [])])
  {
    var data := [REQ_GET_IMG_SIZE] + Le32(size);
    assert data[1..5] == Le32(size);
    Le32RoundTrip(size, Le32(size));
  }

  /**
   * The block-flush rule: a FLASH_WRITE goes out exactly when the buffered
   * bytes reach a block or the rest of the image, and then carries the
   * offset, the block length and the buffered bytes followed by the chunk;
   * the offset advances by the block length and the buffer empties.
   * Otherwise nothing is sent and the chunk joins the buffered bytes.
   */
  lemma StageBlock(u: HelperState, chunk: seq<byte>)
    requires |u.buffer| == CMD_BUFFER_SIZE
    requires CMD_WRITE_HEADER_SIZE + u.bufferLen + |chunk| <= CMD_BUFFER_SIZE
    ensures var r := Stage(u, chunk);
      var len := u.bufferLen + |chunk|;
      if len == IMG_BLOCK_SIZE || len == Sub32(u.imgSize, u.imgOffset) then
        && r.out == u.out + [CmdRequest(CMD_OP_FLASH_WRITE, Le32(u.imgOffset) + Le32(len) + (Buffered(u) + chunk))]
        && r.bufferLen == 0 && r.imgOffset == Add32(u.imgOffset, len)
      else
        && r.out == u.out && r.bufferLen == len && r.imgOffset == u.imgOffset
        && Buffered(r) == Buffered(u) + chunk
  {
    var at := CMD_WRITE_HEADER_SIZE + u.bufferLen;
    var filled := Splice(u.buffer, at, chunk);
    var len := u.bufferLen + |chunk|;
    var data := Buffered(u) + chunk;
    assert filled[CMD_WRITE_HEADER_SIZE..CMD_WRITE_HEADER_SIZE + len] == data by {
      forall i | 0 <= i < len
        ensures filled[CMD_WRITE_HEADER_SIZE + i] == data[i]
      {
      }
    }
    if len == IMG_BLOCK_SIZE || len == Sub32(u.imgSize, u.imgOffset) {
      var block := Splice(Splice(filled, 0, Le32(u.imgOffset)), CMD_WRITE_ADDR_SIZE, Le32(len));
      var payload := Le32(u.imgOffset) + Le32(len) + data;
      assert block[..len + CMD_WRITE_HEADER_SIZE] == payload by {
        forall i | 0 <= i < len + CMD_WRITE_HEADER_SIZE
          ensures block[i] == payload[i]
        {
          if i >= CMD_WRITE_HEADER_SIZE {
            assert block[i] == filled[i] == data[i - CMD_WRITE_HEADER_SIZE];
          }
        }
      }
      assert Stage(u, chunk).out == u.out + [CmdRequest(CMD_OP_FLASH_WRITE, block[..len + CMD_WRITE_HEADER_SIZE])];
    }
  }

  /**
   * m_img_offset stays within m_img_size as long as no chunk overshoots the
   * image, and the chunk that completes the image flushes it.
   */
  lemma OffsetBounded(u: HelperState, chunk: seq<byte>)
    requires |u.buffer| == CMD_BUFFER_SIZE
    requires CMD_WRITE_HEADER_SIZE + u.bufferLen + |chunk| <= CMD_BUFFER_SIZE
    requires u.imgOffset + u.bufferLen + |chunk| <= u.imgSize
    ensures var r := Stage(u, chunk);
      && r.imgOffset + r.bufferLen == u.imgOffset + u.bufferLen + |chunk|
      && (u.imgOffset + u.bufferLen + |chunk| == u.imgSize ==> r.bufferLen == 0 && r.imgOffset == u.imgSize)
  {
    StageBlock(u, chunk);
    assert Sub32(u.imgSize, u.imgOffset) == u.imgSize - u.imgOffset;
  }

  /**
   * A chunk that overshoots the image carries m_img_offset past m_img_size:
   * the next flash-write response then neither finishes nor stops, but asks
   * the central for more data.
   */
  lemma OvershootPassesSize()
    ensures var u := HelperState(1000, 0, 896, Zeros(CMD_BUFFER_SIZE), [], false);
      var r := Stage(u, Zeros(IMG_PACKET_SIZE));
      && r.imgOffset == 1024 > r.imgSize
      && FlashWrite(r).out == r.out + [BleRequest(REQ_GET_IMG_DATA)]
  {
    var u := HelperState(1000, 0, 896, Zeros(CMD_BUFFER_SIZE), [], false);
    StageBlock(u, Zeros(IMG_PACKET_SIZE));
  }

  // ---------------------------------------------------------------------
  // A whole image

  lemma WrittenSnoc(reqs: seq<Outgoing>, o: Outgoing)
    ensures Written(reqs + [o]) == Written(reqs) + BlockData(o)
    ensures Placed(reqs + [o]) == (Placed(reqs) &&
      (o.CmdRequest? && o.op == CMD_OP_FLASH_WRITE ==>
         && |o.payload| >= CMD_WRITE_HEADER_SIZE
         && Le32Decode(o.payload[..4]) == |Written(reqs)|
         && Le32Decode(o.payload[4..8]) == |o.payload| - CMD_WRITE_HEADER_SIZE))
  {
    assert (reqs + [o])[..|reqs|] == reqs;
  }

  lemma SliceJoin(image: seq<byte>, a: nat, b: nat, c: nat)
    requires a <= b <= c <= |image|
    ensures image[a..b] + image[b..c] == image[a..c]
  {
  }

  lemma HeaderSplit(a: seq<byte>, b: seq<byte>, d: seq<byte>)
    requires |a| == 4 && |b| == 4
    ensures (a + b + d)[..4] == a && (a + b + d)[4..8] == b && (a + b + d)[8..] == d
  {
  }

  /** A FLASH_WRITE of the image bytes from `off` to `next`, addressed at `off`, extends a placed run written up to `off`. */
  lemma WriteBlock(reqs: seq<Outgoing>, req: Outgoing, image: seq<byte>, off: nat, next: nat)
    requires next <= |image| && WritesBlock(req, image, off, next)
    requires WrittenUpTo(reqs, image, off)
    ensures WrittenUpTo(reqs + [req], image, next)
  {
    WrittenSnoc(reqs, req);
    SliceJoin(image, 0, off, next);
  }

  /** A packet that completes a block or the image keeps the upload state and empties the buffer. */
  lemma FlushUploading(s: HelperState, start: nat, image: seq<byte>, done: nat, chunk: seq<byte>)
    requires Uploading(s, start, image, done)
    requires done + |chunk| <= |image| && chunk == image[done..done + |chunk|]
    requires CMD_WRITE_HEADER_SIZE + s.bufferLen + |chunk| <= CMD_BUFFER_SIZE
    requires s.bufferLen + |chunk| == IMG_BLOCK_SIZE || done + |chunk| == |image|
    ensures var t := Stage(s, chunk);
      && Uploading(t, start, image, done + |chunk|) && t.bufferLen == 0
      && |s.out| <= |t.out| && t.out[..|s.out|] == s.out
  {
    var req := FlushFacts(s, image, done, chunk);
    FlushedUploading(s, Stage(s, chunk), req, start, image, done + |chunk|);
  }

  /** The FLASH_WRITE a flushing packet sends carries the image from the offset to the end of the packet. */
  lemma FlushFacts(s: HelperState, image: seq<byte>, done: nat, chunk: seq<byte>) returns (req: Outgoing)
    requires |s.buffer| == CMD_BUFFER_SIZE && s.imgSize == |image|
    requires CMD_WRITE_HEADER_SIZE + s.bufferLen + |chunk| <= CMD_BUFFER_SIZE
    requires done + |chunk| <= |image| && chunk == image[done..done + |chunk|]
    requires s.imgOffset + s.bufferLen == done && Buffered(s) == image[s.imgOffset..done]
    requires s.bufferLen + |chunk| == IMG_BLOCK_SIZE || done + |chunk| == |image|
    ensures var t := Stage(s, chunk);
      && t.out == s.out + [req] && WritesBlock(req, image, s.imgOffset, done + |chunk|)
      && t.bufferLen == 0 && t.imgOffset == done + |chunk| && |t.buffer| == CMD_BUFFER_SIZE && t.imgSize == s.imgSize
  {
    var off, next := s.imgOffset, done + |chunk|;
    assert Sub32(s.imgSize, off) == |image| - off;
    StageBlock(s, chunk);
    SliceJoin(image, off, done, next);
    req := BlockRequest(image, off, next);
  }

  /** The FLASH_WRITE of the image bytes from `off` to `next`, behind their offset and length, little-endian. */
  lemma BlockRequest(image: seq<byte>, off: u32, next: nat) returns (req: Outgoing)
    requires off <= next <= |image| && next - off < U32_LIMIT
    ensures req == CmdRequest(CMD_OP_FLASH_WRITE, Le32(off) + Le32(next - off) + image[off..next])
    ensures WritesBlock(req, image, off, next)
  {
    req := CmdRequest(CMD_OP_FLASH_WRITE, Le32(off) + Le32(next - off) + image[off..next]);
    HeaderSplit(Le32(off), Le32(next - off), image[off..next]);
    Le32RoundTrip(off, Le32(off));
    Le32RoundTrip(next - off, Le32(next - off));
  }

  /** A flush appends one FLASH_WRITE of the buffered block and empties the buffer: the upload state holds again. */
  lemma FlushedUploading(s: HelperState, t: HelperState, req: Outgoing, start: nat, image: seq<byte>, next: nat)
    requires start <= |s.out| && WrittenUpTo(s.out[start..], image, s.imgOffset)
    requires next <= |image| && WritesBlock(req, image, s.imgOffset, next)
    requires t.out == s.out + [req] && t.bufferLen == 0 && t.imgOffset == next
    requires |t.buffer| == CMD_BUFFER_SIZE && t.imgSize == |image|
    ensures Uploading(t, start, image, next) && t.bufferLen == 0
    ensures |s.out| <= |t.out| && t.out[..|s.out|] == s.out
  {
    assert t.out[start..] == s.out[start..] + [req];
    WriteBlock(s.out[start..], req, image, s.imgOffset, next);
    assert Buffered(t) == [] == image[next..next];
  }

  /** A packet that completes neither a block nor the image joins the buffered bytes. */
  lemma BufferUploading(s: HelperState, start: nat, image: seq<byte>, done: nat, chunk: seq<byte>)
    requires Uploading(s, start, image, done)
    requires done + |chunk| < |image| && chunk == image[done..done + |chunk|] && |chunk| == IMG_PACKET_SIZE
    requires CMD_WRITE_HEADER_SIZE + s.bufferLen + |chunk| <= CMD_BUFFER_SIZE
    requires s.bufferLen + |chunk| != IMG_BLOCK_SIZE
    ensures var t := Stage(s, chunk);
      Uploading(t, start, image, done + |chunk|) && t.out == s.out
  {
    assert Sub32(s.imgSize, s.imgOffset) == |image| - s.imgOffset;
    StageBlock(s, chunk);
    SliceJoin(image, s.imgOffset, done, done + |chunk|);
  }

  /** One packet of an upload: it fits, keeps the upload state, and the last one flushes the buffer. */
  lemma UploadStep(s: HelperState, start: nat, image: seq<byte>, done: nat)
    requires Uploading(s, start, image, done) && done < |image| && done % IMG_PACKET_SIZE == 0
    ensures var next := Min(done + IMG_PACKET_SIZE, |image|);
      var chunk := image[done..next];
      && WriteFits(s, [REQ_GET_IMG_DATA] + chunk)
      && var t := BleWrite(s, [REQ_GET_IMG_DATA] + chunk);
      && Uploading(t, start, image, next)
      && |s.out| <= |t.out| && t.out[..|s.out|] == s.out
      && (next == |image| ==> t.bufferLen == 0)
  {
    var chunk := image[done..Min(done + IMG_PACKET_SIZE, |image|)];
    var data := [REQ_GET_IMG_DATA] + chunk;
    assert data[1..] == chunk;
    assert s.bufferLen <= IMG_BLOCK_SIZE - IMG_PACKET_SIZE;
    assert BleWrite(s, data) == Stage(s, chunk);
    if s.bufferLen + |chunk| == IMG_BLOCK_SIZE || done + |chunk| == |image| {
      FlushUploading(s, start, image, done, chunk);
    } else {
      BufferUploading(s, start, image, done, chunk);
    }
  }

  /** The packets of the image from `done` on: the one at `done`, then the rest. */
  lemma PacketsFrom(image: seq<byte>, done: nat)
    requires done < |image|
    ensures var next := Min(done + IMG_PACKET_SIZE, |image|);
      Packets(image[done..]) == [image[done..next]] + Packets(image[next..])
  {
    var rest := image[done..];
    if |rest| <= IMG_PACKET_SIZE {
      assert image[|image|..] == [];
      assert rest == image[done..|image|];
    } else {
      assert rest[..IMG_PACKET_SIZE] == image[done..done + IMG_PACKET_SIZE];
      assert rest[IMG_PACKET_SIZE..] == image[done + IMG_PACKET_SIZE..];
    }
  }

  /** The packet after one that starts on a packet boundary starts on one too, unless it is the end. */
  lemma PacketBoundary(done: nat, size: nat)
    requires done < size && done % IMG_PACKET_SIZE == 0
    ensures var next := Min(done + IMG_PACKET_SIZE, size);
      done < next <= size && (next < size ==> next % IMG_PACKET_SIZE == 0)
  {
  }

  /** The remaining packets of an upload fit, and bring it to the end with the buffer empty. */
  lemma {:induction false} UploadRest(s: HelperState, start: nat, image: seq<byte>, done: nat)
    requires Uploading(s, start, image, done)
    requires done < |image| ==> done % IMG_PACKET_SIZE == 0
    requires done == |image| ==> s.bufferLen == 0
    ensures Fits(s, Packets(image[done..]))
    ensures var r := Upload(s, Packets(image[done..]));
      && Uploading(r, start, image, |image|) && r.bufferLen == 0
      && |s.out| <= |r.out| && r.out[..|s.out|] == s.out
    decreases |image| - done
  {
    if done == |image| {
      assert image[done..] == [];
    } else {
      var next := Min(done + IMG_PACKET_SIZE, |image|);
      var chunk := image[done..next];
      var chunks := Packets(image[done..]);
      PacketsFrom(image, done);
      PacketBoundary(done, |image|);
      assert chunks[0] == chunk && chunks[1..] == Packets(image[next..]);
      UploadStep(s, start, image, done);
      var t := BleWrite(s, [REQ_GET_IMG_DATA] + chunk);
      UploadRest(t, start, image, next);
      var r := Upload(t, Packets(image[next..]));
      assert Upload(s, chunks) == r;
      assert r.out[..|s.out|] == r.out[..|t.out|][..|s.out|];
    }
  }

  /**
   * An image announced with its size and sent from the start of an empty
   * buffer as 128-byte IMG_DATA packets fits the command buffer throughout
   * and reaches the nRF9160 whole: the FLASH_WRITE requests issued carry
   * exactly the image, in order, each block addressed at its own offset with
   * its own length; the offset ends at the image size with the buffer empty,
   * so the next flash-write response sends FLASH_DONE with the size.
   */
  lemma UploadWhole(u: HelperState, image: seq<byte>)
    requires |u.buffer| == CMD_BUFFER_SIZE && u.bufferLen == 0 && u.imgOffset == 0 && u.imgSize == |image|
    ensures Fits(u, Packets(image))
    ensures var r := Upload(u, Packets(image));
      && r.imgOffset == r.imgSize == u.imgSize && r.bufferLen == 0
      && |u.out| <= |r.out| && r.out[..|u.out|] == u.out
      && Written(r.out[|u.out|..]) == image && Placed(r.out[|u.out|..])
      && FlashWrite(r).out == r.out + [CmdRequest(CMD_OP_FLASH_DONE, DonePayload(u.imgSize))]
  {
    assert u.out[|u.out|..] == [];
    assert image[0..] == image;
    UploadRest(u, |u.out|, image, 0);
  }
}
