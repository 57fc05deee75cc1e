/**
 * An image upload through the sequencer of dfu_helper.c, on values: the
 * image cut into IMG_DATA packets, on_ble_write applied to each in turn, the
 * image bytes the resulting FLASH_WRITE requests carry, and the state of an
 * upload part way through. DfuProps proves what these add up to.
 */
module DfuUpload {
  import opened Bytes
  import opened DfuSpec

  /** The image bytes a FLASH_WRITE request carries behind its header; nothing for any other request. */
  function BlockData(o: Outgoing): seq<byte>
  {
    if o.CmdRequest? && o.op == CMD_OP_FLASH_WRITE && |o.payload| >= CMD_WRITE_HEADER_SIZE then
      o.payload[CMD_WRITE_HEADER_SIZE..]
    else []
  }

  /** `o` is a FLASH_WRITE of the image bytes from `off` to `next`, addressed at `off` with their length. */
  predicate WritesBlock(o: Outgoing, image: seq<byte>, off: nat, next: nat)
  {
    && off <= next <= |image|
    && o.CmdRequest? && o.op == CMD_OP_FLASH_WRITE && |o.payload| >= CMD_WRITE_HEADER_SIZE
    && Le32Decode(o.payload[..4]) == off && Le32Decode(o.payload[4..8]) == next - off
    && BlockData(o) == image[off..next]
  }

  /** The image bytes a run of requests writes, in order. */
  function Written(reqs: seq<Outgoing>): seq<byte>
  {
    if reqs == [] then [] else Written(reqs[..|reqs| - 1]) + BlockData(reqs[|reqs| - 1])
  }

  /**
   * Every FLASH_WRITE among `reqs` is addressed at the number of image bytes
   * the writes before it carry, and its length field is its data length.
   */
  predicate Placed(reqs: seq<Outgoing>)
  {
    reqs != [] ==>
      && Placed(reqs[..|reqs| - 1])
      && var o := reqs[|reqs| - 1];
         (o.CmdRequest? && o.op == CMD_OP_FLASH_WRITE ==>
            && |o.payload| >= CMD_WRITE_HEADER_SIZE
            && Le32Decode(o.payload[..4]) == |Written(reqs[..|reqs| - 1])|
            && Le32Decode(o.payload[4..8]) == |o.payload| - CMD_WRITE_HEADER_SIZE)
  }

  /** An image cut into IMG_DATA packets of 128 bytes, the last one possibly shorter. */
  function Packets(image: seq<byte>): (r: seq<seq<byte>>)
    decreases |image|
  {
    if image == [] then []
    else if |image| <= IMG_PACKET_SIZE then [image]
    else [image[..IMG_PACKET_SIZE]] + Packets(image[IMG_PACKET_SIZE..])
  }

  /** Every IMG_DATA write of `chunks`, made in turn from `u`, fits the command buffer. */
  predicate Fits(u: HelperState, chunks: seq<seq<byte>>)
    decreases |chunks|
  {
    && |u.buffer| == CMD_BUFFER_SIZE
    && (chunks != [] ==>
          && WriteFits(u, [REQ_GET_IMG_DATA] + chunks[0])
          && Fits(BleWrite(u, [REQ_GET_IMG_DATA] + chunks[0]), chunks[1..]))
  }

  /** on_ble_write called with an IMG_DATA write for each chunk in turn. */
  function Upload(u: HelperState, chunks: seq<seq<byte>>): (r: HelperState)
    requires Fits(u, chunks)
    decreases |chunks|
  {
    if chunks == [] then u else Upload(BleWrite(u, [REQ_GET_IMG_DATA] + chunks[0]), chunks[1..])
  }

  /**
   * The state of an upload of `image` that has consumed its first `done`
   * bytes: the requests from index `start` on wrote the image up to the
   * offset, block by block at their own addresses, and the rest of the
   * consumed bytes sit in the buffer.
   */
  ghost predicate Uploading(s: HelperState, start: nat, image: seq<byte>, done: nat)
  {
    && BufferShape(s, image) && Consumed(s, image, done)
    && start <= |s.out| && WrittenUpTo(s.out[start..], image, s.imgOffset)
  }

  /** The buffer has its size, holds whole packets short of a block, and the image size is announced. */
  predicate BufferShape(s: HelperState, image: seq<byte>)
  {
    && |s.buffer| == CMD_BUFFER_SIZE && s.imgSize == |image|
    && s.bufferLen < IMG_BLOCK_SIZE && s.bufferLen % IMG_PACKET_SIZE == 0
  }

  /** The first `done` bytes of the image are written up to the offset, and the rest of them are buffered. */
  predicate Consumed(s: HelperState, image: seq<byte>, done: nat)
  {
    && done <= |image| && s.imgOffset + s.bufferLen == done
    && CMD_WRITE_HEADER_SIZE + s.bufferLen <= |s.buffer|
    && Buffered(s) == image[s.imgOffset..done]
  }

  /** A run of requests that wrote the image up to `off`, each block at its own address. */
  predicate WrittenUpTo(reqs: seq<Outgoing>, image: seq<byte>, off: nat)
  {
    off <= |image| && PlacedRun(reqs, image[..off])
  }

  /** A run of requests that writes exactly `data`, each block at its own address. */
  predicate PlacedRun(reqs: seq<Outgoing>, data: seq<byte>)
  {
    Written(reqs) == data && Placed(reqs)
  }

  function Min(a: nat, b: nat): nat
  {
    if a <= b then a else b
  }
}
