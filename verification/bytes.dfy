/**
 * Fixed-width unsigned integers and the little-endian field encodings used on
 * the wire (uint16_encode / uint32_encode of the nRF SDK, and Python's
 * int.to_bytes(4, 'little')).
 */
module Bytes {

  type byte = x: int | 0 <= x < 0x100
  type u16 = x: int | 0 <= x < 0x1_0000
  type u32 = x: int | 0 <= x < 0x1_0000_0000

  const U16_LIMIT: int := 0x1_0000
  const U32_LIMIT: int := 0x1_0000_0000

  /** `n` copies of `b` (memset, or Python's [b] * n). */
  function Fill(n: nat, b: byte): (r: seq<byte>)
    ensures |r| == n
    ensures forall i :: 0 <= i < n ==> r[i] == b
  {
    seq(n, _ => b)
  }

  function Zeros(n: nat): (r: seq<byte>)
    ensures |r| == n
    ensures forall i :: 0 <= i < n ==> r[i] == 0
  {
    Fill(n, 0)
  }

  /** Two bytes, least significant first. */
  function Le16(v: u16): (r: seq<byte>)
  {
    [v % 0x100, v / 0x100]
  }

  function Le16Decode(lo: byte, hi: byte): u16
  {
    lo + 0x100 * hi
  }

  /** Decoding an encoded 16-bit value gives it back, and every byte pair is an encoding. */
  lemma Le16RoundTrip(v: u16, lo: byte, hi: byte)
    ensures |Le16(v)| == 2 && Le16Decode(Le16(v)[0], Le16(v)[1]) == v
    ensures Le16(Le16Decode(lo, hi)) == [lo, hi]
  {
  }

  /** Four bytes, least significant first. */
  function Le32(v: u32): (r: seq<byte>)
  {
    [v % 0x100, (v / 0x100) % 0x100, (v / 0x1_0000) % 0x100, v / 0x100_0000]
  }

  function Le32Decode(b: seq<byte>): u32
    requires |b| == 4
  {
    var lo: int := b[0] as int + 0x100 * b[1] as int;
    var hi: int := b[2] as int + 0x100 * b[3] as int;
    lo + 0x1_0000 * hi
  }

  /** `Le32` is injective and inverse to `Le32Decode`, in both directions. */
  lemma Le32RoundTrip(v: u32, b: seq<byte>)
    requires |b| == 4
    ensures |Le32(v)| == 4 && Le32Decode(Le32(v)) == v
    ensures Le32(Le32Decode(b)) == b
  {
    // split v into its low and high 16-bit halves, each handled like Le16
    var lo, hi := v % 0x1_0000, v / 0x1_0000;
    assert v == lo + 0x1_0000 * hi;
    assert v / 0x100 == lo / 0x100 + 0x100 * hi;
    assert (v / 0x100) % 0x100 == lo / 0x100;
    assert v / 0x100_0000 == hi / 0x100;
    assert (v / 0x1_0000) % 0x100 == hi % 0x100;
    var d: int := Le32Decode(b);
    var dl, dh := b[0] as int + 0x100 * b[1] as int, b[2] as int + 0x100 * b[3] as int;
    assert d == dl + 0x1_0000 * dh;
    assert d % 0x100 == b[0];
    assert d / 0x100 == b[1] as int + 0x100 * dh;
    assert d / 0x1_0000 == dh;
    assert d / 0x100_0000 == b[3];
  }

  /**
   * Concatenation of the little-endian encodings of a list of 32-bit
   * fields: the fields but the last, then the last one on its own.
   */
  function Le32s(fields: seq<u32>): (r: seq<byte>)
    ensures |r| == 4 * |fields|
  {
    if fields == [] then []
    else if |fields| == 1 then Le32(fields[0])
    else Le32s(fields[..|fields| - 1]) + Le32s(fields[|fields| - 1..])
  }

  /** One field more. */
  lemma Le32sSnoc(fields: seq<u32>, v: u32)
    ensures Le32s(fields + [v]) == Le32s(fields) + Le32(v)
  {
    if fields == [] {
      assert fields + [v] == [v];
    } else {
      assert (fields + [v])[..|fields|] == fields && (fields + [v])[|fields|..] == [v];
    }
  }

  /** Runs of fields concatenate. */
  lemma {:induction false} Le32sAppend(a: seq<u32>, b: seq<u32>)
    ensures Le32s(a + b) == Le32s(a) + Le32s(b)
  {
    if b != [] {
      var init := b[..|b| - 1];
      var last := b[|b| - 1];
      assert a + b == (a + init) + [last] && b == init + [last];
      Le32sSnoc(a + init, last);
      Le32sSnoc(init, last);
      Le32sAppend(a, init);
    } else {
      assert a + b == a;
    }
  }

  /** Four fields, and five. */
  lemma Le32sLiteral(a: u32, b: u32, c: u32, d: u32, e: u32)
    ensures Le32s([a, b, c, d]) == Le32(a) + Le32(b) + Le32(c) + Le32(d)
    ensures Le32s([a, b, c, d, e]) == Le32(a) + Le32(b) + Le32(c) + Le32(d) + Le32(e)
  {
    assert [a] + [b] == [a, b] && [a, b] + [c] == [a, b, c];
    assert [a, b, c] + [d] == [a, b, c, d] && [a, b, c, d] + [e] == [a, b, c, d, e];
    Le32sSnoc([a], b);
    Le32sSnoc([a, b], c);
    Le32sSnoc([a, b, c], d);
    Le32sSnoc([a, b, c, d], e);
  }
}
