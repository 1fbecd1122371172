/**
 * The wire codec of the TouchController bridge: conversion of 32-bit
 * integers and single-precision floats into the 32-bit words that are
 * copied, in network (big-endian) byte order, into a frame.
 *
 * A float is modelled only by its IEEE-754 bit pattern and is never
 * computed with, so every law below is bit-exact, negative zero and NaN
 * payloads included.  The byte order of the machine the launcher runs on
 * is a parameter (`Endian`); the memory image of a `uint32_t` on that
 * machine is `HostLayout`.
 */
module WireCodec {

  /** An octet, as `uint8_t`. */
  type Byte = b: int | 0 <= b < 0x100

  /** A 32-bit unsigned word, as `uint32_t`. */
  type Word = w: int | 0 <= w < 0x1_0000_0000

  const TWO_TO_31: int := 0x8000_0000
  const TWO_TO_32: int := 0x1_0000_0000

  /** A signed 32-bit integer, as `int32_t`. */
  newtype Int32 = x: int | -0x8000_0000 <= x < 0x8000_0000

  /** A single-precision float, known only by its IEEE-754 bit pattern. */
  datatype Float32 = Float32(bits: Word)

  /** The byte order of the machine the launcher runs on. */
  datatype Endian = LittleEndian | BigEndian

  /** IEEE-754 classification, used only to name the interesting patterns. */
  predicate IsNaN(f: Float32) {
    (f.bits / 0x80_0000) % 0x100 == 0xFF && f.bits % 0x80_0000 != 0
  }

  predicate IsNegativeZero(f: Float32) {
    f.bits == 0x8000_0000
  }

  // ---------------------------------------------------------------------
  // Bytes of a word

  /** The four bytes of `w`, most significant first. */
  function BigEndianBytes(w: Word): (r: seq<Byte>)
    ensures |r| == 4
    ensures r[0] == w / 0x100_0000 && r[3] == w % 0x100
  {
    var w1 := w / 0x100;
    var w2 := w1 / 0x100;
    [w2 / 0x100, w2 % 0x100, w1 % 0x100, w % 0x100]
  }

  /** The word whose bytes, most significant first, are `b`. */
  function FromBigEndian(b: seq<Byte>): Word
    requires |b| == 4
  {
    ((b[0] as int * 0x100 + b[1] as int) * 0x100 + b[2] as int) * 0x100 + b[3] as int
  }

  lemma FromBigEndianOfBytes(w: Word)
    ensures FromBigEndian(BigEndianBytes(w)) == w
  {
  }

  lemma BytesOfFromBigEndian(b: seq<Byte>)
    requires |b| == 4
    ensures BigEndianBytes(FromBigEndian(b)) == b
  {
  }

  function Reverse4(b: seq<Byte>): (r: seq<Byte>)
    requires |b| == 4
    ensures |r| == 4 && forall i :: 0 <= i < 4 ==> r[i] == b[3 - i]
  {
    [b[3], b[2], b[1], b[0]]
  }

  /** The memory image of a `uint32_t` holding `w` on a `host` machine: what
      copying the word into a byte buffer puts there. */
  function HostLayout(w: Word, host: Endian): (r: seq<Byte>)
    ensures |r| == 4
  {
    match host
    case BigEndian => BigEndianBytes(w)
    case LittleEndian => Reverse4(BigEndianBytes(w))
  }

  /** Two words with the same memory image are the same word. */
  lemma HostLayoutInjective(v: Word, w: Word, host: Endian)
    requires HostLayout(v, host) == HostLayout(w, host)
    ensures v == w
  {
    if host == LittleEndian {
      assert BigEndianBytes(v) == Reverse4(HostLayout(v, host));
    }
    FromBigEndianOfBytes(v);
    FromBigEndianOfBytes(w);
  }

  // ---------------------------------------------------------------------
  // Host <-> network order of a 32-bit word (htonl / ntohl)

  /** The word with the bytes of `w` in the opposite order. */
  function ByteSwap(w: Word): (r: Word)
    ensures BigEndianBytes(r) == Reverse4(BigEndianBytes(w))
  {
    var r := FromBigEndian(Reverse4(BigEndianBytes(w)));
    BytesOfFromBigEndian(Reverse4(BigEndianBytes(w)));
    r
  }

  /** htonl: the word whose memory image on `host` is `w` most significant
      byte first. */
  function HostToNet32(w: Word, host: Endian): (r: Word)
    ensures HostLayout(r, host) == BigEndianBytes(w)
  {
    var r := if host == BigEndian then w else ByteSwap(w);
    assert host == LittleEndian ==> Reverse4(Reverse4(BigEndianBytes(w))) == BigEndianBytes(w);
    r
  }

  /** ntohl: the word whose bytes, most significant first, are the memory
      image of `u` on `host`. */
  function NetToHost32(u: Word, host: Endian): (r: Word)
    ensures BigEndianBytes(r) == HostLayout(u, host)
  {
    if host == BigEndian then u else ByteSwap(u)
  }

  lemma {:induction false} NetToHostOfHostToNet(w: Word, host: Endian)
    ensures NetToHost32(HostToNet32(w, host), host) == w
  {
    FromBigEndianOfBytes(w);
    FromBigEndianOfBytes(NetToHost32(HostToNet32(w, host), host));
  }

  lemma {:induction false} HostToNetOfNetToHost(u: Word, host: Endian)
    ensures HostToNet32(NetToHost32(u, host), host) == u
  {
    HostLayoutInjective(HostToNet32(NetToHost32(u, host), host), u, host);
  }

  // ---------------------------------------------------------------------
  // tc_htonf, tc_ntohf, tc_hton32

  /** tc_htonf: the bit pattern of `f`, put in network order. */
  function FloatToNet(f: Float32, host: Endian): (u: Word)
    ensures HostLayout(u, host) == BigEndianBytes(f.bits)
  {
    HostToNet32(f.bits, host)
  }

  /** tc_ntohf: the float whose bit pattern is `u` taken from network order. */
  function NetToFloat(u: Word, host: Endian): (f: Float32)
    ensures BigEndianBytes(f.bits) == HostLayout(u, host)
  {
    Float32(NetToHost32(u, host))
  }

  /** tc_ntohf(tc_htonf(f)) is `f`, bit for bit: no NaN is canonicalised and
      negative zero stays negative. */
  lemma {:induction false} FloatRoundTrip(f: Float32, host: Endian)
    ensures NetToFloat(FloatToNet(f, host), host) == f
    ensures IsNaN(f) <==> IsNaN(NetToFloat(FloatToNet(f, host), host))
    ensures IsNegativeZero(f) <==> IsNegativeZero(NetToFloat(FloatToNet(f, host), host))
  {
    NetToHostOfHostToNet(f.bits, host);
  }

  /** tc_htonf(tc_ntohf(u)) is `u` for every word. */
  lemma {:induction false} WordRoundTrip(u: Word, host: Endian)
    ensures FloatToNet(NetToFloat(u, host), host) == u
  {
    HostToNetOfNetToHost(u, host);
  }

  /** The two's-complement bit pattern of `v`. */
  function Int32Bits(v: Int32): (w: Word)
    ensures w % TWO_TO_32 == v as int % TWO_TO_32
    ensures Int32OfBits(w) == v
  {
    if v < 0 then v as int + TWO_TO_32 else v as int
  }

  /** The signed value of a two's-complement bit pattern. */
  function Int32OfBits(w: Word): (v: Int32)
    ensures (v < 0) == (w >= TWO_TO_31)
  {
    if w >= TWO_TO_31 then (w - TWO_TO_32) as Int32 else w as Int32
  }

  /** tc_hton32: the two's-complement pattern of `v`, put in network order. */
  function Int32ToNet(v: Int32, host: Endian): (u: Word)
    ensures HostLayout(u, host) == BigEndianBytes(Int32Bits(v))
    ensures HostLayout(u, host)[0] == Int32Bits(v) / 0x100_0000
  {
    HostToNet32(Int32Bits(v), host)
  }

  /** The receiving side of tc_hton32: four bytes, most significant first,
      read as a two's-complement integer. */
  function DecodeInt32(b: seq<Byte>): Int32
    requires |b| == 4
  {
    Int32OfBits(FromBigEndian(b))
  }

  /** Decoding the four bytes tc_hton32 puts on the wire gives back `v`,
      whatever the host byte order. */
  lemma {:induction false} Int32RoundTrip(v: Int32, host: Endian)
    ensures DecodeInt32(HostLayout(Int32ToNet(v, host), host)) == v
  {
    FromBigEndianOfBytes(Int32Bits(v));
  }

  /** Negative one goes out as four 0xFF bytes; the most negative value as
      0x80 followed by three zeros. */
  lemma Int32Examples(host: Endian)
    ensures HostLayout(Int32ToNet(-1, host), host) == [0xFF, 0xFF, 0xFF, 0xFF]
    ensures HostLayout(Int32ToNet(-0x8000_0000, host), host) == [0x80, 0, 0, 0]
    ensures HostLayout(Int32ToNet(3, host), host) == [0, 0, 0, 3]
  {
  }

  /** Negative zero and a quiet NaN with a payload keep their patterns. */
  lemma FloatExamples(host: Endian)
    ensures HostLayout(FloatToNet(Float32(0x8000_0000), host), host) == [0x80, 0, 0, 0]
    ensures HostLayout(FloatToNet(Float32(0x7FC0_1234), host), host) == [0x7F, 0xC0, 0x12, 0x34]
    ensures IsNaN(NetToFloat(FloatToNet(Float32(0x7FC0_1234), host), host))
    ensures NetToFloat(FloatToNet(Float32(0x7FC0_1234), host), host).bits == 0x7FC0_1234
  {
    var nan := Float32(0x7FC0_1234);
    assert BigEndianBytes(nan.bits) == [0x7F, 0xC0, 0x12, 0x34];
    assert IsNaN(nan);
    FloatRoundTrip(nan, host);
  }
}
