/** Bytes, 32-bit words and single-precision floats kept as bit patterns. */
module Bytes {

  newtype byte = x: int | 0 <= x < 0x100
  newtype uint32 = x: int | 0 <= x < 0x1_0000_0000

  /** std::numeric_limits<uint32_t>::max() */
  const UINT32_MAX: int := 0xFFFF_FFFF

  /** A C++ float, kept as its IEEE 754 binary32 bit pattern; no arithmetic is done on it. */
  datatype Float32 = Float32(bits: uint32)

  /** The 8-bit biased exponent field (bits 23 to 30) of a binary32 value. */
  function ExponentField(f: Float32): (e: int)
    ensures 0 <= e < 0x100
  {
    (f.bits as int / 0x80_0000) % 0x100
  }

  /** std::isfinite: IEEE 754-2008 section 3.4 encodes infinities and NaNs with an all-ones exponent. */
  predicate IsFinite(f: Float32) {
    ExponentField(f) != 0xFF
  }

  /** The four bytes of a word, least significant first. */
  function LittleEndian32(w: uint32): (r: seq<byte>)
    ensures |r| == 4
  {
    var x0 := w as int;
    var x1 := x0 / 0x100;
    var x2 := x1 / 0x100;
    [(x0 % 0x100) as byte, (x1 % 0x100) as byte, (x2 % 0x100) as byte, (x2 / 0x100) as byte]
  }

  /** The word whose little-endian encoding is b. */
  function FromLittleEndian32(b: seq<byte>): (w: uint32)
    requires |b| == 4
  {
    (b[0] as int + 0x100 * (b[1] as int + 0x100 * (b[2] as int + 0x100 * b[3] as int))) as uint32
  }

  lemma LittleEndian32RoundTrip(w: uint32)
    ensures FromLittleEndian32(LittleEndian32(w)) == w
  {
    var x0 := w as int;
    var x1 := x0 / 0x100;
    var x2 := x1 / 0x100;
    assert x0 == x0 % 0x100 + 0x100 * x1;
    assert x1 == x1 % 0x100 + 0x100 * x2;
    assert x2 == x2 % 0x100 + 0x100 * (x2 / 0x100);
  }

  /** How a float is written: its bit pattern, little endian. */
  function FloatBytes(f: Float32): (r: seq<byte>)
    ensures |r| == 4
  {
    LittleEndian32(f.bits)
  }

  /** The float read back from four little-endian bytes. */
  function FloatFromBytes(b: seq<byte>): Float32
    requires |b| == 4
  {
    Float32(FromLittleEndian32(b))
  }

  lemma FloatBytesRoundTrip(f: Float32)
    ensures FloatFromBytes(FloatBytes(f)) == f
  {
    LittleEndian32RoundTrip(f.bits);
  }

  /** The concatenated encodings of a list of floats, in order. */
  function FloatsBytes(fs: seq<Float32>): (r: seq<byte>)
    ensures |r| == 4 * |fs|
  {
    if fs == [] then [] else FloatsBytes(fs[..|fs| - 1]) + FloatBytes(fs[|fs| - 1])
  }

  /** Encoding a list piecewise gives the encoding of the whole list. */
  lemma {:induction false} FloatsBytesAppend(a: seq<Float32>, b: seq<Float32>)
    ensures FloatsBytes(a + b) == FloatsBytes(a) + FloatsBytes(b)
    decreases |b|
  {
    if b != [] {
      var b' := b[..|b| - 1];
      assert (a + b)[..|a + b| - 1] == a + b';
      FloatsBytesAppend(a, b');
    } else {
      assert a + b == a;
    }
  }
}
