/**
 * Draco's DecoderBuffer: a byte string and a read cursor.  It is a value here:
 * every operation that moves the cursor returns the buffer with its new
 * cursor, and the decoder that owns the buffer stores it back.
 */
module DecoderBuffers {
  import opened Bytes

  datatype DecoderBuffer = DecoderBuffer(data: seq<byte>, pos: nat) {
    /** remaining_size(): negative once Advance or StartDecodingFrom pass the end. */
    function RemainingSize(): int {
      |data| - pos
    }

    /** decoded_size(). */
    function DecodedSize(): nat {
      pos
    }

    /** data_head(): the bytes not read yet. */
    function Head(): seq<byte>
      requires pos <= |data|
    {
      data[pos..]
    }
  }

  /** DecoderBuffer::Init: decode d from its start. */
  function Init(d: seq<byte>): (b: DecoderBuffer)
    ensures b.data == d && b.pos == 0 && b.RemainingSize() == |d|
  {
    DecoderBuffer(d, 0)
  }

  /** Peek: the next byte without consuming it; fails at the end of the data. */
  method Peek(b: DecoderBuffer) returns (ok: bool, c: byte)
    ensures ok <==> b.pos < |b.data|
    ensures ok ==> c == b.data[b.pos]
  {
    ok := b.pos < |b.data|;
    c := if ok then b.data[b.pos] else 0;
  }

  /** Decode(out, n): n bytes, or a failure that leaves the cursor where it was. */
  method Decode(b: DecoderBuffer, n: nat) returns (ok: bool, out: seq<byte>, b': DecoderBuffer)
    ensures b'.data == b.data
    ensures ok <==> b.pos + n <= |b.data|
    ensures ok ==> out == b.data[b.pos..b.pos + n] && b'.pos == b.pos + n
    ensures !ok ==> b'.pos == b.pos
  {
    ok := b.pos + n <= |b.data|;
    if ok {
      out := b.data[b.pos..b.pos + n];
      b' := b.(pos := b.pos + n);
    } else {
      out := [];
      b' := b;
    }
  }

  /** Decode<uint32_t>: a little-endian word. */
  method DecodeUint32(b: DecoderBuffer) returns (ok: bool, w: uint32, b': DecoderBuffer)
    ensures b'.data == b.data
    ensures ok <==> b.pos + 4 <= |b.data|
    ensures ok ==> w == FromLittleEndian32(b.data[b.pos..b.pos + 4]) && b'.pos == b.pos + 4
    ensures !ok ==> b'.pos == b.pos
  {
    var bytes;
    ok, bytes, b' := Decode(b, 4);
    w := if ok then FromLittleEndian32(bytes) else 0;
  }

  /** Advance(n): moves the cursor without checking it against the end. */
  function Advance(b: DecoderBuffer, n: nat): (b': DecoderBuffer)
    ensures b'.data == b.data && b'.pos == b.pos + n
  {
    b.(pos := b.pos + n)
  }

  /** StartDecodingFrom(offset): sets the cursor without checking it against the end. */
  function StartDecodingFrom(b: DecoderBuffer, offset: nat): (b': DecoderBuffer)
    ensures b'.data == b.data && b'.pos == offset
  {
    b.(pos := offset)
  }
}
