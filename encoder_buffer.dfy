/** Draco's EncoderBuffer: a growing byte string. */
module EncoderBuffers {
  import opened Bytes

  class EncoderBuffer {
    var data: seq<byte>

    constructor ()
      ensures data == []
    {
      data := [];
    }

    /** EncoderBuffer::Encode(const void*, size): appends the bytes. */
    method Encode(bytes: seq<byte>) returns (ok: bool)
      modifies this
      ensures ok && data == old(data) + bytes
    {
      data := data + bytes;
      ok := true;
    }
  }
}
