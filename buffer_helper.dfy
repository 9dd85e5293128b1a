/**
 * The accumulating byte buffer the encoder writes into. Its implementation
 * (src/utils/buffer-helper.ts) is not part of this model; it is modelled by
 * what the encoder uses of it: appending a chunk and reading the whole.
 */
module Buffers {
  import opened EscPos

  class BufferHelper {
    var bytes: seq<byte>

    constructor ()
      ensures bytes == []
    {
      bytes := [];
    }

    /** `concat`: append `chunk` after what is already there. */
    method Concat(chunk: seq<byte>)
      modifies this
      ensures bytes == old(bytes) + chunk
    {
      bytes := bytes + chunk;
    }

    /** `toBuffer`: the bytes appended so far, in order. */
    method ToBuffer() returns (r: seq<byte>)
      ensures r == bytes
    {
      r := bytes;
    }
  }

  /** Appending two chunks one after the other appends their concatenation. */
  lemma AppendAssoc<T>(a: seq<T>, b: seq<T>, c: seq<T>)
    ensures a + b + c == a + (b + c)
  {
  }
}
