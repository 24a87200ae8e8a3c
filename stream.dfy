/** The output stream behind `BinaryWriter`: the bytes written so far. Writing appends. */
module Streams {
  import opened Common

  class ByteStream {
    var written: seq<byte>

    constructor ()
      ensures written == []
    {
      written := [];
    }

    /** `Write(buffer)`: the bytes of `buffer`, in order, at the end of the stream. */
    method Write(buffer: seq<byte>)
      modifies this
      ensures written == old(written) + buffer
    {
      written := written + buffer;
    }
  }
}
