/** `PNGHeader`: the `IHDR` chunk (section 4.1.1 of RFC 2083). It is a `PNGChunk` named `IHDR`
    over a 13-byte buffer; `CopyTo` lays out the width, the height, the bit depth and the
    colour type in that buffer (compression, filter and interlace method stay 0) and then
    serialises the chunk. The base class becomes the `chunk` field. */
module Headers {
  import opened Common
  import Memory
  import opened Streams
  import opened Chunks

  /** The 13 payload bytes for a scale, a depth and a colour mode. */
  function HeaderPayload(scale: (u32, u32), depth: byte, colorMode: byte): (p: seq<byte>)
    ensures |p| == 13
  {
    BigEndian32(scale.0) + BigEndian32(scale.1) + [depth, colorMode, 0, 0, 0]
  }

  /** Each field of the payload reads back at its offset: the width at 0, the height at 4, the
      depth at 8 and the colour mode at 9; bytes 10 to 12 are zero. */
  lemma HeaderPayloadFields(scale: (u32, u32), depth: byte, colorMode: byte)
    ensures var p := HeaderPayload(scale, depth, colorMode);
      ReadBigEndian32(p[0..4]) == scale.0 && ReadBigEndian32(p[4..8]) == scale.1
      && p[8] == depth && p[9] == colorMode && p[10] == 0 && p[11] == 0 && p[12] == 0
  {
    var p := HeaderPayload(scale, depth, colorMode);
    assert p[0..4] == BigEndian32(scale.0);
    assert p[4..8] == BigEndian32(scale.1);
    BigEndian32RoundTrip(scale.0);
    BigEndian32RoundTrip(scale.1);
  }

  class PNGHeader {
    const chunk: PNGChunk
    var scale: (u32, u32)
    var depth: byte
    var colorMode: byte

    /** What the constructor sets up and nothing later reassigns: the name and a 13-byte
        allocation. */
    ghost predicate Valid()
      reads this, chunk
    {
      chunk.name == "IHDR" && chunk.buffer.ptr != null
      && chunk.buffer.length == 13 && chunk.buffer.ptr.Length == 13
    }

    /** `new PNGHeader()`: an `IHDR` chunk over `UMem.Create(13)`, with every field 0. */
    constructor ()
      ensures Valid() && fresh(chunk) && fresh(chunk.buffer.ptr)
      ensures scale == (0, 0) && depth == 0 && colorMode == 0
    {
      var m := Memory.Create<byte>(13);
      chunk := new PNGChunk.Adopt("IHDR", m);
      scale, depth, colorMode := (0, 0), 0, 0;
    }

    /** `CopyTo(destination)`: a zeroed stack buffer as long as the chunk's buffer receives the
        big-endian width and height and the two one-byte fields, is copied into the chunk's
        buffer, and the chunk is written. */
    method CopyTo(destination: ByteStream)
      requires Valid()
      modifies chunk.buffer.ptr, destination
      ensures Valid()
      ensures Memory.Contents(chunk.buffer) == HeaderPayload(scale, depth, colorMode)
      ensures destination.written
        == old(destination.written) + Frame(NameField("IHDR"), HeaderPayload(scale, depth, colorMode))
    {
      var stackAlloc: seq<byte> := seq(chunk.buffer.length, _ => 0);
      var x := BigEndian32(scale.0);
      var y := BigEndian32(scale.1);
      stackAlloc := x + stackAlloc[4..];
      assert stackAlloc[8..] == [0, 0, 0, 0, 0];
      stackAlloc := stackAlloc[..4] + y + stackAlloc[8..];
      assert stackAlloc[..8] == x + y && stackAlloc[10..] == [0, 0, 0];
      stackAlloc := stackAlloc[..8] + [depth, colorMode] + stackAlloc[10..];
      ghost var payload := x + y + [depth, colorMode, 0, 0, 0];
      assert stackAlloc == payload;
      var target := chunk.buffer.ptr;
      forall i | 0 <= i < 13 {
        target[i] := stackAlloc[i];
      }
      assert target[..13] == payload;
      chunk.CopyTo(destination);
    }
  }
}
