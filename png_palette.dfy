/** `PNGPalette`: the `PLTE` chunk (section 4.1.2 of RFC 2083). It owns a `Palette` and a
    buffer of three bytes per entry; `CopyTo` writes each entry's red, green and blue into the
    buffer and then serialises the chunk. The base class becomes the `chunk` field. */
module PNGPalettes {
  import opened Common
  import opened Color
  import Memory
  import opened Streams
  import opened Chunks
  import opened Palettes

  /** The payload for a table of colours: red, green and blue of each entry in order. */
  function PalettePayload(colors: seq<RGBA>): (b: seq<byte>)
    ensures |b| == 3 * |colors| && |b| % 3 == 0
  {
    if colors == [] then []
    else
      var last := colors[|colors| - 1];
      PalettePayload(colors[..|colors| - 1]) + [last.r, last.g, last.b]
  }

  /** Bytes `3i`, `3i + 1` and `3i + 2` of the payload are the channels of entry `i`. */
  lemma {:induction false} PayloadAt(colors: seq<RGBA>, i: nat)
    requires i < |colors|
    ensures var b := PalettePayload(colors);
      b[3 * i] == colors[i].r && b[3 * i + 1] == colors[i].g && b[3 * i + 2] == colors[i].b
  {
    var n := |colors| - 1;
    if i < n {
      PayloadAt(colors[..n], i);
      assert colors[..n][i] == colors[i];
    }
  }

  /** The reference reading of a `PLTE` payload: every three bytes one opaque colour. */
  function ReadPalette(b: seq<byte>): (colors: seq<RGBA>)
    requires |b| % 3 == 0
    ensures |colors| == |b| / 3
  {
    if b == [] then []
    else ReadPalette(b[..|b| - 3]) + [RGBA(b[|b| - 3], b[|b| - 2], b[|b| - 1], 255)]
  }

  /** A colour with its alpha replaced by 255: what survives the `PLTE` chunk. */
  function Opaque(p: RGBA): RGBA
  {
    RGBA(p.r, p.g, p.b, 255)
  }

  /** The written payload reads back as the palette with every alpha 255. */
  lemma {:induction false} PaletteRoundTrip(colors: seq<RGBA>)
    ensures |PalettePayload(colors)| % 3 == 0
    ensures var read := ReadPalette(PalettePayload(colors));
      |read| == |colors| && forall i :: 0 <= i < |colors| ==> read[i] == Opaque(colors[i])
  {
    if colors != [] {
      var n := |colors| - 1;
      PaletteRoundTrip(colors[..n]);
      var b := PalettePayload(colors);
      assert b[..|b| - 3] == PalettePayload(colors[..n]);
    }
  }

  /** One more entry appends its three channels. */
  lemma PayloadExtend(colors: seq<RGBA>, i: nat)
    requires i < |colors|
    ensures PalettePayload(colors[..i + 1]) == PalettePayload(colors[..i]) + [colors[i].r, colors[i].g, colors[i].b]
  {
    assert colors[..i + 1][..i] == colors[..i];
  }

  /** The loop of `CopyTo`: bytes `3i .. 3i + 3` of the buffer receive entry `i`'s red,
      green and blue. */
  method WriteEntries(buffer: array<byte>, palette: Palette)
    requires Palettes.Valid(palette) && 3 * palette.count <= buffer.Length
    modifies buffer
    ensures buffer[..3 * palette.count] == PalettePayload(palette.colors[..])
  {
    ghost var colors := palette.colors[..];
    var i := 0;
    while i < palette.count
      invariant 0 <= i <= palette.count
      invariant buffer[..3 * i] == PalettePayload(colors[..i])
    {
      ghost var before := buffer[..3 * i];
      var color := palette.colors[i];
      buffer[3 * i] := color.r;
      buffer[3 * i + 1] := color.g;
      buffer[3 * i + 2] := color.b;
      assert buffer[..3 * i + 3] == before + [color.r, color.g, color.b];
      PayloadExtend(colors, i);
      i := i + 1;
    }
    assert colors[..i] == colors;
  }

  class PNGPalette {
    const chunk: PNGChunk
    const palette: Palette

    /** The name and a buffer of three bytes for every entry of the palette. */
    ghost predicate Valid()
      reads this, chunk
    {
      chunk.name == "PLTE" && Palettes.Valid(palette) && Memory.Valid(chunk.buffer)
      && chunk.buffer.length == 3 * palette.count && chunk.buffer.ptr != null
      && 2 <= palette.count <= 0x2AAA_AAAA
    }

    /** `new PNGPalette(capacity)`: the `Palette` rounding of `(i32)capacity` and an uninitialised
        buffer of three bytes per entry. A capacity of `2^31` or more is negative once cast,
        which the rounding turns into 2 entries. */
    constructor (capacity: u32)
      requires capacity <= 0x2AAA_AAAA || capacity >= 0x8000_0000
      ensures Valid() && fresh(chunk) && fresh(palette.colors) && fresh(chunk.buffer.ptr)
      ensures capacity >= 0x8000_0000 ==> palette.count == 2
      ensures capacity < 2 ==> palette.count == 2
      ensures 2 <= capacity < 0x8000_0000 && IsPow2(capacity) ==> palette.count == capacity
      ensures capacity >= 2 && !IsPow2(capacity) && capacity < 512 ==>
        IsPow2(palette.count) && capacity < palette.count < 2 * capacity
      ensures 512 < capacity < 0x8000_0000 && !IsPow2(capacity) ==> palette.count == capacity
      ensures forall i :: 0 <= i < palette.count ==> palette.colors[i] == Zero
    {
      var p := New(WrapI32(capacity));
      if capacity == 512 {
        assert Pow2(9) == 512;
        Pow2IsPow2(9);
      }
      assert p.count <= 0x2AAA_AAAA;
      var m := Memory.Create<byte>(3 * p.count);
      palette := p;
      chunk := new PNGChunk.Adopt("PLTE", m);
    }

    /** `CopyTo(destination)`: the buffer becomes the palette's payload and the chunk is
        written with it. */
    method CopyTo(destination: ByteStream)
      requires Valid()
      modifies chunk.buffer.ptr, destination
      ensures Valid()
      ensures Memory.Contents(chunk.buffer) == PalettePayload(palette.colors[..])
      ensures destination.written
        == old(destination.written) + Frame(NameField(chunk.name), PalettePayload(palette.colors[..]))
    {
      WriteEntries(chunk.buffer.ptr, palette);
      ghost var payload := Memory.Contents(chunk.buffer);
      chunk.CopyTo(destination);
      assert destination.written == old(destination.written) + Frame(NameField(chunk.name), payload);
    }
  }
}
