/** `PNGWriter`: writes a PNG file. The constructor writes the signature; the header chunk is
    written once, in front of the first chunk or the image data, and the end chunk on
    `Dispose`. The image data is the filtered scanline buffer, every row with the None filter
    for an indexed image and the Up filter otherwise; an indexed image first has each
    pixel's red channel replaced by the index of the nearest palette entry. The `BinaryWriter`
    is a `ByteStream`, and zlib compression is a function given by the caller. */
module PNGWriters {
  import opened Common
  import opened Color
  import Memory
  import opened Streams
  import opened Chunks
  import opened Headers
  import opened PNGFilters
  import opened Scanlines
  import opened Images
  import opened ColorModes
  import Palettes
  import PNGPalettes
  import TextChunks
  import Utf8
  import PNGReaders
  import Grid

  /** The square of `EuclidianDistance` over red, green and blue. The `f32` square root of
      these integer sums is strictly increasing on them, so comparing squares compares the
      distances the source compares. */
  function Distance(p: RGBA, q: RGBA): nat
  {
    (p.r - q.r) * (p.r - q.r) + (p.g - q.g) * (p.g - q.g) + (p.b - q.b) * (p.b - q.b)
  }

  /** The entry the search settles on among the first `n`: a later entry replaces the
      current one only when it is strictly nearer. */
  function Nearest(colors: seq<RGBA>, p: RGBA, n: nat): (j: nat)
    requires 1 <= n <= |colors|
    ensures j < n
  {
    if n == 1 then 0
    else
      var j := Nearest(colors, p, n - 1);
      if Distance(p, colors[n - 1]) < Distance(p, colors[j]) then n - 1 else j
  }

  /** The entry found is at minimal distance among the first `n`, and every entry before it
      is strictly farther: it is the lowest index of minimal distance. */
  lemma {:induction false} NearestIsFirstMinimum(colors: seq<RGBA>, p: RGBA, n: nat)
    requires 1 <= n <= |colors|
    ensures var j := Nearest(colors, p, n);
      (forall i :: 0 <= i < n ==> Distance(p, colors[j]) <= Distance(p, colors[i]))
      && (forall i :: 0 <= i < j ==> Distance(p, colors[i]) > Distance(p, colors[j]))
  {
    if n > 1 {
      NearestIsFirstMinimum(colors, p, n - 1);
    }
  }

  /** Those two properties single out one index. */
  lemma NearestUnique(colors: seq<RGBA>, p: RGBA, n: nat, k: nat)
    requires 1 <= n <= |colors| && k < n
    requires forall i :: 0 <= i < n ==> Distance(p, colors[k]) <= Distance(p, colors[i])
    requires forall i :: 0 <= i < k ==> Distance(p, colors[i]) > Distance(p, colors[k])
    ensures k == Nearest(colors, p, n)
  {
    NearestIsFirstMinimum(colors, p, n);
  }

  /** What the remap does to one pixel: red becomes the `(u8)` index of the nearest entry;
      green, blue and alpha stay. */
  function Indexed(colors: seq<RGBA>): (f: RGBA -> RGBA)
    requires |colors| >= 1
    ensures forall p :: f(p) == p.(r := Wrap8(Nearest(colors, p, |colors|)))
  {
    (p: RGBA) => p.(r := Wrap8(Nearest(colors, p, |colors|)))
  }

  /** The inner loop of `ConvertToIndexed`, with its `u16` counter. */
  method NearestIndex(px: RGBA, palette: Palettes.Palette) returns (closest: nat)
    requires Palettes.Valid(palette) && 1 <= palette.count <= 0xFFFF
    ensures closest == Nearest(palette.colors[..], px, palette.count)
  {
    var distance := Distance(px, palette.colors[0]);
    closest := 0;
    var i: u16 := 1;
    while i < palette.count
      invariant 1 <= i <= palette.count
      invariant closest == Nearest(palette.colors[..], px, i) && distance == Distance(px, palette.colors[closest])
    {
      var currentDistance := Distance(px, palette.colors[i]);
      if currentDistance < distance {
        distance := currentDistance;
        closest := i;
      }
      i := i + 1;
    }
  }

  /** One step of the pixel loops of `ConvertToIndexed`: pixel `k` of the row-major order is
      remapped. */
  method IndexPixel(from: Image, palette: Palettes.Palette, x: u32, y: u32, ghost colors: seq<RGBA>,
                    ghost orig: seq<seq<RGBA>>, ghost k: nat)
    requires from.Valid() && Palettes.Valid(palette) && 1 <= palette.count <= 0xFFFF
    requires palette.colors != from.buffer.buffer.ptr && colors == palette.colors[..]
    requires var (w, h) := from.Scale();
      x < w && y < h && k == y as nat * w as nat + x as nat && Grid.IsGrid(orig, w, h)
      && from.Pixels() == Grid.MapCells(orig, Indexed(colors), w, h, k)
    modifies from.buffer.buffer.ptr
    ensures from.Valid() && from.Scale() == old(from.Scale())
    ensures var (w, h) := from.Scale();
      from.Pixels() == Grid.MapCells(orig, Indexed(colors), w, h, k + 1)
  {
    Grid.MapStep(orig, Indexed(colors), from.Scale().0, from.Scale().1, x, y, k);
    var px := from.Get(x, y).value;
    var closest := NearestIndex(px, palette);
    SetMapped(from, x, y, px.(r := Wrap8(closest)), Indexed(colors), orig, k);
  }

  /** The pixel loops of `ConvertToIndexed` over a palette. */
  method IndexAll(from: Image, palette: Palettes.Palette, ghost colors: seq<RGBA>)
    requires from.Valid() && Palettes.Valid(palette) && 1 <= palette.count <= 0xFFFF
    requires palette.colors != from.buffer.buffer.ptr && colors == palette.colors[..]
    modifies from.buffer.buffer.ptr
    ensures from.Valid() && from.Scale() == old(from.Scale())
    ensures var (w, h) := from.Scale();
      from.Pixels() == Grid.Map(old(from.Pixels()), Indexed(colors), w, h)
  {
    ghost var (w, h) := from.Scale();
    ghost var orig := from.Pixels();
    Grid.MapNone(orig, Indexed(colors), w, h);
    ghost var k := 0;
    var y: u32 := 0;
    while y < from.Scale().1
      invariant from.Valid() && from.Scale() == (w, h) && y <= h && k == y * w
      invariant from.Pixels() == Grid.MapCells(orig, Indexed(colors), w, h, k)
    {
      var x: u32 := 0;
      while x < from.Scale().0
        invariant from.Valid() && from.Scale() == (w, h) && x <= w && k == y * w + x
        invariant from.Pixels() == Grid.MapCells(orig, Indexed(colors), w, h, k)
      {
        IndexPixel(from, palette, x, y, colors, orig, k);
        x := x + 1;
        k := k + 1;
      }
      assert (y + 1) * w == y * w + w;
      y := y + 1;
    }
    assert y as nat == h;
    assert k == h * w;
    Grid.MapAll(orig, Indexed(colors), w, h);
  }

  /** The filter type of every row of the filtered buffer: None for an indexed image, Up
      otherwise. */
  function FilterTypes(colorMode: byte, h: nat): (t: seq<byte>)
    ensures |t| == h
  {
    seq(h, _ => if colorMode == INDEXED then NONE else UP)
  }

  /** The first `n` bytes of the buffer are those of `e`. */
  ghost predicate Written(a: array<byte>, e: seq<byte>, n: nat)
    reads a
  {
    n <= a.Length && n <= |e| && a[..n] == e[..n]
  }

  /** The serialised header, when it is still to be written. */
  function HeaderFrame(header: PNGHeader?): seq<byte>
    reads header
  {
    if header == null then [] else Frame(NameField("IHDR"), HeaderPayload(header.scale, header.depth, header.colorMode))
  }

  /** `CopyTo` into the span of `|s|` bytes at `i`: those bytes become `s`. */
  method Place(a: array<byte>, i: nat, s: seq<byte>)
    requires i + |s| <= a.Length
    modifies a
    ensures a[..i + |s|] == old(a[..i]) + s
  {
    forall c | 0 <= c < |s| {
      a[i + c] := s[c];
    }
  }

  /** The position of pixel `(x, y)` in the filtered buffer: `i` is the offset of its bytes. */
  ghost predicate Position(w: nat, h: nat, ch: nat, x: nat, y: nat, i: nat)
  {
    x <= w && y < h && i == y * LineLength(w, ch) + 1 + x * ch
  }

  /** Writing the next bytes of `e` at the end of a written prefix extends the prefix. */
  method Extend(a: array<byte>, ghost e: seq<byte>, i: nat, s: seq<byte>)
    requires a.Length == |e| && Written(a, e, i) && i + |s| <= |e| && e[i .. i + |s|] == s
    modifies a
    ensures Written(a, e, i + |s|)
  {
    Place(a, i, s);
    assert e[..i + |s|] == e[..i] + e[i .. i + |s|];
  }

  lemma OneByte(e: seq<byte>, i: nat)
    requires i < |e|
    ensures e[i .. i + 1] == [e[i]]
  {
  }

  /** Pixel `(x, y)` as the inner loop of `CreateFilteredBuffer` filters it: Up-filtered
      against the pixel above when its row's type is Up and it has a row above, unchanged
      otherwise. */
  method FilteredPixel(encoder: PNGFilter, from: Image, ghost types: seq<byte>, ch: nat, t: byte, x: u32, y: u32)
    returns (current: RGBA)
    requires !encoder.isDecode && from.Valid() && 1 <= ch <= 4 && (t == NONE || t == UP)
    requires var (w, h) := from.Scale(); x < w && y < h && |types| == h && types[y] == t
    ensures var (w, h) := from.Scale(); current == EncodedPixel(from.Pixels(), types, w, h, ch, x as nat, y as nat)
  {
    current := from.Get(x, y).value;
    if t == UP && y > 0 {
      var upper := from.Get(x, y - 1).value;
      current := encoder.PrimitiveFilter(ch as byte, upper, current);
    } else {
      ZeroPredictorIdentity(false, ch, current);
    }
  }

  /** One pass of the inner loop of `CreateFilteredBuffer`: the filtered pixel `(x, y)` is
      written at its offset. */
  method FilterPixel(encoder: PNGFilter, from: Image, a: array<byte>, ghost e: seq<byte>, ghost types: seq<byte>,
                     ch: nat, t: byte, x: u32, y: u32, i: nat)
    requires !encoder.isDecode && from.Valid() && 1 <= ch <= 4 && (t == NONE || t == UP)
    requires var (w, h) := from.Scale();
      x < w && Position(w, h, ch, x, y, i) && |types| == h && types[y] == t
      && e == Encoded(from.Pixels(), types, w, h, ch) && a.Length == |e| && Written(a, e, i)
    modifies a
    ensures Written(a, e, i + ch)
  {
    var current := FilteredPixel(encoder, from, types, ch, t, x, y);
    PixelAt(from.Pixels(), types, from.Scale().0, from.Scale().1, ch, x as nat, y as nat);
    Extend(a, e, i, Bytes(current, ch));
  }

  /** One pass of the outer loop of `CreateFilteredBuffer`: row `y`'s filter byte and then
      its pixels. */
  method FilterRow(encoder: PNGFilter, from: Image, a: array<byte>, ghost e: seq<byte>, ghost types: seq<byte>,
                   ch: nat, colorMode: byte, y: u32, nextFilterByte: nat)
    requires !encoder.isDecode && from.Valid() && 1 <= ch <= 4
    requires var (w, h) := from.Scale();
      y < h && nextFilterByte == y as nat * LineLength(w, ch) && types == FilterTypes(colorMode, h)
      && e == Encoded(from.Pixels(), types, w, h, ch) && a.Length == |e| && Written(a, e, nextFilterByte)
    modifies a
    ensures Written(a, e, nextFilterByte + LineLength(from.Scale().0, ch))
  {
    FilterTypeAt(from.Pixels(), types, from.Scale().0, from.Scale().1, ch, y);
    var t: byte := if colorMode == INDEXED then NONE else UP;
    OneByte(e, nextFilterByte);
    Extend(a, e, nextFilterByte, [t]);
    // the switch reads back the filter byte just written
    FilterPixels(encoder, from, a, e, types, ch, t, y, nextFilterByte);
  }

  /** The row loop of `CreateFilteredBuffer`, filling the allocated buffer. */
  method FilterRows(encoder: PNGFilter, from: Image, a: array<byte>, ghost e: seq<byte>, ghost types: seq<byte>,
                    ch: nat, colorMode: byte)
    requires !encoder.isDecode && from.Valid() && 1 <= ch <= 4
    requires var (w, h) := from.Scale();
      types == FilterTypes(colorMode, h) && e == Encoded(from.Pixels(), types, w, h, ch) && a.Length == |e|
    modifies a
    ensures a[..] == e
  {
    var w, h := from.Scale().0, from.Scale().1;
    var y: u32 := 0;
    while y < h
      invariant y <= h && Written(a, e, y * LineLength(w, ch))
    {
      var nextFilterByte := (w * ch + 1) * y;
      RowStart(w, ch, y);
      FilterRow(encoder, from, a, e, types, ch, colorMode, y, nextFilterByte);
      assert (y + 1) * LineLength(w, ch) == y * LineLength(w, ch) + LineLength(w, ch);
      y := y + 1;
    }
    assert a[..a.Length] == e;
  }

  /** The inner loop of `CreateFilteredBuffer` over the pixels of row `y`, whose filter type
      is `t`. */
  method FilterPixels(encoder: PNGFilter, from: Image, a: array<byte>, ghost e: seq<byte>, ghost types: seq<byte>,
                      ch: nat, t: byte, y: u32, nextFilterByte: nat)
    requires !encoder.isDecode && from.Valid() && 1 <= ch <= 4 && (t == NONE || t == UP)
    requires var (w, h) := from.Scale();
      y < h && nextFilterByte == y as nat * LineLength(w, ch) && |types| == h && types[y] == t
      && e == Encoded(from.Pixels(), types, w, h, ch) && a.Length == |e| && Written(a, e, nextFilterByte + 1)
    modifies a
    ensures Written(a, e, nextFilterByte + LineLength(from.Scale().0, ch))
  {
    ghost var h := from.Scale().1;
    var w := from.Scale().0;
    var x: u32 := 0;
    ghost var i: nat := nextFilterByte + 1;
    while x < w
      invariant Position(w, h, ch, x, y, i) && Written(a, e, i)
    {
      var offset := nextFilterByte + 1 + x * ch;
      FilterPixel(encoder, from, a, e, types, ch, t, x, y, offset);
      NextPixel(x, y, w, ch);
      x := x + 1;
      i := i + ch;
    }
    ScanColumn(w, y, w, ch);
  }

  /** The allocation of `CreateFilteredBuffer` is the buffer's length. */
  lemma BufferLength(w: nat, h: nat, ch: nat)
    ensures w * h * ch + h == h * LineLength(w, ch)
  {
    calc {
      h * LineLength(w, ch);
      h * (w * ch) + h;
      { assert h * (w * ch) == w * h * ch; }
      w * h * ch + h;
    }
  }

  /** `nextFilterByte` starts row `y`. */
  lemma RowStart(w: nat, ch: nat, y: nat)
    ensures (w * ch + 1) * y == y * LineLength(w, ch)
  {
  }

  /** Appending keeps the signature at the front. */
  lemma SignatureKept(s: seq<byte>, t: seq<byte>)
    requires |s| >= 8 && s[..8] == Signature
    ensures |s + t| >= 8 && (s + t)[..8] == Signature
  {
    assert (s + t)[..8] == s[..8];
  }

  class PNGWriter {
    const writer: ByteStream
    const encoder: PNGFilter
    var header: PNGHeader?
    var palette: PNGPalettes.PNGPalette?

    /** The stream starts with the signature, and while the header is pending nothing else
        has been written. */
    ghost predicate Valid()
      reads this, writer, encoder, header, if header == null then {} else {header.chunk}
    {
      !encoder.isDecode && |writer.written| >= 8 && writer.written[..8] == Signature
      && (header != null ==> header.Valid() && writer.written == Signature)
    }

    /** `new PNGWriter(path)`: a new stream holding the signature, an encoding filter, a new
        header and no palette. */
    constructor ()
      ensures Valid() && fresh(writer) && fresh(header) && fresh(header.chunk) && fresh(header.chunk.buffer.ptr)
      ensures writer.written == Signature && palette == null
      ensures header.scale == (0, 0) && header.depth == 0 && header.colorMode == 0
    {
      var w := new ByteStream();
      w.Write(Signature);
      writer := w;
      encoder := new PNGFilter(false);
      header := new PNGHeader();
      palette := null;
    }

    /** `WriteHeaderEntry(entry, value)`: sets the named header field; `Depth` and
        `ColorMode` take the value's low byte. An unknown entry throws `ArgumentException`,
        and a known one once the header is written dereferences null. */
    method WriteHeaderEntry(entry: byte, value: u32) returns (o: Outcome)
      modifies header
      ensures entry > PNGReaders.DEPTH ==> o == Fail(ArgumentError)
      ensures entry <= PNGReaders.DEPTH && header == null ==> o == Fail(NullReference)
      ensures o.Fail? ==> header == null || unchanged(header)
      ensures o.Pass? <==> entry <= PNGReaders.DEPTH && header != null
      ensures o.Pass? && entry == PNGReaders.SCALE_X ==> header.scale == (value, old(header.scale.1))
      ensures o.Pass? && entry == PNGReaders.SCALE_Y ==> header.scale == (old(header.scale.0), value)
      ensures o.Pass? && entry == PNGReaders.DEPTH ==> header.depth == Wrap8(value)
      ensures o.Pass? && entry == PNGReaders.COLOR_MODE ==> header.colorMode == Wrap8(value)
      ensures o.Pass? && entry != PNGReaders.SCALE_X && entry != PNGReaders.SCALE_Y ==> header.scale == old(header.scale)
      ensures o.Pass? && entry != PNGReaders.DEPTH ==> header.depth == old(header.depth)
      ensures o.Pass? && entry != PNGReaders.COLOR_MODE ==> header.colorMode == old(header.colorMode)
    {
      if entry > PNGReaders.DEPTH {
        return Fail(ArgumentError);
      }
      if header == null {
        return Fail(NullReference);
      }
      if entry == PNGReaders.SCALE_X {
        header.scale := (value, header.scale.1);
      } else if entry == PNGReaders.SCALE_Y {
        header.scale := (header.scale.0, value);
      } else if entry == PNGReaders.DEPTH {
        header.depth := Wrap8(value);
      } else {
        header.colorMode := Wrap8(value);
      }
      o := Pass;
    }

    /** The header-once block of `WriteBuffer` and `WriteChunk`: a pending header is written,
        disposed and dropped. */
    method FlushHeader()
      requires Valid()
      modifies this`header, writer, if header == null then {} else {header.chunk, header.chunk.buffer.ptr}
      ensures Valid() && header == null && palette == old(palette)
      ensures writer.written == old(writer.written) + old(HeaderFrame(header))
    {
      if header != null {
        SignatureKept(writer.written, HeaderFrame(header));
        header.CopyTo(writer);
        header.chunk.Dispose();
        header := null;
      }
    }

    /** `WriteChunk(chunk)` for a chunk without its own serialisation: the pending header,
        then the chunk. */
    method WriteChunk(chunk: PNGChunk)
      requires Valid() && Memory.Valid(chunk.buffer) && chunk.buffer.length < 0x8000_0000
      requires header != null ==> chunk != header.chunk && chunk.buffer.ptr != header.chunk.buffer.ptr
      modifies this`header, writer, if header == null then {} else {header.chunk, header.chunk.buffer.ptr}
      ensures Valid() && header == null && palette == old(palette)
      ensures writer.written == old(writer.written) + old(HeaderFrame(header))
        + Frame(NameField(chunk.name), Memory.Contents(chunk.buffer))
    {
      ghost var data := Memory.Contents(chunk.buffer);
      ghost var written := writer.written + HeaderFrame(header);
      FlushHeader();
      assert Memory.Contents(chunk.buffer) == data && writer.written == written;
      chunk.CopyTo(writer);
      SignatureKept(written, Frame(NameField(chunk.name), data));
    }

    /** `WriteChunk(palette)`: the pending header, then the `PLTE` chunk; the palette becomes
        the one `ConvertToIndexed` maps to. */
    method WritePalette(p: PNGPalettes.PNGPalette)
      requires Valid() && p.Valid()
      requires header != null ==> p.chunk != header.chunk && p.chunk.buffer.ptr != header.chunk.buffer.ptr
      modifies this`header, this`palette, writer, p.chunk.buffer.ptr
      modifies if header == null then {} else {header.chunk, header.chunk.buffer.ptr}
      ensures Valid() && header == null && palette == p && p.Valid()
      ensures writer.written == old(writer.written) + old(HeaderFrame(header))
        + Frame(NameField("PLTE"), PNGPalettes.PalettePayload(p.palette.colors[..]))
    {
      FlushHeader();
      palette := p;
      AppendPalette(p);
    }

    /** The palette chunk's own serialisation behind a written header. */
    method AppendPalette(p: PNGPalettes.PNGPalette)
      requires Valid() && header == null && p.Valid()
      modifies writer, p.chunk.buffer.ptr
      ensures Valid() && p.Valid()
      ensures writer.written == old(writer.written) + Frame(NameField("PLTE"), PNGPalettes.PalettePayload(p.palette.colors[..]))
    {
      ghost var before := writer.written;
      p.CopyTo(writer);
      SignatureKept(before, Frame(NameField("PLTE"), PNGPalettes.PalettePayload(p.palette.colors[..])));
    }

    /** `WriteChunk(text)`: the pending header, then the `iTXt` chunk, whose serialisation
        throws for a text of more than 4096 bytes. */
    method WriteText(t: TextChunks.TextChunk) returns (o: Outcome)
      requires Valid() && t.Valid()
      requires header != null ==> t.chunk != header.chunk
      modifies this`header, writer, t.chunk
      modifies if header == null then {} else {header.chunk, header.chunk.buffer.ptr}
      ensures Valid() && header == null && palette == old(palette)
      ensures o.Fail? <==> |Utf8.Encode(t.text)| > 4096
      ensures o.Fail? ==> writer.written == old(writer.written) + old(HeaderFrame(header))
      ensures o.Pass? ==>
        writer.written == old(writer.written) + old(HeaderFrame(header))
        + Frame(NameField("iTXt"), TextChunks.TextPayload(t.keyword, t.compress, t.language, t.text))
    {
      FlushHeader();
      o := AppendText(t);
    }

    /** The text chunk's own serialisation behind a written header. */
    method AppendText(t: TextChunks.TextChunk) returns (o: Outcome)
      requires Valid() && header == null && t.Valid()
      modifies writer, t.chunk
      ensures Valid()
      ensures o.Fail? <==> |Utf8.Encode(t.text)| > 4096
      ensures o.Fail? ==> writer.written == old(writer.written)
      ensures o.Pass? ==>
        writer.written == old(writer.written)
        + Frame(NameField("iTXt"), TextChunks.TextPayload(t.keyword, t.compress, t.language, t.text))
    {
      ghost var before := writer.written;
      o := t.CopyTo(writer);
      if o.Pass? {
        SignatureKept(before, Frame(NameField("iTXt"), TextChunks.TextPayload(t.keyword, t.compress, t.language, t.text)));
      }
    }

    /** `CreateFilteredBuffer(from)`: `h` rows of `w * ch + 1` bytes, each a filter byte
        (None for an indexed image, Up otherwise) followed by the row's pixels, Up-filtered
        against the row above. A colour mode missing from the channel table throws. */
    method CreateFilteredBuffer(from: Image, colorMode: byte) returns (r: Result<Memory.UMem<byte>>)
      requires from.Valid() && !encoder.isDecode
      requires var (w, h) := from.Scale();
        h < 0x8000_0000 && w < 0x8000_0000
        && (Channels(colorMode).Ok? ==> w as nat * h as nat * Channels(colorMode).value + h as nat < 0x1_0000_0000)
      ensures Channels(colorMode).Err? ==> r == Err(KeyNotFound)
      ensures Channels(colorMode).Ok? ==> r.Ok? && Memory.Valid(r.value)
      ensures r.Ok? && r.value.ptr != null ==> fresh(r.value.ptr)
      ensures r.Ok? ==> var (w, h) := from.Scale();
        Memory.Contents(r.value) == Encoded(from.Pixels(), FilterTypes(colorMode, h), w, h, Channels(colorMode).value)
    {
      var channels := Channels(colorMode);
      if channels.Err? {
        return Err(KeyNotFound);
      }
      var ch := channels.value;
      var w, h := from.Scale().0, from.Scale().1;
      ghost var types := FilterTypes(colorMode, h);
      ghost var e := Encoded(from.Pixels(), types, w, h, ch);
      BufferLength(w, h, ch);
      var buffer := Memory.Create<byte>(w * h * ch + h);
      var a := buffer.ptr;
      if a != null {
        FilterRows(encoder, from, a, e, types, ch, colorMode);
      }
      r := Ok(buffer);
    }

    /** `WriteBuffer(from)`: an indexed image is first remapped onto the palette; then the
        filtered buffer is compressed, the pending header is written and the compressed
        bytes follow as one `IDAT` chunk. */
    method WriteBuffer(from: Image, colorMode: byte, deflate: seq<byte> -> seq<byte>) returns (o: Outcome)
      requires Valid() && from.Valid()
      requires var (w, h) := from.Scale();
        h < 0x8000_0000 && w < 0x8000_0000
        && (Channels(colorMode).Ok? ==> w as nat * h as nat * Channels(colorMode).value + h as nat < 0x1_0000_0000)
      requires colorMode == INDEXED && palette != null ==>
        palette.Valid() && palette.palette.count <= 0xFFFF && palette.palette.colors != from.buffer.buffer.ptr
      requires forall d :: |deflate(d)| < 0x8000_0000
      modifies from.buffer.buffer.ptr, this`header, writer
      modifies if header == null then {} else {header.chunk, header.chunk.buffer.ptr}
      ensures o.Fail? <==>
        Channels(colorMode).Err? || (colorMode == INDEXED && palette == null && old(from.Scale()).0 > 0 && old(from.Scale()).1 > 0)
      ensures o.Fail? ==> writer.written == old(writer.written) && header == old(header) && Valid()
      ensures Channels(colorMode).Err? ==> o == Fail(KeyNotFound)
      ensures o.Fail? && Channels(colorMode).Ok? ==> o.error == NullReference
      ensures o.Pass? ==> Valid() && header == null && var (w, h) := old(from.Scale());
        var sent := if colorMode == INDEXED && palette != null
          then Grid.Map(old(from.Pixels()), Indexed(old(palette.palette.colors[..])), w, h) else old(from.Pixels());
        writer.written == old(writer.written) + old(HeaderFrame(header))
        + Frame(NameField("IDAT"), deflate(Encoded(sent, FilterTypes(colorMode, h), w, h, Channels(colorMode).value)))
    {
      ghost var (w, h) := from.Scale();
      ghost var colors := if palette == null then [] else palette.palette.colors[..];
      ghost var sent := if colorMode == INDEXED && palette != null
        then Grid.Map(from.Pixels(), Indexed(colors), w, h) else from.Pixels();
      ghost var written := writer.written + HeaderFrame(header);
      if colorMode == INDEXED {
        o := ConvertToIndexed(from);
        if o.Fail? {
          return;
        }
        assert palette != null ==> palette.palette.colors[..] == colors;
      }
      assert from.Pixels() == sent && from.Scale() == (w, h) && writer.written + HeaderFrame(header) == written;
      o := WriteImageData(from, colorMode, deflate);
    }

    /** The part of `WriteBuffer` after the remap: filter, compress, write the pending header
        and the `IDAT` chunk. */
    method WriteImageData(from: Image, colorMode: byte, deflate: seq<byte> -> seq<byte>) returns (o: Outcome)
      requires Valid() && from.Valid()
      requires var (w, h) := from.Scale();
        h < 0x8000_0000 && w < 0x8000_0000
        && (Channels(colorMode).Ok? ==> w as nat * h as nat * Channels(colorMode).value + h as nat < 0x1_0000_0000)
      requires forall d :: |deflate(d)| < 0x8000_0000
      modifies this`header, writer, if header == null then {} else {header.chunk, header.chunk.buffer.ptr}
      ensures palette == old(palette)
      ensures o.Fail? <==> Channels(colorMode).Err?
      ensures o.Fail? ==> o == Fail(KeyNotFound) && writer.written == old(writer.written) && header == old(header) && Valid()
      ensures o.Pass? ==> Valid() && header == null && var (w, h) := old(from.Scale());
        writer.written == old(writer.written) + old(HeaderFrame(header))
        + Frame(NameField("IDAT"), deflate(Encoded(old(from.Pixels()), FilterTypes(colorMode, h), w, h, Channels(colorMode).value)))
    {
      var filtered := CreateFilteredBuffer(from, colorMode);
      if filtered.Err? {
        return Fail(filtered.error);
      }
      var zipped := deflate(Memory.Contents(filtered.value));
      WriteIdat(zipped);
      o := Pass;
    }

    /** The end of `WriteBuffer`: the pending header, then the compressed bytes as one `IDAT`
        chunk. */
    method WriteIdat(zipped: seq<byte>)
      requires Valid() && |zipped| < 0x8000_0000
      modifies this`header, writer, if header == null then {} else {header.chunk, header.chunk.buffer.ptr}
      ensures Valid() && header == null && palette == old(palette)
      ensures writer.written == old(writer.written) + old(HeaderFrame(header)) + Frame(NameField("IDAT"), zipped)
    {
      ghost var written := writer.written + HeaderFrame(header);
      FlushHeader();
      var idat := new PNGChunk.FromSpan("IDAT", zipped);
      idat.CopyTo(writer);
      SignatureKept(written, Frame(NameField("IDAT"), zipped));
    }

    /** `ConvertToIndexed(from)`: every pixel's red channel becomes the `(u8)` index of the
        nearest palette entry. Without a palette the first pixel dereferences null; an empty
        image is left alone. */
    method ConvertToIndexed(from: Image) returns (o: Outcome)
      requires from.Valid()
      requires palette != null ==>
        palette.Valid() && palette.palette.count <= 0xFFFF && palette.palette.colors != from.buffer.buffer.ptr
      modifies from.buffer.buffer.ptr
      ensures from.Valid() && from.Scale() == old(from.Scale())
      ensures o.Fail? <==> palette == null && from.Scale().0 > 0 && from.Scale().1 > 0
      ensures o.Fail? ==> o.error == NullReference
      ensures palette == null ==> from.Pixels() == old(from.Pixels())
      ensures palette != null ==> var (w, h) := from.Scale();
        from.Pixels() == Grid.Map(old(from.Pixels()), Indexed(palette.palette.colors[..]), w, h)
    {
      var p := palette;
      if p == null {
        if from.Scale().0 > 0 && from.Scale().1 > 0 {
          return Fail(NullReference);
        }
        return Pass;
      }
      IndexAll(from, p.palette, p.palette.colors[..]);
      o := Pass;
    }

    /** `Dispose`: appends the `IEND` chunk with its empty payload. */
    method Dispose()
      requires Valid()
      modifies writer
      ensures writer.written == old(writer.written) + Frame(NameField("IEND"), [])
    {
      var iend := new PNGChunk.Adopt("IEND", Memory.Invalid());
      iend.CopyTo(writer);
    }
  }
}
