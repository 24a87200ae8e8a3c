/** `PNGChunk`: a chunk's name and data buffer, and its serialisation (section 3.2 of RFC 2083):
    the data length as four big-endian bytes, the four name bytes, the data, and the CRC-32 of
    name and data as four big-endian bytes. */
module Chunks {
  import opened Common
  import opened Crc
  import Memory
  import opened Streams

  /** `Encoding.Latin1` for one character: characters above U+00FF become `?`. */
  function Latin1(c: char): (b: byte)
    ensures c as int < 256 ==> b == c as int
    ensures c as int >= 256 ==> b == 0x3f
  {
    if c as int < 256 then c as int else 0x3f
  }

  /** The zeroed four-byte span after `Encoding.Latin1.TryGetBytes(name, span)`: the encoded
      name padded with zero bytes, or untouched when the name needs more than four bytes. */
  function NameField(name: string): (r: seq<byte>)
    ensures |r| == 4
    ensures |name| <= 4 ==> forall i :: 0 <= i < |name| ==> r[i] == Latin1(name[i])
    ensures forall i :: 0 <= i < 4 && (i >= |name| || |name| > 4) ==> r[i] == 0
  {
    if |name| <= 4 then seq(4, i requires 0 <= i < 4 => if i < |name| then Latin1(name[i]) else 0)
    else [0, 0, 0, 0]
  }

  /** The characters a reader sees in a name field (the reader compares them with `"IDAT"`). */
  function FieldName(field: seq<byte>): (name: string)
    ensures |name| == |field|
    ensures forall i :: 0 <= i < |field| ==> name[i] as int == field[i]
  {
    seq(|field|, i requires 0 <= i < |field| => field[i] as char)
  }

  /** A four-character name of Latin-1 characters survives the name field. */
  lemma NameFieldRoundTrip(name: string)
    requires |name| == 4 && forall i :: 0 <= i < 4 ==> name[i] as int < 256
    ensures FieldName(NameField(name)) == name
  {
  }

  /** The serialised chunk. */
  function Frame(field: seq<byte>, data: seq<byte>): (f: seq<byte>)
    requires |data| < 0x1_0000_0000
    ensures |f| == 12 + |field| - 4 + |data|
  {
    Framing(field, data, Crc32(field + data))
  }

  /** The big-endian length, the name field, the data and the big-endian `crc`. */
  function Framing(field: seq<byte>, data: seq<byte>, crc: u32): (f: seq<byte>)
    requires |data| < 0x1_0000_0000
    ensures |f| == 12 + |field| - 4 + |data|
  {
    BigEndian32(|data|) + field + data + BigEndian32(crc)
  }

  datatype Parsed = Parsed(name: seq<byte>, data: seq<byte>, rest: seq<byte>)

  /** Reads one serialised chunk off the front of `s`, checking its CRC: the reference
      reading of the format that `Frame` writes. */
  function ParseFrame(s: seq<byte>): (r: Result<Parsed>)
    ensures r.Ok? ==> |r.value.name| == 4 && |r.value.rest| < |s|
  {
    if |s| < 8 then Err(EndOfStream)
    else
      var length := ReadBigEndian32(s[..4]);
      if |s| < 12 + length then Err(EndOfStream)
      else if ReadBigEndian32(s[8 + length..12 + length]) != Crc32(s[4..8 + length]) then Err(FileLoad)
      else Ok(Parsed(s[4..8], s[8..8 + length], s[12 + length..]))
  }

  /** Where the parts of a frame sit, whatever its CRC bytes. */
  lemma FrameSlices(field: seq<byte>, data: seq<byte>, crcBytes: seq<byte>, rest: seq<byte>)
    requires |field| == 4 && |data| < 0x1_0000_0000 && |crcBytes| == 4
    ensures var s := BigEndian32(|data|) + field + data + crcBytes + rest;
      |s| >= 12 + |data| && s[..4] == BigEndian32(|data|) && s[4..8] == field
      && s[8..8 + |data|] == data && s[4..8 + |data|] == field + data
      && s[8 + |data|..12 + |data|] == crcBytes && s[12 + |data|..] == rest
  {
    var s := BigEndian32(|data|) + field + data + crcBytes + rest;
    assert s[..4] == BigEndian32(|data|);
    assert s[4..8] == field;
    assert s[8..8 + |data|] == data;
    assert s[4..8 + |data|] == field + data;
    assert s[8 + |data|..12 + |data|] == crcBytes;
    assert s[12 + |data|..] == rest;
  }

  /** Whatever follows it, a written chunk reads back as its name and data. */
  lemma FrameRoundTrip(field: seq<byte>, data: seq<byte>, rest: seq<byte>)
    requires |field| == 4 && |data| < 0x1_0000_0000
    ensures ParseFrame(Frame(field, data) + rest) == Ok(Parsed(field, data, rest))
  {
    var crc := Crc32(field + data);
    FrameSlices(field, data, BigEndian32(crc), rest);
    BigEndian32RoundTrip(|data|);
    BigEndian32RoundTrip(crc);
  }

  /** A chunk whose stored CRC does not match is refused. */
  lemma CorruptFrameRefused(field: seq<byte>, data: seq<byte>, crc: u32)
    requires |field| == 4 && |data| < 0x1_0000_0000 && crc != Crc32(field + data)
    ensures ParseFrame(BigEndian32(|data|) + field + data + BigEndian32(crc)).Err?
  {
    FrameSlices(field, data, BigEndian32(crc), []);
    assert BigEndian32(|data|) + field + data + BigEndian32(crc) + [] == BigEndian32(|data|) + field + data + BigEndian32(crc);
    BigEndian32RoundTrip(|data|);
    BigEndian32RoundTrip(crc);
  }

  /** Appending the parts of a frame one after another appends the frame. */
  lemma FrameParts(field: seq<byte>, data: seq<byte>, before: seq<byte>, length: seq<byte>, crc: seq<byte>)
    requires |data| < 0x1_0000_0000
    requires length == BigEndian32(|data|) && crc == BigEndian32(Crc32(field + data))
    ensures before + length + field + data + crc == before + Frame(field, data)
  {
    Associative(before, length + field + data, crc);
    Associative(before, length + field, data);
    Associative(before, length, field);
  }

  lemma Associative(a: seq<byte>, b: seq<byte>, c: seq<byte>)
    ensures a + (b + c) == a + b + c
  {
  }

  /** The `IEND` chunk every file ends with: a zero length, the name `49 45 4E 44` and the
      CRC of those four bytes. */
  lemma IendFrame(name: string)
    requires name == "IEND"
    ensures Frame(NameField(name), [])
      == [0, 0, 0, 0] + NameField(name) + BigEndian32(Crc32(NameField(name)))
    ensures NameField(name) == [0x49, 0x45, 0x4e, 0x44]
  {
    assert NameField(name) + [] == NameField(name);
  }

  /** The eight bytes every PNG file starts with (section 3.1 of RFC 2083). */
  const Signature: seq<byte> := [0x89, 0x50, 0x4e, 0x47, 0x0d, 0x0a, 0x1a, 0x0a]

  /** The name bytes of the image data chunk, `IDAT`. */
  const IdatField: seq<byte> := [0x49, 0x44, 0x41, 0x54]

  /** A chunk as it sits in a file: its name field and its data. */
  datatype Chunk = Chunk(field: seq<byte>, data: seq<byte>)

  /** A four-byte name and data whose length a reader takes as a non-negative `i32`: the bound
      section 3.2 of RFC 2083 sets. */
  predicate Framed(c: Chunk)
  {
    |c.field| == 4 && |c.data| < 0x8000_0000
  }

  predicate AllFramed(cs: seq<Chunk>)
  {
    forall i :: 0 <= i < |cs| ==> Framed(cs[i])
  }

  /** A run of chunks serialised one after another, with the given CRC values. */
  function FramesWith(cs: seq<Chunk>, crcs: seq<u32>): (s: seq<byte>)
    requires AllFramed(cs) && |crcs| == |cs|
  {
    if cs == [] then [] else Framing(cs[0].field, cs[0].data, crcs[0]) + FramesWith(cs[1..], crcs[1..])
  }

  /** The CRC of every chunk of a run. */
  function Checksums(cs: seq<Chunk>): (r: seq<u32>)
    ensures |r| == |cs|
  {
    seq(|cs|, i requires 0 <= i < |cs| => Crc32(cs[i].field + cs[i].data))
  }

  /** A run of chunks serialised one after another. */
  function Frames(cs: seq<Chunk>): (s: seq<byte>)
    requires AllFramed(cs)
  {
    FramesWith(cs, Checksums(cs))
  }

  /** The run serialised is its first chunk serialised, then the rest of the run. */
  lemma FramesCons(cs: seq<Chunk>)
    requires AllFramed(cs) && cs != []
    ensures Frames(cs) == Frame(cs[0].field, cs[0].data) + Frames(cs[1..])
  {
    ChecksumsTail(cs);
    assert Frames(cs) == Framing(cs[0].field, cs[0].data, Checksums(cs)[0]) + FramesWith(cs[1..], Checksums(cs)[1..]);
  }

  lemma ChecksumsTail(cs: seq<Chunk>)
    requires cs != []
    ensures Checksums(cs)[1..] == Checksums(cs[1..])
  {
    forall i | 0 <= i < |cs| - 1
      ensures Checksums(cs)[1..][i] == Checksums(cs[1..])[i]
    {
      assert cs[1..][i] == cs[i + 1];
    }
  }

  lemma {:induction false} FramesWithAppend(a: seq<Chunk>, ca: seq<u32>, b: seq<Chunk>, cb: seq<u32>)
    requires AllFramed(a) && AllFramed(b) && |ca| == |a| && |cb| == |b|
    ensures AllFramed(a + b) && FramesWith(a + b, ca + cb) == FramesWith(a, ca) + FramesWith(b, cb)
  {
    if a == [] {
      assert a + b == b && ca + cb == cb;
    } else {
      assert (a + b)[1..] == a[1..] + b && (ca + cb)[1..] == ca[1..] + cb;
      FramesWithAppend(a[1..], ca[1..], b, cb);
    }
  }

  /** Serialising two runs one after the other serialises the joined run. */
  lemma FramesAppend(a: seq<Chunk>, b: seq<Chunk>)
    requires AllFramed(a) && AllFramed(b)
    ensures AllFramed(a + b) && Frames(a + b) == Frames(a) + Frames(b)
  {
    ChecksumsAppend(a, b);
    FramesWithAppend(a, Checksums(a), b, Checksums(b));
  }

  lemma ChecksumsAppend(a: seq<Chunk>, b: seq<Chunk>)
    ensures Checksums(a + b) == Checksums(a) + Checksums(b)
  {
    var l, r := Checksums(a + b), Checksums(a) + Checksums(b);
    forall i | 0 <= i < |a + b|
      ensures l[i] == r[i]
    {
      if i < |a| {
        assert (a + b)[i] == a[i];
      } else {
        assert (a + b)[i] == b[i - |a|];
      }
    }
  }

  /** Where the parts of a serialised chunk sit when `s` holds it at `pos`: a reader that
      takes the four bytes at `pos` as a big-endian length and the next four as the name finds
      the chunk's data right after them. The CRC that follows is not described. */
  predicate ChunkAt(s: seq<byte>, pos: nat, c: Chunk)
  {
    |c.field| == 4 && |c.data| < 0x8000_0000 && pos + 12 + |c.data| <= |s|
    && ReadBigEndian32(s[pos..pos + 4]) == |c.data| && s[pos + 4..pos + 8] == c.field
    && s[pos + 8..pos + 8 + |c.data|] == c.data
  }

  /** `s` holds the chunks `cs` one after another from `pos`, the last one ending at `end`. */
  predicate ChunksTo(s: seq<byte>, pos: nat, cs: seq<Chunk>, end: nat)
    decreases |cs|
  {
    if cs == [] then pos == end
    else ChunkAt(s, pos, cs[0]) && ChunksTo(s, pos + 12 + |cs[0].data|, cs[1..], end)
  }

  lemma ChunksCons(s: seq<byte>, pos: nat, cs: seq<Chunk>, end: nat)
    requires cs != [] && ChunkAt(s, pos, cs[0]) && ChunksTo(s, pos + 12 + |cs[0].data|, cs[1..], end)
    ensures ChunksTo(s, pos, cs, end)
  {
  }

  lemma ChunksTail(s: seq<byte>, pos: nat, cs: seq<Chunk>, end: nat)
    requires cs != [] && ChunksTo(s, pos, cs, end)
    ensures ChunkAt(s, pos, cs[0]) && ChunksTo(s, pos + 12 + |cs[0].data|, cs[1..], end)
  {
  }

  /** Where chunk `k` of a run laid out from `start` begins. */
  function Offset(start: nat, cs: seq<Chunk>, k: nat): nat
    requires k <= |cs|
  {
    if k == 0 then start else Offset(start, cs, k - 1) + 12 + |cs[k - 1].data|
  }

  lemma {:induction false} OffsetShift(start: nat, cs: seq<Chunk>, k: nat)
    requires 1 <= k <= |cs|
    ensures Offset(start, cs, k) == Offset(start + 12 + |cs[0].data|, cs[1..], k - 1)
  {
    if k > 1 {
      OffsetShift(start, cs, k - 1);
      assert cs[1..][k - 2] == cs[k - 1];
    }
  }

  /** A run laid out from `start` holds each of its chunks at that chunk's offset. */
  lemma {:induction false} ChunkAtOffset(s: seq<byte>, start: nat, cs: seq<Chunk>, end: nat, k: nat)
    requires ChunksTo(s, start, cs, end) && k < |cs|
    ensures ChunkAt(s, Offset(start, cs, k), cs[k])
    decreases k
  {
    ChunksTail(s, start, cs, end);
    if k > 0 {
      ChunkAtOffset(s, start + 12 + |cs[0].data|, cs[1..], end, k - 1);
      OffsetShift(start, cs, k);
    }
  }

  lemma ChunkShift(a: seq<byte>, s: seq<byte>, pos: nat, c: Chunk)
    requires ChunkAt(s, pos, c)
    ensures ChunkAt(a + s, |a| + pos, c)
  {
    var n := |c.data|;
    assert (a + s)[|a| + pos..|a| + pos + 4] == s[pos..pos + 4];
    assert (a + s)[|a| + pos + 4..|a| + pos + 8] == s[pos + 4..pos + 8];
    assert (a + s)[|a| + pos + 8..|a| + pos + 8 + n] == s[pos + 8..pos + 8 + n];
  }

  /** Chunks laid out in `s` stay laid out, shifted, behind a prefix. */
  lemma {:induction false} ChunksShift(a: seq<byte>, s: seq<byte>, pos: nat, cs: seq<Chunk>, end: nat)
    requires ChunksTo(s, pos, cs, end)
    ensures ChunksTo(a + s, |a| + pos, cs, |a| + end)
    decreases |cs|
  {
    if cs != [] {
      var c := cs[0];
      ChunkShift(a, s, pos, c);
      ChunksShift(a, s, pos + 12 + |c.data|, cs[1..], end);
      ChunksCons(a + s, |a| + pos, cs, |a| + end);
    }
  }

  /** A serialised chunk, whatever its CRC, holds its parts where `ChunkAt` says. */
  lemma FramingAt(c: Chunk, crc: u32, s: seq<byte>)
    requires Framed(c)
    ensures ChunkAt(Framing(c.field, c.data, crc) + s, 0, c)
  {
    var file := Framing(c.field, c.data, crc) + s;
    FrameSlices(c.field, c.data, BigEndian32(crc), s);
    assert file[..4] == file[0..4];
    BigEndian32RoundTrip(|c.data|);
  }

  /** A serialised chunk in front of chunks laid out up to `end`. */
  lemma FramingThenChunks(c: Chunk, crc: u32, s: seq<byte>, cs: seq<Chunk>, end: nat)
    requires Framed(c) && ChunksTo(s, 0, cs, end)
    ensures ChunksTo(Framing(c.field, c.data, crc) + s, 0, [c] + cs, 12 + |c.data| + end)
  {
    var f := Framing(c.field, c.data, crc);
    FramingAt(c, crc, s);
    ChunksShift(f, s, 0, cs, end);
    assert ([c] + cs)[1..] == cs;
    ChunksCons(f + s, 0, [c] + cs, 12 + |c.data| + end);
  }

  /** A serialised run followed by anything, whatever its CRC values, holds its chunks one
      after another. */
  lemma {:induction false} FramesWithLayout(cs: seq<Chunk>, crcs: seq<u32>, rest: seq<byte>)
    requires AllFramed(cs) && |crcs| == |cs|
    ensures ChunksTo(FramesWith(cs, crcs) + rest, 0, cs, |FramesWith(cs, crcs)|)
  {
    if cs != [] {
      var c, tail := cs[0], FramesWith(cs[1..], crcs[1..]);
      FramesWithLayout(cs[1..], crcs[1..], rest);
      FramingThenChunks(c, crcs[0], tail + rest, cs[1..], |tail|);
      assert [c] + cs[1..] == cs;
      assert FramesWith(cs, crcs) + rest == Framing(c.field, c.data, crcs[0]) + (tail + rest);
    }
  }

  /** A file that holds a serialised run from `pos` holds its chunks one after another, up to
      the end of the run. */
  lemma FramesAt(s: seq<byte>, pos: nat, cs: seq<Chunk>, f: seq<byte>, rest: seq<byte>)
    requires AllFramed(cs) && f == Frames(cs) && pos <= |s| && s[pos..] == f + rest
    ensures pos + |f| <= |s| && ChunksTo(s, pos, cs, pos + |f|)
  {
    FramesWithLayout(cs, Checksums(cs), rest);
    LayoutAt(s, pos, f, rest, cs);
  }

  /** Chunks laid out in `f` followed by anything are laid out in a file that holds `f` from
      `pos`. */
  lemma LayoutAt(s: seq<byte>, pos: nat, f: seq<byte>, rest: seq<byte>, cs: seq<Chunk>)
    requires pos <= |s| && s[pos..] == f + rest && ChunksTo(f + rest, 0, cs, |f|)
    ensures pos + |f| <= |s| && ChunksTo(s, pos, cs, pos + |f|)
  {
    var t := f + rest;
    var a := s[..pos];
    ChunksShift(a, t, 0, cs, |f|);
    SplitAt(s, pos, t);
  }

  lemma SplitAt(s: seq<byte>, pos: nat, t: seq<byte>)
    requires pos <= |s| && s[pos..] == t
    ensures s[..pos] + t == s && |s[..pos]| == pos
  {
    assert s == s[..pos] + s[pos..];
  }

  /** An image-data chunk: its name field holds the bytes of `IDAT`. */
  predicate IsIdat(c: Chunk)
  {
    c.field == IdatField
  }

  /** For a four-byte field, reading as `IDAT` and holding the bytes `49 44 41 54` agree. */
  lemma IdatName(field: seq<byte>)
    requires |field| == 4
    ensures FieldName(field) == "IDAT" <==> field == IdatField
  {
    if field == IdatField {
      assert FieldName(field) == "IDAT";
    }
  }

  /** `CreateCRCTable`: entry `i` is the index run through eight shift/xor steps. */
  method CreateCRCTable(table: array<nat>)
    modifies table
    ensures forall i :: 0 <= i < table.Length ==> table[i] == TableEntry(i)
  {
    var i := 0;
    while i < table.Length
      invariant 0 <= i <= table.Length
      invariant forall k :: 0 <= k < i ==> table[k] == TableEntry(k)
    {
      var c := ComputeEntry(i);
      table[i] := c;
      i := i + 1;
    }
  }

  /** The inner loop of `CreateCRCTable`: eight shift/xor steps on the index. */
  method ComputeEntry(i: nat) returns (c: nat)
    ensures c == TableEntry(i)
  {
    c := i;
    var j := 0;
    while j < 8
      invariant 0 <= j <= 8
      invariant Steps(c, 8 - j) == TableEntry(i)
    {
      if LowBit(c) == 1 {
        c := Xor(0xedb88320, Half(c));
      } else {
        c := Half(c);
      }
      j := j + 1;
    }
  }

  /** The byte `CreateCRC` reads at `i` is byte `i` of the name followed by the data. */
  lemma ConcatIndex(a: seq<byte>, b: seq<byte>, i: nat)
    requires i < |a| + |b|
    ensures (a + b)[i] == if i < |a| then a[i] else b[i - |a|]
  {
  }

  /** `CreateCRC(nameBuffer, dataBuffer)`: the CRC-32 of the name bytes followed by the
      data, computed a byte at a time through the table. */
  method CreateCRC(nameBuffer: seq<byte>, dataBuffer: seq<byte>) returns (r: u32)
    ensures r == Crc32(nameBuffer + dataBuffer)
  {
    var crc: nat := 0xffff_ffff;
    var table := new nat[256];
    CreateCRCTable(table);
    ghost var all := nameBuffer + dataBuffer;
    var i := 0;
    while i < |nameBuffer| + |dataBuffer|
      invariant 0 <= i <= |all|
      invariant crc == Register(all[..i])
      modifies {}
    {
      var value := if i < |nameBuffer| then nameBuffer[i] else dataBuffer[i - |nameBuffer|];
      ConcatIndex(nameBuffer, dataBuffer, i);
      RegisterAdvance(all, i, crc);
      crc := Xor(table[LowByte(Xor(crc, value))], Shr8(crc));
      i := i + 1;
    }
    assert all[..i] == all;
    XorFits32(crc, 0xffff_ffff);
    r := Xor(crc, 0xffff_ffff);
    Crc32Is(all);
  }

  class PNGChunk {
    var buffer: Memory.UMem<byte>
    var name: string

    /** `new PNGChunk()`: no name and the `Invalid` buffer. */
    constructor Empty()
      ensures buffer == Memory.Invalid() && name == ""
    {
      buffer := Memory.Invalid();
      name := "";
    }

    /** `new PNGChunk(name, UMem<u8> buffer)`: takes the buffer as it is. */
    constructor Adopt(name: string, buffer: Memory.UMem<byte>)
      ensures this.buffer == buffer && this.name == name
    {
      this.buffer := buffer;
      this.name := name;
    }

    /** `new PNGChunk(name, Span<u8> buffer)`: a new allocation holding a copy of the span. */
    constructor FromSpan(name: string, span: seq<byte>)
      requires |span| < 0x1_0000_0000
      ensures this.name == name && Memory.Valid(buffer) && buffer.length == |span|
      ensures buffer.ptr != null ==> fresh(buffer.ptr)
      ensures Memory.Contents(buffer) == span
    {
      this.name := name;
      var m := Memory.Create<byte>(|span|);
      if m.ptr != null {
        var a := m.ptr;
        forall k | 0 <= k < |span| {
          a[k] := span[k];
        }
        assert a[..m.length] == span;
      }
      this.buffer := m;
    }

    /** `CopyTo(destination)`: appends the serialised chunk. An `Invalid` buffer writes no
        data bytes, which is what its empty contents give anyway. */
    method CopyTo(destination: ByteStream)
      requires Memory.Valid(buffer) && buffer.length < 0x8000_0000
      modifies destination
      ensures destination.written == old(destination.written) + Frame(NameField(name), Memory.Contents(buffer))
    {
      ghost var before := destination.written;
      var field := NameField(name);
      var length := BigEndian32(buffer.length);
      destination.Write(length);
      destination.Write(field);
      Memory.WholeSpan(buffer);
      var data := Memory.View(Memory.AsSpan(buffer, 0, buffer.length));
      if !Memory.Equals(buffer, Memory.Invalid()) {
        destination.Write(data);
      } else {
        Memory.EqualsInvalid(buffer);
        assert data == [];
        assert destination.written == destination.written + data;
      }
      assert destination.written == before + length + field + data;
      var crc := CreateCRC(field, data);
      FrameParts(field, data, before, length, BigEndian32(crc));
      destination.Write(BigEndian32(crc));
    }

    /** `Dispose`: the buffer's own `Dispose`. */
    method Dispose()
      modifies this
      ensures buffer == Memory.Dispose(old(buffer)) && name == old(name)
    {
      buffer := Memory.Dispose(buffer);
    }
  }
}
