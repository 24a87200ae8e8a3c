/** `PNGReader`: reads a PNG file. The file is a byte sequence and the stream a cursor into
    it. A read into a stack buffer copies what the file still holds and leaves the
    buffer's other bytes as they were. This matters because the source reuses its stack
    buffers across loop iterations. */
module PNGReaders {
  import opened Common
  import opened Color
  import Memory
  import opened Chunks
  import opened Headers
  import opened Crc
  import opened PNGFilters
  import opened Scanlines
  import opened Images
  import Grid
  import PNGPalettes

  /** `PNGHeaderEntry`. */
  const SCALE_X: byte := 0
  const SCALE_Y: byte := 1
  const COLOR_MODE: byte := 2
  const DEPTH: byte := 3

  /** How many bytes a read of `n` bytes at `pos` gets: at most what the file still holds. */
  function Available(file: seq<byte>, pos: nat, n: nat): (k: nat)
    ensures k <= n && (k > 0 ==> pos + k <= |file|)
    ensures pos + n <= |file| ==> k == n
    ensures pos < |file| && |file| < pos + n ==> k == |file| - pos
    ensures |file| <= pos ==> k == 0
  {
    if pos >= |file| then 0 else Min(n, |file| - pos)
  }

  /** A stack buffer after `Read(buffer)` at `pos`: the bytes read, then what it held. */
  function Overlay(buf: seq<byte>, file: seq<byte>, pos: nat): (r: seq<byte>)
    ensures |r| == |buf|
    ensures pos + |buf| <= |file| ==> r == file[pos..pos + |buf|]
    ensures var k := Available(file, pos, |buf|);
      (forall i :: 0 <= i < k ==> r[i] == file[pos + i]) && (forall i :: k <= i < |buf| ==> r[i] == buf[i])
  {
    var k := Available(file, pos, |buf|);
    if k == 0 then buf else file[pos..pos + k] + buf[k..]
  }

  /** The header entries a file holds after the signature: the big-endian width at 16 and
      height at 20, the depth at 24 and the colour type at 25. */
  lemma HeaderReadBack(scale: (u32, u32), depth: byte, colorMode: byte, rest: seq<byte>)
    ensures var file := Signature + (Frame(NameField("IHDR"), HeaderPayload(scale, depth, colorMode)) + rest);
      |file| > 25
      && ReadBigEndian32(Overlay([0, 0, 0, 0], file, 16)) == scale.0
      && ReadBigEndian32(Overlay([0, 0, 0, 0], file, 20)) == scale.1
      && file[24] == depth && file[25] == colorMode
  {
    var p := HeaderPayload(scale, depth, colorMode);
    var file := Signature + (Frame(NameField("IHDR"), p) + rest);
    HeaderBytes(p, rest, file);
    HeaderPayloadFields(scale, depth, colorMode);
    assert Overlay([0, 0, 0, 0], file, 16) == file[16..20];
    assert Overlay([0, 0, 0, 0], file, 20) == file[20..24];
  }

  /** Where the payload of the `IHDR` chunk sits in the file. */
  lemma HeaderBytes(p: seq<byte>, rest: seq<byte>, file: seq<byte>)
    requires |p| == 13 && file == Signature + (Frame(NameField("IHDR"), p) + rest)
    ensures |file| > 25 && file[16..20] == p[0..4] && file[20..24] == p[4..8]
    ensures file[24] == p[8] && file[25] == p[9]
  {
    var s := Frame(NameField("IHDR"), p) + rest;
    PayloadInFrame(NameField("IHDR"), p, rest, s);
    AfterSignature(s, file);
  }

  /** The first ten payload bytes of a chunk followed by anything. */
  lemma PayloadInFrame(f: seq<byte>, p: seq<byte>, rest: seq<byte>, s: seq<byte>)
    requires |f| == 4 && |p| == 13 && s == Frame(f, p) + rest
    ensures |s| >= 18 && s[8..12] == p[0..4] && s[12..16] == p[4..8] && s[16] == p[8] && s[17] == p[9]
  {
    FrameSlices(f, p, BigEndian32(Crc32(f + p)), rest);
    SliceOfSlice(s, 8, 21, 0, 4);
    SliceOfSlice(s, 8, 21, 4, 8);
    assert s[16] == s[8..21][8] && s[17] == s[8..21][9];
  }

  /** A slice of a slice is a slice. */
  lemma SliceOfSlice(s: seq<byte>, a: nat, b: nat, c: nat, d: nat)
    requires a <= b <= |s| && c <= d <= b - a
    ensures s[a..b][c..d] == s[a + c..a + d]
  {
    assert forall i :: 0 <= i < d - c ==> s[a..b][c..d][i] == s[a + c + i];
  }

  /** Bytes 8 to 17 after the signature. */
  lemma AfterSignature(s: seq<byte>, file: seq<byte>)
    requires |s| >= 18 && file == Signature + s
    ensures |file| > 25 && file[16..20] == s[8..12] && file[20..24] == s[12..16]
    ensures file[24] == s[16] && file[25] == s[17]
  {
    SliceAfter(Signature, s, 8, 12);
    SliceAfter(Signature, s, 12, 16);
  }

  /** The state of the walk `DetectIDATs` makes: the stream position, the contents of its
      two stack buffers, the first `IDAT` offset noted and the summed `IDAT` lengths. */
  datatype Walk = Walk(pos: nat, lengthBuf: seq<byte>, nameBuf: seq<byte>, first: nat, total: nat)

  predicate WalkShape(w: Walk)
  {
    |w.lengthBuf| == 4 && |w.nameBuf| == 4 && w.pos >= 8
  }

  /** One iteration of `DetectIDATs`: read the length and the name, reverse the length
      buffer in place and read it as a big-endian number, count it if the name reads `IDAT`
      (noting where that chunk started if nothing was noted yet), and skip the data and the
      CRC. */
  function WalkStep(file: seq<byte>, w: Walk): (r: Walk)
    requires WalkShape(w)
    ensures WalkShape(r) && r.pos >= w.pos + 4
  {
    var lb := Overlay(w.lengthBuf, file, w.pos);
    var p1 := w.pos + Available(file, w.pos, 4);
    var nb := Overlay(w.nameBuf, file, p1);
    var p2 := p1 + Available(file, p1, 4);
    var len := ReadBigEndian32(lb);
    // the Latin-1 reading of the name is "IDAT" exactly when its bytes are those of `IdatField`
    var idat := nb == IdatField;
    Walk(p2 + len + 4, Reversed(lb), nb,
      if idat && w.first == 0 then p2 - 8 else w.first,
      if idat then w.total + len else w.total)
  }

  /** The walk run while the position is inside the file: its first offset and its sum. */
  function Detect(file: seq<byte>, w: Walk): (nat, nat)
    requires WalkShape(w)
    decreases |file| - w.pos
  {
    if |file| <= w.pos then (w.first, w.total) else Detect(file, WalkStep(file, w))
  }

  /** The summed data lengths of the `IDAT` chunks of a run. */
  function IdatTotal(cs: seq<Chunk>): nat
  {
    if cs == [] then 0 else (if IsIdat(cs[0]) then |cs[0].data| else 0) + IdatTotal(cs[1..])
  }

  /** Where the first `IDAT` chunk of a run serialised from `offset` starts, or 0 if none. */
  function FirstIdat(cs: seq<Chunk>, offset: nat): nat
  {
    if cs == [] then 0
    else if IsIdat(cs[0]) then offset
    else FirstIdat(cs[1..], offset + 12 + |cs[0].data|)
  }

  /** On a whole chunk, one iteration reads its length and its name and lands on the next,
      noting the chunk's offset and adding its length when it is an `IDAT` chunk. */
  lemma StepOverChunk(file: seq<byte>, w: Walk, c: Chunk)
    requires WalkShape(w) && ChunkAt(file, w.pos, c)
    ensures var r := WalkStep(file, w);
      w.pos < |file| && r.pos == w.pos + 12 + |c.data|
      && r.first == (if IsIdat(c) && w.first == 0 then w.pos else w.first)
      && r.total == (if IsIdat(c) then w.total + |c.data| else w.total)
  {
    assert Available(file, w.pos, 4) == 4 && Available(file, w.pos + 4, 4) == 4;
    var lb, nb := Overlay(w.lengthBuf, file, w.pos), Overlay(w.nameBuf, file, w.pos + 4);
    assert lb == file[w.pos..w.pos + 4] && ReadBigEndian32(lb) == |c.data|;
    assert nb == c.field && (nb == IdatField <==> IsIdat(c));
  }

  /** `WalkStep` from the two reads it makes. */
  lemma WalkStepOf(file: seq<byte>, w: Walk, lb: seq<byte>, p1: nat, nb: seq<byte>, p2: nat)
    requires WalkShape(w)
    requires lb == Overlay(w.lengthBuf, file, w.pos) && p1 == w.pos + Available(file, w.pos, 4)
    requires nb == Overlay(w.nameBuf, file, p1) && p2 == p1 + Available(file, p1, 4)
    ensures var len := ReadBigEndian32(lb);
      WalkStep(file, w) == Walk(p2 + len + 4, Reversed(lb), nb,
        if nb == IdatField && w.first == 0 then p2 - 8 else w.first,
        if nb == IdatField then w.total + len else w.total)
  {
  }

  /** The walk over one whole chunk, seen at the chunk level: the offset of the next chunk,
      the first `IDAT` offset noted and the summed `IDAT` lengths. The buffers stay as they
      were; they do not matter on whole chunks. */
  function Advance(w: Walk, c: Chunk): Walk
  {
    Walk(w.pos + 12 + |c.data|, w.lengthBuf, w.nameBuf,
      if IsIdat(c) && w.first == 0 then w.pos else w.first,
      if IsIdat(c) then w.total + |c.data| else w.total)
  }

  /** The walk over a run of whole chunks, seen at the chunk level. */
  function ChunkWalk(cs: seq<Chunk>, w: Walk): (nat, nat)
  {
    if cs == [] then (w.first, w.total) else ChunkWalk(cs[1..], Advance(w, cs[0]))
  }

  /** Chunk by chunk, the walk from a non-zero offset finds the first `IDAT` chunk unless
      one was noted already, and adds up the lengths of all of them. */
  lemma {:induction false} ChunkWalkFinds(cs: seq<Chunk>, w: Walk)
    requires w.pos > 0
    ensures ChunkWalk(cs, w) == (if w.first == 0 then FirstIdat(cs, w.pos) else w.first, w.total + IdatTotal(cs))
    decreases |cs|
  {
    if cs != [] {
      ChunkWalkFinds(cs[1..], Advance(w, cs[0]));
    }
  }

  /** The chunk-level walk looks only at the position and the two accumulators. */
  lemma {:induction false} ChunkWalkIgnoresBuffers(cs: seq<Chunk>, v: Walk, u: Walk)
    requires v.pos == u.pos && v.first == u.first && v.total == u.total
    ensures ChunkWalk(cs, v) == ChunkWalk(cs, u)
    decreases |cs|
  {
    if cs != [] {
      ChunkWalkIgnoresBuffers(cs[1..], Advance(v, cs[0]), Advance(u, cs[0]));
    }
  }

  /** One step of the walk over a whole chunk is one step of the chunk-level walk. */
  lemma Peel(file: seq<byte>, w: Walk, cs: seq<Chunk>) returns (next: Walk)
    requires WalkShape(w) && cs != [] && ChunksTo(file, w.pos, cs, |file|)
    ensures WalkShape(next) && next.pos == w.pos + 12 + |cs[0].data|
    ensures ChunksTo(file, w.pos + 12 + |cs[0].data|, cs[1..], |file|)
    ensures Detect(file, w) == Detect(file, next)
    ensures ChunkWalk(cs, w) == ChunkWalk(cs[1..], next)
  {
    ChunksTail(file, w.pos, cs, |file|);
    next := WalkStep(file, w);
    StepOverChunk(file, w, cs[0]);
    assert Detect(file, w) == Detect(file, next);
    assert ChunkWalk(cs, w) == ChunkWalk(cs[1..], Advance(w, cs[0]));
    ChunkWalkIgnoresBuffers(cs[1..], Advance(w, cs[0]), next);
  }

  /** On a run of whole chunks that ends the file, the walk is the chunk-level walk,
      whatever the buffers held. */
  lemma {:induction false} DetectChunks(file: seq<byte>, cs: seq<Chunk>, w: Walk)
    requires WalkShape(w) && ChunksTo(file, w.pos, cs, |file|)
    ensures Detect(file, w) == ChunkWalk(cs, w)
    decreases |cs|, 1
  {
    if cs == [] {
      DetectAtEnd(file, w);
    } else {
      DetectNonEmpty(file, cs, w);
    }
  }

  /** The same on a non-empty run: one chunk peeled, then the rest of the run. */
  lemma {:induction false} DetectNonEmpty(file: seq<byte>, cs: seq<Chunk>, w: Walk)
    requires WalkShape(w) && cs != [] && ChunksTo(file, w.pos, cs, |file|)
    ensures Detect(file, w) == ChunkWalk(cs, w)
    decreases |cs|, 0
  {
    var next := Peel(file, w, cs);
    DetectChunks(file, cs[1..], next);
  }

  /** At the end of the file the walk stops with what it noted. */
  lemma DetectAtEnd(file: seq<byte>, w: Walk)
    requires WalkShape(w) && w.pos == |file|
    ensures Detect(file, w) == ChunkWalk([], w)
  {
  }

  /** A file of 33 bytes (the signature and the `IHDR` chunk) followed by well-formed chunks:
      the walk from offset 33 gives the offset of the first `IDAT` chunk and the summed
      `IDAT` lengths. */
  lemma DetectIDATsOfFile(head: seq<byte>, cs: seq<Chunk>)
    requires |head| == 33 && AllFramed(cs)
    ensures Detect(head + Frames(cs), Walk(33, [0, 0, 0, 0], [0, 0, 0, 0], 0, 0)) == (FirstIdat(cs, 33), IdatTotal(cs))
  {
    var file := head + Frames(cs);
    assert file[33..] == Frames(cs) + [];
    FramesAt(file, 33, cs, Frames(cs), []);
    DetectChunks(file, cs, Walk(33, [0, 0, 0, 0], [0, 0, 0, 0], 0, 0));
    ChunkWalkFinds(cs, Walk(33, [0, 0, 0, 0], [0, 0, 0, 0], 0, 0));
  }

  /** The data of a run of chunks, one after another. */
  function Payloads(cs: seq<Chunk>): seq<byte>
  {
    if cs == [] then [] else cs[0].data + Payloads(cs[1..])
  }

  lemma {:induction false} PayloadsAppend(a: seq<Chunk>, b: seq<Chunk>)
    ensures Payloads(a + b) == Payloads(a) + Payloads(b)
  {
    if a == [] {
      assert a + b == b;
    } else {
      assert (a + b)[1..] == a[1..] + b;
      PayloadsAppend(a[1..], b);
    }
  }

  /** One more chunk of a run adds its data to the run's data, which stay within the whole
      run's. */
  lemma PayloadsStep(run: seq<Chunk>, k: nat)
    requires k < |run|
    ensures Payloads(run[..k + 1]) == Payloads(run[..k]) + run[k].data
    ensures |Payloads(run[..k + 1])| <= |Payloads(run)|
  {
    assert run[..k + 1] == run[..k] + [run[k]];
    PayloadsAppend(run[..k], [run[k]]);
    assert Payloads([run[k]]) == run[k].data + Payloads([]);
    assert run == run[..k + 1] + run[k + 1..];
    PayloadsAppend(run[..k + 1], run[k + 1..]);
  }

  /** Any prefix of the data area of a chunk laid out at `pos` is that prefix of its data. */
  lemma DataPrefix(file: seq<byte>, pos: nat, c: Chunk, n: nat)
    requires ChunkAt(file, pos, c) && n <= |c.data|
    ensures file[pos + 8..pos + 8 + n] == c.data[..n]
  {
    assert file[pos + 8..pos + 8 + n] == file[pos + 8..pos + 8 + |c.data|][..n];
  }

  /** The destination after `CopyIDATsBuffer`: the run's data, then as much of the final
      chunk's data as there is room for, then what it held before. */
  ghost predicate Filled(length: nat, initial: seq<byte>, run: seq<Chunk>, last: Chunk, after: seq<byte>)
    requires |initial| == length && |Payloads(run)| <= length
  {
    var t := |Payloads(run)|;
    var k := Min(|last.data|, length - t);
    after == Payloads(run) + last.data[..k] + initial[t + k..]
  }

  /** `data` copied into `buffer` from `p`, as much of it as there is room for. */
  function CopyAt(buffer: seq<byte>, p: nat, data: seq<byte>): (r: seq<byte>)
    ensures |r| == |buffer|
    ensures forall i :: 0 <= i < |r| && !(p <= i < p + |data|) ==> r[i] == buffer[i]
    ensures forall i :: p <= i < |r| && i < p + |data| ==> r[i] == data[i - p]
  {
    var n := Min(|data|, Max(0, |buffer| - p));
    if n == 0 then buffer else buffer[..p] + data[..n] + buffer[p + n..]
  }

  /** One iteration of `CopyIDATsBuffer`, chunk `k` of the run followed by the final chunk:
      its data land behind those of the chunks before it. */
  lemma FillStep(length: nat, initial: seq<byte>, run: seq<Chunk>, last: Chunk, k: nat, before: seq<byte>, after: seq<byte>)
    requires k <= |run| && |initial| == length && |Payloads(run)| <= length
    requires |Payloads(run[..k])| <= length && before == Payloads(run[..k]) + initial[|Payloads(run[..k])|..]
    requires after == CopyAt(before, |Payloads(run[..k])|, (run + [last])[k].data)
    ensures k < |run| ==> (|Payloads(run[..k + 1])| == |Payloads(run[..k])| + |run[k].data| <= length
      && after == Payloads(run[..k + 1]) + initial[|Payloads(run[..k + 1])|..])
    ensures k == |run| ==> Filled(length, initial, run, last, after)
  {
    var a := Payloads(run[..k]);
    var data := (run + [last])[k].data;
    CopyBehind(a, initial, data);
    if k < |run| {
      PayloadsStep(run, k);
      assert (run + [last])[k] == run[k];
      assert data[..|data|] == data;
    } else {
      assert (run + [last])[k] == last && run[..k] == run;
    }
  }

  /** Data copied in right behind a prefix `a` of the buffer: as much of it as there is room
      for, then the rest of the buffer. */
  lemma CopyBehind(a: seq<byte>, initial: seq<byte>, data: seq<byte>)
    requires |a| <= |initial|
    ensures var n := Min(|data|, |initial| - |a|);
      CopyAt(a + initial[|a|..], |a|, data) == a + data[..n] + initial[|a| + n..]
  {
    var n := Min(|data|, |initial| - |a|);
    var b := a + initial[|a|..];
    assert b[..|a|] == a;
    assert b[|a| + n..] == initial[|a| + n..];
  }

  /** The bytes of the name `PLTE`. */
  const PlteField: seq<byte> := [0x50, 0x4C, 0x54, 0x45]

  /** How many bytes the palette buffer of `ConvertToRGBA` holds: three for each of the 256
      entries an 8-bit index can address (section 4.1.2 of RFC 2083). */
  const PaletteCapacity: nat := 768

  /** Entry `j` of a palette payload: the opaque colour of bytes `3j` to `3j + 2`. */
  function Entry(payload: seq<byte>, j: nat): RGBA
    requires 3 * j + 2 < |payload|
  {
    RGBA(payload[3 * j], payload[3 * j + 1], payload[3 * j + 2], 255)
  }

  /** The 256-entry table that a `PLTE` payload fills: its entries in order, then zero. */
  function PaletteTable(payload: seq<byte>): (t: seq<RGBA>)
    requires |payload| % 3 == 0
    ensures |t| == 256
  {
    seq(256, j requires 0 <= j < 256 => if 3 * j < |payload| then Entry(payload, j) else Zero)
  }

  /** The table the palette loop of `ConvertToRGBA` leaves as written, storing entry `i / 3` of
      the payload at index `i % 2`: only indices 0 and 1 are ever written, each by the last
      entry whose offset has that parity. */
  function WrittenTable(payload: seq<byte>): (t: seq<RGBA>)
    requires |payload| % 3 == 0
    ensures |t| == 256
    decreases |payload|
  {
    if payload == [] then seq(256, _ => Zero)
    else
      var i := |payload| - 3;
      WrittenTable(payload[..i])[i % 2 := Entry(payload, i / 3)]
  }

  /** What `ConvertToRGBA` makes of the chunk that follows the header: the palette table
      of a `PLTE` chunk, `FileLoadException` for an `IDAT` chunk or a `PLTE` length that is not
      a multiple of 3, `ArgumentOutOfRangeException` for a length past the palette buffer,
      and a table of zeros for any other chunk. The length is read big-endian; the payload is
      whatever the file holds there, the buffer's zeros past the end of the file. */
  function PaletteOf(file: seq<byte>, capacity: nat, written: bool): (r: Result<seq<RGBA>>)
    ensures r.Ok? ==> |r.value| == 256
  {
    var lb := Overlay([0, 0, 0, 0], file, 33);
    var p1 := 33 + Available(file, 33, 4);
    var nb := Overlay([0, 0, 0, 0], file, p1);
    var p2 := p1 + Available(file, p1, 4);
    var cLen := ReadBigEndian32(lb);
    if nb == IdatField then Err(FileLoad)
    else if nb != PlteField then Ok(seq(256, _ => Zero))
    else if cLen % 3 != 0 then Err(FileLoad)
    else if cLen > capacity then Err(ArgumentOutOfRange)
    else
      var payload := Overlay(seq(cLen, _ => 0), file, p2);
      Ok(if written then WrittenTable(payload) else PaletteTable(payload))
  }

  /** The table a palette of `colors` gives: each entry made opaque, zeros after them. */
  function OpaqueTable(colors: seq<RGBA>): (t: seq<RGBA>)
    requires |colors| <= 256
    ensures |t| == 256
  {
    seq(256, j requires 0 <= j < 256 => if j < |colors| then PNGPalettes.Opaque(colors[j]) else Zero)
  }

  /** A file whose first chunk after the 33 bytes of signature and header is the `PLTE` chunk
      `PNGPalette.CopyTo` writes for `colors`. */
  function PaletteFile(head: seq<byte>, colors: seq<RGBA>, rest: seq<byte>): seq<byte>
    requires |colors| <= 256
  {
    head + (Frame(PlteField, PNGPalettes.PalettePayload(colors)) + rest)
  }

  /** Where the length, the name and the payload of that chunk lie. */
  lemma PaletteFileFields(head: seq<byte>, colors: seq<RGBA>, rest: seq<byte>)
    requires |head| == 33 && |colors| <= 256
    ensures var file, payload := PaletteFile(head, colors, rest), PNGPalettes.PalettePayload(colors);
      41 + |payload| <= |file| && ReadBigEndian32(file[33..37]) == |payload|
      && file[37..41] == PlteField && file[41..41 + |payload|] == payload
  {
    var payload := PNGPalettes.PalettePayload(colors);
    ChunkFields(head, payload, rest);
    BigEndian32RoundTrip(|payload|);
  }

  /** The same for any payload that fits a palette. */
  lemma ChunkFields(head: seq<byte>, payload: seq<byte>, rest: seq<byte>)
    requires |head| == 33 && |payload| <= 768
    ensures var file := head + (Frame(PlteField, payload) + rest);
      41 + |payload| <= |file| && file[33..37] == BigEndian32(|payload|)
      && file[37..41] == PlteField && file[41..41 + |payload|] == payload
  {
    var tail := Frame(PlteField, payload) + rest;
    var file := head + tail;
    PlteFrameFields(payload, rest, tail);
    FieldsAfterHead(head, tail, file, |payload|);
    assert file[33..37] == tail[0..4] == BigEndian32(|payload|);
    assert file[37..41] == tail[4..8] == PlteField;
    assert file[41..41 + |payload|] == tail[8..8 + |payload|] == payload;
  }

  /** The same fields within the chunk followed by the rest of the file. */
  lemma PlteFrameFields(payload: seq<byte>, rest: seq<byte>, tail: seq<byte>)
    requires |payload| <= 768 && tail == Frame(PlteField, payload) + rest
    ensures 8 + |payload| <= |tail| && tail[0..4] == BigEndian32(|payload|)
    ensures tail[4..8] == PlteField && tail[8..8 + |payload|] == payload
  {
    var crc := BigEndian32(Crc32(PlteField + payload));
    FrameSlices(PlteField, payload, crc, rest);
  }

  /** Slices of `tail` at an offset of 33 bytes. */
  lemma FieldsAfterHead(head: seq<byte>, tail: seq<byte>, file: seq<byte>, n: nat)
    requires |head| == 33 && 8 + n <= |tail| && file == head + tail
    ensures 41 + n <= |file| && file[33..37] == tail[0..4] && file[37..41] == tail[4..8]
    ensures file[41..41 + n] == tail[8..8 + n]
  {
    SliceAfter(head, tail, 0, 4);
    SliceAfter(head, tail, 4, 8);
    SliceAfter(head, tail, 8, 8 + n);
  }

  lemma SliceAfter(head: seq<byte>, tail: seq<byte>, a: nat, b: nat)
    requires a <= b <= |tail|
    ensures (head + tail)[|head| + a..|head| + b] == tail[a..b]
  {
  }

  /** Corrected reading: the palette `PNGPalette.CopyTo` writes reads back, each entry made
      opaque, under the corrected table `PaletteOf(file, 768, false)` with which the model's
      `ConvertToRGBA` recolours. As written the table loses entries (`WrittenTableLosesEntries`). */
  lemma PaletteOfFile(head: seq<byte>, colors: seq<RGBA>, rest: seq<byte>)
    requires |head| == 33 && |colors| <= 256
    ensures PaletteOf(PaletteFile(head, colors, rest), PaletteCapacity, false) == Ok(OpaqueTable(colors))
  {
    var file, payload := PaletteFile(head, colors, rest), PNGPalettes.PalettePayload(colors);
    PaletteFileFields(head, colors, rest);
    assert Overlay([0, 0, 0, 0], file, 33) == file[33..37];
    assert Overlay([0, 0, 0, 0], file, 37) == PlteField;
    assert Overlay(seq(|payload|, _ => 0), file, 41) == payload;
    assert PaletteOf(file, PaletteCapacity, false) == Ok(PaletteTable(payload));
    PaletteTableOf(colors);
  }

  /** The table of a written payload is the opaque palette. */
  lemma PaletteTableOf(colors: seq<RGBA>)
    requires |colors| <= 256
    ensures PaletteTable(PNGPalettes.PalettePayload(colors)) == OpaqueTable(colors)
  {
    var t := PaletteTable(PNGPalettes.PalettePayload(colors));
    forall j | 0 <= j < 256 ensures t[j] == OpaqueTable(colors)[j] {
      if j < |colors| {
        PNGPalettes.PayloadAt(colors, j);
      }
    }
  }

  /** As written, the palette lands in a buffer of 256 bytes: a palette of 86 or more
      entries, which `PaletteOfFile` reads back, fails with `ArgumentOutOfRange`. */
  lemma LargePaletteRefused(head: seq<byte>, colors: seq<RGBA>, rest: seq<byte>)
    requires |head| == 33 && 86 <= |colors| <= 256
    ensures PaletteOf(PaletteFile(head, colors, rest), 256, true) == Err(ArgumentOutOfRange)
  {
    var file, payload := PaletteFile(head, colors, rest), PNGPalettes.PalettePayload(colors);
    PaletteFileFields(head, colors, rest);
    assert Overlay([0, 0, 0, 0], file, 37) == PlteField;
  }

  /** As written, entry `i / 3` of the payload is stored at index `i % 2` of the table, so
      every index from 2 on stays zero, and from three entries on the table differs from the
      one the payload describes. */
  lemma {:induction false} WrittenTableLosesEntries(payload: seq<byte>)
    requires |payload| % 3 == 0
    ensures forall j :: 2 <= j < 256 ==> WrittenTable(payload)[j] == Zero
    ensures |payload| >= 9 ==> WrittenTable(payload)[2] != PaletteTable(payload)[2]
    decreases |payload|
  {
    if payload != [] {
      WrittenTableLosesEntries(payload[..|payload| - 3]);
    }
  }

  /** The colour a pixel takes from the table: the entry its red channel indexes. */
  function Lookup(table: seq<RGBA>): (f: RGBA -> RGBA)
    requires |table| == 256
    ensures forall p :: f(p) == table[p.r]
  {
    (p: RGBA) => table[p.r]
  }

  /** The palette loop of `ConvertToRGBA`, corrected: it stores entry `i / 3` of the buffer at
      index `i / 3` of a zeroed 256-entry table, where the code as written stores it at index
      `i % 2` (`WrittenTable`). */
  method FillPalette(paletteBuff: seq<byte>, cLen: nat) returns (palette: seq<RGBA>)
    requires cLen % 3 == 0 && cLen <= |paletteBuff| && cLen <= PaletteCapacity
    ensures palette == PaletteTable(paletteBuff[..cLen])
  {
    palette := seq(256, _ => Zero);
    var i := 0;
    while i < cLen
      invariant i % 3 == 0 && i <= cLen && |palette| == 256
      invariant forall j :: 0 <= j < 256 ==> palette[j] == if 3 * j < i then Entry(paletteBuff, j) else Zero
    {
      palette := palette[i / 3 := RGBA(paletteBuff[i], paletteBuff[i + 1], paletteBuff[i + 2], 255)];
      i := i + 3;
    }
    ghost var t := PaletteTable(paletteBuff[..cLen]);
    forall j | 0 <= j < 256 ensures palette[j] == t[j] {
      if 3 * j < cLen {
        assert Entry(paletteBuff[..cLen], j) == Entry(paletteBuff, j);
      }
    }
  }

  /** One step of the pixel loops of `ConvertToRGBA`: pixel `k` of the row-major order takes
      its colour from the table. */
  method RecolorPixel(png: Image, palette: seq<RGBA>, x: u32, y: u32, ghost orig: seq<seq<RGBA>>, ghost k: nat)
    requires png.Valid() && |palette| == 256
    requires var (w, h) := png.Scale();
      x < w && y < h && k == y as nat * w as nat + x as nat && Grid.IsGrid(orig, w, h)
      && png.Pixels() == Grid.MapCells(orig, Lookup(palette), w, h, k)
    modifies png.buffer.buffer.ptr
    ensures png.Valid() && png.Scale() == old(png.Scale())
    ensures var (w, h) := png.Scale();
      png.Pixels() == Grid.MapCells(orig, Lookup(palette), w, h, k + 1)
  {
    Grid.MapStep(orig, Lookup(palette), png.Scale().0, png.Scale().1, x, y, k);
    var px := png.Get(x, y).value;
    SetMapped(png, x, y, palette[px.r], Lookup(palette), orig, k);
  }

  /** The two pixel loops of `ConvertToRGBA`: in row-major order each pixel becomes the table
      entry its red channel indexes. */
  method Recolor(png: Image, palette: seq<RGBA>)
    requires png.Valid() && |palette| == 256
    modifies png.buffer.buffer.ptr
    ensures png.Valid() && png.Scale() == old(png.Scale())
    ensures var (w, h) := png.Scale();
      png.Pixels() == Grid.Map(old(png.Pixels()), Lookup(palette), w, h)
  {
    ghost var (w, h) := png.Scale();
    ghost var orig := png.Pixels();
    Grid.MapNone(orig, Lookup(palette), w, h);
    ghost var k := 0;
    var y: u32 := 0;
    while y < png.Scale().1
      invariant png.Valid() && png.Scale() == (w, h) && y <= h && k == y * w
      invariant png.Pixels() == Grid.MapCells(orig, Lookup(palette), w, h, k)
    {
      var x: u32 := 0;
      while x < png.Scale().0
        invariant png.Valid() && png.Scale() == (w, h) && x <= w && k == y * w + x
        invariant png.Pixels() == Grid.MapCells(orig, Lookup(palette), w, h, k)
      {
        RecolorPixel(png, palette, x, y, orig, k);
        x := x + 1;
        k := k + 1;
      }
      assert (y + 1) * w == y * w + w;
      y := y + 1;
    }
    assert y as nat == h;
    assert k == h * w;
    Grid.MapAll(orig, Lookup(palette), w, h);
  }

  /** The cursor of the scanline loop: pixel `(x, y)` is pixel `k` in row-major order, its
      bytes start at `i` and `filter` is the filter byte of its row. */
  ghost predicate Cursor(decoded: seq<byte>, w: nat, h: nat, ch: nat, filter: byte, x: nat, y: nat, i: nat, k: nat)
  {
    x <= w && y < h && i == y * LineLength(w, ch) + 1 + x * ch && k == y * w + x
    && y * LineLength(w, ch) < |decoded| && filter == decoded[y * LineLength(w, ch)]
  }

  /** The start of a turn of the reconstruction loop: when the byte index has reached the end
      of a row, the next row's filter type is taken and the cursor moves to that row's first
      pixel. Afterwards the cursor is on a pixel. */
  method NextCursor(decoded: seq<byte>, ghost w: nat, ghost h: nat, ch: byte, lineLength: u32, currentFilter: byte,
                    x: u32, y: u32, i: nat, ghost k: nat)
    returns (filter': byte, x': u32, y': u32, i': nat)
    requires 1 <= ch <= 4 && 1 <= w && h <= 0x8000_0000 && |decoded| == h * LineLength(w, ch)
    requires lineLength as nat == LineLength(w, ch) && i < |decoded| && Cursor(decoded, w, h, ch, currentFilter, x, y, i, k)
    ensures Cursor(decoded, w, h, ch, filter', x', y', i', k) && x' < w && i' >= i
  {
    filter', x', y', i' := currentFilter, x, y, i;
    ScanColumn(x, y, w, ch);
    if i' % lineLength as nat == 0 {
      NextRow(y, w, h, ch);
      filter' := decoded[i'];
      x' := 0;
      y' := y' + 1;
      i' := i' + 1;
    }
  }

  class PNGReader {
    const file: seq<byte>
    var position: nat
    const decoder: PNGFilter

    /** `new PNGReader(path)`: the file opened at its start and a decoding filter. */
    constructor (file: seq<byte>)
      ensures this.file == file && position == 0 && decoder.isDecode
    {
      this.file := file;
      position := 0;
      decoder := new PNGFilter(true);
    }

    /** `_source.Read(buffer)` into a stack buffer: the stream advances by the bytes read. */
    method Read(buffer: seq<byte>) returns (r: seq<byte>)
      modifies this`position
      ensures r == Overlay(buffer, file, old(position))
      ensures position == old(position) + Available(file, old(position), |buffer|)
    {
      var k := Available(file, position, |buffer|);
      r := if k == 0 then buffer else file[position..position + k] + buffer[k..];
      position := position + k;
    }

    /** `_source.ReadByte()`: throws `EndOfStreamException` at the end of the file. */
    method ReadByte() returns (r: Result<byte>)
      modifies this`position
      ensures r.Err? <==> old(position) >= |file|
      ensures r.Err? ==> r.error == EndOfStream && position == old(position)
      ensures r.Ok? ==> r.value == file[old(position)] && position == old(position) + 1
    {
      if position >= |file| {
        return Err(EndOfStream);
      }
      r := Ok(file[position]);
      position := position + 1;
    }

    /** `IsPNG`: the first eight bytes are the signature. A shorter file leaves zeros in the
        zeroed buffer, and the signature ends in `0A`, so it is refused. */
    method IsPNG() returns (b: bool)
      modifies this`position
      ensures b <==> |file| >= 8 && file[..8] == Signature
      ensures position == Min(8, |file|)
    {
      var buffer: seq<byte> := [0, 0, 0, 0, 0, 0, 0, 0];
      position := 0;
      buffer := Read(buffer);
      b := buffer == Signature;
      if |file| < 8 {
        assert buffer[7] != Signature[7];
      }
    }

    /** `ReadHeaderEntry(name)`: from offset 16, the width as a big-endian `u32` read into a
        zeroed four-byte buffer, the height four bytes further, the depth eight bytes
        further and the colour type nine bytes further. `ReadByte` throws past the end of
        the file. An unknown entry gives 0, the `default` of the entry's type. */
    method ReadHeaderEntry(name: byte) returns (r: Result<nat>)
      modifies this`position
      ensures name == SCALE_X ==> r == Ok(ReadBigEndian32(Overlay([0, 0, 0, 0], file, 16)))
      ensures name == SCALE_Y ==> r == Ok(ReadBigEndian32(Overlay([0, 0, 0, 0], file, 20)))
      ensures name == DEPTH ==> r == if 24 < |file| then Ok(file[24] as nat) else Err(EndOfStream)
      ensures name == COLOR_MODE ==> r == if 25 < |file| then Ok(file[25] as nat) else Err(EndOfStream)
      ensures name > DEPTH ==> r == Ok(0)
    {
      var stackBuff: seq<byte> := [0, 0, 0, 0];
      position := 16;
      if name == SCALE_X {
        stackBuff := Read(stackBuff);
        // `Reverse` followed by the little-endian `ToUInt32` is the big-endian reading
        r := Ok(ReadBigEndian32(stackBuff));
      } else if name == SCALE_Y {
        position := position + 4;
        stackBuff := Read(stackBuff);
        r := Ok(ReadBigEndian32(stackBuff));
      } else if name == DEPTH {
        position := position + 8;
        var depth := ReadByte();
        r := if depth.Ok? then Ok(depth.value as nat) else Err(depth.error);
      } else if name == COLOR_MODE {
        position := position + 9;
        var colorMode := ReadByte();
        r := if colorMode.Ok? then Ok(colorMode.value as nat) else Err(colorMode.error);
      } else {
        r := Ok(0);
      }
    }

    /** `DetectIDATs`: the walk from offset 33 with zeroed buffers. The `u64` sum is unbounded
        here. */
    method DetectIDATs() returns (first: nat, length: nat)
      modifies this`position
      ensures (first, length) == Detect(file, Walk(33, [0, 0, 0, 0], [0, 0, 0, 0], 0, 0))
    {
      position := 33;
      var name: seq<byte> := [0, 0, 0, 0];
      var lengthBuf: seq<byte> := [0, 0, 0, 0];
      first, length := 0, 0;
      while |file| > position
        invariant WalkShape(Walk(position, lengthBuf, name, first, length))
        invariant Detect(file, Walk(position, lengthBuf, name, first, length))
          == Detect(file, Walk(33, [0, 0, 0, 0], [0, 0, 0, 0], 0, 0))
        decreases |file| - position
      {
        ghost var w := Walk(position, lengthBuf, name, first, length);
        lengthBuf, name, first, length := DetectStep(lengthBuf, name, first, length);
        assert Walk(position, lengthBuf, name, first, length) == WalkStep(file, w);
      }
    }

    /** One iteration of `DetectIDATs`' loop. */
    method DetectStep(lengthBuf: seq<byte>, name: seq<byte>, first: nat, length: nat)
      returns (lengthBuf': seq<byte>, name': seq<byte>, first': nat, length': nat)
      requires WalkShape(Walk(position, lengthBuf, name, first, length))
      modifies this`position
      ensures Walk(position, lengthBuf', name', first', length')
        == WalkStep(file, Walk(old(position), lengthBuf, name, first, length))
    {
      ghost var w := Walk(position, lengthBuf, name, first, length);
      lengthBuf' := Read(lengthBuf);
      ghost var p1 := position;
      name' := Read(name);
      ghost var lb, nb, p2 := lengthBuf', name', position;
      // `Reverse` followed by the little-endian `ToUInt32` is the big-endian reading
      var len := ReadBigEndian32(lengthBuf');
      lengthBuf' := Reversed(lengthBuf');
      IdatName(name');
      first', length' := first, length;
      if FieldName(name') == "IDAT" {
        if first == 0 {
          first' := position - 8;
        }
        length' := length + len;
      }
      position := position + len + 4;
      WalkStepOf(file, w, lb, p1, nb, p2);
    }

    /** `_source.Read(destination.AsSpan(from, length))`: the view receives what the file
        still holds, up to the view's length, and the stream advances by as much. */
    method ReadInto(destination: Memory.UMem<byte>, from: nat, length: nat) returns (n: nat)
      requires Memory.Valid(destination)
      modifies this`position, destination.ptr
      ensures n == Available(file, old(position), Memory.AsSpan(destination, from, length).count)
      ensures position == old(position) + n
      ensures n == 0 ==> Memory.Contents(destination) == old(Memory.Contents(destination))
      ensures n > 0 ==> (from + n <= destination.length && old(position) + n <= |file|
        && Memory.Contents(destination) == old(Memory.Contents(destination))[..from]
          + file[old(position)..old(position) + n] + old(Memory.Contents(destination))[from + n..])
    {
      var span := Memory.AsSpan(destination, from, length);
      n := Available(file, position, span.count);
      if n > 0 {
        var a := destination.ptr;
        ghost var before := a[..destination.length];
        forall i | from <= i < from + n {
          a[i] := file[position + i - from];
        }
        assert a[..destination.length] == before[..from] + file[position..position + n] + before[from + n..];
        position := position + n;
      }
    }

    /** The two reads that open an iteration of `CopyIDATsBuffer` over a whole chunk: its
        length and its name land in the stack buffers. */
    method ReadChunkHead(length: seq<byte>, name: seq<byte>, ghost c: Chunk)
      returns (lengthAfter: seq<byte>, nameAfter: seq<byte>, idatLen: nat)
      requires |length| == 4 && |name| == 4 && ChunkAt(file, position, c)
      modifies this`position
      ensures nameAfter == c.field && idatLen == |c.data| && |lengthAfter| == 4
      ensures position == old(position) + 8
    {
      lengthAfter := Read(length);
      nameAfter := Read(name);
      // `Reverse` followed by `ToInt32`: the big-endian reading, below 2^31 for this chunk
      idatLen := ReadBigEndian32(lengthAfter);
      lengthAfter := Reversed(lengthAfter);
    }

    /** One iteration of `CopyIDATsBuffer` over a whole chunk at the stream position: its
        length and its name land in the stack buffers, its data in the destination from
        `bufferPosition` as far as there is room (`copied` bytes, the count `Read` returns and
        the source discards), and the stream then skips 4 bytes. That is
        past the CRC when the destination took the whole payload; otherwise the stream stops
        4 bytes after what was read, inside the chunk. */
    method CopyChunk(destination: Memory.UMem<byte>, bufferPosition: nat, length: seq<byte>, name: seq<byte>,
                     ghost c: Chunk) returns (lengthAfter: seq<byte>, nameAfter: seq<byte>, idatLen: nat, copied: nat)
      requires Memory.Valid(destination) && |length| == 4 && |name| == 4
      requires ChunkAt(file, position, c)
      modifies this`position, destination.ptr
      ensures nameAfter == c.field && idatLen == |c.data| && |lengthAfter| == 4
      ensures copied == Min(|c.data|, Max(0, destination.length - bufferPosition)) && position == old(position) + 12 + copied
      ensures bufferPosition + |c.data| <= destination.length ==> copied == |c.data|
      ensures Memory.Contents(destination) == CopyAt(old(Memory.Contents(destination)), bufferPosition, c.data)
    {
      ghost var p := position;
      lengthAfter, nameAfter, idatLen := ReadChunkHead(length, name, c);
      copied := ReadInto(destination, bufferPosition, idatLen);
      DataPrefix(file, p, c, copied);
      position := position + 4;
    }

    /** One pass of the `do`-`while` loop of `CopyIDATsBuffer`, over chunk `k` of the run
        `run + [last]` that starts at `start`: an `IDAT` of the run appends its data behind the
        data of the ones before it and leaves the stream at the next chunk; the final chunk
        completes the destination as `Filled` says. The name read is `IDAT` exactly when
        chunk `k` belongs to the run. */
    method CopyNext(start: nat, destination: Memory.UMem<byte>, bufferPosition: nat, length: seq<byte>, name: seq<byte>,
                    ghost run: seq<Chunk>, ghost last: Chunk, ghost end: nat, ghost initial: seq<byte>, ghost k: nat)
      returns (lengthAfter: seq<byte>, nameAfter: seq<byte>, idatLen: nat)
      requires Memory.Valid(destination) && |length| == 4 && |name| == 4
      requires ChunksTo(file, start, run + [last], end)
      requires !IsIdat(last) && forall j :: 0 <= j < |run| ==> IsIdat(run[j])
      requires |Payloads(run)| <= destination.length == |initial|
      requires k <= |run| && position == Offset(start, run + [last], k)
      requires bufferPosition == |Payloads(run[..k])| <= destination.length
      requires Memory.Contents(destination) == Payloads(run[..k]) + initial[bufferPosition..]
      modifies this`position, destination.ptr
      ensures |lengthAfter| == 4 && |nameAfter| == 4 && (nameAfter == IdatField <==> k < |run|)
      ensures k < |run| ==> (position == Offset(start, run + [last], k + 1)
        && bufferPosition + idatLen == |Payloads(run[..k + 1])| <= destination.length
        && Memory.Contents(destination) == Payloads(run[..k + 1]) + initial[bufferPosition + idatLen..])
      ensures k == |run| ==> Filled(destination.length, initial, run, last, Memory.Contents(destination))
    {
      ghost var all := run + [last];
      ChunkAtOffset(file, start, all, end, k);
      ghost var before := Memory.Contents(destination);
      var copied;
      lengthAfter, nameAfter, idatLen, copied := CopyChunk(destination, bufferPosition, length, name, all[k]);
      IdatName(nameAfter);
      FillStep(destination.length, initial, run, last, k, before, Memory.Contents(destination));
    }

    /** `CopyIDATsBuffer(start, destination)` on a file that holds, from `start`, a run of
        `IDAT` chunks followed by a chunk of another name. The data of the run fill the
        destination one after another. The final chunk's data are also read, as far as the
        destination has room. That costs nothing when the destination is exactly as long as the
        run's data, as `DetectIDATs` makes it when the file's `IDAT` chunks are consecutive. */
    method CopyIDATsBuffer(start: nat, destination: Memory.UMem<byte>,
                           ghost run: seq<Chunk>, ghost last: Chunk, ghost end: nat)
      requires Memory.Valid(destination)
      requires ChunksTo(file, start, run + [last], end)
      requires !IsIdat(last) && forall k :: 0 <= k < |run| ==> IsIdat(run[k])
      requires |Payloads(run)| <= destination.length
      modifies this`position, destination.ptr
      ensures Filled(destination.length, old(Memory.Contents(destination)), run, last, Memory.Contents(destination))
    {
      var IDAT: seq<byte> := [0x49, 0x44, 0x41, 0x54];
      var name: seq<byte> := [0, 0, 0, 0];
      var length: seq<byte> := [0, 0, 0, 0];
      var bufferPosition: nat := 0;
      ghost var initial := Memory.Contents(destination);
      ghost var all := run + [last];
      position := start;
      ghost var k := 0;
      var going := true;
      assert IDAT == IdatField && run[..0] == [] && initial[0..] == initial;
      while going
        invariant Memory.Valid(destination) && |name| == 4 && |length| == 4
        invariant k <= |run| + 1 && (going <==> k <= |run|)
        invariant going ==> position == Offset(start, all, k)
        invariant going ==> bufferPosition == |Payloads(run[..k])| <= destination.length
        invariant going ==> Memory.Contents(destination) == Payloads(run[..k]) + initial[bufferPosition..]
        invariant !going ==> Filled(destination.length, initial, run, last, Memory.Contents(destination))
        decreases |run| + 1 - k
      {
        var idatLen;
        length, name, idatLen := CopyNext(start, destination, bufferPosition, length, name, run, last, end, initial, k);
        bufferPosition := bufferPosition + idatLen;
        going := name == IDAT;
        k := k + 1;
      }
    }

    /** The `switch` on the line's filter type: Sub and Up undo the filter with the pixel to
        the left or above, Avg and Paeth with their predictors, and any other type leaves the
        pixel as it is. */
    method Undo(filter: byte, ch: byte, up: RGBA, sub: RGBA, subUp: RGBA, raw: RGBA) returns (r: RGBA)
      requires decoder.isDecode
      ensures r == Filter(true, ch, Predictor(filter, up, sub, subUp), raw)
    {
      if filter == SUB {
        r := decoder.PrimitiveFilter(ch, sub, raw);
      } else if filter == UP {
        r := decoder.PrimitiveFilter(ch, up, raw);
      } else if filter == AVG {
        r := decoder.AvgFilter(ch, up, sub, raw);
      } else if filter == PAETH {
        r := decoder.PaethFilter(ch, up, sub, subUp, raw);
      } else {
        ZeroPredictorIdentity(true, ch, raw);
        r := raw;
      }
    }

    /** The body of the reconstruction loop of `ReadBuffer` at pixel `(x, y)`, whose bytes start
        at `i` of the decompressed buffer: `CopyFrom` reads them into the pixel, then the row's
        filter is undone in place with the neighbours above, to the left and above left, zero
        outside the image. */
    method UnfilterPixel(decoded: seq<byte>, target: Image, ch: byte, filter: byte, x: u32, y: u32, i: nat)
      requires decoder.isDecode && target.Valid() && 1 <= ch <= 4
      requires var (w, h) := target.Scale();
        x < w && y < h && |decoded| == h * LineLength(w, ch) && i == y * LineLength(w, ch) + 1 + x * ch
        && filter == decoded[y * LineLength(w, ch)]
      modifies target.buffer.buffer.ptr
      ensures target.Valid() && target.Scale() == old(target.Scale())
      ensures var (w, h) := target.Scale();
        target.Pixels() == old(target.Pixels())[y := old(target.Pixels())[y][x :=
          Unfiltered(decoded, old(target.Pixels()), w, h, ch, x, y)]]
    {
      ghost var (w, h) := target.Scale();
      ghost var g := target.Pixels();
      PixelInBounds(x, y, w, h, ch);
      var raw := CopyFrom(target.Get(x, y).value, decoded[i .. i + ch]);
      var _ := target.Set(x, y, raw);
      ghost var g' := target.Pixels();
      assert g' == g[y := g[y][x := raw]];
      var up := if y > 0 then target.Get(x, y - 1).value else Zero;
      var sub := if x > 0 then target.Get(x - 1, y).value else Zero;
      var subUp := if x > 0 && y > 0 then target.Get(x - 1, y - 1).value else Zero;
      assert up == Above(g, w, h, x, y) && sub == Left(g, w, h, x, y) && subUp == AboveLeft(g, w, h, x, y);
      var r := Undo(filter, ch, up, sub, subUp, raw);
      UnfilteredOf(decoded, g, w, h, ch, x, y, i, up, sub, subUp);
      var _ := target.Set(x, y, r);
      assert target.Pixels() == g'[y := g'[y][x := r]];
      Grid.UpdateTwice(g, x, y, raw, r);
    }

    /** `UnfilterPixel` at the `k`-th pixel in scanline order, when the pixels before it are
        reconstructed and the others untouched: afterwards it is reconstructed too. */
    method UnfilterNext(decoded: seq<byte>, target: Image, ch: byte, filter: byte, x: u32, y: u32, i: nat,
                        ghost orig: seq<seq<RGBA>>, ghost k: nat)
      requires decoder.isDecode && target.Valid() && 1 <= ch <= 4
      requires var (w, h) := target.Scale();
        x < w && y < h && |decoded| == h * LineLength(w, ch) && i == y * LineLength(w, ch) + 1 + x * ch
        && filter == decoded[y * LineLength(w, ch)] && k == y * w + x
        && Grid.IsGrid(orig, w, h) && target.Pixels() == Partial(decoded, orig, w, h, ch, k)
      modifies target.buffer.buffer.ptr
      ensures target.Valid() && target.Scale() == old(target.Scale())
      ensures var (w, h) := target.Scale();
        target.Pixels() == Partial(decoded, orig, w, h, ch, k + 1)
    {
      ghost var (w, h) := target.Scale();
      UnfilterPixel(decoded, target, ch, filter, x, y, i);
      PartialStep(decoded, orig, w, h, ch, x, y, k);
    }

    /** One turn of the loop of `ReadBuffer`: at the end of a row the next filter byte is
        taken, then the pixel at the cursor is reconstructed and the cursor moves on. */
    method UnfilterTurn(decoded: seq<byte>, target: Image, channelCount: byte, lineLength: u32, currentFilter: byte,
                        x: u32, y: u32, i: nat, ghost orig: seq<seq<RGBA>>, ghost k: nat)
      returns (filter': byte, x': u32, y': u32, i': nat, ghost k': nat)
      requires decoder.isDecode && target.Valid() && 1 <= channelCount <= 4
      requires var (w, h) := target.Scale();
        1 <= w <= 0x8000_0000 && 1 <= h <= 0x8000_0000 && |decoded| == h * LineLength(w, channelCount) < 0x1_0000_0000
        && lineLength as nat == LineLength(w, channelCount) && i < |decoded|
        && Cursor(decoded, w, h, channelCount, currentFilter, x, y, i, k)
        && Grid.IsGrid(orig, w, h) && target.Pixels() == Partial(decoded, orig, w, h, channelCount, k)
      modifies target.buffer.buffer.ptr
      ensures target.Valid() && target.Scale() == old(target.Scale())
      ensures var (w, h) := target.Scale();
        Cursor(decoded, w, h, channelCount, filter', x', y', i', k')
        && i' > i && target.Pixels() == Partial(decoded, orig, w, h, channelCount, k')
    {
      ghost var (w, h) := target.Scale();
      filter', x', y', i' := NextCursor(decoded, w, h, channelCount, lineLength, currentFilter, x, y, i, k);
      UnfilterNext(decoded, target, channelCount, filter', x', y', i', orig, k);
      NextPixel(x', y', w, channelCount);
      x' := x' + 1;
      i' := i' + channelCount as nat;
      k' := k + 1;
    }

    /** The reconstruction loop of `ReadBuffer`: one index runs over the decompressed buffer a
        pixel at a time, and at the start of each line after the first it takes the line's
        filter type and moves to the next row. The target ends up holding the reconstructed
        image, whatever it held before. */
    method Unfilter(decoded: seq<byte>, target: Image, channelCount: byte)
      requires decoder.isDecode && target.Valid() && 1 <= channelCount <= 4
      requires var (w, h) := target.Scale();
        1 <= w <= 0x8000_0000 && 1 <= h <= 0x8000_0000 && |decoded| == h * LineLength(w, channelCount) < 0x1_0000_0000
      modifies target.buffer.buffer.ptr
      ensures target.Valid() && target.Scale() == old(target.Scale())
      ensures var (w, h) := target.Scale();
        target.Pixels() == ReconGrid(decoded, old(target.Pixels()), w, h, channelCount)
    {
      ghost var (w, h) := target.Scale();
      ghost var orig := target.Pixels();
      ghost var l := LineLength(w, channelCount);
      Grid.MulLe(1, h, l);
      var lineLength: u32 := target.Scale().0 * channelCount + 1;
      assert lineLength == l;
      var x: u32, y: u32 := 0, 0;
      var currentFilter := decoded[0];
      PartialNone(decoded, orig, w, h, channelCount);
      var i := 1;
      ghost var k := 0;
      while i < |decoded|
        invariant target.Valid() && target.Scale() == (w, h)
        invariant Cursor(decoded, w, h, channelCount, currentFilter, x, y, i, k)
        invariant target.Pixels() == Partial(decoded, orig, w, h, channelCount, k)
        decreases |decoded| - i
      {
        currentFilter, x, y, i, k := UnfilterTurn(decoded, target, channelCount, lineLength, currentFilter, x, y, i, orig, k);
      }
      ScanEnd(x, y, w, h, channelCount);
      PartialAll(decoded, orig, w, h, channelCount);
    }

    /** The first half of `ConvertToRGBA`, corrected: from offset 33 it reads the length and the
        name of the next chunk and, for a `PLTE` chunk, its payload into a palette buffer of
        `PaletteCapacity` (768) bytes and the buffer into the 256-entry table by `FillPalette`.
        The code as written reads into 256 bytes and stores entries at `i % 2`, which is
        `PaletteOf(file, 256, true)`. */
    method ReadPaletteTable() returns (r: Result<seq<RGBA>>)
      modifies this`position
      ensures r == PaletteOf(file, PaletteCapacity, false)
    {
      var plte := PlteField;
      var idat := IdatField;
      var name: seq<byte> := [0, 0, 0, 0];
      var len: seq<byte> := [0, 0, 0, 0];
      var palette: seq<RGBA> := seq(256, _ => Zero);
      var paletteBuff: seq<byte> := seq(PaletteCapacity, _ => 0);
      position := 33;
      len := Read(len);
      name := Read(name);
      if name == idat {
        return Err(FileLoad);
      }
      if name == plte {
        // `Reverse` followed by the little-endian `ToUInt32` is the big-endian reading
        var cLen := ReadBigEndian32(len);
        len := Reversed(len);
        if cLen % 3 != 0 {
          return Err(FileLoad);
        }
        if cLen > |paletteBuff| {
          return Err(ArgumentOutOfRange);
        }
        assert paletteBuff[..cLen] == seq(cLen, _ => 0);
        var read := Read(paletteBuff[..cLen]);
        paletteBuff := read + paletteBuff[cLen..];
        assert paletteBuff[..cLen] == read;
        palette := FillPalette(paletteBuff, cLen);
      }
      r := Ok(palette);
    }

    /** `ConvertToRGBA(png)`, corrected: the chunk after the header gives the palette table, and
        every pixel becomes the entry its red channel indexes. The table is built as the code
        evidently intends: entry `i / 3` at index `i / 3` and room for 256 entries; the code as
        written builds `PaletteOf(file, 256, true)`. An error leaves the pixels as they were. */
    method ConvertToRGBA(png: Image) returns (o: Outcome)
      requires png.Valid()
      modifies this`position, png.buffer.buffer.ptr
      ensures png.Valid() && png.Scale() == old(png.Scale())
      ensures var r := PaletteOf(file, PaletteCapacity, false);
        (r.Err? ==> o == Fail(r.error) && png.Pixels() == old(png.Pixels()))
        && (r.Ok? ==> o == Pass && png.Pixels() == Grid.Map(old(png.Pixels()), Lookup(r.value), png.Scale().0, png.Scale().1))
    {
      var table := ReadPaletteTable();
      if table.Err? {
        return Fail(table.error);
      }
      var palette := table.value;
      Recolor(png, palette);
      o := Pass;
    }
  }
}
