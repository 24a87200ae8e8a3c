/** The filtered-scanline layout shared by `PNGReader.ReadBuffer` and
    `PNGWriter.CreateFilteredBuffer`. Each of `h` rows is `w * ch + 1` bytes: the row's filter
    type, then each pixel's first `ch` channels as `RGBA.CopyTo` writes them. The encoder
    predicts from the source pixels; the decoder predicts from the pixels it has already
    decoded, in scanline order, and `Recon` is that computation. `ReconInverts` proves the
    two are inverse on the channels a pixel carries, whatever filter type each row uses. */
module Scanlines {
  import opened Common
  import opened Color
  import opened PNGFilters
  import Grid

  /** `PNGFilterType`. */
  const NONE: byte := 0
  const SUB: byte := 1
  const UP: byte := 2
  const AVG: byte := 3
  const PAETH: byte := 4

  /** The predictor each filter type selects from the neighbours above, to the left and above
      left; None and any unknown type predict zero, which leaves the pixel as it is. Paeth takes
      its arguments in the order `(up, sub, sub_up)`. */
  function Predictor(t: byte, up: RGBA, sub: RGBA, subUp: RGBA): RGBA
  {
    if t == SUB then sub
    else if t == UP then up
    else if t == AVG then AvgPredictor(up, sub)
    else if t == PAETH then PaethPixel(up, sub, subUp)
    else Zero
  }

  /** Channel `c` of a prediction depends only on channel `c` of the neighbours. */
  lemma ChannelwisePredictor(t: byte, up: RGBA, sub: RGBA, subUp: RGBA, up': RGBA, sub': RGBA, subUp': RGBA, c: nat)
    requires c < 4
    requires Channel(up, c) == Channel(up', c) && Channel(sub, c) == Channel(sub', c)
    requires Channel(subUp, c) == Channel(subUp', c)
    ensures Channel(Predictor(t, up, sub, subUp), c) == Channel(Predictor(t, up', sub', subUp'), c)
  {
  }

  function LineLength(w: nat, ch: nat): nat
  {
    w * ch + 1
  }

  /** `(q * m + r) / m == q` and `(q * m + r) % m == r` for a remainder below `m`. */
  lemma DivMod(q: nat, r: nat, m: nat)
    requires r < m
    ensures (q * m + r) / m == q && (q * m + r) % m == r
  {
    var z := q * m + r;
    if z / m > q {
      Grid.MulLe(q + 1, z / m, m);
    } else if z / m < q {
      Grid.MulLe(z / m + 1, q, m);
    }
  }

  lemma DivBelow(j: nat, m: nat, h: nat)
    requires j < h * m
    ensures m > 0 && j / m < h
  {
    if j / m >= h {
      Grid.MulLe(h, j / m, m);
    }
  }

  /** The bytes of pixel `(x, y)` lie inside the buffer. */
  lemma PixelInBounds(x: nat, y: nat, w: nat, h: nat, ch: nat)
    requires x < w && y < h
    ensures y * LineLength(w, ch) + 1 + x * ch + ch <= h * LineLength(w, ch)
  {
    Grid.MulLe(x + 1, w, ch);
    Grid.MulLe(y + 1, h, LineLength(w, ch));
  }

  lemma FilterByteInBounds(y: nat, w: nat, h: nat, ch: nat)
    requires y < h
    ensures y * LineLength(w, ch) < h * LineLength(w, ch)
  {
    Grid.MulLe(y + 1, h, LineLength(w, ch));
  }

  /** Byte `c` of pixel `(x, y)` sits at column `1 + x * ch + c` of row `y`. */
  lemma PixelByteIndex(x: nat, y: nat, c: nat, w: nat, ch: nat)
    requires x < w && c < ch
    ensures var j := y * LineLength(w, ch) + 1 + x * ch + c;
      j / LineLength(w, ch) == y && j % LineLength(w, ch) == 1 + x * ch + c &&
      (x * ch + c) / ch == x && (x * ch + c) % ch == c
  {
    Grid.MulLe(x + 1, w, ch);
    DivMod(y, 1 + x * ch + c, LineLength(w, ch));
    DivMod(x, c, ch);
  }

  /** The neighbours of a pixel, zero outside the image. */
  function Above(g: seq<seq<RGBA>>, w: nat, h: nat, x: nat, y: nat): RGBA
    requires Grid.IsGrid(g, w, h) && x < w && y < h
  {
    if y > 0 then g[y - 1][x] else Zero
  }

  function Left(g: seq<seq<RGBA>>, w: nat, h: nat, x: nat, y: nat): RGBA
    requires Grid.IsGrid(g, w, h) && x < w && y < h
  {
    if x > 0 then g[y][x - 1] else Zero
  }

  function AboveLeft(g: seq<seq<RGBA>>, w: nat, h: nat, x: nat, y: nat): RGBA
    requires Grid.IsGrid(g, w, h) && x < w && y < h
  {
    if x > 0 && y > 0 then g[y - 1][x - 1] else Zero
  }

  /** Pixel `(x, y)` encoded with its row's filter type, predicted from the source pixels. */
  function EncodedPixel(src: seq<seq<RGBA>>, types: seq<byte>, w: nat, h: nat, ch: nat, x: nat, y: nat): RGBA
    requires Grid.IsGrid(src, w, h) && |types| == h && x < w && y < h
  {
    Filter(false, ch, Predictor(types[y], Above(src, w, h, x, y), Left(src, w, h, x, y), AboveLeft(src, w, h, x, y)), src[y][x])
  }

  /** Byte `j` of the filtered buffer. */
  function EncodedByte(src: seq<seq<RGBA>>, types: seq<byte>, w: nat, h: nat, ch: nat, j: nat): byte
    requires Grid.IsGrid(src, w, h) && |types| == h && 1 <= ch <= 4 && j < h * LineLength(w, ch)
  {
    var l := LineLength(w, ch);
    RowColumn(j, w, h, ch);
    var y, k := j / l, j % l;
    if k == 0 then types[y]
    else Bytes(EncodedPixel(src, types, w, h, ch, (k - 1) / ch, y), ch)[(k - 1) % ch]
  }

  /** The row, column, pixel and channel of byte `j`. */
  lemma RowColumn(j: nat, w: nat, h: nat, ch: nat)
    requires 1 <= ch && j < h * LineLength(w, ch)
    ensures var l := LineLength(w, ch);
      0 <= j / l < h && j % l < l &&
      (j % l > 0 ==> 0 <= (j % l - 1) / ch < w && (j % l - 1) % ch < ch)
  {
    var l := LineLength(w, ch);
    DivBelow(j, l, h);
    if j % l > 0 {
      DivBelow(j % l - 1, ch, w);
    }
  }

  /** The whole filtered buffer, `h * (w * ch + 1)` bytes. */
  function Encoded(src: seq<seq<RGBA>>, types: seq<byte>, w: nat, h: nat, ch: nat): (d: seq<byte>)
    requires Grid.IsGrid(src, w, h) && |types| == h && 1 <= ch <= 4
    ensures |d| == h * LineLength(w, ch)
  {
    seq(h * LineLength(w, ch), j requires 0 <= j < h * LineLength(w, ch) => EncodedByte(src, types, w, h, ch, j))
  }

  /** Row `y` of the filtered buffer starts with the row's filter type. */
  lemma FilterTypeAt(src: seq<seq<RGBA>>, types: seq<byte>, w: nat, h: nat, ch: nat, y: nat)
    requires Grid.IsGrid(src, w, h) && |types| == h && 1 <= ch <= 4 && y < h
    ensures y * LineLength(w, ch) < h * LineLength(w, ch)
    ensures Encoded(src, types, w, h, ch)[y * LineLength(w, ch)] == types[y]
  {
    FilterByteInBounds(y, w, h, ch);
    DivMod(y, 0, LineLength(w, ch));
  }

  /** Byte `c` of pixel `(x, y)` is channel byte `c` of the encoded pixel. */
  lemma PixelByteAt(src: seq<seq<RGBA>>, types: seq<byte>, w: nat, h: nat, ch: nat, x: nat, y: nat, c: nat)
    requires Grid.IsGrid(src, w, h) && |types| == h && 1 <= ch <= 4 && x < w && y < h && c < ch
    ensures y * LineLength(w, ch) + 1 + x * ch + c < h * LineLength(w, ch)
    ensures Encoded(src, types, w, h, ch)[y * LineLength(w, ch) + 1 + x * ch + c] ==
      Bytes(EncodedPixel(src, types, w, h, ch, x, y), ch)[c]
  {
    PixelInBounds(x, y, w, h, ch);
    PixelByteIndex(x, y, c, w, ch);
    var l := LineLength(w, ch);
    var j := y * l + 1 + x * ch + c;
    assert j / l == y && j % l - 1 == x * ch + c;
    assert Encoded(src, types, w, h, ch)[j] == EncodedByte(src, types, w, h, ch, j);
  }

  /** The `ch` bytes of pixel `(x, y)` are what `CopyTo` writes for the encoded pixel. */
  lemma PixelAt(src: seq<seq<RGBA>>, types: seq<byte>, w: nat, h: nat, ch: nat, x: nat, y: nat)
    requires Grid.IsGrid(src, w, h) && |types| == h && 1 <= ch <= 4 && x < w && y < h
    ensures var s := y * LineLength(w, ch) + 1 + x * ch;
      s + ch <= h * LineLength(w, ch) &&
      Encoded(src, types, w, h, ch)[s .. s + ch] == Bytes(EncodedPixel(src, types, w, h, ch, x, y), ch)
  {
    PixelInBounds(x, y, w, h, ch);
    var s := y * LineLength(w, ch) + 1 + x * ch;
    var d := Encoded(src, types, w, h, ch);
    forall c | 0 <= c < ch ensures d[s .. s + ch][c] == Bytes(EncodedPixel(src, types, w, h, ch, x, y), ch)[c] {
      PixelByteAt(src, types, w, h, ch, x, y, c);
    }
  }

  /** The filter type byte at the start of row `y` of the buffer. */
  function RowFilter(d: seq<byte>, w: nat, h: nat, ch: nat, y: nat): byte
    requires |d| == h * LineLength(w, ch) && y < h
  {
    FilterByteInBounds(y, w, h, ch);
    d[y * LineLength(w, ch)]
  }

  /** The `ch` bytes of pixel `(x, y)` of the buffer. */
  function PixelBytes(d: seq<byte>, w: nat, h: nat, ch: nat, x: nat, y: nat): (b: seq<byte>)
    requires |d| == h * LineLength(w, ch) && x < w && y < h
    ensures |b| == ch
  {
    PixelInBounds(x, y, w, h, ch);
    var s := y * LineLength(w, ch) + 1 + x * ch;
    d[s .. s + ch]
  }

  /** `d` holds the filter type of every row and the filtered bytes of every pixel of `src`:
      what the filtered buffer provides to the reconstruction. */
  ghost predicate Carries(d: seq<byte>, src: seq<seq<RGBA>>, types: seq<byte>, w: nat, h: nat, ch: nat)
    requires Grid.IsGrid(src, w, h) && |types| == h && 1 <= ch <= 4 && |d| == h * LineLength(w, ch)
  {
    (forall y :: 0 <= y < h ==> RowFilter(d, w, h, ch, y) == types[y])
    && forall y, x :: 0 <= y < h && 0 <= x < w ==>
      PixelBytes(d, w, h, ch, x, y) == Bytes(EncodedPixel(src, types, w, h, ch, x, y), ch)
  }

  /** The filtered buffer carries what the reconstruction needs. */
  lemma EncodedCarries(src: seq<seq<RGBA>>, types: seq<byte>, w: nat, h: nat, ch: nat)
    requires Grid.IsGrid(src, w, h) && |types| == h && 1 <= ch <= 4
    ensures Carries(Encoded(src, types, w, h, ch), src, types, w, h, ch)
  {
    var d := Encoded(src, types, w, h, ch);
    forall y | 0 <= y < h ensures RowFilter(d, w, h, ch, y) == types[y] {
      FilterTypeAt(src, types, w, h, ch, y);
    }
    forall y, x | 0 <= y < h && 0 <= x < w
      ensures PixelBytes(d, w, h, ch, x, y) == Bytes(EncodedPixel(src, types, w, h, ch, x, y), ch)
    {
      PixelAt(src, types, w, h, ch, x, y);
    }
  }

  /** What the reconstruction loop leaves in pixel `(x, y)` when the buffer is `d` and the
      target held `orig` before: the pixel's bytes are copied in with `CopyFrom`, then the row's
      filter is undone with the predictor taken from the already reconstructed neighbours. */
  function Recon(d: seq<byte>, orig: seq<seq<RGBA>>, w: nat, h: nat, ch: nat, x: nat, y: nat): RGBA
    requires |d| == h * LineLength(w, ch) && Grid.IsGrid(orig, w, h) && x < w && y < h
    decreases y, x
  {
    var up := if y > 0 then Recon(d, orig, w, h, ch, x, y - 1) else Zero;
    var sub := if x > 0 then Recon(d, orig, w, h, ch, x - 1, y) else Zero;
    var subUp := if x > 0 && y > 0 then Recon(d, orig, w, h, ch, x - 1, y - 1) else Zero;
    Filter(true, ch, Predictor(RowFilter(d, w, h, ch, y), up, sub, subUp), CopyFrom(orig[y][x], PixelBytes(d, w, h, ch, x, y)))
  }

  /** The reconstructed image. */
  function ReconGrid(d: seq<byte>, orig: seq<seq<RGBA>>, w: nat, h: nat, ch: nat): (g: seq<seq<RGBA>>)
    requires |d| == h * LineLength(w, ch) && Grid.IsGrid(orig, w, h)
    ensures Grid.IsGrid(g, w, h)
  {
    seq(h, y requires 0 <= y < h => seq(w, x requires 0 <= x < w => Recon(d, orig, w, h, ch, x, y)))
  }

  /** One pixel: encoding with predictions from the source neighbours, writing the carried
      bytes, reading them into any pixel and decoding with predictions from neighbours that
      agree with the source ones on the carried channels gives back the carried channels. */
  lemma PixelRoundTrip(ch: nat, t: byte, up: RGBA, sub: RGBA, subUp: RGBA, up': RGBA, sub': RGBA, subUp': RGBA,
                       o: RGBA, p: RGBA)
    requires 1 <= ch <= 4
    requires SameCarried(ch, up, up') && SameCarried(ch, sub, sub') && SameCarried(ch, subUp, subUp')
    ensures var q := Filter(false, ch, Predictor(t, up', sub', subUp'), p);
      SameCarried(ch, Filter(true, ch, Predictor(t, up, sub, subUp), CopyFrom(o, Bytes(q, ch))), p)
  {
    var pred, pred' := Predictor(t, up, sub, subUp), Predictor(t, up', sub', subUp');
    var q := Filter(false, ch, pred', p);
    var raw := CopyFrom(o, Bytes(q, ch));
    CopyRoundTrip(q, o, Bytes(q, ch));
    var r := Filter(true, ch, pred, raw);
    forall c | 0 <= c < 4 && Carried(ch, c) ensures Channel(r, c) == Channel(p, c) {
      assert Channel(raw, c) == Channel(q, c);
      if c < ch {
        ChannelwisePredictor(t, up, sub, subUp, up', sub', subUp', c);
        ChannelBack(ch, c, p, pred, pred', raw);
      }
    }
  }

  /** A channel below the channel count, encoded with one predictor and decoded with another
      that agrees with it on that channel, comes back. */
  lemma ChannelBack(ch: nat, c: nat, p: RGBA, pred: RGBA, pred': RGBA, raw: RGBA)
    requires c < ch && c < 4 && Channel(pred, c) == Channel(pred', c)
    requires Channel(raw, c) == Channel(Filter(false, ch, pred', p), c)
    ensures Channel(Filter(true, ch, pred, raw), c) == Channel(p, c)
  {
    WrapInverse(Channel(p, c), Channel(pred', c));
    assert Channel(Filter(false, ch, pred', p), c) == Wrap8(Channel(p, c) as int - Channel(pred', c));
    assert Channel(Filter(true, ch, pred, raw), c) == Wrap8(Channel(raw, c) as int + Channel(pred, c));
  }

  /** `Recon` unfolded at a pixel of a buffer that carries `src`. */
  lemma ReconOfCarried(src: seq<seq<RGBA>>, types: seq<byte>, orig: seq<seq<RGBA>>,
                       w: nat, h: nat, ch: nat, x: nat, y: nat, d: seq<byte>, up: RGBA, sub: RGBA, subUp: RGBA)
    requires Grid.IsGrid(src, w, h) && Grid.IsGrid(orig, w, h) && |types| == h && 1 <= ch <= 4
    requires x < w && y < h && |d| == h * LineLength(w, ch) && Carries(d, src, types, w, h, ch)
    requires up == if y > 0 then Recon(d, orig, w, h, ch, x, y - 1) else Zero
    requires sub == if x > 0 then Recon(d, orig, w, h, ch, x - 1, y) else Zero
    requires subUp == if x > 0 && y > 0 then Recon(d, orig, w, h, ch, x - 1, y - 1) else Zero
    ensures Recon(d, orig, w, h, ch, x, y) ==
      Filter(true, ch, Predictor(types[y], up, sub, subUp), CopyFrom(orig[y][x], Bytes(EncodedPixel(src, types, w, h, ch, x, y), ch)))
  {
    assert RowFilter(d, w, h, ch, y) == types[y];
    assert PixelBytes(d, w, h, ch, x, y) == Bytes(EncodedPixel(src, types, w, h, ch, x, y), ch);
  }

  /** Decoding a buffer that carries `src` gives back every channel a pixel of `ch` bytes
      carries, for any previous contents of the target and any filter type per row. */
  lemma {:induction false} ReconInverts(src: seq<seq<RGBA>>, types: seq<byte>, orig: seq<seq<RGBA>>,
                                        w: nat, h: nat, ch: nat, d: seq<byte>, x: nat, y: nat)
    requires Grid.IsGrid(src, w, h) && Grid.IsGrid(orig, w, h) && |types| == h && 1 <= ch <= 4
    requires |d| == h * LineLength(w, ch) && Carries(d, src, types, w, h, ch) && x < w && y < h
    ensures SameCarried(ch, Recon(d, orig, w, h, ch, x, y), src[y][x])
    decreases y, x
  {
    var up := if y > 0 then Recon(d, orig, w, h, ch, x, y - 1) else Zero;
    var sub := if x > 0 then Recon(d, orig, w, h, ch, x - 1, y) else Zero;
    var subUp := if x > 0 && y > 0 then Recon(d, orig, w, h, ch, x - 1, y - 1) else Zero;
    if y > 0 {
      ReconInverts(src, types, orig, w, h, ch, d, x, y - 1);
    }
    assert SameCarried(ch, up, Above(src, w, h, x, y));
    if x > 0 {
      ReconInverts(src, types, orig, w, h, ch, d, x - 1, y);
    }
    assert SameCarried(ch, sub, Left(src, w, h, x, y));
    if x > 0 && y > 0 {
      ReconInverts(src, types, orig, w, h, ch, d, x - 1, y - 1);
    }
    assert SameCarried(ch, subUp, AboveLeft(src, w, h, x, y));
    ReconOfCarried(src, types, orig, w, h, ch, x, y, d, up, sub, subUp);
    PixelRoundTrip(ch, types[y], up, sub, subUp,
      Above(src, w, h, x, y), Left(src, w, h, x, y), AboveLeft(src, w, h, x, y),
      orig[y][x], src[y][x]);
  }

  /** Decoding the filtered buffer gives back every channel a pixel of `ch` bytes carries, at
      every pixel, for any previous contents of the target and any filter type per row. */
  lemma ReconGridInvertsEncoding(src: seq<seq<RGBA>>, types: seq<byte>, orig: seq<seq<RGBA>>, w: nat, h: nat, ch: nat)
    requires Grid.IsGrid(src, w, h) && Grid.IsGrid(orig, w, h) && |types| == h && 1 <= ch <= 4
    ensures forall y, x :: 0 <= y < h && 0 <= x < w ==>
      SameCarried(ch, ReconGrid(Encoded(src, types, w, h, ch), orig, w, h, ch)[y][x], src[y][x])
  {
    var d := Encoded(src, types, w, h, ch);
    EncodedCarries(src, types, w, h, ch);
    forall y, x | 0 <= y < h && 0 <= x < w
      ensures SameCarried(ch, ReconGrid(d, orig, w, h, ch)[y][x], src[y][x])
    {
      ReconInverts(src, types, orig, w, h, ch, d, x, y);
    }
  }

  /** The target after the reconstruction loop has handled the first `k` pixels in scanline
      order: those are reconstructed, the others still hold what the target held before. */
  function Partial(d: seq<byte>, orig: seq<seq<RGBA>>, w: nat, h: nat, ch: nat, k: nat): (g: seq<seq<RGBA>>)
    requires |d| == h * LineLength(w, ch) && Grid.IsGrid(orig, w, h)
    ensures Grid.IsGrid(g, w, h)
  {
    seq(h, y requires 0 <= y < h =>
      seq(w, x requires 0 <= x < w => if y * w + x < k then Recon(d, orig, w, h, ch, x, y) else orig[y][x]))
  }

  /** Before the loop nothing is reconstructed. */
  lemma PartialNone(d: seq<byte>, orig: seq<seq<RGBA>>, w: nat, h: nat, ch: nat)
    requires |d| == h * LineLength(w, ch) && Grid.IsGrid(orig, w, h)
    ensures Partial(d, orig, w, h, ch, 0) == orig
  {
    Grid.Extensionality(Partial(d, orig, w, h, ch, 0), orig, w, h);
  }

  /** After `w * h` pixels the target is the reconstructed image. */
  lemma PartialAll(d: seq<byte>, orig: seq<seq<RGBA>>, w: nat, h: nat, ch: nat)
    requires |d| == h * LineLength(w, ch) && Grid.IsGrid(orig, w, h)
    ensures Partial(d, orig, w, h, ch, w * h) == ReconGrid(d, orig, w, h, ch)
  {
    var g, r := Partial(d, orig, w, h, ch, w * h), ReconGrid(d, orig, w, h, ch);
    forall y, x | 0 <= y < h && 0 <= x < w ensures g[y][x] == r[y][x] {
      Grid.CellInBounds(x, y, w, h);
    }
    Grid.Extensionality(g, r, w, h);
  }

  /** Pixel `(x, y)`, the `k`-th in scanline order, still holds its old value when the loop
      reaches it, and its neighbours above, to the left and above left hold their
      reconstructed values. */
  lemma PartialNeighbours(d: seq<byte>, orig: seq<seq<RGBA>>, w: nat, h: nat, ch: nat, x: nat, y: nat, k: nat)
    requires |d| == h * LineLength(w, ch) && Grid.IsGrid(orig, w, h) && x < w && y < h && k == y * w + x
    ensures var g := Partial(d, orig, w, h, ch, k);
      g[y][x] == orig[y][x]
      && Above(g, w, h, x, y) == (if y > 0 then Recon(d, orig, w, h, ch, x, y - 1) else Zero)
      && Left(g, w, h, x, y) == (if x > 0 then Recon(d, orig, w, h, ch, x - 1, y) else Zero)
      && AboveLeft(g, w, h, x, y) == (if x > 0 && y > 0 then Recon(d, orig, w, h, ch, x - 1, y - 1) else Zero)
  {
    if y > 0 {
      assert (y - 1) * w + x == k - w;
    }
  }

  /** Storing the reconstructed pixel `k` turns the partial grid into the next one. */
  lemma PartialUpdate(d: seq<byte>, orig: seq<seq<RGBA>>, w: nat, h: nat, ch: nat, x: nat, y: nat, k: nat)
    requires |d| == h * LineLength(w, ch) && Grid.IsGrid(orig, w, h) && x < w && y < h && k == y * w + x
    ensures var g := Partial(d, orig, w, h, ch, k);
      g[y := g[y][x := Recon(d, orig, w, h, ch, x, y)]] == Partial(d, orig, w, h, ch, k + 1)
  {
    var g := Partial(d, orig, w, h, ch, k);
    var u, g' := g[y := g[y][x := Recon(d, orig, w, h, ch, x, y)]], Partial(d, orig, w, h, ch, k + 1);
    forall y', x' | 0 <= y' < h && 0 <= x' < w ensures u[y'][x'] == g'[y'][x'] {
      if y' * w + x' == k {
        Grid.CellsDistinct(x', y', x, y, w);
      }
    }
    Grid.Extensionality(u, g', w, h);
  }

  /** What one iteration of the reconstruction loop stores at pixel `(x, y)` of the target `g`:
      the pixel's bytes read into its current value with `CopyFrom`, then the row's filter
      undone with the current neighbours as predictors. */
  function Unfiltered(d: seq<byte>, g: seq<seq<RGBA>>, w: nat, h: nat, ch: nat, x: nat, y: nat): RGBA
    requires |d| == h * LineLength(w, ch) && Grid.IsGrid(g, w, h) && x < w && y < h
  {
    Filter(true, ch, Predictor(RowFilter(d, w, h, ch, y), Above(g, w, h, x, y), Left(g, w, h, x, y), AboveLeft(g, w, h, x, y)),
           CopyFrom(g[y][x], PixelBytes(d, w, h, ch, x, y)))
  }

  /** `Unfiltered` from the pixel's bytes read at `i` and the three neighbours. */
  lemma UnfilteredOf(d: seq<byte>, g: seq<seq<RGBA>>, w: nat, h: nat, ch: nat, x: nat, y: nat, i: nat,
                     up: RGBA, sub: RGBA, subUp: RGBA)
    requires |d| == h * LineLength(w, ch) && Grid.IsGrid(g, w, h) && x < w && y < h
    requires i == y * LineLength(w, ch) + 1 + x * ch && i + ch <= |d|
    requires up == Above(g, w, h, x, y) && sub == Left(g, w, h, x, y) && subUp == AboveLeft(g, w, h, x, y)
    ensures Unfiltered(d, g, w, h, ch, x, y)
      == Filter(true, ch, Predictor(d[y * LineLength(w, ch)], up, sub, subUp), CopyFrom(g[y][x], d[i .. i + ch]))
  {
  }

  /** One iteration of the reconstruction loop at pixel `(x, y)`, the `k`-th in scanline order,
      turns the partial grid into the next one. */
  lemma PartialStep(d: seq<byte>, orig: seq<seq<RGBA>>, w: nat, h: nat, ch: nat, x: nat, y: nat, k: nat)
    requires |d| == h * LineLength(w, ch) && Grid.IsGrid(orig, w, h) && x < w && y < h && k == y * w + x
    ensures var g := Partial(d, orig, w, h, ch, k);
      g[y := g[y][x := Unfiltered(d, g, w, h, ch, x, y)]] == Partial(d, orig, w, h, ch, k + 1)
  {
    PartialNeighbours(d, orig, w, h, ch, x, y, k);
    PartialUpdate(d, orig, w, h, ch, x, y, k);
  }

  /** The reconstruction loop's byte index `y * l + 1 + x * ch` is a multiple of the line
      length `l` exactly when row `y` is done. */
  lemma ScanColumn(x: nat, y: nat, w: nat, ch: nat)
    requires 1 <= ch && x <= w
    ensures var l := LineLength(w, ch);
      var i := y * l + 1 + x * ch;
      i <= (y + 1) * l == y * l + l && (i % l == 0 <==> x == w)
  {
    var l := LineLength(w, ch);
    Grid.MulLe(x, w, ch);
    assert (y + 1) * l == y * l + l;
    if x < w {
      Grid.MulLe(x + 1, w, ch);
      DivMod(y, 1 + x * ch, l);
    } else {
      DivMod(y + 1, 0, l);
    }
  }

  /** The byte index of the next pixel in the row is `ch` further on. */
  lemma NextPixel(x: nat, y: nat, w: nat, ch: nat)
    ensures y * LineLength(w, ch) + 1 + (x + 1) * ch == y * LineLength(w, ch) + 1 + x * ch + ch
  {
  }

  /** A finished row `y` that is not at the end of the buffer is followed by another. */
  lemma NextRow(y: nat, w: nat, h: nat, ch: nat)
    requires (y + 1) * LineLength(w, ch) < h * LineLength(w, ch)
    ensures y + 1 < h && (y + 1) * w == y * w + w
  {
    if y + 1 >= h {
      Grid.MulLe(h, y + 1, LineLength(w, ch));
    }
  }

  /** The byte index reaches the end of the buffer only after the last pixel of the last row. */
  lemma ScanEnd(x: nat, y: nat, w: nat, h: nat, ch: nat)
    requires 1 <= ch && x <= w && y < h
    requires y * LineLength(w, ch) + 1 + x * ch >= h * LineLength(w, ch)
    ensures x == w && y == h - 1 && y * w + x == w * h
  {
    var l := LineLength(w, ch);
    ScanColumn(x, y, w, ch);
    if y + 1 < h {
      Grid.MulLess(y + 1, h, l);
    }
    if x < w {
      Grid.MulLess(x, w, ch);
    }
    assert (y + 1) * w == y * w + w;
  }
}
