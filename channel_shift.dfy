/** `ChannelShift`: an effect that moves the red, green and blue channels of an image by their
    own offsets. It first copies every channel into a buffer of its own (`SplitChannels`), then
    gives each pixel the channel of the pixel one offset back, wherever that pixel lies inside
    the image; the alpha channel stays where it is. The offsets are `i32`, the arithmetic on
    them is done in 64 bits and so is exact here. */
module ChannelShifts {
  import opened Common
  import opened Color
  import opened Memory2D
  import opened Images
  import Grid

  /** (x, y) lies inside a `w` by `h` image. */
  predicate Inside(w: nat, h: nat, x: int, y: int)
  {
    0 <= x < w && 0 <= y < h
  }

  /** A `w` by `h` grid of `Zero` pixels, what `new UMem2D<RGBA>(scale, 0x0)` holds. */
  function ZeroGrid(w: nat, h: nat): (g: seq<seq<RGBA>>)
    ensures Grid.IsGrid(g, w, h)
    ensures forall j, i :: 0 <= j < h && 0 <= i < w ==> g[j][i] == Zero
  {
    seq(h, j => seq(w, i => Zero))
  }

  /** Split `c` of `g`: every pixel keeps channel `c` and has 0 in all others. */
  function ChannelOnly(g: seq<seq<RGBA>>, w: nat, h: nat, c: nat): (r: seq<seq<RGBA>>)
    requires Grid.IsGrid(g, w, h) && c < 3
    ensures Grid.IsGrid(r, w, h)
  {
    seq(h, j requires 0 <= j < h => seq(w, i requires 0 <= i < w => WithChannel(Zero, c, Channel(g[j][i], c))))
  }

  /** A pixel of split `c` has the pixel's channel `c` and 0 in every other channel. */
  lemma ChannelOnlyAt(g: seq<seq<RGBA>>, w: nat, h: nat, c: nat, x: nat, y: nat)
    requires Grid.IsGrid(g, w, h) && c < 3 && x < w && y < h
    ensures var p := ChannelOnly(g, w, h, c)[y][x];
      Channel(p, c) == Channel(g[y][x], c) && forall d :: 0 <= d < 4 && d != c ==> Channel(p, d) == 0
  {
  }

  /** Channel `c` of pixel (x, y) after shifting the channel by `d`: that of the pixel `d`
      back if it is inside the image, else the pixel's own. */
  function ShiftedChannel(g: seq<seq<RGBA>>, w: nat, h: nat, c: nat, d: (int, int), x: nat, y: nat): byte
    requires Grid.IsGrid(g, w, h) && c < 4 && x < w && y < h
  {
    if Inside(w, h, x - d.0, y - d.1) then Channel(g[y - d.1][x - d.0], c) else Channel(g[y][x], c)
  }

  /** The image after shifting red by `red`, green by `green` and blue by `blue`. */
  function Shifted(g: seq<seq<RGBA>>, w: nat, h: nat, red: (int, int), green: (int, int), blue: (int, int)): (r: seq<seq<RGBA>>)
    requires Grid.IsGrid(g, w, h)
    ensures Grid.IsGrid(r, w, h)
  {
    seq(h, j requires 0 <= j < h => seq(w, i requires 0 <= i < w =>
      RGBA(ShiftedChannel(g, w, h, 0, red, i, j), ShiftedChannel(g, w, h, 1, green, i, j),
           ShiftedChannel(g, w, h, 2, blue, i, j), g[j][i].a)))
  }

  /** Where each channel of a shifted pixel comes from: red, green and blue from the pixel
      one offset back when that pixel is inside the image, else from the pixel itself; alpha
      always from the pixel itself. */
  lemma ShiftedAt(g: seq<seq<RGBA>>, w: nat, h: nat, red: (int, int), green: (int, int), blue: (int, int), x: nat, y: nat)
    requires Grid.IsGrid(g, w, h) && x < w && y < h
    ensures var p := Shifted(g, w, h, red, green, blue)[y][x];
      p.a == g[y][x].a
      && p.r == (if Inside(w, h, x - red.0, y - red.1) then g[y - red.1][x - red.0].r else g[y][x].r)
      && p.g == (if Inside(w, h, x - green.0, y - green.1) then g[y - green.1][x - green.0].g else g[y][x].g)
      && p.b == (if Inside(w, h, x - blue.0, y - blue.1) then g[y - blue.1][x - blue.0].b else g[y][x].b)
  {
  }

  /** Pixel `p` at (x, y) with channel `c` taken from the pixel `d` back, if that one is
      inside the image. */
  function ShiftOne(g: seq<seq<RGBA>>, w: nat, h: nat, p: RGBA, c: nat, d: (int, int), x: nat, y: nat): RGBA
    requires Grid.IsGrid(g, w, h) && c < 3 && x < w && y < h
  {
    if Inside(w, h, x - d.0, y - d.1) then WithChannel(p, c, Channel(g[y - d.1][x - d.0], c)) else p
  }

  /** A shifted pixel is the original one with its red, then its green, then its blue
      channel replaced in turn, as the three `if`s of the loop do it. */
  lemma ShiftedInTurn(g: seq<seq<RGBA>>, w: nat, h: nat, red: (int, int), green: (int, int), blue: (int, int), x: nat, y: nat)
    requires Grid.IsGrid(g, w, h) && x < w && y < h
    ensures Shifted(g, w, h, red, green, blue)[y][x]
      == ShiftOne(g, w, h, ShiftOne(g, w, h, ShiftOne(g, w, h, g[y][x], 0, red, x, y), 1, green, x, y), 2, blue, x, y)
  {
  }

  /** Offsets of zero leave the image as it is. */
  lemma ZeroShiftIdentity(g: seq<seq<RGBA>>, w: nat, h: nat)
    requires Grid.IsGrid(g, w, h)
    ensures Shifted(g, w, h, (0, 0), (0, 0), (0, 0)) == g
  {
    var s := Shifted(g, w, h, (0, 0), (0, 0), (0, 0));
    forall j, i | 0 <= j < h && 0 <= i < w ensures s[j][i] == g[j][i] {
      assert Inside(w, h, i, j);
    }
    Grid.Extensionality(s, g, w, h);
  }

  /** The offset of channel `c`. */
  function Offset(red: (int, int), green: (int, int), blue: (int, int), c: nat): (int, int)
  {
    if c == 0 then red else if c == 1 then green else blue
  }

  lemma ShiftedChannelOf(g: seq<seq<RGBA>>, w: nat, h: nat, red: (int, int), green: (int, int), blue: (int, int), c: nat, x: nat, y: nat)
    requires Grid.IsGrid(g, w, h) && c < 3 && x < w && y < h
    ensures Channel(Shifted(g, w, h, red, green, blue)[y][x], c) == ShiftedChannel(g, w, h, c, Offset(red, green, blue, c), x, y)
  {
  }

  /** Shifting channel `c` by an offset and then by its opposite brings it back to pixel
      (x, y) when the place it was moved to lies inside the image. */
  lemma ShiftBackChannel(g: seq<seq<RGBA>>, w: nat, h: nat, there: ((int, int), (int, int), (int, int)),
                         back: ((int, int), (int, int), (int, int)), c: nat, x: nat, y: nat)
    requires Grid.IsGrid(g, w, h) && c < 3 && x < w && y < h
    requires var d := Offset(there.0, there.1, there.2, c);
      Offset(back.0, back.1, back.2, c) == (-d.0, -d.1) && Inside(w, h, x + d.0, y + d.1)
    ensures var s := Shifted(g, w, h, there.0, there.1, there.2);
      Channel(Shifted(s, w, h, back.0, back.1, back.2)[y][x], c) == Channel(g[y][x], c)
  {
    var d := Offset(there.0, there.1, there.2, c);
    var s := Shifted(g, w, h, there.0, there.1, there.2);
    ShiftedChannelOf(s, w, h, back.0, back.1, back.2, c, x, y);
    ShiftedChannelOf(g, w, h, there.0, there.1, there.2, c, x + d.0, y + d.1);
  }

  /** Shifting by the opposite offsets brings a channel back to every pixel whose shifted
      place lies inside the image; the alpha channel never moves. */
  lemma ShiftBack(g: seq<seq<RGBA>>, w: nat, h: nat, red: (int, int), green: (int, int), blue: (int, int), x: nat, y: nat)
    requires Grid.IsGrid(g, w, h) && x < w && y < h
    ensures var back := Shifted(Shifted(g, w, h, red, green, blue), w, h, (-red.0, -red.1), (-green.0, -green.1), (-blue.0, -blue.1));
      back[y][x].a == g[y][x].a
      && (Inside(w, h, x + red.0, y + red.1) ==> back[y][x].r == g[y][x].r)
      && (Inside(w, h, x + green.0, y + green.1) ==> back[y][x].g == g[y][x].g)
      && (Inside(w, h, x + blue.0, y + blue.1) ==> back[y][x].b == g[y][x].b)
  {
    var there, back := (red, green, blue), ((-red.0, -red.1), (-green.0, -green.1), (-blue.0, -blue.1));
    if Inside(w, h, x + red.0, y + red.1) {
      ShiftBackChannel(g, w, h, there, back, 0, x, y);
    }
    if Inside(w, h, x + green.0, y + green.1) {
      ShiftBackChannel(g, w, h, there, back, 1, x, y);
    }
    if Inside(w, h, x + blue.0, y + blue.1) {
      ShiftBackChannel(g, w, h, there, back, 2, x, y);
    }
  }

  /** `s` is split `c` of `image`: a valid buffer of the image's scale holding `ChannelOnly`. */
  ghost predicate IsSplit(s: UMem2D<RGBA>, image: Image, c: nat)
    reads s, s.buffer.ptr, image, image.buffer, image.buffer.buffer.ptr
  {
    c < 3 && image.Valid() && s.Valid() && s.Scale() == image.Scale()
    && s.buffer.ptr != image.buffer.buffer.ptr
    && s.Rows() == ChannelOnly(image.Pixels(), image.Scale().0, image.Scale().1, c)
  }

  /** One step of the loop of `SplitChannels` for split `c`: `split[c][x, y]` receives
      channel `c` of `image[x, y]`. */
  method SplitPixel(image: Image, s: UMem2D<RGBA>, c: nat, x: u32, y: u32)
    requires image.Valid() && s.Valid() && s.Scale() == image.Scale() && c < 3
    requires x < s.scaleX && y < s.scaleY && s.buffer.ptr != image.buffer.buffer.ptr
    requires var (w, h) := s.Scale();
      s.Rows() == Grid.Fill(ZeroGrid(w, h), ChannelOnly(image.Pixels(), w, h, c), w, h, y, x)
    modifies s.buffer.ptr
    ensures s.Valid() && s.Scale() == old(s.Scale())
    ensures var (w, h) := s.Scale();
      s.Rows() == Grid.Fill(ZeroGrid(w, h), ChannelOnly(image.Pixels(), w, h, c), w, h, y, x + 1)
  {
    var (w, h) := s.Scale();
    Grid.FillStep(ZeroGrid(w, h), ChannelOnly(image.Pixels(), w, h, c), w, h, y, x);
    var p := s.Get(x, y).value;
    var q := image.Get(x, y).value;
    var _ := s.Set(x, y, WithChannel(p, c, Channel(q, c)));
  }

  /** Row `y` of the loop of `SplitChannels` for split `c`. */
  method SplitRow(image: Image, s: UMem2D<RGBA>, c: nat, y: u32)
    requires image.Valid() && s.Valid() && s.Scale() == image.Scale() && c < 3
    requires y < s.scaleY && s.buffer.ptr != image.buffer.buffer.ptr
    requires var (w, h) := s.Scale();
      s.Rows() == Grid.Fill(ZeroGrid(w, h), ChannelOnly(image.Pixels(), w, h, c), w, h, y, 0)
    modifies s.buffer.ptr
    ensures s.Valid() && s.Scale() == old(s.Scale())
    ensures var (w, h) := s.Scale();
      s.Rows() == Grid.Fill(ZeroGrid(w, h), ChannelOnly(image.Pixels(), w, h, c), w, h, y + 1, 0)
  {
    var (w, h) := s.Scale();
    ghost var v := ChannelOnly(image.Pixels(), w, h, c);
    var x: u32 := 0;
    while x < w
      invariant x <= w && s.Valid() && s.Scale() == (w, h)
      invariant s.Rows() == Grid.Fill(ZeroGrid(w, h), v, w, h, y, x)
    {
      SplitPixel(image, s, c, x, y);
      x := x + 1;
    }
    Grid.FillRowEnd(ZeroGrid(w, h), v, w, h, y);
  }

  /** The pixel loop of `SplitChannels` for split `c`, on a zeroed buffer of the image's
      scale. */
  method SplitAll(image: Image, s: UMem2D<RGBA>, c: nat)
    requires image.Valid() && s.Valid() && s.Scale() == image.Scale() && c < 3
    requires s.buffer.ptr != image.buffer.buffer.ptr && s.Rows() == ZeroGrid(s.scaleX, s.scaleY)
    modifies s.buffer.ptr
    ensures IsSplit(s, image, c)
  {
    var (w, h) := s.Scale();
    ghost var v := ChannelOnly(image.Pixels(), w, h, c);
    Grid.FillNone(ZeroGrid(w, h), v, w, h);
    var y: u32 := 0;
    while y < h
      invariant y <= h && s.Valid() && s.Scale() == (w, h)
      invariant s.Rows() == Grid.Fill(ZeroGrid(w, h), v, w, h, y, 0)
    {
      SplitRow(image, s, c, y);
      y := y + 1;
    }
    Grid.FillAll(ZeroGrid(w, h), v, w, h);
  }

  /** Split `c` of the image: `new UMem2D<RGBA>(image.Scale, 0x0)` with channel `c` of
      every pixel copied in. */
  method NewSplit(image: Image, c: nat) returns (s: UMem2D<RGBA>)
    requires image.Valid() && c < 3
    requires 0 < image.Scale().0 && 0 < image.Scale().1
    ensures fresh(s) && fresh(s.buffer.ptr) && IsSplit(s, image, c)
  {
    var (w, h) := image.Scale();
    var b := Memory2D.NewFilled<RGBA>(w, h, Zero);
    s := b.value;
    Grid.Extensionality(s.Rows(), ZeroGrid(w, h), w, h);
    SplitAll(image, s, c);
  }

  /** The last loop of `Apply`: every split is disposed. */
  method DisposeAll(split: array<UMem2D<RGBA>>)
    requires split.Length == 3 && forall j :: 0 <= j < 3 ==> split[j].Valid()
    modifies set j | 0 <= j < 3 :: split[j]
    ensures forall j :: 0 <= j < 3 ==> split[j].Valid() && split[j].disposed
  {
    var i := 0;
    while i < 3
      invariant 0 <= i <= 3
      invariant forall j :: 0 <= j < 3 ==> split[j].Valid()
      invariant forall j :: 0 <= j < i ==> split[j].disposed
    {
      split[i].Dispose();
      i := i + 1;
    }
  }

  /** One of the three `if`s of the loop of `Apply`: when the position one offset `d` back
      from (x, y) is inside the `w` by `h` image, channel `c` of `p` is replaced by that
      channel of split `s` there. */
  method ShiftChannel(p: RGBA, s: UMem2D<RGBA>, c: nat, d: (int, int), x: u32, y: u32, w: u32, h: u32, ghost orig: seq<seq<RGBA>>)
    returns (q: RGBA)
    requires c < 3 && x < w && y < h && Grid.IsGrid(orig, w, h)
    requires s.Valid() && s.Scale() == (w, h) && s.Rows() == ChannelOnly(orig, w, h, c)
    ensures q == ShiftOne(orig, w, h, p, c, d, x, y)
  {
    q := p;
    if Inside(w, h, x - d.0, y - d.1) {
      ChannelOnlyAt(orig, w, h, c, x - d.0, y - d.1);
      q := WithChannel(p, c, Channel(s.Get(x - d.0, y - d.1).value, c));
    }
  }

  class ChannelShift {
    const red: (i32, i32)
    const green: (i32, i32)
    const blue: (i32, i32)

    /** `new ChannelShift(red, green, blue)`: the offsets of the three channels. */
    constructor (red: (i32, i32), green: (i32, i32), blue: (i32, i32))
      ensures this.red == red && this.green == green && this.blue == blue
    {
      this.red := red;
      this.green := green;
      this.blue := blue;
    }

    /** `SplitChannels(image)`: three fresh buffers of the image's scale, the first holding
        only the red channel of every pixel, the second only the green, the third only the
        blue. An image with a zero dimension throws, as the buffers' constructor does. */
    method SplitChannels(image: Image) returns (r: Result<array<UMem2D<RGBA>>>)
      requires image.Valid()
      ensures r.Err? <==> image.Scale().0 == 0 || image.Scale().1 == 0
      ensures r.Err? ==> r.error == ArgumentError
      ensures r.Ok? ==> fresh(r.value) && r.value.Length == 3
      ensures r.Ok? ==> fresh(r.value[0]) && fresh(r.value[1]) && fresh(r.value[2])
      ensures r.Ok? ==> fresh(r.value[0].buffer.ptr) && fresh(r.value[1].buffer.ptr) && fresh(r.value[2].buffer.ptr)
      ensures r.Ok? ==>
        r.value[0].buffer.ptr != r.value[1].buffer.ptr && r.value[1].buffer.ptr != r.value[2].buffer.ptr
        && r.value[0].buffer.ptr != r.value[2].buffer.ptr
      ensures r.Ok? ==> IsSplit(r.value[0], image, 0) && IsSplit(r.value[1], image, 1) && IsSplit(r.value[2], image, 2)
    {
      var (w, h) := image.Scale();
      if w == 0 || h == 0 {
        return Err(ArgumentError);
      }
      var s0 := NewSplit(image, 0);
      var s1 := NewSplit(image, 1);
      var s2 := NewSplit(image, 2);
      var split := new UMem2D<RGBA>[3] [s0, s1, s2];
      assert split[0] == s0 && split[1] == s1 && split[2] == s2;
      r := Ok(split);
    }

    /** One step of the loop of `Apply`: each of the three channels of `target[x, y]` is
        replaced by that channel of its split at the position one offset back, when that
        position is inside the image. */
    method ShiftPixel(target: Image, s0: UMem2D<RGBA>, s1: UMem2D<RGBA>, s2: UMem2D<RGBA>, x: u32, y: u32, ghost orig: seq<seq<RGBA>>)
      requires target.Valid() && x < target.Scale().0 && y < target.Scale().1
      requires var (w, h) := target.Scale();
        Grid.IsGrid(orig, w, h)
        && target.Pixels() == Grid.Fill(orig, Shifted(orig, w, h, red, green, blue), w, h, y, x)
      requires var (w, h) := target.Scale();
        s0.Valid() && s0.Scale() == (w, h) && s0.Rows() == ChannelOnly(orig, w, h, 0)
        && s1.Valid() && s1.Scale() == (w, h) && s1.Rows() == ChannelOnly(orig, w, h, 1)
        && s2.Valid() && s2.Scale() == (w, h) && s2.Rows() == ChannelOnly(orig, w, h, 2)
      modifies target.buffer.buffer.ptr
      ensures target.Valid() && target.Scale() == old(target.Scale())
      ensures var (w, h) := target.Scale();
        target.Pixels() == Grid.Fill(orig, Shifted(orig, w, h, red, green, blue), w, h, y, x + 1)
    {
      var (w, h) := target.Scale();
      ghost var v := Shifted(orig, w, h, red, green, blue);
      ghost var m := target.Pixels();
      Grid.FillStep(orig, v, w, h, y, x);
      var p := target.Get(x, y).value;
      p := ShiftChannel(p, s0, 0, red, x, y, w, h, orig);
      p := ShiftChannel(p, s1, 1, green, x, y, w, h, orig);
      p := ShiftChannel(p, s2, 2, blue, x, y, w, h, orig);
      ShiftedInTurn(orig, w, h, red, green, blue, x, y);
      var _ := target.Set(x, y, p);
      assert target.Pixels() == m[y := m[y][x := v[y][x]]];
    }

    /** One row of the loop of `Apply`. */
    method ShiftRow(target: Image, s0: UMem2D<RGBA>, s1: UMem2D<RGBA>, s2: UMem2D<RGBA>, y: u32, ghost orig: seq<seq<RGBA>>)
      requires target.Valid() && y < target.Scale().1
      requires s0.buffer.ptr != target.buffer.buffer.ptr && s1.buffer.ptr != target.buffer.buffer.ptr
        && s2.buffer.ptr != target.buffer.buffer.ptr
      requires var (w, h) := target.Scale();
        Grid.IsGrid(orig, w, h)
        && target.Pixels() == Grid.Fill(orig, Shifted(orig, w, h, red, green, blue), w, h, y, 0)
      requires var (w, h) := target.Scale();
        s0.Valid() && s0.Scale() == (w, h) && s0.Rows() == ChannelOnly(orig, w, h, 0)
        && s1.Valid() && s1.Scale() == (w, h) && s1.Rows() == ChannelOnly(orig, w, h, 1)
        && s2.Valid() && s2.Scale() == (w, h) && s2.Rows() == ChannelOnly(orig, w, h, 2)
      modifies target.buffer.buffer.ptr
      ensures target.Valid() && target.Scale() == old(target.Scale())
      ensures var (w, h) := target.Scale();
        target.Pixels() == Grid.Fill(orig, Shifted(orig, w, h, red, green, blue), w, h, y + 1, 0)
    {
      var (w, h) := target.Scale();
      var x: u32 := 0;
      while x < w
        invariant x <= w && target.Valid() && target.Scale() == (w, h)
        invariant target.Pixels() == Grid.Fill(orig, Shifted(orig, w, h, red, green, blue), w, h, y, x)
      {
        ShiftPixel(target, s0, s1, s2, x, y, orig);
        x := x + 1;
      }
      Grid.FillRowEnd(orig, Shifted(orig, w, h, red, green, blue), w, h, y);
    }

    /** The pixel loop of `Apply`. */
    method ShiftAll(target: Image, s0: UMem2D<RGBA>, s1: UMem2D<RGBA>, s2: UMem2D<RGBA>, ghost orig: seq<seq<RGBA>>)
      requires target.Valid() && target.Pixels() == orig
      requires IsSplit(s0, target, 0) && IsSplit(s1, target, 1) && IsSplit(s2, target, 2)
      modifies target.buffer.buffer.ptr
      ensures target.Valid() && target.Scale() == old(target.Scale())
      ensures var (w, h) := target.Scale();
        target.Pixels() == Shifted(orig, w, h, red, green, blue)
    {
      var (w, h) := target.Scale();
      Grid.FillNone(orig, Shifted(orig, w, h, red, green, blue), w, h);
      var y: u32 := 0;
      while y < h
        invariant y <= h && target.Valid() && target.Scale() == (w, h)
        invariant target.Pixels() == Grid.Fill(orig, Shifted(orig, w, h, red, green, blue), w, h, y, 0)
        invariant s0.Valid() && s0.Scale() == (w, h) && s0.Rows() == ChannelOnly(orig, w, h, 0)
        invariant s1.Valid() && s1.Scale() == (w, h) && s1.Rows() == ChannelOnly(orig, w, h, 1)
        invariant s2.Valid() && s2.Scale() == (w, h) && s2.Rows() == ChannelOnly(orig, w, h, 2)
      {
        ShiftRow(target, s0, s1, s2, y, orig);
        y := y + 1;
      }
      Grid.FillAll(orig, Shifted(orig, w, h, red, green, blue), w, h);
    }

    /** `Apply(target)`: every channel is shifted by its offset, reading the pixels from the
        splits so that no pixel sees a value written earlier in the loop; the splits are
        disposed at the end. An image with a zero dimension throws and keeps its pixels. */
    method Apply(target: Image) returns (o: Outcome)
      requires target.Valid()
      modifies target.buffer.buffer.ptr
      ensures target.Valid() && target.Scale() == old(target.Scale())
      ensures o.Fail? <==> target.Scale().0 == 0 || target.Scale().1 == 0
      ensures o.Fail? ==> o.error == ArgumentError && target.Pixels() == old(target.Pixels())
      ensures o.Pass? ==> var (w, h) := target.Scale();
        target.Pixels() == Shifted(old(target.Pixels()), w, h, red, green, blue)
    {
      var split := SplitChannels(target);
      if split.Err? {
        return Fail(split.error);
      }
      ghost var orig := target.Pixels();
      var s0, s1, s2 := split.value[0], split.value[1], split.value[2];
      assert IsSplit(s0, target, 0) && IsSplit(s1, target, 1) && IsSplit(s2, target, 2);
      ShiftAll(target, s0, s1, s2, orig);
      DisposeAll(split.value);
      o := Pass;
    }
  }
}
