/** `TransformExtension.Flip` and `TransformExtension.CreateHistogram`. `Flip` mirrors an image
    in place by swapping pixel pairs, column by column (vertical) or row by row (horizontal);
    `CreateHistogram` counts, in a dictionary, how many pixels the selector maps to each key. */
module Transforms {
  import opened Common
  import opened Color
  import opened Images
  import Grid

  /** `FlipDirection`: any value other than `VERTICAL` flips horizontally. */
  datatype FlipDirection = VERTICAL | HORIZONTAL

  /** The mirror image: upside down for `VERTICAL`, left to right for `HORIZONTAL`. */
  function Flipped(g: seq<seq<RGBA>>, w: nat, h: nat, dir: FlipDirection): (r: seq<seq<RGBA>>)
    requires Grid.IsGrid(g, w, h)
    ensures Grid.IsGrid(r, w, h)
  {
    if dir == VERTICAL then seq(h, j requires 0 <= j < h => seq(w, i requires 0 <= i < w => g[h - 1 - j][i]))
    else seq(h, j requires 0 <= j < h => seq(w, i requires 0 <= i < w => g[j][w - 1 - i]))
  }

  /** Pixel (x, y) of the flipped image is pixel (x, h - 1 - y) of the original for a vertical
      flip and pixel (w - 1 - x, y) for a horizontal one. */
  lemma FlippedAt(g: seq<seq<RGBA>>, w: nat, h: nat, dir: FlipDirection, x: nat, y: nat)
    requires Grid.IsGrid(g, w, h) && x < w && y < h
    ensures dir == VERTICAL ==> Flipped(g, w, h, dir)[y][x] == g[h - 1 - y][x]
    ensures dir == HORIZONTAL ==> Flipped(g, w, h, dir)[y][x] == g[y][w - 1 - x]
  {
  }

  /** Flipping twice in the same direction gives the original image back. */
  lemma FlipTwice(g: seq<seq<RGBA>>, w: nat, h: nat, dir: FlipDirection)
    requires Grid.IsGrid(g, w, h)
    ensures Flipped(Flipped(g, w, h, dir), w, h, dir) == g
  {
    var f := Flipped(g, w, h, dir);
    var ff := Flipped(f, w, h, dir);
    forall y, x | 0 <= y < h && 0 <= x < w ensures ff[y][x] == g[y][x] {
      FlippedAt(f, w, h, dir, x, y);
      if dir == VERTICAL {
        FlippedAt(g, w, h, dir, x, h - 1 - y);
      } else {
        FlippedAt(g, w, h, dir, w - 1 - x, y);
      }
    }
    Grid.Extensionality(ff, g, w, h);
  }

  /** The middle row of an image of odd height stays put in a vertical flip, and the middle
      column of an image of odd width in a horizontal one. */
  lemma FlipMiddle(g: seq<seq<RGBA>>, w: nat, h: nat, dir: FlipDirection)
    requires Grid.IsGrid(g, w, h)
    ensures dir == VERTICAL && h % 2 == 1 ==> Flipped(g, w, h, dir)[h / 2] == g[h / 2]
    ensures dir == HORIZONTAL && w % 2 == 1 ==> forall y :: 0 <= y < h ==> Flipped(g, w, h, dir)[y][w / 2] == g[y][w / 2]
  {
    if dir == VERTICAL && h % 2 == 1 {
      var f := Flipped(g, w, h, dir);
      forall x | 0 <= x < w ensures f[h / 2][x] == g[h / 2][x] {
        FlippedAt(g, w, h, dir, x, h / 2);
      }
    }
  }

  /** The vertical loop once it has reached row `y` of column `x`: the columns before `x` are
      flipped, and so are the first `y` and the last `y` pixels of column `x`. */
  function FlipVUpTo(g: seq<seq<RGBA>>, w: nat, h: nat, x: nat, y: nat): (r: seq<seq<RGBA>>)
    requires Grid.IsGrid(g, w, h)
    ensures Grid.IsGrid(r, w, h)
  {
    seq(h, j requires 0 <= j < h => seq(w, i requires 0 <= i < w =>
      if SwappedV(h, x, y, i, j) then g[h - 1 - j][i] else g[j][i]))
  }

  /** Whether the vertical loop, at row `y` of column `x`, has already swapped pixel (i, j). */
  predicate SwappedV(h: nat, x: nat, y: nat, i: nat, j: nat)
  {
    i < x || (i == x && (j < y || h - 1 - j < y))
  }

  /** The horizontal loop once it has reached column `x` of row `y`. */
  function FlipHUpTo(g: seq<seq<RGBA>>, w: nat, h: nat, y: nat, x: nat): (r: seq<seq<RGBA>>)
    requires Grid.IsGrid(g, w, h)
    ensures Grid.IsGrid(r, w, h)
  {
    seq(h, j requires 0 <= j < h => seq(w, i requires 0 <= i < w =>
      if SwappedH(w, y, x, i, j) then g[j][w - 1 - i] else g[j][i]))
  }

  /** Whether the horizontal loop, at column `x` of row `y`, has already swapped pixel (i, j). */
  predicate SwappedH(w: nat, y: nat, x: nat, i: nat, j: nat)
  {
    j < y || (j == y && (i < x || w - 1 - i < x))
  }

  lemma FlipVNone(g: seq<seq<RGBA>>, w: nat, h: nat)
    requires Grid.IsGrid(g, w, h)
    ensures FlipVUpTo(g, w, h, 0, 0) == g
  {
    Grid.Extensionality(FlipVUpTo(g, w, h, 0, 0), g, w, h);
  }

  lemma FlipVAll(g: seq<seq<RGBA>>, w: nat, h: nat)
    requires Grid.IsGrid(g, w, h)
    ensures FlipVUpTo(g, w, h, w, 0) == Flipped(g, w, h, VERTICAL)
  {
    Grid.Extensionality(FlipVUpTo(g, w, h, w, 0), Flipped(g, w, h, VERTICAL), w, h);
  }

  /** After the first `h / 2` swaps column `x` is flipped: the middle pixel of an odd column
      is its own mirror. */
  lemma FlipVColumnEnd(g: seq<seq<RGBA>>, w: nat, h: nat, x: nat)
    requires Grid.IsGrid(g, w, h)
    ensures FlipVUpTo(g, w, h, x, h / 2) == FlipVUpTo(g, w, h, x + 1, 0)
  {
    Grid.Extensionality(FlipVUpTo(g, w, h, x, h / 2), FlipVUpTo(g, w, h, x + 1, 0), w, h);
  }

  /** Swapping pixels (x, y) and (x, h - 1 - y), both still unflipped, moves the vertical loop
      on by one step. */
  lemma FlipVStep(g: seq<seq<RGBA>>, w: nat, h: nat, x: nat, y: nat)
    requires Grid.IsGrid(g, w, h) && x < w && y < h / 2
    ensures var m := FlipVUpTo(g, w, h, x, y);
      var low := m[h - 1 - y := m[h - 1 - y][x := g[y][x]]];
      y < h - 1 - y && m[y][x] == g[y][x] && m[h - 1 - y][x] == g[h - 1 - y][x]
      && low[y := low[y][x := g[h - 1 - y][x]]] == FlipVUpTo(g, w, h, x, y + 1)
  {
    var m := FlipVUpTo(g, w, h, x, y);
    var low := m[h - 1 - y := m[h - 1 - y][x := g[y][x]]];
    Grid.Extensionality(low[y := low[y][x := g[h - 1 - y][x]]], FlipVUpTo(g, w, h, x, y + 1), w, h);
  }

  lemma FlipHNone(g: seq<seq<RGBA>>, w: nat, h: nat)
    requires Grid.IsGrid(g, w, h)
    ensures FlipHUpTo(g, w, h, 0, 0) == g
  {
    Grid.Extensionality(FlipHUpTo(g, w, h, 0, 0), g, w, h);
  }

  lemma FlipHAll(g: seq<seq<RGBA>>, w: nat, h: nat)
    requires Grid.IsGrid(g, w, h)
    ensures FlipHUpTo(g, w, h, h, 0) == Flipped(g, w, h, HORIZONTAL)
  {
    Grid.Extensionality(FlipHUpTo(g, w, h, h, 0), Flipped(g, w, h, HORIZONTAL), w, h);
  }

  /** After the first `w / 2` swaps row `y` is flipped. */
  lemma FlipHRowEnd(g: seq<seq<RGBA>>, w: nat, h: nat, y: nat)
    requires Grid.IsGrid(g, w, h)
    ensures FlipHUpTo(g, w, h, y, w / 2) == FlipHUpTo(g, w, h, y + 1, 0)
  {
    Grid.Extensionality(FlipHUpTo(g, w, h, y, w / 2), FlipHUpTo(g, w, h, y + 1, 0), w, h);
  }

  /** Swapping pixels (x, y) and (w - 1 - x, y), both still unflipped, moves the horizontal
      loop on by one step. */
  lemma FlipHStep(g: seq<seq<RGBA>>, w: nat, h: nat, y: nat, x: nat)
    requires Grid.IsGrid(g, w, h) && y < h && x < w / 2
    ensures var m := FlipHUpTo(g, w, h, y, x);
      var right := m[y := m[y][w - 1 - x := g[y][x]]];
      x < w - 1 - x && m[y][x] == g[y][x] && m[y][w - 1 - x] == g[y][w - 1 - x]
      && right[y := right[y][x := g[y][w - 1 - x]]] == FlipHUpTo(g, w, h, y, x + 1)
  {
    var m := FlipHUpTo(g, w, h, y, x);
    var right := m[y := m[y][w - 1 - x := g[y][x]]];
    Grid.Extensionality(right[y := right[y][x := g[y][w - 1 - x]]], FlipHUpTo(g, w, h, y, x + 1), w, h);
  }

  /** One swap of the vertical loop: pixel (x, y) and pixel (x, h - y - 1). */
  method SwapVertical(image: Image, w: u32, h: u32, x: u32, y: u32, ghost g: seq<seq<RGBA>>)
    requires image.Valid() && image.Scale() == (w, h) && x < w && y < h / 2
    requires Grid.IsGrid(g, w, h) && image.Pixels() == FlipVUpTo(g, w, h, x, y)
    modifies image.buffer.buffer.ptr
    ensures image.Valid() && image.Scale() == (w, h)
    ensures image.Pixels() == FlipVUpTo(g, w, h, x, y + 1)
  {
    FlipVStep(g, w, h, x, y);
    var other := image.Get(x, h - y - 1).value;
    var _ := image.Set(x, h - y - 1, image.Get(x, y).value);
    var _ := image.Set(x, y, other);
  }

  /** Column `x` of the vertical loop. */
  method FlipColumn(image: Image, w: u32, h: u32, x: u32, ghost g: seq<seq<RGBA>>)
    requires image.Valid() && image.Scale() == (w, h) && x < w
    requires Grid.IsGrid(g, w, h) && image.Pixels() == FlipVUpTo(g, w, h, x, 0)
    modifies image.buffer.buffer.ptr
    ensures image.Valid() && image.Scale() == (w, h)
    ensures image.Pixels() == FlipVUpTo(g, w, h, x + 1, 0)
  {
    var half := h / 2;
    var y: u32 := 0;
    while y < half
      invariant y <= half && image.Valid() && image.Scale() == (w, h)
      invariant image.Pixels() == FlipVUpTo(g, w, h, x, y)
    {
      SwapVertical(image, w, h, x, y, g);
      y := y + 1;
    }
    FlipVColumnEnd(g, w, h, x);
  }

  /** One swap of the horizontal loop: pixel (x, y) and pixel (w - x - 1, y). */
  method SwapHorizontal(image: Image, w: u32, h: u32, y: u32, x: u32, ghost g: seq<seq<RGBA>>)
    requires image.Valid() && image.Scale() == (w, h) && y < h && x < w / 2
    requires Grid.IsGrid(g, w, h) && image.Pixels() == FlipHUpTo(g, w, h, y, x)
    modifies image.buffer.buffer.ptr
    ensures image.Valid() && image.Scale() == (w, h)
    ensures image.Pixels() == FlipHUpTo(g, w, h, y, x + 1)
  {
    FlipHStep(g, w, h, y, x);
    var other := image.Get(w - x - 1, y).value;
    var _ := image.Set(w - x - 1, y, image.Get(x, y).value);
    var _ := image.Set(x, y, other);
  }

  /** Row `y` of the horizontal loop. */
  method FlipRow(image: Image, w: u32, h: u32, y: u32, ghost g: seq<seq<RGBA>>)
    requires image.Valid() && image.Scale() == (w, h) && y < h
    requires Grid.IsGrid(g, w, h) && image.Pixels() == FlipHUpTo(g, w, h, y, 0)
    modifies image.buffer.buffer.ptr
    ensures image.Valid() && image.Scale() == (w, h)
    ensures image.Pixels() == FlipHUpTo(g, w, h, y + 1, 0)
  {
    var half := w / 2;
    var x: u32 := 0;
    while x < half
      invariant x <= half && image.Valid() && image.Scale() == (w, h)
      invariant image.Pixels() == FlipHUpTo(g, w, h, y, x)
    {
      SwapHorizontal(image, w, h, y, x, g);
      x := x + 1;
    }
    FlipHRowEnd(g, w, h, y);
  }

  /** The vertical branch of `Flip`: column after column. */
  method FlipVertical(image: Image, w: u32, h: u32, ghost g: seq<seq<RGBA>>)
    requires image.Valid() && image.Scale() == (w, h) && image.Pixels() == g
    modifies image.buffer.buffer.ptr
    ensures image.Valid() && image.Scale() == (w, h)
    ensures image.Pixels() == Flipped(g, w, h, VERTICAL)
  {
    FlipVNone(g, w, h);
    var x: u32 := 0;
    while x < w
      invariant x <= w && image.Valid() && image.Scale() == (w, h)
      invariant image.Pixels() == FlipVUpTo(g, w, h, x, 0)
    {
      FlipColumn(image, w, h, x, g);
      x := x + 1;
    }
    FlipVAll(g, w, h);
  }

  /** The horizontal branch of `Flip`: row after row. */
  method FlipHorizontal(image: Image, w: u32, h: u32, ghost g: seq<seq<RGBA>>)
    requires image.Valid() && image.Scale() == (w, h) && image.Pixels() == g
    modifies image.buffer.buffer.ptr
    ensures image.Valid() && image.Scale() == (w, h)
    ensures image.Pixels() == Flipped(g, w, h, HORIZONTAL)
  {
    FlipHNone(g, w, h);
    var y: u32 := 0;
    while y < h
      invariant y <= h && image.Valid() && image.Scale() == (w, h)
      invariant image.Pixels() == FlipHUpTo(g, w, h, y, 0)
    {
      FlipRow(image, w, h, y, g);
      y := y + 1;
    }
    FlipHAll(g, w, h);
  }

  /** `Flip(image, direction)`: the image becomes its mirror image in that direction, in
      place; the scale does not change. */
  method Flip(image: Image, dir: FlipDirection)
    requires image.Valid()
    modifies image.buffer.buffer.ptr
    ensures image.Valid() && image.Scale() == old(image.Scale())
    ensures var (w, h) := image.Scale();
      image.Pixels() == Flipped(old(image.Pixels()), w, h, dir)
  {
    var (w, h) := image.Scale();
    if dir == VERTICAL {
      FlipVertical(image, w, h, image.Pixels());
      return;
    }
    FlipHorizontal(image, w, h, image.Pixels());
  }

  /** `hist.TryAdd(key, 0); ++hist[key]`: the count of `key` goes up by one, from 0 when the
      key is new, with the wrap-around of unchecked `i32` arithmetic. */
  function Bump<K>(hist: map<K, int>, key: K): (r: map<K, int>)
    ensures r.Keys == hist.Keys + {key}
  {
    hist[key := WrapI32((if key in hist then hist[key] else 0) + 1)]
  }

  /** The dictionary after the pixels `s` have been counted in order. */
  function Tally<K>(s: seq<RGBA>, f: RGBA -> K): map<K, int>
  {
    if s == [] then map[] else Bump(Tally(s[..|s| - 1], f), f(s[|s| - 1]))
  }

  /** Counting one more pixel is one more `Bump`. */
  lemma TallySnoc<K>(s: seq<RGBA>, p: RGBA, f: RGBA -> K)
    ensures Tally(s + [p], f) == Bump(Tally(s, f), f(p))
  {
    assert (s + [p])[..|s + [p]| - 1] == s;
  }

  /** The number of pixels of `s` that `f` maps to `key`. */
  function Count<K(==)>(s: seq<RGBA>, f: RGBA -> K, key: K): (n: nat)
    ensures n <= |s|
  {
    if s == [] then 0 else Count(s[..|s| - 1], f, key) + (if f(s[|s| - 1]) == key then 1 else 0)
  }

  /** The keys of the histogram are exactly the selector's values on the pixels, and each
      count is the number of pixels with that value, as an `i32`. */
  lemma {:induction false} TallyCounts<K>(s: seq<RGBA>, f: RGBA -> K, key: K)
    ensures key in Tally(s, f) <==> exists i :: 0 <= i < |s| && f(s[i]) == key
    ensures key in Tally(s, f) ==> Tally(s, f)[key] == WrapI32(Count(s, f, key))
    ensures key !in Tally(s, f) ==> Count(s, f, key) == 0
  {
    if s != [] {
      var init := s[..|s| - 1];
      TallyCounts(init, f, key);
      if (exists i :: 0 <= i < |init| && f(init[i]) == key) {
        var i :| 0 <= i < |init| && f(init[i]) == key;
        assert s[i] == init[i];
      }
      if (exists i :: 0 <= i < |s| && f(s[i]) == key) && f(s[|s| - 1]) != key {
        var i :| 0 <= i < |s| && f(s[i]) == key;
        assert init[i] == s[i];
      }
      if key in Tally(init, f) && f(s[|s| - 1]) == key {
        WrapI32Add(Count(init, f, key), 1);
      }
    }
  }

  /** Below 2^31 pixels no count wraps: each is the exact number of pixels. */
  lemma TallyExact<K>(s: seq<RGBA>, f: RGBA -> K, key: K)
    requires |s| < 0x8000_0000
    requires key in Tally(s, f)
    ensures Tally(s, f)[key] == Count(s, f, key)
  {
    TallyCounts(s, f, key);
  }

  /** The sum of the values of a map. */
  ghost function SumValues<K>(m: map<K, int>): int
    decreases |m.Keys|
  {
    if m == map[] then 0
    else
      var k :| k in m;
      assert (m - {k}).Keys == m.Keys - {k};
      m[k] + SumValues(m - {k})
  }

  /** The sum does not depend on which key is taken out first. */
  lemma {:induction false} SumValuesRemove<K>(m: map<K, int>, k: K)
    requires k in m
    ensures SumValues(m) == m[k] + SumValues(m - {k})
    decreases |m.Keys|
  {
    var j :| j in m && SumValues(m) == m[j] + SumValues(m - {j});
    if j != k {
      assert (m - {j}).Keys == m.Keys - {j};
      assert (m - {k}).Keys == m.Keys - {k};
      SumValuesRemove(m - {j}, k);
      SumValuesRemove(m - {k}, j);
      assert m - {j} - {k} == m - {k} - {j};
    }
  }

  /** Counting one more pixel adds one to the sum of the counts, while no count wraps. */
  lemma BumpSum<K>(m: map<K, int>, key: K)
    requires key in m ==> m[key] < 0x7FFF_FFFF
    requires key in m ==> -0x8000_0000 <= m[key]
    ensures SumValues(Bump(m, key)) == SumValues(m) + 1
  {
    var b := Bump(m, key);
    SumValuesRemove(b, key);
    if key in m {
      SumValuesRemove(m, key);
      assert b - {key} == m - {key};
    } else {
      assert b - {key} == m;
    }
  }

  /** For fewer than 2^31 pixels the counts add up to the number of pixels. */
  lemma {:induction false} TallySum<K>(s: seq<RGBA>, f: RGBA -> K)
    requires |s| < 0x8000_0000
    ensures SumValues(Tally(s, f)) == |s|
  {
    if s != [] {
      var init := s[..|s| - 1];
      var key := f(s[|s| - 1]);
      TallySum(init, f);
      if key in Tally(init, f) {
        TallyExact(init, f, key);
      }
      BumpSum(Tally(init, f), key);
    }
  }

  /** The pixels the loops of `CreateHistogram` have visited once they reach (x, y). */
  lemma VisitedStep(g: seq<seq<RGBA>>, w: nat, h: nat, y: nat, x: nat)
    requires Grid.IsGrid(g, w, h) && y < h && x < w
    ensures Grid.Flatten(g[..y]) + g[y][..x + 1] == (Grid.Flatten(g[..y]) + g[y][..x]) + [g[y][x]]
  {
    assert g[y][..x + 1] == g[y][..x] + [g[y][x]];
  }

  lemma VisitedRow(g: seq<seq<RGBA>>, w: nat, h: nat, y: nat)
    requires Grid.IsGrid(g, w, h) && y < h
    ensures Grid.Flatten(g[..y]) + g[y][..w] == Grid.Flatten(g[..y + 1])
  {
    assert g[..y + 1][..y] == g[..y];
    assert g[y][..w] == g[y];
  }

  /** One row of the loop of `CreateHistogram`. */
  method CountRow<K(==)>(image: Image, w: u32, h: u32, y: u32, f: RGBA -> K, hist0: map<K, int>) returns (hist: map<K, int>)
    requires image.Valid() && image.Scale() == (w, h) && y < h
    requires hist0 == Tally(Grid.Flatten(image.Pixels()[..y]), f)
    ensures hist == Tally(Grid.Flatten(image.Pixels()[..y + 1]), f)
  {
    ghost var g := image.Pixels();
    hist := hist0;
    var x: u32 := 0;
    assert Grid.Flatten(g[..y]) + g[y][..x] == Grid.Flatten(g[..y]);
    while x < w
      invariant x <= w && hist == Tally(Grid.Flatten(g[..y]) + g[y][..x], f)
    {
      hist := CountPixel(hist, f, image.Get(x, y).value);
      TallySnoc(Grid.Flatten(g[..y]) + g[y][..x], g[y][x], f);
      VisitedStep(g, w, h, y, x);
      x := x + 1;
    }
    VisitedRow(g, w, h, y);
  }

  /** `TryAdd(key, 0)` followed by `++hist[key]` for the key of one pixel. */
  method CountPixel<K(==)>(hist0: map<K, int>, f: RGBA -> K, px: RGBA) returns (hist: map<K, int>)
    ensures hist == Bump(hist0, f(px))
  {
    hist := hist0;
    if f(px) !in hist {
      hist := hist[f(px) := 0];
    }
    hist := hist[f(px) := WrapI32(hist[f(px)] + 1)];
  }

  /** `CreateHistogram(image, where)`: a missing selector throws; otherwise the dictionary
      holds, for every value the selector takes on a pixel, the number of pixels that give
      it, counting row by row. The image is only read. */
  method CreateHistogram<K(==)>(image: Image, selector: Option<RGBA -> K>) returns (r: Result<map<K, int>>)
    requires image.Valid()
    ensures r.Err? <==> selector.None?
    ensures r.Err? ==> r.error == ArgumentError
    ensures r.Ok? ==> r.value == Tally(Grid.Flatten(image.Pixels()), selector.value)
  {
    if selector.None? {
      return Err(ArgumentError);
    }
    var f := selector.value;
    var (w, h) := image.Scale();
    ghost var g := image.Pixels();
    var hist: map<K, int> := map[];
    var y: u32 := 0;
    while y < h
      invariant y <= h && hist == Tally(Grid.Flatten(g[..y]), f)
    {
      hist := CountRow(image, w, h, y, f, hist);
      y := y + 1;
    }
    assert g[..h] == g;
    r := Ok(hist);
  }
}
