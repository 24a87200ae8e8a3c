/** Row-major two-dimensional views of flat buffers: the addressing `y * width + x` that
    `UMem2D`'s indexer and `Palette`'s flattening use. */
module Grid {

  /** `g` has `h` rows of `w` cells each. */
  predicate IsGrid<T>(g: seq<seq<T>>, w: nat, h: nat)
  {
    |g| == h && forall y :: 0 <= y < h ==> |g[y]| == w
  }

  lemma MulLe(a: nat, b: nat, w: nat)
    requires a <= b
    ensures a * w <= b * w
  {
  }

  lemma MulLess(a: nat, b: nat, w: nat)
    requires a < b
    ensures a * w + w <= b * w
  {
    MulLe(a + 1, b, w);
  }

  /** Cell (x, y) of a `w` by `h` grid lies inside the flat buffer, and so does its row. */
  lemma CellInBounds(x: nat, y: nat, w: nat, h: nat)
    requires x < w && y < h
    ensures y * w + x < w * h
    ensures y * w + w <= w * h
  {
    MulLe(y + 1, h, w);
  }

  /** Two cells of a `w`-wide grid share a flat index only if they are the same cell. */
  lemma CellsDistinct(x1: nat, y1: nat, x2: nat, y2: nat, w: nat)
    requires x1 < w && x2 < w
    requires y1 * w + x1 == y2 * w + x2
    ensures x1 == x2 && y1 == y2
  {
    if y1 < y2 {
      MulLe(y1 + 1, y2, w);
    } else if y2 < y1 {
      MulLe(y2 + 1, y1, w);
    }
  }

  /** The next row starts one width further on. */
  lemma RowStep(y: nat, w: nat)
    ensures (y + 1) * w == y * w + w
  {
  }

  lemma RowInBounds(y: nat, w: nat, h: nat)
    requires y < h
    ensures y * w + w <= w * h
  {
    MulLe(y + 1, h, w);
  }

  /** Row `y` of a `w`-wide grid laid out row-major in `s`. */
  function Row<T>(s: seq<T>, w: nat, y: nat): (r: seq<T>)
    requires y * w + w <= |s|
    ensures |r| == w
    ensures forall x :: 0 <= x < w ==> r[x] == s[y * w + x]
  {
    s[y * w .. y * w + w]
  }

  /** The first `w * h` cells of `s` as `h` rows of width `w`. */
  function ToRows<T>(s: seq<T>, w: nat, h: nat): (g: seq<seq<T>>)
    requires w * h <= |s|
    ensures IsGrid(g, w, h)
    ensures forall y :: 0 <= y < h ==> g[y] == (RowInBounds(y, w, h); Row(s, w, y))
  {
    seq(h, y requires 0 <= y < h => RowInBounds(y, w, h); Row(s, w, y))
  }

  /** Cell [y][x] of the rows view is flat cell `y * w + x`. */
  lemma Cell<T>(s: seq<T>, w: nat, h: nat, x: nat, y: nat)
    requires w * h <= |s| && x < w && y < h
    ensures y * w + x < |s| && ToRows(s, w, h)[y][x] == s[y * w + x]
  {
    RowInBounds(y, w, h);
  }

  /** The cells of a grid in row-major order. */
  function Flatten<T>(g: seq<seq<T>>): seq<T>
  {
    if g == [] then [] else Flatten(g[..|g| - 1]) + g[|g| - 1]
  }

  /** A grid of `h` rows of width `w` flattens to `w * h` cells. */
  lemma {:induction false} FlattenLength<T>(g: seq<seq<T>>, w: nat, h: nat)
    requires IsGrid(g, w, h)
    ensures |Flatten(g)| == w * h
  {
    if h > 0 {
      var init := g[..h - 1];
      assert IsGrid(init, w, h - 1);
      FlattenLength(init, w, h - 1);
      MulLess(h - 1, h, w);
      assert (h - 1) * w + w == w * h;
    }
  }

  /** Flat cell `y * w + x` of a grid is its cell [y][x]. */
  lemma {:induction false} FlattenCell<T>(g: seq<seq<T>>, w: nat, h: nat, x: nat, y: nat)
    requires IsGrid(g, w, h) && x < w && y < h
    ensures |Flatten(g)| == w * h && y * w + x < w * h && Flatten(g)[y * w + x] == g[y][x]
  {
    FlattenLength(g, w, h);
    CellInBounds(x, y, w, h);
    var init := g[..h - 1];
    assert IsGrid(init, w, h - 1);
    FlattenLength(init, w, h - 1);
    var f, fi := Flatten(g), Flatten(init);
    assert f == fi + g[h - 1];
    if y < h - 1 {
      FlattenCell(init, w, h - 1, x, y);
      assert f[y * w + x] == fi[y * w + x];
    } else {
      assert y * w == w * (h - 1);
      assert y * w + x == |fi| + x;
    }
  }

  lemma {:induction false} FlattenOfRows<T>(s: seq<T>, w: nat, h: nat)
    requires w * h <= |s|
    ensures Flatten(ToRows(s, w, h)) == s[..w * h]
  {
    if h > 0 {
      var g := ToRows(s, w, h);
      MulLe(h - 1, h, w);
      assert g[..h - 1] == ToRows(s, w, h - 1);
      FlattenOfRows(s, w, h - 1);
      RowInBounds(h - 1, w, h);
      assert (h - 1) * w + w == w * h;
      assert g[h - 1] == s[(h - 1) * w .. w * h];
      assert s[..w * h] == s[..(h - 1) * w] + s[(h - 1) * w .. w * h];
    }
  }

  lemma RowsOfFlatten<T>(g: seq<seq<T>>, w: nat, h: nat)
    requires IsGrid(g, w, h)
    ensures |Flatten(g)| == w * h && ToRows(Flatten(g), w, h) == g
  {
    FlattenLength(g, w, h);
    var r := ToRows(Flatten(g), w, h);
    forall y | 0 <= y < h ensures r[y] == g[y] {
      forall x | 0 <= x < w ensures r[y][x] == g[y][x] {
        FlattenCell(g, w, h, x, y);
        Cell(Flatten(g), w, h, x, y);
      }
    }
  }

  /** Writing cell (x, y) of the flat buffer writes exactly cell [y][x] of the rows view. */
  lemma UpdateCell<T>(s: seq<T>, w: nat, h: nat, x: nat, y: nat, v: T)
    requires w * h <= |s| && x < w && y < h
    ensures y * w + x < |s|
    ensures ToRows(s[y * w + x := v], w, h) == ToRows(s, w, h)[y := ToRows(s, w, h)[y][x := v]]
  {
    CellInBounds(x, y, w, h);
    var g, g' := ToRows(s, w, h), ToRows(s[y * w + x := v], w, h);
    forall y' | 0 <= y' < h ensures g'[y'] == g[y := g[y][x := v]][y'] {
      forall x' | 0 <= x' < w ensures g'[y'][x'] == g[y := g[y][x := v]][y'][x'] {
        CellInBounds(x', y', w, h);
        if y' * w + x' == y * w + x {
          CellsDistinct(x', y', x, y, w);
        }
      }
    }
  }

  /** Two grids of the same shape that agree on every cell are equal. */
  lemma Extensionality<T>(g: seq<seq<T>>, g': seq<seq<T>>, w: nat, h: nat)
    requires IsGrid(g, w, h) && IsGrid(g', w, h)
    requires forall y, x :: 0 <= y < h && 0 <= x < w ==> g[y][x] == g'[y][x]
    ensures g == g'
  {
    forall y | 0 <= y < h ensures g[y] == g'[y] {
      assert forall x :: 0 <= x < w ==> g[y][x] == g'[y][x];
    }
  }

  /** Writing cell `(x, y)` twice leaves only the second value. */
  lemma UpdateTwice<T>(g: seq<seq<T>>, x: nat, y: nat, a: T, b: T)
    requires y < |g| && x < |g[y]|
    ensures var g' := g[y := g[y][x := a]];
      g'[y := g'[y][x := b]] == g[y := g[y][x := b]]
  {
    assert g[y][x := a][x := b] == g[y][x := b];
  }

  /** Every cell of the grid replaced by its image under `f`. */
  function Map<T>(g: seq<seq<T>>, f: T -> T, w: nat, h: nat): (r: seq<seq<T>>)
    requires IsGrid(g, w, h)
    ensures IsGrid(r, w, h)
    ensures forall y, x :: 0 <= y < h && 0 <= x < w ==> r[y][x] == f(g[y][x])
  {
    seq(h, y requires 0 <= y < h => seq(w, x requires 0 <= x < w => f(g[y][x])))
  }

  /** A loop over the cells in row-major order that replaces each by its image under `f`,
      after `k` cells. */
  function MapCells<T>(g: seq<seq<T>>, f: T -> T, w: nat, h: nat, k: nat): (r: seq<seq<T>>)
    requires IsGrid(g, w, h)
    ensures IsGrid(r, w, h)
  {
    seq(h, y requires 0 <= y < h => seq(w, x requires 0 <= x < w => if y * w + x < k then f(g[y][x]) else g[y][x]))
  }

  lemma MapNone<T>(g: seq<seq<T>>, f: T -> T, w: nat, h: nat)
    requires IsGrid(g, w, h)
    ensures MapCells(g, f, w, h, 0) == g
  {
    Extensionality(MapCells(g, f, w, h, 0), g, w, h);
  }

  lemma MapAll<T>(g: seq<seq<T>>, f: T -> T, w: nat, h: nat)
    requires IsGrid(g, w, h)
    ensures MapCells(g, f, w, h, w * h) == Map(g, f, w, h)
  {
    var m, r := MapCells(g, f, w, h, w * h), Map(g, f, w, h);
    forall y, x | 0 <= y < h && 0 <= x < w ensures m[y][x] == r[y][x] {
      CellInBounds(x, y, w, h);
    }
    Extensionality(m, r, w, h);
  }

  /** Cell `k = y * w + x` still holds its old value when the loop reaches it, and replacing
      it by its image turns the grid into the one after `k + 1` cells. */
  lemma MapStep<T>(g: seq<seq<T>>, f: T -> T, w: nat, h: nat, x: nat, y: nat, k: nat)
    requires IsGrid(g, w, h) && x < w && y < h && k == y * w + x
    ensures var m := MapCells(g, f, w, h, k);
      m[y][x] == g[y][x] && m[y := m[y][x := f(g[y][x])]] == MapCells(g, f, w, h, k + 1)
  {
    var m, m' := MapCells(g, f, w, h, k), MapCells(g, f, w, h, k + 1);
    var u := m[y := m[y][x := f(g[y][x])]];
    forall y', x' | 0 <= y' < h && 0 <= x' < w ensures u[y'][x'] == m'[y'][x'] {
      if y' * w + x' == k {
        CellsDistinct(x', y', x, y, w);
      }
    }
    Extensionality(u, m', w, h);
  }

  /** A row-major loop that gives every cell its value in `v`, when it reaches cell (x, y):
      the cells before it hold their value in `v`, the others still their value in `g`. */
  function Fill<T>(g: seq<seq<T>>, v: seq<seq<T>>, w: nat, h: nat, y: nat, x: nat): (r: seq<seq<T>>)
    requires IsGrid(g, w, h) && IsGrid(v, w, h)
    ensures IsGrid(r, w, h)
  {
    seq(h, j requires 0 <= j < h => seq(w, i requires 0 <= i < w =>
      if j < y || (j == y && i < x) then v[j][i] else g[j][i]))
  }

  lemma FillNone<T>(g: seq<seq<T>>, v: seq<seq<T>>, w: nat, h: nat)
    requires IsGrid(g, w, h) && IsGrid(v, w, h)
    ensures Fill(g, v, w, h, 0, 0) == g
  {
    Extensionality(Fill(g, v, w, h, 0, 0), g, w, h);
  }

  lemma FillAll<T>(g: seq<seq<T>>, v: seq<seq<T>>, w: nat, h: nat)
    requires IsGrid(g, w, h) && IsGrid(v, w, h)
    ensures Fill(g, v, w, h, h, 0) == v
  {
    Extensionality(Fill(g, v, w, h, h, 0), v, w, h);
  }

  /** The end of row `y` is the start of row `y + 1`. */
  lemma FillRowEnd<T>(g: seq<seq<T>>, v: seq<seq<T>>, w: nat, h: nat, y: nat)
    requires IsGrid(g, w, h) && IsGrid(v, w, h)
    ensures Fill(g, v, w, h, y, w) == Fill(g, v, w, h, y + 1, 0)
  {
    Extensionality(Fill(g, v, w, h, y, w), Fill(g, v, w, h, y + 1, 0), w, h);
  }

  /** Cell (x, y) still holds its value in `g` when the loop reaches it, and giving it its
      value in `v` moves the loop on by one cell. */
  lemma FillStep<T>(g: seq<seq<T>>, v: seq<seq<T>>, w: nat, h: nat, y: nat, x: nat)
    requires IsGrid(g, w, h) && IsGrid(v, w, h) && x < w && y < h
    ensures var m := Fill(g, v, w, h, y, x);
      m[y][x] == g[y][x] && m[y := m[y][x := v[y][x]]] == Fill(g, v, w, h, y, x + 1)
  {
    var m := Fill(g, v, w, h, y, x);
    Extensionality(m[y := m[y][x := v[y][x]]], Fill(g, v, w, h, y, x + 1), w, h);
  }
}
