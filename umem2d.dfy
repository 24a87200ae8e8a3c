/** `UMem2D<T>`: a flat `UMem<T>` addressed row-major by a `(X, Y)` scale. The buffer field is
    read-only, so the `_buffer.Dispose()` call inside `Dispose` acts on a copy of the struct and
    the field keeps its length; only the scale and the disposed flag change. */
module Memory2D {
  import opened Common
  import opened Memory
  import Grid

  class UMem2D<T(0)> {
    const buffer: UMem<T>
    var scaleX: u32
    var scaleY: u32
    var disposed: bool

    /** The scale's cells are backed by the buffer. The source multiplies the two `u32`
        dimensions in `u32`; the model keeps that product below 2^32. A disposed object has
        scale `(0, 0)`. */
    ghost predicate Valid()
      reads this, buffer.ptr
    {
      Memory.Valid(buffer) && scaleX * scaleY <= buffer.length && scaleX * scaleY < 0x1_0000_0000 &&
      (disposed ==> scaleX == 0 && scaleY == 0)
    }

    /** The `X * Y` cells in row-major order. */
    ghost function Cells(): (s: seq<T>)
      requires Valid()
      reads this, buffer.ptr
      ensures |s| == scaleX * scaleY
    {
      Contents(buffer)[..scaleX * scaleY]
    }

    /** The cells as `Y` rows of `X` cells: `Rows()[y][x]` is the cell the indexer calls
        `[x, y]`. */
    ghost function Rows(): (g: seq<seq<T>>)
      requires Valid()
      reads this, buffer.ptr
      ensures Grid.IsGrid(g, scaleX, scaleY)
    {
      Grid.ToRows(Cells(), scaleX, scaleY)
    }

    /** The allocating constructors' shared tail: adopt `buffer` with the given scale. */
    constructor Adopt(buffer: UMem<T>, x: u32, y: u32)
      requires Memory.Valid(buffer) && x * y <= buffer.length && x * y < 0x1_0000_0000
      ensures this.buffer == buffer && scaleX == x && scaleY == y && !disposed
      ensures Valid()
    {
      this.buffer := buffer;
      scaleX, scaleY := x, y;
      disposed := false;
    }

    /** `Invalid`: a new object each time, with no buffer and scale `(0, 0)`. */
    constructor Invalid()
      ensures buffer == Memory.Invalid() && scaleX == 0 && scaleY == 0 && !disposed
      ensures Valid() && Rows() == []
    {
      buffer := Memory.Invalid();
      scaleX, scaleY := 0, 0;
      disposed := false;
    }

    /** `Scale`. */
    function Scale(): (s: (u32, u32))
      reads this
      ensures s == (scaleX, scaleY)
    {
      (scaleX, scaleY)
    }

    /** The indexer on read: a coordinate outside the scale throws; otherwise the cell at flat
        index `y * X + x`. */
    function Get(x: u32, y: u32): (r: Result<T>)
      requires Valid()
      reads this, buffer.ptr
      ensures r.Err? <==> x >= scaleX || y >= scaleY
      ensures r.Err? ==> r.error == IndexOutOfRange
      ensures r.Ok? ==> r.value == Rows()[y][x]
    {
      if x >= scaleX || y >= scaleY then Err(IndexOutOfRange)
      else
        Grid.Cell(Cells(), scaleX, scaleY, x, y);
        Ok(buffer.ptr[y * scaleX + x])
    }

    /** The indexer on write: a coordinate outside the scale throws; otherwise exactly cell
        `[x, y]` changes. */
    method Set(x: u32, y: u32, value: T) returns (o: Outcome)
      requires Valid()
      modifies buffer.ptr
      ensures Valid()
      ensures o.Fail? <==> x >= scaleX || y >= scaleY
      ensures o.Fail? ==> o.error == IndexOutOfRange && Rows() == old(Rows())
      ensures o.Pass? ==> Rows() == old(Rows())[y := old(Rows())[y][x := value]]
    {
      if x >= scaleX || y >= scaleY {
        return Fail(IndexOutOfRange);
      }
      ghost var before := Cells();
      Grid.CellInBounds(x, y, scaleX, scaleY);
      buffer.ptr[y * scaleX + x] := value;
      assert Cells() == before[y * scaleX + x := value];
      Grid.UpdateCell(before, scaleX, scaleY, x, y, value);
      o := Pass;
    }

    /** `CopyFrom`: a larger source throws; otherwise every cell inside the source's extent
        takes the source's value and every other cell keeps its own. */
    method CopyFrom(from: UMem2D<T>) returns (o: Outcome)
      requires Valid() && from.Valid()
      requires from.buffer.ptr == null || from.buffer.ptr != buffer.ptr
      modifies buffer.ptr
      ensures Valid()
      ensures o.Fail? <==> from.scaleX > scaleX || from.scaleY > scaleY
      ensures o.Fail? ==> o.error == ArgumentError && Rows() == old(Rows())
      ensures o.Pass? ==> forall y, x :: 0 <= y < scaleY && 0 <= x < scaleX ==>
        Rows()[y][x] == if y < from.scaleY && x < from.scaleX then old(from.Rows())[y][x] else old(Rows())[y][x]
    {
      if from.scaleX > scaleX || from.scaleY > scaleY {
        return Fail(ArgumentError);
      }
      ghost var src := from.Rows();
      ghost var was := Rows();
      var y: u32 := 0;
      while y < from.scaleY
        invariant 0 <= y <= from.scaleY
        invariant Valid() && from.Valid() && from.Rows() == src
        invariant forall yy, xx :: 0 <= yy < scaleY && 0 <= xx < scaleX ==>
          Rows()[yy][xx] == if yy < y && xx < from.scaleX then src[yy][xx] else was[yy][xx]
      {
        CopyRow(from, y, src, was);
        y := y + 1;
      }
      o := Pass;
    }

    /** The inner loop of `CopyFrom`: row `y` takes the source's cells. */
    method CopyRow(from: UMem2D<T>, y: u32, ghost src: seq<seq<T>>, ghost was: seq<seq<T>>)
      requires Valid() && from.Valid() && from.Rows() == src
      requires from.buffer.ptr == null || from.buffer.ptr != buffer.ptr
      requires from.scaleX <= scaleX && from.scaleY <= scaleY && y < from.scaleY && Grid.IsGrid(was, scaleX, scaleY)
      requires forall yy, xx :: 0 <= yy < scaleY && 0 <= xx < scaleX ==>
        Rows()[yy][xx] == if yy < y && xx < from.scaleX then src[yy][xx] else was[yy][xx]
      modifies buffer.ptr
      ensures Valid() && from.Valid() && from.Rows() == src
      ensures forall yy, xx :: 0 <= yy < scaleY && 0 <= xx < scaleX ==>
        Rows()[yy][xx] == if yy <= y && xx < from.scaleX then src[yy][xx] else was[yy][xx]
    {
      var x: u32 := 0;
      while x < from.scaleX
        invariant 0 <= x <= from.scaleX
        invariant Valid() && from.Valid() && from.Rows() == src
        invariant forall yy, xx :: 0 <= yy < scaleY && 0 <= xx < scaleX ==>
          Rows()[yy][xx] == if (yy < y && xx < from.scaleX) || (yy == y && xx < x) then src[yy][xx] else was[yy][xx]
      {
        var v := from.Get(x, y);
        var _ := Set(x, y, v.value);
        x := x + 1;
      }
    }

    /** `Dispose`: the first call sets the scale to `(0, 0)` and marks the object disposed;
        later calls do nothing. */
    method Dispose()
      requires Valid()
      modifies this`scaleX, this`scaleY, this`disposed
      ensures Valid() && disposed && scaleX == 0 && scaleY == 0
    {
      if !disposed {
        scaleX, scaleY := 0, 0;
        disposed := true;
      }
    }

    /** `Equals`: a non-null object with the same disposed flag and an equal buffer. It is
        reflexive, and equal objects share their storage and its length. */
    predicate Equals(other: UMem2D?<T>): (r: bool)
      reads this, other
      ensures other == this ==> r
      ensures r ==> (other != null && disposed == other.disposed
        && buffer.ptr == other.buffer.ptr && buffer.length == other.buffer.length)
    {
      other != null && disposed == other.disposed && Memory.Equals(buffer, other.buffer)
    }

    /** Comparing with a fresh `Invalid` object holds exactly for a buffer-less object that
        has not been disposed; a disposed object never equals `Invalid`. */
    lemma EqualsInvalid(inv: UMem2D<T>)
      requires inv.buffer == Memory.Invalid() && !inv.disposed
      ensures Equals(inv) <==> !disposed && buffer.ptr == null && buffer.length == 0
    {
    }
  }

  /** `new UMem2D(scale)`: a zero dimension throws; otherwise a new allocation of `X * Y`
      cells whose contents are unspecified. */
  method New<T(0)>(x: u32, y: u32) returns (r: Result<UMem2D<T>>)
    requires x * y < 0x1_0000_0000
    ensures r.Err? <==> x == 0 || y == 0
    ensures r.Err? ==> r.error == ArgumentError
    ensures r.Ok? ==> fresh(r.value) && r.value.buffer.ptr != null && fresh(r.value.buffer.ptr)
    ensures r.Ok? ==> r.value.Valid() && r.value.Scale() == (x, y) && !r.value.disposed
  {
    if x == 0 || y == 0 {
      return Err(ArgumentError);
    }
    MulAtLeast(y as nat, x as nat);
    var b := Create<T>(x * y);
    var m := new UMem2D.Adopt(b, x, y);
    r := Ok(m);
  }

  /** `new UMem2D(scale, default)`: a zero dimension throws; otherwise every cell holds
      `default`. */
  method NewFilled<T(0)>(x: u32, y: u32, default: T) returns (r: Result<UMem2D<T>>)
    requires x * y < 0x1_0000_0000
    ensures r.Err? <==> x == 0 || y == 0
    ensures r.Err? ==> r.error == ArgumentError
    ensures r.Ok? ==> fresh(r.value) && r.value.buffer.ptr != null && fresh(r.value.buffer.ptr)
    ensures r.Ok? ==> r.value.Valid() && r.value.Scale() == (x, y) && !r.value.disposed
    ensures r.Ok? ==> forall j, i :: 0 <= j < y && 0 <= i < x ==> r.value.Rows()[j][i] == default
  {
    if x == 0 || y == 0 {
      return Err(ArgumentError);
    }
    MulAtLeast(y as nat, x as nat);
    var b := CreateFilled<T>(x * y, default);
    var m := new UMem2D.Adopt(b, x, y);
    forall j, i | 0 <= j < y && 0 <= i < x ensures m.Rows()[j][i] == default {
      Grid.Cell(m.Cells(), x, y, i, j);
    }
    r := Ok(m);
  }
}
