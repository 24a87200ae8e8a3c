/** `Image`: an RGBA pixel buffer with a bit depth. Construction either allocates, copies from
    another image, or takes over another image's buffer; `SwapBuffer` replaces the buffer of a
    loaded image. The constructors that can throw are factory methods returning a `Result`. */
module Images {
  import opened Common
  import opened Color
  import Memory
  import opened Memory2D
  import Grid

  class Image {
    var buffer: UMem2D<RGBA>
    var bitDepth: byte
    var disposed: bool

    ghost predicate Valid()
      reads this, buffer, buffer.buffer.ptr
    {
      buffer.Valid()
    }

    /** The pixels, `Pixels()[y][x]` being the pixel the indexer calls `[x, y]`. */
    ghost function Pixels(): seq<seq<RGBA>>
      requires Valid()
      reads this, buffer, buffer.buffer.ptr
    {
      buffer.Rows()
    }

    constructor WithBuffer(buffer: UMem2D<RGBA>, bitDepth: byte)
      ensures this.buffer == buffer && this.bitDepth == bitDepth && !disposed
    {
      this.buffer := buffer;
      this.bitDepth := bitDepth;
      disposed := false;
    }

    /** `Scale`: the buffer's scale. */
    function Scale(): (s: (u32, u32))
      reads this, buffer
      ensures s == (buffer.scaleX, buffer.scaleY)
    {
      buffer.Scale()
    }

    /** The indexer on read. */
    function Get(x: u32, y: u32): (r: Result<RGBA>)
      requires Valid()
      reads this, buffer, buffer.buffer.ptr
      ensures r.Err? <==> x >= Scale().0 || y >= Scale().1
      ensures r.Ok? ==> r.value == Pixels()[y][x]
    {
      buffer.Get(x, y)
    }

    /** The indexer on write: exactly pixel `[x, y]` changes. */
    method Set(x: u32, y: u32, value: RGBA) returns (o: Outcome)
      requires Valid()
      modifies buffer.buffer.ptr
      ensures Valid()
      ensures o.Fail? <==> x >= Scale().0 || y >= Scale().1
      ensures o.Fail? ==> Pixels() == old(Pixels())
      ensures o.Pass? ==> Pixels() == old(Pixels())[y := old(Pixels())[y][x := value]]
    {
      o := buffer.Set(x, y, value);
    }

    /** `SwapBuffer`: an image whose buffer equals `Invalid` throws; otherwise the old buffer
        is disposed and the image adopts `source`. */
    method SwapBuffer(source: UMem2D<RGBA>) returns (o: Outcome)
      requires Valid()
      modifies this`buffer, buffer`scaleX, buffer`scaleY, buffer`disposed
      ensures o.Fail? <==> old(!buffer.disposed && buffer.buffer.ptr == null && buffer.buffer.length == 0)
      ensures o.Fail? ==> o.error == InvalidOperation && buffer == old(buffer) && unchanged(buffer)
      ensures o.Pass? ==> buffer == source && old(buffer).disposed && old(buffer).Scale() == (0, 0)
      ensures o.Pass? && old(buffer) != source ==> unchanged(source)
    {
      var invalid := new UMem2D<RGBA>.Invalid();
      buffer.EqualsInvalid(invalid);
      if buffer.Equals(invalid) {
        return Fail(InvalidOperation);
      }
      buffer.Dispose();
      buffer := source;
      o := Pass;
    }

    /** `Dispose`: the first call sets the bit depth to 0 and disposes the buffer; later calls
        do nothing. */
    method Dispose()
      requires Valid()
      modifies this`bitDepth, this`disposed, buffer`scaleX, buffer`scaleY, buffer`disposed
      ensures Valid() && disposed && buffer == old(buffer)
      ensures old(disposed) ==> bitDepth == old(bitDepth) && unchanged(buffer)
      ensures !old(disposed) ==> bitDepth == 0 && Scale() == (0, 0) && buffer.disposed
    {
      if !disposed {
        bitDepth := 0;
        buffer.Dispose();
        disposed := true;
      }
    }
  }

  /** `new Image(x, y, color)`: every pixel is `color` and the bit depth is 8; a zero
      dimension throws. */
  method NewFilled(x: u32, y: u32, color: RGBA) returns (r: Result<Image>)
    requires x * y < 0x1_0000_0000
    ensures r.Err? <==> x == 0 || y == 0
    ensures r.Err? ==> r.error == ArgumentError
    ensures r.Ok? ==> fresh(r.value) && fresh(r.value.buffer) && r.value.Valid()
    ensures r.Ok? ==> r.value.Scale() == (x, y) && r.value.bitDepth == 8 && !r.value.disposed
    ensures r.Ok? ==> forall j, i :: 0 <= j < y && 0 <= i < x ==> r.value.Pixels()[j][i] == color
  {
    var b := Memory2D.NewFilled<RGBA>(x, y, color);
    if b.Err? {
      return Err(b.error);
    }
    // the field starts at 0, so the constructor's `_bitDepth == 0 ? 8 : _bitDepth` gives 8
    var image := new Image.WithBuffer(b.value, 8);
    r := Ok(image);
  }

  /** `new Image(x, y)`: bit depth 8 and unspecified pixels; a zero dimension throws. */
  method New(x: u32, y: u32) returns (r: Result<Image>)
    requires x * y < 0x1_0000_0000
    ensures r.Err? <==> x == 0 || y == 0
    ensures r.Err? ==> r.error == ArgumentError
    ensures r.Ok? ==> fresh(r.value) && fresh(r.value.buffer) && r.value.Valid()
    ensures r.Ok? ==> r.value.Scale() == (x, y) && r.value.bitDepth == 8 && !r.value.disposed
  {
    var b := Memory2D.New<RGBA>(x, y);
    if b.Err? {
      return Err(b.error);
    }
    var image := new Image.WithBuffer(b.value, 8);
    r := Ok(image);
  }

  /** `new Image(source, isOwner)`. Without ownership the new image gets a fresh buffer of the
      same scale holding the same pixels (a source of scale zero in either dimension throws);
      with ownership it takes the source's buffer object and the source is left holding a new
      `Invalid` buffer. The bit depth is copied in both cases. */
  method FromImage(source: Image, isOwner: bool) returns (r: Result<Image>)
    requires source.Valid()
    modifies source`buffer
    ensures !isOwner ==> unchanged(source)
    ensures r.Err? <==> !isOwner && (old(source.Scale()).0 == 0 || old(source.Scale()).1 == 0)
    ensures r.Err? ==> r.error == ArgumentError
    ensures r.Ok? ==> fresh(r.value) && r.value.Valid() && !r.value.disposed
    ensures r.Ok? ==> r.value.bitDepth == source.bitDepth && r.value.Scale() == old(source.Scale())
    ensures r.Ok? && !isOwner ==> fresh(r.value.buffer) && fresh(r.value.buffer.buffer.ptr)
    ensures r.Ok? && !isOwner ==> r.value.Pixels() == source.Pixels()
    ensures r.Ok? && isOwner ==> r.value.buffer == old(source.buffer) && unchanged(old(source.buffer))
    ensures isOwner ==> fresh(source.buffer) && source.Valid() && source.Scale() == (0, 0)
    ensures isOwner ==> source.buffer.buffer == Memory.Invalid() && !source.buffer.disposed
  {
    if !isOwner {
      var b := Memory2D.New<RGBA>(source.buffer.scaleX, source.buffer.scaleY);
      if b.Err? {
        return Err(b.error);
      }
      var copy := b.value;
      var _ := copy.CopyFrom(source.buffer);
      Grid.Extensionality(copy.Rows(), source.buffer.Rows(), copy.scaleX, copy.scaleY);
      var image := new Image.WithBuffer(copy, source.bitDepth);
      r := Ok(image);
    } else {
      var image := new Image.WithBuffer(source.buffer, source.bitDepth);
      source.buffer := new UMem2D<RGBA>.Invalid();
      r := Ok(image);
    }
  }

  /** A pixel loop that replaces pixel `k` of the row-major order by its image under `f`
      has mapped one more cell. */
  method SetMapped(img: Image, x: u32, y: u32, v: RGBA, ghost f: RGBA -> RGBA, ghost orig: seq<seq<RGBA>>, ghost k: nat)
    requires img.Valid()
    requires var (w, h) := img.Scale();
      x < w && y < h && k == y as nat * w as nat + x as nat && Grid.IsGrid(orig, w, h)
      && img.Pixels() == Grid.MapCells(orig, f, w, h, k) && v == f(orig[y][x])
    modifies img.buffer.buffer.ptr
    ensures img.Valid() && img.Scale() == old(img.Scale())
    ensures var (w, h) := img.Scale();
      img.Pixels() == Grid.MapCells(orig, f, w, h, k + 1)
  {
    Grid.MapStep(orig, f, img.Scale().0, img.Scale().1, x, y, k);
    var _ := img.Set(x, y, v);
  }
}
