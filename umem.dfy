/** `UMem<T>`: a struct made of a pointer to natively allocated memory and an element count.
    The pointer becomes a nullable array; the struct is a value, so members that reassign its
    own fields (`Dispose`) return the new value, while writes through the pointer modify the
    array. `NativeMemory.Alloc` leaves memory uninitialised: `Create(n)` promises nothing about
    the contents. `NativeMemory.Free` has no counterpart. */
module Memory {
  import opened Common

  datatype UMem<T> = UMem(ptr: array?<T>, length: nat)

  /** `Invalid`: no allocation and no elements. */
  function Invalid<T>(): (m: UMem<T>)
    ensures m.ptr == null && m.length == 0
  {
    UMem(null, 0)
  }

  /** Every index below `length` is backed by the allocation. */
  predicate Valid<T>(m: UMem<T>)
  {
    if m.ptr == null then m.length == 0 else m.length <= m.ptr.Length
  }

  /** The elements `0 .. length`. */
  function Contents<T>(m: UMem<T>): (s: seq<T>)
    requires Valid(m)
    reads m.ptr
    ensures |s| == m.length
  {
    if m.ptr == null then [] else m.ptr[..m.length]
  }

  /** `Create(allocationLength)`: `Invalid` for zero, otherwise a new allocation. */
  method Create<T(0)>(allocationLength: nat) returns (m: UMem<T>)
    ensures Valid(m) && m.length == allocationLength
    ensures allocationLength == 0 ==> m == Invalid()
    ensures allocationLength > 0 ==> m.ptr != null && fresh(m.ptr) && m.ptr.Length == allocationLength
  {
    if allocationLength == 0 {
      return Invalid();
    }
    var a := new T[allocationLength];
    m := UMem(a, allocationLength);
  }

  /** `Create(allocationLength, default)`: always allocates (a zero-length request too) and
      writes `default` into every element. */
  method CreateFilled<T(0)>(allocationLength: nat, default: T) returns (m: UMem<T>)
    ensures Valid(m) && m.length == allocationLength
    ensures m.ptr != null && fresh(m.ptr) && m.ptr.Length == allocationLength
    ensures forall i :: 0 <= i < allocationLength ==> m.ptr[i] == default
  {
    var a := new T[allocationLength];
    m := UMem(a, allocationLength);
    var i := 0;
    while i < m.length
      invariant 0 <= i <= m.length
      invariant forall k :: 0 <= k < i ==> a[k] == default
    {
      a[i] := default;
      i := i + 1;
    }
  }

  /** `Clear(fill)`: every element becomes `fill`; nothing past `length` is touched. */
  method Clear<T>(m: UMem<T>, fill: T)
    requires Valid(m)
    modifies m.ptr
    ensures Contents(m) == seq(m.length, _ => fill)
    ensures m.ptr != null ==> m.ptr[m.length..] == old(m.ptr[m.length..])
  {
    if m.ptr == null {
      return;
    }
    var i := 0;
    while i < m.length
      invariant 0 <= i <= m.length
      invariant forall k :: 0 <= k < i ==> m.ptr[k] == fill
      invariant m.ptr[m.length..] == old(m.ptr[m.length..])
    {
      m.ptr[i] := fill;
      i := i + 1;
    }
  }

  /** Reading through the indexer: an index at or past `length` throws. */
  function Get<T>(m: UMem<T>, index: nat): (r: Result<T>)
    requires Valid(m)
    reads m.ptr
    ensures r.Err? <==> index >= m.length
    ensures r.Err? ==> r.error == IndexOutOfRange
    ensures r.Ok? ==> r.value == Contents(m)[index]
  {
    if index >= m.length then Err(IndexOutOfRange) else Ok(m.ptr[index])
  }

  /** Writing through the indexer: an index at or past `length` throws, otherwise exactly that
      element changes. */
  method Set<T>(m: UMem<T>, index: nat, value: T) returns (o: Outcome)
    requires Valid(m)
    modifies m.ptr
    ensures o.Fail? <==> index >= m.length
    ensures o.Fail? ==> o.error == IndexOutOfRange && (m.ptr != null ==> unchanged(m.ptr))
    ensures o.Pass? ==> Contents(m) == old(Contents(m))[index := value]
    ensures m.ptr != null ==> m.ptr[m.length..] == old(m.ptr[m.length..])
  {
    if index >= m.length {
      return Fail(IndexOutOfRange);
    }
    m.ptr[index] := value;
    o := Pass;
  }

  /** `AsSpan(from, length)`: a view of `count` elements starting at `start`. A request that
      runs past the end is clamped to what remains. */
  datatype Span<T> = Span(mem: array?<T>, start: nat, count: nat)

  /** Every element of the view lies in the allocation. */
  predicate InBounds<T>(s: Span<T>)
  {
    s.count == 0 || (s.mem != null && s.start + s.count <= s.mem.Length)
  }

  function AsSpan<T>(m: UMem<T>, from: nat, length: nat): (s: Span<T>)
    ensures s.mem == m.ptr && s.start == from
    ensures s.count == Min(length, Max(0, m.length - from))
    ensures Valid(m) ==> InBounds(s)
  {
    if from + length > m.length then Span(m.ptr, from, Max(0, m.length - from))
    else Span(m.ptr, from, length)
  }

  /** The elements a span views. */
  function View<T>(s: Span<T>): (r: seq<T>)
    requires InBounds(s)
    reads s.mem
    ensures |r| == s.count
  {
    if s.count == 0 then [] else s.mem[s.start .. s.start + s.count]
  }

  /** A span over the whole of a buffer views its contents. */
  lemma WholeSpan<T>(m: UMem<T>)
    requires Valid(m)
    ensures View(AsSpan(m, 0, m.length)) == Contents(m)
  {
  }

  /** `Equals`: the same pointer and the same length. */
  function Equals<T>(m: UMem<T>, other: UMem<T>): (r: bool)
    ensures r <==> m.length == other.length && m.ptr == other.ptr
  {
    other.length == m.length && other.ptr == m.ptr
  }

  /** A buffer equals `Invalid` exactly when it has neither an allocation nor elements: a
      zero-length allocation is not `Invalid`. */
  lemma EqualsInvalid<T>(m: UMem<T>)
    ensures Equals(m, Invalid()) <==> m.ptr == null && m.length == 0
  {
  }

  /** `Dispose`: a buffer with elements releases them and its length drops to zero; the
      pointer field is read-only and keeps its value. */
  function Dispose<T>(m: UMem<T>): (d: UMem<T>)
    ensures d.length == 0 && d.ptr == m.ptr
    ensures Valid(m) ==> Valid(d)
  {
    if m.length > 0 then m.(length := 0) else m
  }

  /** Disposing twice has the effect of disposing once. */
  lemma DisposeIdempotent<T>(m: UMem<T>)
    ensures Dispose(Dispose(m)) == Dispose(m)
  {
  }
}
