/** Machine integers, error results and byte-order helpers shared by the whole model.
    C#'s `u8`/`u32` are subset types of `int`; every narrowing cast of the source is an
    explicit `Wrap8`/`Wrap32`. */
module Common {

  type byte = x: int | 0 <= x < 256
  type u16 = x: int | 0 <= x < 0x1_0000
  type u32 = x: int | 0 <= x < 0x1_0000_0000
  type i32 = x: int | -0x8000_0000 <= x < 0x8000_0000

  /** The exceptions the modelled code throws. */
  datatype Error =
    | IndexOutOfRange
    | ArgumentError
    | ArgumentOutOfRange
    | ArgumentNull
    | InvalidOperation
    | FileLoad
    | KeyNotFound
    | DivideByZero
    | NullReference
    | EndOfStream

  datatype Result<T> = Ok(value: T) | Err(error: Error)

  datatype Outcome = Pass | Fail(error: Error)

  datatype Option<T> = None | Some(value: T)

  /** The `(u8)` cast: keeps the low eight bits of a two's-complement value. */
  function Wrap8(x: int): (r: byte)
    ensures (x - r) % 256 == 0
    ensures 0 <= x < 256 ==> r == x
  {
    x % 256
  }

  /** The `(u32)` cast and unchecked `u32` arithmetic. */
  function Wrap32(x: int): (r: u32)
    ensures (x - r) % 0x1_0000_0000 == 0
    ensures 0 <= x < 0x1_0000_0000 ==> r == x
  {
    x % 0x1_0000_0000
  }

  /** `BitConverter.TryWriteBytes` on a little-endian host followed by `Reverse`:
      the big-endian bytes of a `u32`. */
  function BigEndian32(v: u32): (r: seq<byte>)
    ensures |r| == 4
  {
    var v1 := v / 256;
    var v2 := v1 / 256;
    [v2 / 256, v2 % 256, v1 % 256, v % 256]
  }

  /** `Reverse` of four bytes followed by `BitConverter.ToUInt32` on a little-endian host. */
  function ReadBigEndian32(b: seq<byte>): u32
    requires |b| == 4
  {
    ((b[0] as int * 256 + b[1]) * 256 + b[2]) * 256 + b[3]
  }

  lemma BigEndian32RoundTrip(v: u32)
    ensures ReadBigEndian32(BigEndian32(v)) == v
  {
  }

  lemma ReadBigEndian32RoundTrip(b: seq<byte>)
    requires |b| == 4
    ensures BigEndian32(ReadBigEndian32(b)) == b
  {
    var v2 := b[0] as int * 256 + b[1];
    var v1 := v2 * 256 + b[2];
    DivMod256(b[0], b[1]);
    DivMod256(v2, b[2]);
    DivMod256(v1, b[3]);
  }

  lemma DivMod256(q: int, r: byte)
    ensures (q * 256 + r) / 256 == q && (q * 256 + r) % 256 == r
  {
  }

  /** The byte-wise reversal that `Span.Reverse` performs. */
  function Reversed<T>(s: seq<T>): (r: seq<T>)
    ensures |r| == |s|
    ensures forall i :: 0 <= i < |s| ==> r[i] == s[|s| - 1 - i]
  {
    seq(|s|, i requires 0 <= i < |s| => s[|s| - 1 - i])
  }

  /** Unchecked `i32` arithmetic: the two's-complement value of the low 32 bits. */
  function WrapI32(x: int): (r: int)
    ensures -0x8000_0000 <= r < 0x8000_0000
    ensures (x - r) % 0x1_0000_0000 == 0
    ensures -0x8000_0000 <= x < 0x8000_0000 ==> r == x
  {
    (x + 0x8000_0000) % 0x1_0000_0000 - 0x8000_0000
  }

  /** Wrapping after every addition is wrapping once at the end: the `i32` accumulators of an
      unchecked loop. */
  lemma WrapI32Add(x: int, y: int)
    ensures WrapI32(WrapI32(x) + y) == WrapI32(x + y)
  {
    var m := 0x1_0000_0000;
    var a := x + 0x8000_0000;
    var q := a / m;
    assert a == q * m + a % m;
    assert WrapI32(x) + y + 0x8000_0000 == (a + y) - q * m;
    ModMultiple(a + y, q, m);
  }

  lemma ModMultiple(a: int, q: int, m: int)
    requires m > 0
    ensures (a - q * m) % m == a % m
  {
    var r := a % m;
    var p := a / m - q;
    assert a - q * m == p * m + r;
    ModUnique(a - q * m, p, m, r);
  }

  /** The remainder is the one value in `0 .. m` that differs from `a` by a multiple of `m`. */
  lemma ModUnique(a: int, p: int, m: int, r: int)
    requires m > 0 && 0 <= r < m && a == p * m + r
    ensures a % m == r
  {
    var p', r' := a / m, a % m;
    assert p' * m + r' == p * m + r;
    var d := p - p';
    assert d * m == r' - r;
    if d > 0 {
      MulAtLeast(d, m);
    } else if d < 0 {
      MulAtLeast(-d, m);
    }
  }

  lemma MulAtLeast(k: nat, m: nat)
    requires k >= 1
    ensures k * m >= m
  {
    assert k * m == (k - 1) * m + m;
  }

  /** Euclid's quotient of a non-negative dividend is its floor. */
  lemma EuclidBounds(a: int, b: int)
    requires a >= 0 && b > 0
    ensures 0 <= a / b && (a / b) * b <= a < (a / b) * b + b
  {
    assert a == (a / b) * b + a % b;
  }

  /** C#'s integer division, which truncates toward zero: the quotient rounds down for a
      non-negative dividend and up for a negative one, so `q * b` never passes `a`. */
  function TruncDiv(a: int, b: int): (q: int)
    requires b > 0
    ensures a >= 0 ==> 0 <= q && q * b <= a < q * b + b
    ensures a < 0 ==> q <= 0 && q * b - b < a <= q * b
  {
    if a >= 0 then EuclidBounds(a, b); a / b else EuclidBounds(-a, b); -((-a) / b)
  }

  function Pow2(n: nat): (p: nat)
    ensures p >= 1
  {
    if n == 0 then 1 else 2 * Pow2(n - 1)
  }

  /** `i32.IsPow2`: a positive power of two. */
  predicate IsPow2(n: int)
    decreases if n > 0 then n else 0
  {
    n == 1 || (n > 1 && n % 2 == 0 && IsPow2(n / 2))
  }

  lemma {:induction false} Pow2IsPow2(i: nat)
    ensures IsPow2(Pow2(i))
  {
    if i > 0 {
      Pow2IsPow2(i - 1);
      assert Pow2(i) / 2 == Pow2(i - 1);
    }
  }

  lemma {:induction false} Pow2Monotone(i: nat, j: nat)
    requires i <= j
    ensures Pow2(i) <= Pow2(j)
  {
    if i < j {
      Pow2Monotone(i, j - 1);
    }
  }

  function Min(a: int, b: int): int { if a <= b then a else b }
  function Max(a: int, b: int): int { if a <= b then b else a }
}
