/** The `RGBA` pixel struct: four 8-bit channels. The struct is a value type, so each of its
    mutating members (`CopyFrom`, a write into a `Span` by `CopyTo`) becomes a function that
    returns the updated value. */
module Color {
  import opened Common

  datatype RGBA = RGBA(r: byte, g: byte, b: byte, a: byte)

  /** `new RGBA(red, green, blue, alpha = 255)`. */
  function FromChannels(red: byte, green: byte, blue: byte, alpha: byte := 255): (p: RGBA)
    ensures p.r == red && p.g == green && p.b == blue && p.a == alpha
  {
    RGBA(red, green, blue, alpha)
  }

  /** `new RGBA(u32 color)` and the implicit conversion from `u32`: the fields overlay the
      integer, alpha at byte offset 0 and red at offset 3 (little-endian host). */
  function FromU32(color: u32): (p: RGBA)
    ensures ToU32(p) == color
  {
    var q1 := color / 256;
    var q2 := q1 / 256;
    DivMod256(q1, color % 256);
    DivMod256(q2, q1 % 256);
    DivMod256(q2 / 256, q2 % 256);
    RGBA(q2 / 256, q2 % 256, q1 % 256, color % 256)
  }

  /** The `_interger` view of a pixel (what `ToString` prints). */
  function ToU32(p: RGBA): u32
  {
    ((p.r as int * 256 + p.g) * 256 + p.b) * 256 + p.a
  }

  lemma PackRoundTrip(p: RGBA)
    ensures FromU32(ToU32(p)) == p
  {
    var v2 := p.r as int * 256 + p.g;
    var v1 := v2 * 256 + p.b;
    DivMod256(p.r, p.g);
    DivMod256(v2, p.b);
    DivMod256(v1, p.a);
  }

  /** The colour `0x00000000` used for missing neighbours: every channel zero, alpha included. */
  const Zero: RGBA := RGBA(0, 0, 0, 0)

  lemma ZeroIsPackedZero()
    ensures FromU32(0) == Zero
  {
    assert 0 / 256 == 0 && 0 % 256 == 0;
  }

  /** `new RGBA(ReadOnlySpan<u8> rgba)`: channels R, G, B from bytes 0..2, alpha 255 for a
      three-byte span and byte 3 otherwise; a span shorter than three bytes (or of a length
      other than 3 without a fourth byte) throws. */
  function FromSpan(span: seq<byte>): (r: Result<RGBA>)
    ensures r.Ok? <==> |span| >= 4 || |span| == 3
    ensures r.Ok? ==> r.value.r == span[0] && r.value.g == span[1] && r.value.b == span[2]
    ensures r.Ok? && |span| == 3 ==> r.value.a == 255
    ensures r.Ok? && |span| > 3 ==> r.value.a == span[3]
  {
    if |span| < 3 then Err(IndexOutOfRange)
    else if |span| == 3 then Ok(RGBA(span[0], span[1], span[2], 255))
    else Ok(RGBA(span[0], span[1], span[2], span[3]))
  }

  /** `operator +`: channel-wise addition, each narrowed back to `u8`. */
  function Add(x: RGBA, y: RGBA): (p: RGBA)
    ensures p.r == (x.r + y.r) % 256 && p.g == (x.g + y.g) % 256
    ensures p.b == (x.b + y.b) % 256 && p.a == (x.a + y.a) % 256
  {
    FromChannels(Wrap8(x.r + y.r), Wrap8(x.g + y.g), Wrap8(x.b + y.b), Wrap8(x.a + y.a))
  }

  lemma AddZeroIdentity(p: RGBA)
    ensures Add(p, Zero) == p
  {
  }

  /** Channel `i` in the order the filters number them: 0 red, 1 green, 2 blue, 3 alpha. */
  function Channel(p: RGBA, i: nat): byte
    requires i < 4
  {
    if i == 0 then p.r else if i == 1 then p.g else if i == 2 then p.b else p.a
  }

  function WithChannel(p: RGBA, i: nat, v: byte): (q: RGBA)
    requires i < 4
    ensures Channel(q, i) == v
    ensures forall j :: 0 <= j < 4 && j != i ==> Channel(q, j) == Channel(p, j)
  {
    if i == 0 then p.(r := v) else if i == 1 then p.(g := v) else if i == 2 then p.(b := v) else p.(a := v)
  }

  /** `CopyFrom(Span<u8> from)`: which channels are overwritten depends only on the span length. */
  function CopyFrom(p: RGBA, from: seq<byte>): (q: RGBA)
    ensures |from| == 1 ==> q == p.(r := from[0])
    ensures |from| == 2 ==> q == p.(r := from[0], a := from[1])
    ensures |from| == 3 ==> q == RGBA(from[0], from[1], from[2], 255)
    ensures |from| == 4 ==> q == RGBA(from[0], from[1], from[2], from[3])
    ensures !(1 <= |from| <= 4) ==> q == p
  {
    match |from|
    case 1 => p.(r := from[0])
    case 2 => p.(r := from[0], a := from[1])
    case 3 => p.(r := from[0], g := from[1], b := from[2], a := 255)
    case 4 => p.(r := from[0], g := from[1], b := from[2], a := from[3])
    case _ => p
  }

  /** The bytes `CopyTo` writes into a span of length `n`. */
  function Bytes(p: RGBA, n: nat): (s: seq<byte>)
    requires 1 <= n <= 4
    ensures |s| == n
  {
    if n == 1 then [p.r] else if n == 2 then [p.r, p.a] else if n == 3 then [p.r, p.g, p.b]
    else [p.r, p.g, p.b, p.a]
  }

  /** `CopyTo(Span<u8> to)`: the span's new contents; spans of other lengths are not written. */
  function CopyTo(p: RGBA, to: seq<byte>): (s: seq<byte>)
    ensures |s| == |to|
    ensures 1 <= |to| <= 4 ==> s == Bytes(p, |to|)
    ensures !(1 <= |to| <= 4) ==> s == to
  {
    if 1 <= |to| <= 4 then Bytes(p, |to|) else to
  }

  /** The channels a span of `n` bytes carries through `CopyTo`/`CopyFrom`. */
  predicate Carried(n: nat, c: nat)
  {
    if n == 1 then c == 0 else if n == 2 then c == 0 || c == 3 else if n == 3 then c < 3 else n == 4 && c < 4
  }

  predicate SameCarried(n: nat, p: RGBA, q: RGBA)
  {
    forall c :: 0 <= c < 4 && Carried(n, c) ==> Channel(p, c) == Channel(q, c)
  }

  /** Writing `p` into an `n`-byte span and reading that span into any `q` gives `q` the
      carried channels of `p`; a three-byte span also sets alpha to 255. */
  lemma CopyRoundTrip(p: RGBA, q: RGBA, to: seq<byte>)
    requires 1 <= |to| <= 4
    ensures SameCarried(|to|, CopyFrom(q, CopyTo(p, to)), p)
    ensures |to| == 3 ==> CopyFrom(q, CopyTo(p, to)).a == 255
    ensures forall c :: 0 <= c < 4 && !Carried(|to|, c) && |to| != 3 ==>
      Channel(CopyFrom(q, CopyTo(p, to)), c) == Channel(q, c)
  {
  }
}
