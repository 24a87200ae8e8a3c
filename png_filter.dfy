/** `PNGFilter`: the per-pixel arithmetic of the PNG scanline filters (section 6 of RFC 2083).
    A filter combines a pixel with a predictor pixel channel by channel, for the channels
    below the channel count: the decoder adds the predictor, the encoder subtracts it, and the
    sum is narrowed to `u8`. The direction is fixed when the object is built. */
module PNGFilters {
  import opened Common
  import opened Color

  /** `v * (_isDecode ? 1 : -1)`. */
  function Directed(decode: bool, v: int): int
  {
    if decode then v else -v
  }

  /** Channel `c` after filtering: changed only when `c` is below the channel count. */
  function FilteredChannel(decode: bool, ch: nat, pred: RGBA, p: RGBA, c: nat): byte
    requires c < 4
  {
    if c < ch then Wrap8(Channel(p, c) + Directed(decode, Channel(pred, c))) else Channel(p, c)
  }

  /** The pixel a filter leaves behind. */
  function Filter(decode: bool, ch: nat, pred: RGBA, p: RGBA): (q: RGBA)
    ensures forall c :: 0 <= c < 4 ==> Channel(q, c) == FilteredChannel(decode, ch, pred, p, c)
  {
    RGBA(FilteredChannel(decode, ch, pred, p, 0), FilteredChannel(decode, ch, pred, p, 1),
         FilteredChannel(decode, ch, pred, p, 2), FilteredChannel(decode, ch, pred, p, 3))
  }

  /** The Average predictor: the floor of the mean of the pixel above and the pixel to the
      left, computed before narrowing. */
  function AvgPredictor(up: RGBA, sub: RGBA): (pred: RGBA)
    ensures forall c :: 0 <= c < 4 ==> Channel(pred, c) == (Channel(up, c) + Channel(sub, c)) / 2
  {
    RGBA((up.r + sub.r) / 2, (up.g + sub.g) / 2, (up.b + sub.b) / 2, (up.a + sub.a) / 2)
  }

  function Abs(x: int): nat
  {
    if x < 0 then -x else x
  }

  /** `PaethPredictor(a, b, c)`: of the three arguments, the one closest to `a + b - c`;
      ties go to `a`, then to `b`. */
  function PaethPredictor(a: byte, b: byte, c: byte): (r: byte)
    ensures r == a || r == b || r == c
    ensures var p := a + b - c;
      Abs(p - r) <= Abs(p - a) && Abs(p - r) <= Abs(p - b) && Abs(p - r) <= Abs(p - c)
    ensures var p := a + b - c; r != a ==> Abs(p - a) > Abs(p - r)
    ensures var p := a + b - c; r == c && c != b ==> Abs(p - b) > Abs(p - c)
  {
    var p := a + b - c;
    var ap := Abs(p - a);
    var ab := Abs(p - b);
    var ac := Abs(p - c);
    if ap <= ab && ap <= ac then a
    else if ab <= ac then b
    else c
  }

  /** The Paeth predictor applied channel by channel. */
  function PaethPixel(up: RGBA, sub: RGBA, subUp: RGBA): (pred: RGBA)
    ensures forall c :: 0 <= c < 4 ==>
      Channel(pred, c) == PaethPredictor(Channel(up, c), Channel(sub, c), Channel(subUp, c))
  {
    RGBA(PaethPredictor(up.r, sub.r, subUp.r), PaethPredictor(up.g, sub.g, subUp.g),
         PaethPredictor(up.b, sub.b, subUp.b), PaethPredictor(up.a, sub.a, subUp.a))
  }

  lemma WrapInverse(x: byte, y: byte)
    ensures Wrap8(Wrap8(x - y) + y) == x
    ensures Wrap8(Wrap8(x + y) - y) == x
  {
  }

  lemma ChannelInverse(ch: nat, pred: RGBA, p: RGBA, c: nat)
    requires c < 4
    ensures FilteredChannel(true, ch, pred, Filter(false, ch, pred, p), c) == Channel(p, c)
    ensures FilteredChannel(false, ch, pred, Filter(true, ch, pred, p), c) == Channel(p, c)
  {
    if c < ch {
      var x, y := Channel(p, c), Channel(pred, c);
      WrapInverse(x, y);
      assert Channel(Filter(false, ch, pred, p), c) == Wrap8(x as int - y);
      assert Channel(Filter(true, ch, pred, p), c) == Wrap8(x as int + y);
    }
  }

  /** Encoding and then decoding with the same predictor restores the pixel, and so does
      decoding and then encoding. */
  lemma FilterInverse(ch: nat, pred: RGBA, p: RGBA)
    ensures Filter(true, ch, pred, Filter(false, ch, pred, p)) == p
    ensures Filter(false, ch, pred, Filter(true, ch, pred, p)) == p
  {
    ChannelInverse(ch, pred, p, 0);
    ChannelInverse(ch, pred, p, 1);
    ChannelInverse(ch, pred, p, 2);
    ChannelInverse(ch, pred, p, 3);
  }

  /** The all-zero predictor leaves a pixel as it is: the filters' "no neighbour" case and
      the None filter agree. */
  lemma ZeroPredictorIdentity(decode: bool, ch: nat, p: RGBA)
    ensures Filter(decode, ch, Zero, p) == p
  {
  }

  /** A pixel equal to all three neighbours predicts itself under Paeth, so its filtered
      channels below the channel count are all zero. */
  lemma PaethOfUniform(ch: nat, v: RGBA)
    ensures PaethPixel(v, v, v) == v
    ensures forall c :: 0 <= c < 4 && c < ch ==> Channel(Filter(false, ch, PaethPixel(v, v, v), v), c) == 0
  {
  }

  /** One more channel taken into account: the filter over `i + 1` channels changes channel
      `i`, if there is one, of the filter over `i`. */
  lemma FilterNext(decode: bool, i: nat, pred: RGBA, p: RGBA)
    ensures var r := Filter(decode, i, pred, p);
      Filter(decode, i + 1, pred, p) == (if i == 0 then r.(r := Wrap8(r.r + Directed(decode, pred.r)))
        else if i == 1 then r.(g := Wrap8(r.g + Directed(decode, pred.g)))
        else if i == 2 then r.(b := Wrap8(r.b + Directed(decode, pred.b)))
        else if i == 3 then r.(a := Wrap8(r.a + Directed(decode, pred.a)))
        else r)
  {
    if i == 0 {
    } else if i == 1 {
    } else if i == 2 {
    } else if i == 3 {
    }
  }

  class PNGFilter {
    const isDecode: bool

    constructor (decode: bool)
      ensures isDecode == decode
    {
      isDecode := decode;
    }

    /** `PrimitiveFilter` (Sub and Up): the predictor is the neighbour itself. */
    method PrimitiveFilter(channelCount: byte, before: RGBA, filtered: RGBA) returns (r: RGBA)
      ensures r == Filter(isDecode, channelCount, before, filtered)
    {
      r := filtered;
      var i := 0;
      while i < channelCount
        invariant 0 <= i <= channelCount
        invariant r == Filter(isDecode, i, before, filtered)
      {
        FilterNext(isDecode, i, before, filtered);
        if i == 0 {
          r := r.(r := Wrap8(r.r + Directed(isDecode, before.r)));
        } else if i == 1 {
          r := r.(g := Wrap8(r.g + Directed(isDecode, before.g)));
        } else if i == 2 {
          r := r.(b := Wrap8(r.b + Directed(isDecode, before.b)));
        } else if i == 3 {
          r := r.(a := Wrap8(r.a + Directed(isDecode, before.a)));
        }
        i := i + 1;
      }
    }

    /** `AvgFilter`: the predictor is the floor mean of `up` and `sub`. */
    method AvgFilter(channelCount: byte, up: RGBA, sub: RGBA, filtered: RGBA) returns (r: RGBA)
      ensures r == Filter(isDecode, channelCount, AvgPredictor(up, sub), filtered)
    {
      ghost var avg := AvgPredictor(up, sub);
      assert avg == RGBA((up.r + sub.r) / 2, (up.g + sub.g) / 2, (up.b + sub.b) / 2, (up.a + sub.a) / 2);
      r := filtered;
      var i := 0;
      while i < channelCount
        invariant 0 <= i <= channelCount
        invariant r == Filter(isDecode, i, avg, filtered)
      {
        FilterNext(isDecode, i, avg, filtered);
        if i == 0 {
          r := r.(r := Wrap8(r.r + Directed(isDecode, (up.r + sub.r) / 2)));
        } else if i == 1 {
          r := r.(g := Wrap8(r.g + Directed(isDecode, (up.g + sub.g) / 2)));
        } else if i == 2 {
          r := r.(b := Wrap8(r.b + Directed(isDecode, (up.b + sub.b) / 2)));
        } else if i == 3 {
          r := r.(a := Wrap8(r.a + Directed(isDecode, (up.a + sub.a) / 2)));
        }
        i := i + 1;
      }
    }

    /** `PaethFilter`: the predictor is `PaethPredictor(up, sub, sub_up)` per channel. */
    method PaethFilter(ch: byte, up: RGBA, sub: RGBA, subUp: RGBA, filtered: RGBA) returns (r: RGBA)
      ensures r == Filter(isDecode, ch, PaethPixel(up, sub, subUp), filtered)
    {
      ghost var paeth := PaethPixel(up, sub, subUp);
      r := filtered;
      var i := 0;
      while i < ch
        invariant 0 <= i <= ch
        invariant r == Filter(isDecode, i, paeth, filtered)
      {
        FilterNext(isDecode, i, paeth, filtered);
        if i == 0 {
          r := r.(r := Wrap8(r.r + Directed(isDecode, PaethPredictor(up.r, sub.r, subUp.r))));
        } else if i == 1 {
          r := r.(g := Wrap8(r.g + Directed(isDecode, PaethPredictor(up.g, sub.g, subUp.g))));
        } else if i == 2 {
          r := r.(b := Wrap8(r.b + Directed(isDecode, PaethPredictor(up.b, sub.b, subUp.b))));
        } else if i == 3 {
          r := r.(a := Wrap8(r.a + Directed(isDecode, PaethPredictor(up.a, sub.a, subUp.a))));
        }
        i := i + 1;
      }
    }
  }
}
