/** `Palette`: a colour table of `Count` entries and the median cut that fills it from an
    image. The struct holds a reference to its colour array, so it is a value whose array the
    members write through. */
module Palettes {
  import opened Common
  import opened Color
  import Memory
  import MathExtension
  import Grid
  import opened Images

  datatype Palette = Palette(colors: array<RGBA>, count: nat)

  /** The array backs exactly `Count` entries. */
  predicate Valid(p: Palette)
  {
    p.colors.Length == p.count
  }

  /** The constructor's rounding of the requested capacity: below 2 it becomes 2, a power of
      two is kept, other values are raised to the next power of two while that power is at
      most 512, and larger values are kept as they are. */
  method RoundCapacity(capacity: int) returns (count: int)
    ensures count >= 2
    ensures capacity < 2 ==> count == 2
    ensures capacity >= 2 && IsPow2(capacity) ==> count == capacity
    ensures capacity >= 2 && !IsPow2(capacity) && capacity < 512 ==>
      IsPow2(count) && capacity < count < 2 * capacity
    ensures capacity > 512 && !IsPow2(capacity) ==> count == capacity
  {
    count := if capacity < 2 then 2 else capacity;
    if !IsPow2(count) {
      ghost var requested := count;
      assert requested != 2 && requested >= 3;
      var pow := 0;
      var i := 2;
      while pow <= 256
        invariant 2 <= i <= 10 && count == requested
        invariant pow == if i == 2 then 0 else Pow2(i - 1)
        invariant i > 2 ==> Pow2(i - 1) < count
        invariant i < 10 ==> pow <= 256
        decreases 10 - i
      {
        pow := Pow2(i);
        Pow2Monotone(i, 9);
        if pow > count {
          PowerAbove(i, count);
          count := pow;
          break;
        }
        PowerBelow(i, count);
        if i < 9 {
          Pow2Monotone(i, 8);
        }
        i := i + 1;
      }
      assert Pow2(9) == 512;
    }
  }

  /** The first power of two past `c`, when the one before is below it, is less than `2c`. */
  lemma PowerAbove(i: nat, c: int)
    requires i >= 2 && c >= 3 && c < Pow2(i) && (i > 2 ==> Pow2(i - 1) < c)
    ensures IsPow2(Pow2(i)) && c < Pow2(i) < 2 * c
  {
    Pow2IsPow2(i);
    if i == 2 {
      assert Pow2(2) == 4;
    }
  }

  /** A power of two at most `c`, which is not one, is below it. */
  lemma PowerBelow(i: nat, c: int)
    requires Pow2(i) <= c && !IsPow2(c)
    ensures Pow2(i) < c
  {
    Pow2IsPow2(i);
  }

  /** `new Palette(capacity)`: `Count` entries, all of them the zero colour. */
  method New(capacity: int) returns (p: Palette)
    ensures Valid(p) && fresh(p.colors)
    ensures forall i :: 0 <= i < p.count ==> p.colors[i] == Zero
    ensures capacity < 2 ==> p.count == 2
    ensures capacity >= 2 && IsPow2(capacity) ==> p.count == capacity
    ensures capacity >= 2 && !IsPow2(capacity) && capacity < 512 ==>
      IsPow2(p.count) && capacity < p.count < 2 * capacity
    ensures capacity > 512 && !IsPow2(capacity) ==> p.count == capacity
  {
    var count := RoundCapacity(capacity);
    var colors := new RGBA[count](_ => Zero);
    p := Palette(colors, count);
  }

  /** The indexer: an index outside the array throws. */
  function Get(p: Palette, i: int): (r: Result<RGBA>)
    reads p.colors
    ensures r.Err? <==> i < 0 || i >= p.colors.Length
    ensures r.Err? ==> r.error == IndexOutOfRange
    ensures r.Ok? ==> r.value == p.colors[i]
  {
    if i < 0 || i >= p.colors.Length then Err(IndexOutOfRange) else Ok(p.colors[i])
  }

  /** The key a bucket is sorted on: channel `r`, `g` or `b` of a colour. */
  function Key(channel: char, p: RGBA): byte
  {
    if channel == 'r' then p.r else if channel == 'g' then p.g else p.b
  }

  /** The selector lambdas `x => x.R`, `x => x.G` and `x => x.B`. */
  function Selector(channel: char): RGBA -> int
  {
    p => Key(channel, p)
  }

  /** The largest value of a channel over a non-empty bucket. */
  function ChannelMax(s: seq<RGBA>, channel: char): int
    requires |s| > 0
  {
    if |s| == 1 then Key(channel, s[0]) else Max(ChannelMax(s[..|s| - 1], channel), Key(channel, s[|s| - 1]))
  }

  /** The smallest value of a channel over a non-empty bucket. */
  function ChannelMin(s: seq<RGBA>, channel: char): int
    requires |s| > 0
  {
    if |s| == 1 then Key(channel, s[0]) else Min(ChannelMin(s[..|s| - 1], channel), Key(channel, s[|s| - 1]))
  }

  /** The extremes bound every value of the channel and are attained. */
  lemma {:induction false} ChannelExtremes(s: seq<RGBA>, channel: char)
    requires |s| > 0
    ensures forall i :: 0 <= i < |s| ==> ChannelMin(s, channel) <= Key(channel, s[i]) <= ChannelMax(s, channel)
    ensures exists i :: 0 <= i < |s| && ChannelMax(s, channel) == Key(channel, s[i])
    ensures exists i :: 0 <= i < |s| && ChannelMin(s, channel) == Key(channel, s[i])
  {
    if |s| > 1 {
      var init := s[..|s| - 1];
      ChannelExtremes(init, channel);
      assert forall i :: 0 <= i < |init| ==> init[i] == s[i];
      var a :| 0 <= a < |init| && ChannelMax(init, channel) == Key(channel, init[a]);
      var b :| 0 <= b < |init| && ChannelMin(init, channel) == Key(channel, init[b]);
      if ChannelMax(s, channel) != Key(channel, s[|s| - 1]) {
        assert ChannelMax(s, channel) == Key(channel, s[a]);
      }
      if ChannelMin(s, channel) != Key(channel, s[|s| - 1]) {
        assert ChannelMin(s, channel) == Key(channel, s[b]);
      }
    }
  }

  /** `Range(bucket.MinMax(selector))` for one channel: `max - min`, which is 0 for an empty
      bucket. */
  function ChannelRange(s: seq<RGBA>, channel: char): int
  {
    if |s| == 0 then 0 else ChannelMax(s, channel) - ChannelMin(s, channel)
  }

  /** The channel whose values spread widest over a bucket: `r` only when its range is strictly
      larger than both others, otherwise `g` when green's exceeds blue's, otherwise `b`. */
  function LargestChannel(s: seq<RGBA>): char
  {
    var r, g, b := ChannelRange(s, 'r'), ChannelRange(s, 'g'), ChannelRange(s, 'b');
    if r > g && r > b then 'r' else if g > b then 'g' else 'b'
  }

  /** The chosen channel's range is at least the range of each of the three channels, and
      only a strictly widest red or green range wins over blue. */
  lemma LargestChannelIsWidest(s: seq<RGBA>)
    ensures var c, w := LargestChannel(s), ChannelRange(s, LargestChannel(s));
      c in {'r', 'g', 'b'} &&
      w >= ChannelRange(s, 'r') && w >= ChannelRange(s, 'g') && w >= ChannelRange(s, 'b') &&
      (c == 'r' <==> ChannelRange(s, 'r') > ChannelRange(s, 'g') && ChannelRange(s, 'r') > ChannelRange(s, 'b'))
  {
  }

  /** Every range is non-negative and at most 255. */
  lemma ChannelRangeBounds(s: seq<RGBA>, channel: char)
    ensures 0 <= ChannelRange(s, channel) <= 255
  {
    if |s| > 0 {
      ChannelExtremes(s, channel);
    }
  }

  /** `Range((min, max))`: the spread `max - min` of a `MinMax` result. */
  function Range(min: int, max: int): int
  {
    max - min
  }

  /** `Range(bucket.MinMax(x => x.R))`, and likewise for green and blue. */
  method RangeOf(bucket: seq<RGBA>, channel: char) returns (r: int)
    ensures r == ChannelRange(bucket, channel)
  {
    var min, max := MathExtension.MinMax(bucket, Selector(channel));
    if |bucket| > 0 {
      ChannelExtremes(bucket, channel);
      var a :| 0 <= a < |bucket| && ChannelMax(bucket, channel) == Key(channel, bucket[a]);
      var b :| 0 <= b < |bucket| && ChannelMin(bucket, channel) == Key(channel, bucket[b]);
      assert bucket[a] in bucket && bucket[b] in bucket;
      var i :| 0 <= i < |bucket| && min == Selector(channel)(bucket[i]);
      var j :| 0 <= j < |bucket| && max == Selector(channel)(bucket[j]);
    }
    r := Range(min, max);
  }

  /** `GetLargestChannel(bucket)`. */
  method GetLargestChannel(bucket: seq<RGBA>) returns (channel: char)
    ensures channel == LargestChannel(bucket)
  {
    var r := RangeOf(bucket, 'r');
    var g := RangeOf(bucket, 'g');
    var b := RangeOf(bucket, 'b');
    if r > g && r > b {
      channel := 'r';
    } else if g > b {
      channel := 'g';
    } else {
      channel := 'b';
    }
  }

  /** Non-decreasing on the key. */
  predicate SortedOn(s: seq<RGBA>, channel: char)
  {
    forall i, j :: 0 <= i < j < |s| ==> Key(channel, s[i]) <= Key(channel, s[j])
  }

  /** Every element of `t` has a key of at least `k` when every element of `s` and `p` has. */
  lemma KeyLowerBound(t: seq<RGBA>, s: seq<RGBA>, p: RGBA, channel: char, k: int)
    requires multiset(t) == multiset(s) + multiset{p}
    requires k <= Key(channel, p) && forall i :: 0 <= i < |s| ==> k <= Key(channel, s[i])
    ensures forall i :: 0 <= i < |t| ==> k <= Key(channel, t[i])
  {
    forall i | 0 <= i < |t| ensures k <= Key(channel, t[i]) {
      assert t[i] in multiset(t);
      if t[i] != p {
        assert t[i] in multiset(s);
        var j :| 0 <= j < |s| && s[j] == t[i];
      }
    }
  }

  /** Insertion of one colour into a sorted sequence. */
  function Insert(p: RGBA, s: seq<RGBA>, channel: char): (r: seq<RGBA>)
    requires SortedOn(s, channel)
    ensures |r| == |s| + 1
    ensures SortedOn(r, channel) && multiset(r) == multiset(s) + multiset{p}
  {
    if |s| == 0 then [p]
    else if Key(channel, p) <= Key(channel, s[0]) then [p] + s
    else
      var t := Insert(p, s[1..], channel);
      InsertBehind(p, s, t, channel);
      [s[0]] + t
  }

  /** The head of a sorted `s` whose key is below `p`'s stays in front of `p` inserted into
      the rest. */
  lemma InsertBehind(p: RGBA, s: seq<RGBA>, t: seq<RGBA>, channel: char)
    requires |s| > 0 && SortedOn(s, channel) && Key(channel, s[0]) < Key(channel, p)
    requires SortedOn(t, channel) && multiset(t) == multiset(s[1..]) + multiset{p}
    ensures SortedOn([s[0]] + t, channel) && multiset([s[0]] + t) == multiset(s) + multiset{p}
  {
    var rest := s[1..];
    assert s == [s[0]] + rest;
    KeyLowerBound(t, rest, p, channel, Key(channel, s[0]));
    var r := [s[0]] + t;
    forall i, j | 0 <= i < j < |r| ensures Key(channel, r[i]) <= Key(channel, r[j]) {
      if i > 0 {
        assert r[i] == t[i - 1] && r[j] == t[j - 1];
      } else {
        assert r[j] == t[j - 1];
      }
    }
  }

  /** A sorted permutation: what `Span.Sort` leaves in a bucket. The library sort is not
      stable; callers rely only on the contract, which every sorted permutation meets. */
  function SortOn(s: seq<RGBA>, channel: char): (r: seq<RGBA>)
    ensures |r| == |s|
    ensures SortedOn(r, channel) && multiset(r) == multiset(s)
  {
    if |s| == 0 then []
    else
      assert s == s[..|s| - 1] + [s[|s| - 1]];
      Insert(s[|s| - 1], SortOn(s[..|s| - 1], channel), channel)
  }

  /** When `t` holds the colours of `s`, the extremes of `t` bound every channel value of
      `s`. */
  lemma ExtremesBound(s: seq<RGBA>, t: seq<RGBA>, channel: char)
    requires |t| > 0 && multiset(s) == multiset(t)
    ensures forall i :: 0 <= i < |s| ==>
      ChannelMin(t, channel) <= Key(channel, s[i]) <= ChannelMax(t, channel)
  {
    ChannelExtremes(t, channel);
    forall i | 0 <= i < |s|
      ensures ChannelMin(t, channel) <= Key(channel, s[i]) <= ChannelMax(t, channel)
    {
      assert s[i] in multiset(t);
      var j :| 0 <= j < |t| && t[j] == s[i];
    }
  }

  /** The spread of a channel depends only on which colours a bucket holds, not on their
      order. */
  lemma RangeOfPermutation(s: seq<RGBA>, t: seq<RGBA>, channel: char)
    requires multiset(s) == multiset(t)
    ensures ChannelRange(s, channel) == ChannelRange(t, channel)
  {
    assert |multiset(s)| == |s| && |multiset(t)| == |t|;
    if |s| > 0 {
      ExtremesBound(s, t, channel);
      ExtremesBound(t, s, channel);
      ChannelExtremes(s, channel);
      ChannelExtremes(t, channel);
      var i :| 0 <= i < |s| && ChannelMax(s, channel) == Key(channel, s[i]);
      var j :| 0 <= j < |t| && ChannelMax(t, channel) == Key(channel, t[j]);
      var k :| 0 <= k < |s| && ChannelMin(s, channel) == Key(channel, s[k]);
      var l :| 0 <= l < |t| && ChannelMin(t, channel) == Key(channel, t[l]);
    }
  }

  /** Reordering a bucket does not change its widest channel. */
  lemma LargestChannelOfPermutation(s: seq<RGBA>, t: seq<RGBA>)
    requires multiset(s) == multiset(t)
    ensures LargestChannel(s) == LargestChannel(t)
  {
    RangeOfPermutation(s, t, 'r');
    RangeOfPermutation(s, t, 'g');
    RangeOfPermutation(s, t, 'b');
  }

  /** `unit * k` as repeated addition, which keeps the bucket arithmetic linear for the
      solver. */
  function Mul(unit: nat, k: nat): nat
  {
    if k == 0 then 0 else Mul(unit, k - 1) + unit
  }

  lemma {:induction false} MulIsProduct(unit: nat, k: nat)
    ensures Mul(unit, k) == unit * k
  {
    if k > 0 {
      MulIsProduct(unit, k - 1);
    }
  }

  lemma {:induction false} MulMonotone(unit: nat, j: nat, k: nat)
    requires j <= k
    ensures Mul(unit, j) <= Mul(unit, k)
  {
    if j < k {
      MulMonotone(unit, j, k - 1);
    }
  }

  /** `n` buckets of `length / n` colours fit in `length` colours, and bucket `k` ends inside
      them. */
  lemma UnitsFit(length: nat, n: nat, k: nat)
    requires 1 <= n && k < n
    ensures Mul(length / n, k) <= Mul(length / n, k + 1) <= Mul(length / n, n) <= length
  {
    MulIsProduct(length / n, n);
    MulMonotone(length / n, k + 1, n);
  }

  /** Bucket `k` of a round with `n` buckets over `s`: the `unit = |s| / n` colours from
      `unit * k`. */
  function Part(s: seq<RGBA>, n: nat, k: nat): (r: seq<RGBA>)
    requires 1 <= n && k < n
    ensures |r| == |s| / n
  {
    UnitsFit(|s|, n, k);
    s[Mul(|s| / n, k) .. Mul(|s| / n, k + 1)]
  }

  /** A bucket sorted on its own widest channel. */
  ghost predicate BucketSorted(bucket: seq<RGBA>)
  {
    SortedOn(bucket, LargestChannel(bucket))
  }

  /** The first `i` buckets of a round with `n` buckets are each sorted on their own widest
      channel. */
  ghost predicate ArrangedUpTo(s: seq<RGBA>, n: nat, i: nat)
    requires 1 <= n && i <= n
  {
    i == 0 || (ArrangedUpTo(s, n, i - 1) && BucketSorted(Part(s, n, i - 1)))
  }

  /** The state a round leaves behind: all of its `n` buckets are sorted on their own widest
      channels. */
  ghost predicate Arranged(s: seq<RGBA>, n: nat)
    requires n >= 1
  {
    ArrangedUpTo(s, n, n)
  }

  /** In an arranged sequence every bucket of the round is sorted on its widest channel. */
  lemma ArrangedMeans(s: seq<RGBA>, n: nat)
    requires n >= 1 && Arranged(s, n)
    ensures forall k :: 0 <= k < n ==> BucketSorted(Part(s, n, k))
  {
    forall k | 0 <= k < n
      ensures BucketSorted(Part(s, n, k))
    {
      ArrangedBucket(s, n, n, k);
    }
  }

  lemma {:induction false} ArrangedBucket(s: seq<RGBA>, n: nat, i: nat, k: nat)
    requires 1 <= n && k < i <= n && ArrangedUpTo(s, n, i)
    ensures BucketSorted(Part(s, n, k))
  {
    if k < i - 1 {
      ArrangedBucket(s, n, i - 1, k);
    }
  }

  /** Where the first `i` buckets of a round with `n` buckets over `length` colours end. */
  function Covered(length: nat, n: nat, i: nat): (c: nat)
    requires 1 <= n && i <= n
    ensures c == Mul(length / n, i) && c <= length
  {
    if i < n then UnitsFit(length, n, i); Mul(length / n, i)
    else UnitsFit(length, n, n - 1); Mul(length / n, n)
  }

  /** The first `i` buckets of a round with `n` buckets hold in `after` the colours they held
      in `before`: each bucket is sorted within itself, so no colour crosses a bucket's bounds. */
  ghost predicate KeptUpTo(before: seq<RGBA>, after: seq<RGBA>, n: nat, i: nat)
    requires 1 <= n && i <= n && |before| == |after|
  {
    i == 0 || (KeptUpTo(before, after, n, i - 1) && multiset(Part(after, n, i - 1)) == multiset(Part(before, n, i - 1)))
  }

  /** One round of the median cut with `n` buckets takes `before` to `after`: every bucket
      keeps its colours and ends sorted on its own widest channel, and the colours past the
      last bucket stay where they are. */
  ghost predicate RoundOf(before: seq<RGBA>, after: seq<RGBA>, n: nat)
    requires n >= 1
  {
    |after| == |before| && KeptUpTo(before, after, n, n) && Arranged(after, n)
    && after[Covered(|before|, n, n)..] == before[Covered(|before|, n, n)..]
  }

  /** `chain[r + 1]` is what the round with `2^r` buckets makes of `chain[r]`, for each of the
      first `rounds` rounds. */
  ghost predicate Rounded(chain: seq<seq<RGBA>>, rounds: nat)
    requires rounds < |chain|
  {
    rounds == 0 || (Rounded(chain, rounds - 1) && RoundOf(chain[rounds - 1], chain[rounds], Pow2(rounds - 1)))
  }

  /** The median cut of `pixels` for a palette of `count` entries: `chain` starts at the
      pixels and records the result of each round with 1, 2, 4, ... buckets up to the last one,
      `LastRound(count)`, whose result is `arranged`. Each round sorts the buckets of the
      previous round's result within themselves. */
  ghost predicate MedianCut(pixels: seq<RGBA>, arranged: seq<RGBA>, count: nat, chain: seq<seq<RGBA>>)
    requires count >= 1
  {
    2 <= |chain| && chain[0] == pixels && chain[|chain| - 1] == arranged
    && Pow2(|chain| - 2) == LastRound(count) && Rounded(chain, |chain| - 1)
  }

  /** Keeping the colours of each bucket keeps the colours of the buckets together. */
  lemma {:induction false} KeptPrefix(before: seq<RGBA>, after: seq<RGBA>, n: nat, i: nat)
    requires 1 <= n && i <= n && |before| == |after| && KeptUpTo(before, after, n, i)
    ensures multiset(after[..Covered(|before|, n, i)]) == multiset(before[..Covered(|before|, n, i)])
  {
    if i > 0 {
      var lo, hi := Covered(|before|, n, i - 1), Covered(|before|, n, i);
      MulMonotone(|before| / n, i - 1, i);
      assert after[..hi] == after[..lo] + after[lo..hi];
      assert before[..hi] == before[..lo] + before[lo..hi];
      assert Part(after, n, i - 1) == after[lo..hi] && Part(before, n, i - 1) == before[lo..hi];
      KeptPrefix(before, after, n, i - 1);
    }
  }

  /** A round keeps the colours of the whole. */
  lemma KeptWhole(before: seq<RGBA>, after: seq<RGBA>, n: nat)
    requires n >= 1 && RoundOf(before, after, n)
    ensures multiset(after) == multiset(before)
  {
    var c := Covered(|before|, n, n);
    KeptPrefix(before, after, n, n);
    assert after == after[..c] + after[c..];
    assert before == before[..c] + before[c..];
  }

  /** In the median cut the colours of each round's result, and so those of `arranged`, are
      the pixels' colours, and `arranged` is sorted bucket by bucket for the last round. */
  lemma {:induction false} MedianCutPermutes(pixels: seq<RGBA>, arranged: seq<RGBA>, count: nat, chain: seq<seq<RGBA>>)
    requires count >= 1 && MedianCut(pixels, arranged, count, chain)
    ensures multiset(arranged) == multiset(pixels) && |arranged| == |pixels|
    ensures Arranged(arranged, LastRound(count))
  {
    ChainPermutes(chain, |chain| - 1);
  }

  lemma {:induction false} ChainPermutes(chain: seq<seq<RGBA>>, r: nat)
    requires r < |chain| && Rounded(chain, r)
    ensures multiset(chain[r]) == multiset(chain[0]) && |chain[r]| == |chain[0]|
  {
    if r > 0 {
      ChainPermutes(chain, r - 1);
      KeptWhole(chain[r - 1], chain[r], Pow2(r - 1));
    }
  }

  /** Appending what the next round makes of the chain's last result extends the chain. */
  lemma ChainStep(chain: seq<seq<RGBA>>, next: seq<RGBA>, r: nat)
    requires r + 1 == |chain| && Rounded(chain, r) && RoundOf(chain[r], next, Pow2(r))
    ensures |chain + [next]| == r + 2 && (chain + [next])[0] == chain[0]
    ensures (chain + [next])[r + 1] == next && Rounded(chain + [next], r + 1)
  {
    RoundedExtend(chain, next, r);
    assert (chain + [next])[r] == chain[r];
  }

  /** A chain of rounds stays one when a result is appended. */
  lemma {:induction false} RoundedExtend(chain: seq<seq<RGBA>>, next: seq<RGBA>, r: nat)
    requires r < |chain| && Rounded(chain, r)
    ensures Rounded(chain + [next], r)
  {
    if r > 0 {
      RoundedExtend(chain, next, r - 1);
      assert (chain + [next])[r - 1] == chain[r - 1] && (chain + [next])[r] == chain[r];
    }
  }

  /** The largest power of two not above `count`: the bucket count of the last round. */
  function LastRound(count: nat): (b: nat)
    requires count >= 1
    ensures 1 <= b <= count < 2 * b
  {
    if count < 2 then 1 else 2 * LastRound(count / 2)
  }

  /** A power of two `b` with `b <= count < 2b` is the last round's bucket count. */
  lemma {:induction false} LastRoundUnique(count: nat, k: nat)
    requires Pow2(k) <= count < 2 * Pow2(k)
    ensures LastRound(count) == Pow2(k)
  {
    if k > 0 {
      LastRoundUnique(count / 2, k - 1);
    }
  }

  /** The sum of one channel over a bucket. */
  function SumOf(s: seq<RGBA>, channel: char): (r: int)
    ensures 0 <= r <= 255 * |s|
  {
    if |s| == 0 then 0 else SumOf(s[..|s| - 1], channel) + Key(channel, s[|s| - 1])
  }

  /** The `(min, max)` pair the buckets array holds for entry `i` once the rounds are over:
      the last round's bucket, or `(0, 0)` for an index that no round reached. */
  function BucketBounds(i: nat, length: nat, count: nat): (b: (nat, nat))
    requires count >= 1
    ensures b.0 <= b.1 <= length
  {
    var n := LastRound(count);
    if i < n then UnitsFit(length, n, i); (Mul(length / n, i), Mul(length / n, i + 1))
    else (0, 0)
  }

  /** The colour the averaging step makes of one bucket: each channel's `i32` sum over the
      bucket, divided with truncation by `d` and cast to `u8`, with alpha 255. */
  function Mean(bucket: seq<RGBA>, d: nat): RGBA
    requires d > 0
  {
    RGBA(Wrap8(TruncDiv(WrapI32(SumOf(bucket, 'r')), d)),
         Wrap8(TruncDiv(WrapI32(SumOf(bucket, 'g')), d)),
         Wrap8(TruncDiv(WrapI32(SumOf(bucket, 'b')), d)), 255)
  }

  /** Entry `i` of a palette of `count` entries made from the arranged colours `s`: the mean
      of its bucket, the divisor being `|s| / count` whatever the bucket's size. */
  function Entry(s: seq<RGBA>, count: nat, i: nat): RGBA
    requires 1 <= count <= |s|
  {
    var bounds := BucketBounds(i, |s|, count);
    Mean(s[bounds.0..bounds.1], |s| / count)
  }

  /** The flat copy holds the cells row after row. */
  method CopyTo(image: Image, to: Memory.UMem<RGBA>)
    requires image.Valid() && Memory.Valid(to)
    requires to.length == image.Scale().0 * image.Scale().1
    requires to.ptr == null || to.ptr != image.buffer.buffer.ptr
    modifies to.ptr
    ensures Memory.Contents(to) == image.buffer.Cells()
  {
    var width, height := image.Scale().0, image.Scale().1;
    ghost var cells := image.buffer.Cells();
    ghost var done: nat := 0;
    var y: u32 := 0;
    while y < height
      invariant 0 <= y <= height && image.buffer.Cells() == cells
      invariant done == y * width && done <= |cells|
      invariant to.ptr != null ==> forall k :: 0 <= k < done ==> to.ptr[k] == cells[k]
    {
      Grid.RowInBounds(y, width, height);
      CopyRow(image, to, y, done, cells);
      Grid.RowStep(y as nat, width as nat);
      done := done + width;
      y := y + 1;
    }
    if to.ptr != null {
      assert Memory.Contents(to) == cells;
    }
  }

  /** The inner loop of `CopyTo`: row `y` lands after the `done` cells of the rows above. */
  method CopyRow(image: Image, to: Memory.UMem<RGBA>, y: u32, ghost done: nat, ghost cells: seq<RGBA>)
    requires image.Valid() && Memory.Valid(to) && image.buffer.Cells() == cells
    requires to.length == image.Scale().0 * image.Scale().1
    requires to.ptr == null || to.ptr != image.buffer.buffer.ptr
    requires y < image.Scale().1 && done == y * image.Scale().0 && done + image.Scale().0 <= |cells|
    requires to.ptr != null ==> forall k :: 0 <= k < done ==> to.ptr[k] == cells[k]
    modifies to.ptr
    ensures image.buffer.Cells() == cells
    ensures to.ptr != null ==> forall k :: 0 <= k < done + image.Scale().0 ==> to.ptr[k] == cells[k]
  {
    var width, height := image.Scale().0, image.Scale().1;
    var x: u32 := 0;
    while x < width
      invariant 0 <= x <= width && image.buffer.Cells() == cells
      invariant to.ptr != null ==> forall k :: 0 <= k < done + x ==> to.ptr[k] == cells[k]
    {
      Grid.Cell(cells, width, height, x, y);
      assert x + y * width == done + x;
      var pixel := image.Get(x, y).value;
      assert pixel == cells[done + x];
      to.ptr[x + y * width] := pixel;
      x := x + 1;
    }
  }

  /** `bucket.Sort(comparison)` on the colours `lo .. hi` of `m`: they become a sorted
      permutation of themselves and nothing else changes. Which permutation the unstable
      library sort picks is not fixed. */
  method SortBucket(m: Memory.UMem<RGBA>, lo: nat, hi: nat, channel: char)
    requires Memory.Valid(m) && lo <= hi <= m.length
    modifies m.ptr
    ensures var s, t := old(Memory.Contents(m)), Memory.Contents(m);
      t[..lo] == s[..lo] && t[hi..] == s[hi..]
      && multiset(t[lo..hi]) == multiset(s[lo..hi]) && SortedOn(t[lo..hi], channel)
  {
    if lo < hi {
      var a := m.ptr;
      ghost var s := a[..m.length];
      var slice := a[lo..hi];
      assert slice == s[lo..hi];
      var sorted := SortOn(slice, channel);
      forall k | lo <= k < hi {
        a[k] := sorted[k - lo];
      }
      ghost var t := a[..m.length];
      forall k | 0 <= k < hi - lo ensures t[lo..hi][k] == sorted[k] {
        assert t[lo + k] == a[lo + k];
      }
      assert t[lo..hi] == sorted;
      forall k | 0 <= k < lo ensures t[..lo][k] == s[..lo][k] {
        assert t[k] == a[k];
      }
      assert t[..lo] == s[..lo];
      forall k | 0 <= k < |t| - hi ensures t[hi..][k] == s[hi..][k] {
        assert t[hi + k] == a[hi + k];
      }
      assert t[hi..] == s[hi..];
    }
  }

  /** Replacing a slice by a permutation of itself keeps the whole a permutation. */
  lemma SpliceMultiset(s: seq<RGBA>, t: seq<RGBA>, lo: nat, hi: nat)
    requires lo <= hi <= |s| == |t|
    requires t[..lo] == s[..lo] && t[hi..] == s[hi..] && multiset(t[lo..hi]) == multiset(s[lo..hi])
    ensures multiset(t) == multiset(s)
  {
    assert s == s[..lo] + s[lo..hi] + s[hi..];
    assert t == t[..lo] + t[lo..hi] + t[hi..];
  }

  /** A slice inside an unchanged prefix is unchanged. */
  lemma PrefixSlice(s: seq<RGBA>, t: seq<RGBA>, n: nat, lo: nat, hi: nat)
    requires lo <= hi <= n <= |s| && n <= |t| && t[..n] == s[..n]
    ensures t[lo..hi] == s[lo..hi]
  {
    forall k | 0 <= k < hi - lo
      ensures t[lo..hi][k] == s[lo..hi][k]
    {
      assert t[lo + k] == t[..n][lo + k] == s[..n][lo + k] == s[lo + k];
    }
  }

  /** The buckets before `i` sit in the prefix below `lo`, so they stay sorted when only the
      rest changes. */
  lemma {:induction false} PrefixArranged(before: seq<RGBA>, after: seq<RGBA>, n: nat, i: nat, lo: nat)
    requires 1 <= n && i <= n && |before| == |after|
    requires Mul(|before| / n, i) <= lo <= |before| && after[..lo] == before[..lo]
    requires ArrangedUpTo(before, n, i)
    ensures ArrangedUpTo(after, n, i)
  {
    if i > 0 {
      var unit := |before| / n;
      MulMonotone(unit, i - 1, i);
      PrefixArranged(before, after, n, i - 1, lo);
      UnitsFit(|before|, n, i - 1);
      PrefixSlice(before, after, lo, Mul(unit, i - 1), Mul(unit, i));
      assert Part(after, n, i - 1) == Part(before, n, i - 1);
    }
  }

  /** A bucket sorted on the widest channel it had before sorting is sorted on its own widest
      channel. */
  lemma SortedBucketSorted(before: seq<RGBA>, after: seq<RGBA>)
    requires multiset(after) == multiset(before)
    requires SortedOn(after, LargestChannel(before))
    ensures BucketSorted(after)
  {
    LargestChannelOfPermutation(before, after);
  }

  /** Sorting bucket `i` of a round on its widest channel leaves the buckets before it sorted
      and adds bucket `i` to them. */
  lemma RoundStep(before: seq<RGBA>, after: seq<RGBA>, n: nat, i: nat, lo: nat, hi: nat)
    requires 1 <= n && i < n && |before| == |after|
    requires lo == Mul(|before| / n, i) && hi == Mul(|before| / n, i + 1) && lo <= hi <= |before|
    requires after[..lo] == before[..lo]
    requires BucketSorted(after[lo..hi])
    requires ArrangedUpTo(before, n, i)
    ensures ArrangedUpTo(after, n, i + 1)
  {
    PrefixArranged(before, after, n, i, lo);
    assert Part(after, n, i) == after[lo..hi];
  }

  /** The buckets before `i` sit in the unchanged prefix below `lo`, so they keep their
      colours when only the rest changes. */
  lemma {:induction false} PrefixKept(start: seq<RGBA>, before: seq<RGBA>, after: seq<RGBA>, n: nat, i: nat, lo: nat)
    requires 1 <= n && i <= n && |start| == |before| == |after|
    requires Mul(|before| / n, i) <= lo <= |before| && after[..lo] == before[..lo]
    requires KeptUpTo(start, before, n, i)
    ensures KeptUpTo(start, after, n, i)
  {
    if i > 0 {
      var unit := |before| / n;
      MulMonotone(unit, i - 1, i);
      PrefixKept(start, before, after, n, i - 1, lo);
      UnitsFit(|before|, n, i - 1);
      PrefixSlice(before, after, lo, Mul(unit, i - 1), Mul(unit, i));
      assert Part(after, n, i - 1) == Part(before, n, i - 1);
    }
  }

  /** Sorting bucket `i` within itself, with the colours from its start on still those of
      `start`, adds bucket `i` to the buckets that keep their colours and leaves the colours
      after it as they were in `start`. */
  lemma KeptStep(start: seq<RGBA>, before: seq<RGBA>, after: seq<RGBA>, n: nat, i: nat, lo: nat, hi: nat)
    requires 1 <= n && i < n && |start| == |before| == |after|
    requires lo == Mul(|before| / n, i) && hi == Mul(|before| / n, i + 1) && lo <= hi <= |before|
    requires after[..lo] == before[..lo] && after[hi..] == before[hi..]
    requires multiset(after[lo..hi]) == multiset(before[lo..hi])
    requires KeptUpTo(start, before, n, i) && before[lo..] == start[lo..]
    ensures KeptUpTo(start, after, n, i + 1) && after[hi..] == start[hi..]
  {
    PrefixKept(start, before, after, n, i, lo);
    assert before[lo..hi] == before[lo..][..hi - lo] == start[lo..][..hi - lo] == start[lo..hi];
    assert Part(after, n, i) == after[lo..hi];
    assert Part(start, n, i) == start[lo..hi];
    assert before[hi..] == before[lo..][hi - lo..] == start[lo..][hi - lo..] == start[hi..];
  }

  /** The `switch` on the widest channel of the bucket `lo .. hi`: the bucket is sorted on
      it, the colours stay a permutation and the rest of the memory is unchanged. */
  method SortOnLargestChannel(arr: Memory.UMem<RGBA>, lo: nat, hi: nat)
    requires Memory.Valid(arr) && lo <= hi <= arr.length
    modifies arr.ptr
    ensures var s, t := old(Memory.Contents(arr)), Memory.Contents(arr);
      |t| == |s| && t[..lo] == s[..lo] && t[hi..] == s[hi..] &&
      multiset(t[lo..hi]) == multiset(s[lo..hi]) && multiset(t) == multiset(s) && BucketSorted(t[lo..hi])
  {
    ghost var before := Memory.Contents(arr);
    Memory.WholeSpan(arr);
    var bucket := Memory.View(Memory.AsSpan(arr, 0, arr.length))[lo..hi];
    var channel := GetLargestChannel(bucket);
    SortBucket(arr, lo, hi, channel);
    ghost var after := Memory.Contents(arr);
    SpliceMultiset(before, after, lo, hi);
    SortedBucketSorted(before[lo..hi], after[lo..hi]);
  }

  /** The bounds `(unit * k, unit * (k + 1))` of the first `n` buckets of a round. */
  function Bounds(unit: nat, n: nat): (b: seq<(int, int)>)
    ensures |b| == n
  {
    if n == 0 then [] else Bounds(unit, n - 1) + [(Mul(unit, n - 1), Mul(unit, n))]
  }

  /** Entry `k` of `Bounds(unit, n)`. */
  lemma {:induction false} BoundsAt(unit: nat, n: nat, k: nat)
    requires k < n
    ensures Bounds(unit, n)[k] == (Mul(unit, k), Mul(unit, k + 1))
  {
    if k < n - 1 {
      BoundsAt(unit, n - 1, k);
    }
  }

  /** The state of a round after its first `i` buckets: the colours are a permutation of
      `start`, those buckets are sorted, and the bounds array holds their bounds followed by
      what it held before. */
  ghost predicate Partway(s: seq<RGBA>, start: seq<RGBA>, b: seq<(int, int)>, n: nat, i: nat, initial: seq<(int, int)>)
  {
    1 <= n && i <= n <= |initial| && |s| == |start| && multiset(s) == multiset(start)
    && KeptUpTo(start, s, n, i) && s[Covered(|s|, n, i)..] == start[Covered(|s|, n, i)..]
    && ArrangedUpTo(s, n, i) && b == Bounds(|s| / n, i) + initial[i..]
  }

  /** Iteration `i` of a round's `for` loop: bucket `i` gets its bounds and is sorted on its
      widest channel, which keeps the colours a permutation and the buckets before it sorted. */
  method CutBucket(arr: Memory.UMem<RGBA>, buckets: array<(int, int)>, bucketCount: nat, i: nat,
                   ghost start: seq<RGBA>, ghost initial: seq<(int, int)>)
    requires Memory.Valid(arr) && i < bucketCount && buckets.Length == |initial|
    requires Partway(Memory.Contents(arr), start, buckets[..], bucketCount, i, initial)
    modifies arr.ptr, buckets
    ensures Memory.Valid(arr)
    ensures Partway(Memory.Contents(arr), start, buckets[..], bucketCount, i + 1, initial)
  {
    var unit := arr.length / bucketCount;
    UnitsFit(arr.length, bucketCount, i);
    BoundsGrow(unit, i, initial[i..]);
    assert initial[i..][1..] == initial[i + 1..];
    buckets[i] := (Mul(unit, i), Mul(unit, i + 1));
    ghost var before := Memory.Contents(arr);
    SortOnLargestChannel(arr, buckets[i].0, buckets[i].1);
    ghost var after := Memory.Contents(arr);
    RoundStep(before, after, bucketCount, i, Mul(unit, i), Mul(unit, i + 1));
    KeptStep(start, before, after, bucketCount, i, Mul(unit, i), Mul(unit, i + 1));
  }

  /** Writing bucket `i`'s bounds extends the written prefix by one. */
  lemma BoundsGrow(unit: nat, i: nat, rest: seq<(int, int)>)
    requires |rest| >= 1
    ensures (Bounds(unit, i) + rest)[i := (Mul(unit, i), Mul(unit, i + 1))] == Bounds(unit, i + 1) + rest[1..]
  {
    assert Bounds(unit, i + 1) == Bounds(unit, i) + [(Mul(unit, i), Mul(unit, i + 1))];
  }

  /** One round of the median cut with `bucketCount` buckets (the body of the `while` loop):
      each bucket gets its bounds and is sorted on its widest channel. */
  method Round(arr: Memory.UMem<RGBA>, buckets: array<(int, int)>, bucketCount: nat)
    requires Memory.Valid(arr) && 1 <= bucketCount <= buckets.Length
    modifies arr.ptr, buckets
    ensures multiset(Memory.Contents(arr)) == old(multiset(Memory.Contents(arr)))
    ensures RoundOf(old(Memory.Contents(arr)), Memory.Contents(arr), bucketCount)
    ensures buckets[..] == Bounds(arr.length / bucketCount, bucketCount) + old(buckets[..])[bucketCount..]
  {
    ghost var start := Memory.Contents(arr);
    ghost var initial := buckets[..];
    var i := 0;
    while i < bucketCount
      invariant i <= bucketCount && Memory.Valid(arr)
      invariant Partway(Memory.Contents(arr), start, buckets[..], bucketCount, i, initial)
    {
      CutBucket(arr, buckets, bucketCount, i, start, initial);
      i := i + 1;
    }
  }

  /** The three `i32` sums of one bucket (the inner `for` loop of the averaging step). */
  method SumBucket(arr: Memory.UMem<RGBA>, lo: nat, hi: nat) returns (r: int, g: int, b: int)
    requires Memory.Valid(arr) && lo <= hi <= arr.length
    ensures var s := Memory.Contents(arr)[lo..hi];
      r == WrapI32(SumOf(s, 'r')) && g == WrapI32(SumOf(s, 'g')) && b == WrapI32(SumOf(s, 'b'))
  {
    ghost var s := Memory.Contents(arr);
    r, g, b := 0, 0, 0;
    var j := lo;
    while j < hi
      invariant lo <= j <= hi
      invariant r == WrapI32(SumOf(s[lo..j], 'r')) && g == WrapI32(SumOf(s[lo..j], 'g'))
      invariant b == WrapI32(SumOf(s[lo..j], 'b'))
    {
      var pixel := arr.ptr[j];
      assert pixel == s[j];
      SumStep(s, lo, j, r, 'r', pixel.r);
      SumStep(s, lo, j, g, 'g', pixel.g);
      SumStep(s, lo, j, b, 'b', pixel.b);
      r := WrapI32(r + pixel.r);
      g := WrapI32(g + pixel.g);
      b := WrapI32(b + pixel.b);
      j := j + 1;
    }
  }

  /** `new RGBA((u8)(r / d), (u8)(g / d), (u8)(b / d))` from the sums of a bucket. */
  method MeanOf(r: int, g: int, b: int, d: nat, ghost bucket: seq<RGBA>) returns (c: RGBA)
    requires d > 0
    requires r == WrapI32(SumOf(bucket, 'r')) && g == WrapI32(SumOf(bucket, 'g')) && b == WrapI32(SumOf(bucket, 'b'))
    ensures c == Mean(bucket, d)
  {
    c := RGBA(Wrap8(TruncDiv(r, d)), Wrap8(TruncDiv(g, d)), Wrap8(TruncDiv(b, d)), 255);
  }

  /** One more colour added to a wrapped `i32` sum. */
  lemma SumStep(s: seq<RGBA>, lo: nat, j: nat, acc: int, channel: char, v: int)
    requires lo <= j < |s| && acc == WrapI32(SumOf(s[lo..j], channel)) && v == Key(channel, s[j])
    ensures WrapI32(acc + v) == WrapI32(SumOf(s[lo..j + 1], channel))
  {
    assert s[lo..j + 1][..j - lo] == s[lo..j];
    WrapI32Add(SumOf(s[lo..j], channel), Key(channel, s[j]));
  }

  /** Round `r + 1`'s buckets cover more than round `r`'s, so the entries a round leaves
      untouched are the initial ones. */
  lemma UntouchedTail(unit: nat, last: nat, next: nat, initial: seq<(int, int)>)
    requires last <= next <= |initial|
    ensures (Bounds(unit, last) + initial[last..])[next..] == initial[next..]
  {
  }

  /** The bucket array after a round with `n` buckets over `length` colours: the round's
      bounds, then the caller's entries. */
  ghost predicate BoundsAfter(b: seq<(int, int)>, length: nat, n: nat, initial: seq<(int, int)>)
  {
    1 <= n <= |initial| && b == Bounds(length / n, n) + initial[n..]
  }

  /** Before a round, the bounds past its bucket count are still the caller's. */
  lemma BucketsTail(before: seq<(int, int)>, length: nat, pow: nat, bucketCount: nat, initial: seq<(int, int)>)
    requires pow >= 1 && bucketCount == Pow2(pow - 1) <= |initial|
    requires pow == 1 ==> before == initial
    requires pow >= 2 ==> BoundsAfter(before, length, Pow2(pow - 2), initial)
    ensures before[bucketCount..] == initial[bucketCount..]
  {
    if pow >= 2 {
      UntouchedTail(length / Pow2(pow - 2), Pow2(pow - 2), bucketCount, initial);
    }
  }

  /** The state of the `while` loop of `Create` before the round with `2^(pow - 1)` buckets:
      `chain` records the rounds done, from the pixels `start` to the current `contents`, and
      `b` holds the last round's bounds (the caller's entries before the first round). */
  ghost predicate Progress(chain: seq<seq<RGBA>>, start: seq<RGBA>, contents: seq<RGBA>, b: seq<(int, int)>,
                           length: nat, initial: seq<(int, int)>, count: nat, pow: nat)
  {
    && pow >= 1 && Pow2(pow - 1) <= 2 * count
    && |chain| == pow && chain[0] == start && chain[pow - 1] == contents && Rounded(chain, pow - 1)
    && (pow == 1 ==> b == initial)
    && (pow >= 2 ==> Pow2(pow - 2) <= count && BoundsAfter(b, length, Pow2(pow - 2), initial))
  }

  /** One pass of the `while` loop of `Create`: the round with `bucketCount = 2^(pow - 1)`
      buckets over the result of the rounds before it, which `chain` records, extended by this one. */
  method ChainedRound(arr: Memory.UMem<RGBA>, buckets: array<(int, int)>, count: nat, bucketCount: nat,
                      ghost pow: nat, ghost chain: seq<seq<RGBA>>, ghost start: seq<RGBA>, ghost initial: seq<(int, int)>)
    returns (ghost next: seq<seq<RGBA>>)
    requires Memory.Valid(arr) && count <= buckets.Length == |initial|
    requires Progress(chain, start, Memory.Contents(arr), buckets[..], arr.length, initial, count, pow)
    requires 1 <= bucketCount <= count && bucketCount == Pow2(pow - 1)
    modifies arr.ptr, buckets
    ensures Progress(next, start, Memory.Contents(arr), buckets[..], arr.length, initial, count, pow + 1)
  {
    BucketsTail(buckets[..], arr.length, pow, bucketCount, initial);
    Round(arr, buckets, bucketCount);
    ghost var after := Memory.Contents(arr);
    ChainStep(chain, after, pow - 1);
    next := chain + [after];
  }

  /** Before the first round the chain holds the pixels alone. */
  lemma ProgressStart(start: seq<RGBA>, initial: seq<(int, int)>, length: nat, count: nat)
    requires count >= 1
    ensures Progress([start], start, start, initial, length, initial, count, 1)
  {
  }

  /** The `while` loop of `Create`: rounds with 1, 2, 4, ... buckets while the bucket count
      is at most `count`. It stops in the state `Progress` for the first power of two above
      `count`. */
  method RoundsLoop(arr: Memory.UMem<RGBA>, buckets: array<(int, int)>, count: nat)
    returns (ghost chain: seq<seq<RGBA>>, ghost pow: nat)
    requires Memory.Valid(arr) && 1 <= count <= buckets.Length
    modifies arr.ptr, buckets
    ensures Progress(chain, old(Memory.Contents(arr)), Memory.Contents(arr), buckets[..], arr.length, old(buckets[..]), count, pow)
    ensures count < Pow2(pow - 1)
  {
    ghost var start := Memory.Contents(arr);
    ghost var initial := buckets[..];
    var bucketCount := 1;
    pow := 1;
    chain := [start];
    ProgressStart(start, initial, arr.length, count);
    while bucketCount <= count
      invariant Progress(chain, start, Memory.Contents(arr), buckets[..], arr.length, initial, count, pow)
      invariant bucketCount == Pow2(pow - 1)
      decreases 2 * count - bucketCount
    {
      chain := ChainedRound(arr, buckets, count, bucketCount, pow, chain, start, initial);
      bucketCount := 2 * bucketCount;
      pow := pow + 1;
    }
  }

  /** The rounds of `Create`: the buffer ends as a median cut of its colours, and the last
      round, with `LastRound(count)` buckets, leaves its bounds in `buckets`. */
  method Rounds(arr: Memory.UMem<RGBA>, buckets: array<(int, int)>, count: nat)
    returns (ghost chain: seq<seq<RGBA>>)
    requires Memory.Valid(arr) && 1 <= count <= buckets.Length
    modifies arr.ptr, buckets
    ensures MedianCut(old(Memory.Contents(arr)), Memory.Contents(arr), count, chain)
    ensures multiset(Memory.Contents(arr)) == old(multiset(Memory.Contents(arr)))
    ensures Arranged(Memory.Contents(arr), LastRound(count))
    ensures buckets[..] == Bounds(arr.length / LastRound(count), LastRound(count)) + old(buckets[..])[LastRound(count)..]
  {
    ghost var start := Memory.Contents(arr);
    ghost var initial := buckets[..];
    ghost var pow;
    chain, pow := RoundsLoop(arr, buckets, count);
    RoundsEnd(start, Memory.Contents(arr), count, chain, buckets[..], arr.length, initial, pow);
  }

  /** When the loop of `Create` stops, the chain it built is a median cut of the pixels. */
  lemma RoundsEnd(pixels: seq<RGBA>, arranged: seq<RGBA>, count: nat, chain: seq<seq<RGBA>>,
                  b: seq<(int, int)>, length: nat, initial: seq<(int, int)>, pow: nat)
    requires count >= 1 && Progress(chain, pixels, arranged, b, length, initial, count, pow)
    requires count < Pow2(pow - 1)
    ensures pow >= 2 && LastRound(count) == Pow2(pow - 2) && MedianCut(pixels, arranged, count, chain)
    ensures BoundsAfter(b, length, LastRound(count), initial)
    ensures multiset(arranged) == multiset(pixels) && |arranged| == |pixels|
    ensures Arranged(arranged, LastRound(count))
  {
    LastRoundUnique(count, pow - 2);
    MedianCutPermutes(pixels, arranged, count, chain);
  }

  /** The divisor `Length / Count` vanishes exactly when there are fewer colours than entries. */
  lemma QuotientZero(length: nat, count: nat)
    requires count >= 1
    ensures length / count == 0 <==> length < count
  {
    var q, r := length / count, length % count;
    assert length == q * count + r && 0 <= r < count;
    if q >= 1 {
      MulAtLeast(q, count);
    }
  }

  /** One pass of the averaging loop: the sums over bucket `i` and the division that makes
      entry `i`, which throws when the image has fewer pixels than the palette has entries. */
  method AverageOf(arr: Memory.UMem<RGBA>, buckets: array<(int, int)>, count: nat, i: nat) returns (r: Result<RGBA>)
    requires Memory.Valid(arr) && 1 <= count == buckets.Length && i < count
    requires buckets[i] == BucketBounds(i, arr.length, count)
    ensures r.Err? <==> arr.length < count
    ensures r.Err? ==> r.error == DivideByZero
    ensures r.Ok? ==> r.value == Entry(Memory.Contents(arr), count, i)
  {
    ghost var s := Memory.Contents(arr);
    var d := arr.length / count;
    var bounds := buckets[i];
    var lo, hi := bounds.0, bounds.1;
    var red, green, blue := SumBucket(arr, lo, hi);
    QuotientZero(arr.length, count);
    if d == 0 {
      return Err(DivideByZero);
    }
    var c := MeanOf(red, green, blue, d, s[lo..hi]);
    r := Ok(c);
  }

  /** The averaging loop of `Create`: entry `i` becomes the truncated mean of bucket `i`. The
      divisor `Length / Count` is zero when the image has fewer pixels than the palette has
      entries, and the first division throws before any entry is written. */
  method Averages(p: Palette, arr: Memory.UMem<RGBA>, buckets: array<(int, int)>) returns (o: Outcome)
    requires Valid(p) && Memory.Valid(arr) && 1 <= p.count == buckets.Length && arr.ptr != p.colors
    requires forall i :: 0 <= i < p.count ==> buckets[i] == BucketBounds(i, arr.length, p.count)
    modifies p.colors
    ensures o.Fail? <==> arr.length < p.count
    ensures o.Fail? ==> o.error == DivideByZero && p.colors[..] == old(p.colors[..])
    ensures o.Pass? ==> forall i :: 0 <= i < p.count ==> p.colors[i] == Entry(Memory.Contents(arr), p.count, i)
  {
    ghost var s := Memory.Contents(arr);
    var i := 0;
    while i < p.count
      invariant 0 <= i <= p.count && (arr.length < p.count ==> i == 0)
      invariant i == 0 ==> p.colors[..] == old(p.colors[..])
      invariant forall k :: 0 <= k < i ==> p.colors[k] == Entry(s, p.count, k)
      invariant Memory.Contents(arr) == s
    {
      var entry := AverageOf(arr, buckets, p.count, i);
      if entry.Err? {
        return Fail(entry.error);
      }
      p.colors[i] := entry.value;
      i := i + 1;
    }
    o := Pass;
  }

  /** After the rounds, the buckets array holds the last round's bounds and zero pairs after
      them: the `BucketBounds` of every entry. */
  lemma FinalBuckets(b: seq<(int, int)>, length: nat, count: nat, n: nat, initial: seq<(int, int)>)
    requires count >= 1 && |initial| == count && n == LastRound(count)
    requires forall i :: 1 <= i < count ==> initial[i] == (0, 0)
    requires b == Bounds(length / n, n) + initial[n..]
    ensures |b| == count
    ensures forall i :: 0 <= i < count ==> b[i] == BucketBounds(i, length, count)
  {
    forall i | 0 <= i < count
      ensures b[i] == BucketBounds(i, length, count)
    {
      if i < n {
        BoundsAt(length / n, n, i);
      }
    }
  }

  /** The first part of `Create`: the flat copy of the image and the rounds over it, which
      leave the colours a permutation of the image's pixels arranged in the last round's
      buckets, and those buckets' bounds in `buckets`. */
  method Cut(image: Image, count: nat) returns (arr: Memory.UMem<RGBA>, buckets: array<(int, int)>,
                                              ghost chain: seq<seq<RGBA>>)
    requires image.Valid() && 1 <= count
    ensures Memory.Valid(arr) && arr.length == image.Scale().0 * image.Scale().1
    ensures MedianCut(image.buffer.Cells(), Memory.Contents(arr), count, chain)
    ensures arr.ptr != null ==> fresh(arr.ptr)
    ensures fresh(buckets) && buckets.Length == count
    ensures multiset(Memory.Contents(arr)) == multiset(image.buffer.Cells())
    ensures Arranged(Memory.Contents(arr), LastRound(count))
    ensures forall i :: 0 <= i < count ==> buckets[i] == BucketBounds(i, arr.length, count)
  {
    var width, height := image.Scale().0, image.Scale().1;
    buckets := new (int, int)[count](_ => (0, 0));
    arr := Memory.Create<RGBA>(width * height);
    buckets[0] := (0, arr.length);
    CopyTo(image, arr);
    ghost var initial := buckets[..];
    chain := Rounds(arr, buckets, count);
    FinalBuckets(buckets[..], arr.length, count, LastRound(count), initial);
  }

  /** `Create(image)`: the median cut. The image's pixels are copied into a flat array; each
      round sorts every one of its buckets on the bucket's widest channel, with the bucket count
      doubling from 1 while it does not exceed `Count`; entry `i` is then the mean of bucket
      `i` of the last round. `arranged` is the flat array the rounds leave behind. */
  method Create(p: Palette, image: Image) returns (o: Outcome, ghost arranged: seq<RGBA>, ghost chain: seq<seq<RGBA>>)
    requires Valid(p) && image.Valid() && 1 <= p.count < 0x4000_0000
    requires image.Scale().0 * image.Scale().1 < 0x8000_0000
    requires p.colors != image.buffer.buffer.ptr
    modifies p.colors
    ensures MedianCut(image.buffer.Cells(), arranged, p.count, chain)
    ensures multiset(arranged) == multiset(image.buffer.Cells())
    ensures Arranged(arranged, LastRound(p.count))
    ensures o.Fail? <==> |arranged| < p.count
    ensures o.Fail? ==> o.error == DivideByZero && p.colors[..] == old(p.colors[..])
    ensures o.Pass? ==> forall k :: 0 <= k < p.count ==> p.colors[k] == Entry(arranged, p.count, k)
  {
    var arr, buckets;
    arr, buckets, chain := Cut(image, p.count);
    arranged := Memory.Contents(arr);
    o := Averages(p, arr, buckets);
  }

  /** A power of two equal to 2 is `2^1`. */
  lemma Pow2Is2(k: nat)
    requires Pow2(k) == 2
    ensures k == 1
  {
  }

  /** A sequence of two colours holding `c` twice is `[c, c]`. */
  lemma PairOf(t: seq<RGBA>, c: RGBA)
    requires |t| == 2 && multiset(t) == multiset{c, c}
    ensures t == [c, c]
  {
    assert t[0] in multiset(t) && t[1] in multiset(t);
  }

  /** Four colours sorted on blue that are black twice and white twice: the blacks lead. */
  lemma SortedTwoTwo(t: seq<RGBA>, black: RGBA, white: RGBA)
    requires black == RGBA(0, 0, 0, 255) && white == RGBA(255, 255, 255, 255)
    requires |t| == 4 && multiset(t) == multiset{black, white, black, white} && SortedOn(t, 'b')
    ensures t == [black, black, white, white]
  {
    forall i | 0 <= i < 4 ensures t[i] == black || t[i] == white {
      assert t[i] in multiset(t);
    }
    assert t == [t[0], t[1], t[2], t[3]];
  }

  /** The first round over `[black, white, black, white]`: one bucket, all channel ranges
      tie at 255 so it is sorted on blue, which puts the blacks first. */
  lemma FirstRoundOfTwoColours(first: seq<RGBA>, black: RGBA, white: RGBA)
    requires black == RGBA(0, 0, 0, 255) && white == RGBA(255, 255, 255, 255)
    requires RoundOf([black, white, black, white], first, 1)
    ensures first == [black, black, white, white]
  {
    var pixels := [black, white, black, white];
    assert Part(pixels, 1, 0) == pixels && Part(first, 1, 0) == first;
    assert KeptUpTo(pixels, first, 1, 1) && ArrangedUpTo(first, 1, 1);
    ChannelExtremes(pixels, 'r');
    ChannelExtremes(pixels, 'g');
    ChannelExtremes(pixels, 'b');
    assert Key('r', pixels[1]) == Key('g', pixels[1]) == Key('b', pixels[1]) == 255;
    assert LargestChannel(pixels) == 'b';
    LargestChannelOfPermutation(pixels, first);
    SortedTwoTwo(first, black, white);
  }

  /** The second round over `[black, black, white, white]`: each half keeps its colours. */
  lemma SecondRoundOfTwoColours(second: seq<RGBA>, black: RGBA, white: RGBA)
    requires RoundOf([black, black, white, white], second, 2)
    ensures second == [black, black, white, white]
  {
    var first := [black, black, white, white];
    assert KeptUpTo(first, second, 2, 2) && KeptUpTo(first, second, 2, 1);
    assert Part(first, 2, 0) == first[0..2] == [black, black];
    assert Part(first, 2, 1) == first[2..4] == [white, white];
    PairOf(Part(second, 2, 0), black);
    PairOf(Part(second, 2, 1), white);
    assert second == Part(second, 2, 0) + Part(second, 2, 1);
  }

  /** The median cut of a 2x2 image holding black and white in turn, `[black, white, black,
      white]` in row-major order, for a palette of two entries: whatever order the unstable
      sorts pick, the entries are black and white. */
  lemma {:induction false} TwoColourCut(chain: seq<seq<RGBA>>, arranged: seq<RGBA>)
    requires MedianCut([RGBA(0, 0, 0, 255), RGBA(255, 255, 255, 255), RGBA(0, 0, 0, 255), RGBA(255, 255, 255, 255)],
                       arranged, 2, chain)
    ensures |arranged| == 4
    ensures Entry(arranged, 2, 0) == RGBA(0, 0, 0, 255) && Entry(arranged, 2, 1) == RGBA(255, 255, 255, 255)
  {
    var black, white := RGBA(0, 0, 0, 255), RGBA(255, 255, 255, 255);
    assert LastRound(2) == 2;
    Pow2Is2(|chain| - 2);
    assert Rounded(chain, 2) && Rounded(chain, 1);
    FirstRoundOfTwoColours(chain[1], black, white);
    SecondRoundOfTwoColours(chain[2], black, white);
    assert arranged == [black, black, white, white];
    assert BucketBounds(0, 4, 2) == (0, 2) && BucketBounds(1, 4, 2) == (2, 4);
    assert arranged[0..2] == [black, black] && arranged[2..4] == [white, white];
    MeanOfPair(black);
    MeanOfPair(white);
  }

  /** The mean of two equal colours with divisor 2 is that colour made opaque. */
  lemma MeanOfPair(c: RGBA)
    ensures Mean([c, c], 2) == RGBA(c.r, c.g, c.b, 255)
  {
    var pair := [c, c];
    assert pair[..1] == [c];
    assert SumOf(pair, 'r') == 2 * c.r && SumOf(pair, 'g') == 2 * c.g && SumOf(pair, 'b') == 2 * c.b;
  }

  /** The sum of a channel lies between `lo` and `hi` times the bucket size when every value
      of the channel does. */
  lemma {:induction false} SumBounds(s: seq<RGBA>, channel: char, lo: byte, hi: byte)
    requires forall i :: 0 <= i < |s| ==> lo <= Key(channel, s[i]) <= hi
    ensures Mul(lo, |s|) <= SumOf(s, channel) <= Mul(hi, |s|)
  {
    if |s| > 0 {
      var init := s[..|s| - 1];
      assert forall i :: 0 <= i < |init| ==> init[i] == s[i];
      SumBounds(init, channel, lo, hi);
    }
  }

  /** Dividing by `d` keeps a value that lies between `lo * d` and `hi * d` between `lo` and
      `hi`. */
  lemma QuotientBounds(x: int, d: nat, lo: int, hi: int)
    requires d >= 1 && lo * d <= x <= hi * d
    ensures lo <= x / d <= hi
  {
    var q, r := x / d, x % d;
    assert x == q * d + r && 0 <= r < d;
    assert (q - hi) * d == q * d - hi * d;
    FactorSign(q - hi, d);
    assert (lo - q - 1) * d == lo * d - q * d - d;
    FactorSign(lo - q - 1, d);
  }

  /** A product with a positive factor has the sign of the other factor. */
  lemma FactorSign(a: int, d: nat)
    requires d >= 1
    ensures a * d < 0 ==> a < 0
    ensures a * d <= 0 ==> a <= 0
  {
    if a > 0 {
      MulAtLeast(a, d);
    }
  }

  /** With a power-of-two `Count`, entry `k` is the mean of bucket `k` of the last round, rounded
      down: the bucket holds `|s| / Count` colours, and while `255 * |s|` fits in an `i32` no
      sum wraps and no quotient exceeds 255. */
  lemma EntryIsMean(s: seq<RGBA>, count: nat, k: nat)
    requires 1 <= count <= |s| && LastRound(count) == count && k < count
    requires 255 * |s| < 0x8000_0000
    ensures (QuotientZero(|s|, count);
      var part, d, e := Part(s, count, k), |s| / count, Entry(s, count, k);
      d == |part| && e.r == SumOf(part, 'r') / d && e.g == SumOf(part, 'g') / d
      && e.b == SumOf(part, 'b') / d && e.a == 255)
  {
    var part, d := Part(s, count, k), |s| / count;
    QuotientZero(|s|, count);
    UnitsFit(|s|, count, k);
    assert Entry(s, count, k) == Mean(part, d);
    MeanChannel(part, d, 'r');
    MeanChannel(part, d, 'g');
    MeanChannel(part, d, 'b');
  }

  /** One channel of the mean of a bucket of `d` colours whose sums fit in an `i32`. */
  lemma MeanChannel(part: seq<RGBA>, d: nat, channel: char)
    requires d == |part| >= 1 && 255 * d < 0x8000_0000
    ensures 0 <= SumOf(part, channel) / d <= 255
    ensures Wrap8(TruncDiv(WrapI32(SumOf(part, channel)), d)) == SumOf(part, channel) / d
  {
    QuotientBounds(SumOf(part, channel), d, 0, 255);
  }

  /** Each channel of a bucket's mean lies between the smallest and the largest value of that
      channel in the bucket. */
  lemma MeanWithinBucket(part: seq<RGBA>, channel: char)
    requires |part| >= 1
    ensures ChannelMin(part, channel) <= SumOf(part, channel) / |part| <= ChannelMax(part, channel)
  {
    var lo, hi := ChannelMin(part, channel), ChannelMax(part, channel);
    ChannelExtremes(part, channel);
    var a :| 0 <= a < |part| && hi == Key(channel, part[a]);
    var b :| 0 <= b < |part| && lo == Key(channel, part[b]);
    SumBounds(part, channel, lo, hi);
    MulIsProduct(lo, |part|);
    MulIsProduct(hi, |part|);
    QuotientBounds(SumOf(part, channel), |part|, lo, hi);
  }

  /** An entry whose index no round reached is black with alpha 255: its bucket is `(0, 0)`. */
  lemma UnreachedEntry(s: seq<RGBA>, count: nat, k: nat)
    requires 1 <= count <= |s| && LastRound(count) <= k
    ensures Entry(s, count, k) == RGBA(0, 0, 0, 255)
  {
    assert s[0..0] == [];
  }
}
