/** `MathExtension.MinMax`: one pass over a span keeping the smallest and the largest value of a
    selector. The selector's result type is modelled as `int`, whose default is 0. */
module MathExtension {

  /** The selector applied to every element, in order. */
  function Selected<T>(s: seq<T>, selector: T -> int): (r: seq<int>)
    ensures |r| == |s|
    ensures forall i :: 0 <= i < |s| ==> r[i] == selector(s[i])
  {
    seq(|s|, i requires 0 <= i < |s| => selector(s[i]))
  }

  /** The smallest value of a non-empty sequence. */
  function SeqMin(s: seq<int>): (m: int)
    requires |s| > 0
    ensures forall i :: 0 <= i < |s| ==> m <= s[i]
    ensures exists i :: 0 <= i < |s| && m == s[i]
  {
    if |s| == 1 then s[0]
    else
      var m' := SeqMin(s[..|s| - 1]);
      assert forall i :: 0 <= i < |s| - 1 ==> s[..|s| - 1][i] == s[i];
      if s[|s| - 1] < m' then s[|s| - 1] else m'
  }

  /** The largest value of a non-empty sequence. */
  function SeqMax(s: seq<int>): (m: int)
    requires |s| > 0
    ensures forall i :: 0 <= i < |s| ==> s[i] <= m
    ensures exists i :: 0 <= i < |s| && m == s[i]
  {
    if |s| == 1 then s[0]
    else
      var m' := SeqMax(s[..|s| - 1]);
      assert forall i :: 0 <= i < |s| - 1 ==> s[..|s| - 1][i] == s[i];
      if s[|s| - 1] > m' then s[|s| - 1] else m'
  }

  /** A lower bound that is attained is the minimum, and likewise for the maximum. */
  lemma AttainedBoundsAreExtremes(s: seq<int>, lo: int, hi: int)
    requires |s| > 0
    requires forall i :: 0 <= i < |s| ==> lo <= s[i] <= hi
    requires exists i :: 0 <= i < |s| && lo == s[i]
    requires exists j :: 0 <= j < |s| && hi == s[j]
    ensures lo == SeqMin(s) && hi == SeqMax(s)
  {
    var i :| 0 <= i < |s| && lo == s[i];
    var j :| 0 <= j < |s| && hi == s[j];
    var a :| 0 <= a < |s| && SeqMin(s) == s[a];
    var b :| 0 <= b < |s| && SeqMax(s) == s[b];
  }

  /** `MinMax`: `(0, 0)` for an empty span; otherwise the extremes of the selector, each of
      them attained by some element. */
  method MinMax<T>(buffer: seq<T>, selector: T -> int) returns (min: int, max: int)
    ensures |buffer| == 0 ==> min == 0 && max == 0
    ensures |buffer| == 1 ==> min == max == selector(buffer[0])
    ensures forall e :: e in buffer ==> min <= selector(e) <= max
    ensures |buffer| > 0 ==> exists i :: 0 <= i < |buffer| && min == selector(buffer[i])
    ensures |buffer| > 0 ==> exists j :: 0 <= j < |buffer| && max == selector(buffer[j])
  {
    if |buffer| == 0 {
      return 0, 0;
    }
    max := selector(buffer[0]);
    min := selector(buffer[0]);
    if |buffer| == 1 {
      return;
    }
    ghost var lo, hi := 0, 0;
    var i := 1;
    while i < |buffer|
      invariant 1 <= i <= |buffer|
      invariant 0 <= lo < i && min == selector(buffer[lo])
      invariant 0 <= hi < i && max == selector(buffer[hi])
      invariant forall k :: 0 <= k < i ==> min <= selector(buffer[k]) <= max
    {
      var current := selector(buffer[i]);
      if current > max {
        max, hi := current, i;
      }
      if current < min {
        min, lo := current, i;
      }
      i := i + 1;
    }
  }

  /** The pair `MinMax` returns is the selector's minimum and maximum. */
  lemma MinMaxIsSeqMinMax<T>(buffer: seq<T>, selector: T -> int, min: int, max: int)
    requires |buffer| > 0
    requires forall e :: e in buffer ==> min <= selector(e) <= max
    requires exists i :: 0 <= i < |buffer| && min == selector(buffer[i])
    requires exists j :: 0 <= j < |buffer| && max == selector(buffer[j])
    ensures min == SeqMin(Selected(buffer, selector)) && max == SeqMax(Selected(buffer, selector))
  {
    var s := Selected(buffer, selector);
    forall i | 0 <= i < |s| ensures min <= s[i] <= max {
      assert buffer[i] in buffer;
    }
    AttainedBoundsAreExtremes(s, min, max);
  }
}
