/** The CRC-32 of a chunk (section 3.4 of RFC 2083): the reflected polynomial 0xEDB88320, an
    initial register of 0xFFFFFFFF and a final complement. The source keeps the register in a
    `u64` whose value never exceeds 32 bits, so its operators are the operators on
    non-negative integers below: `c & 1` is `LowBit`, `c >> 1` is `Half`, `c >> 8` is
    `Shr8`, `c & 0xff` is `LowByte` and `^` is `Xor`, defined bit by bit.

    `Register` is the bit-at-a-time definition of the standard; `PNGChunk.CreateCRC` computes
    it a byte at a time through a 256-entry table, and `TableStepIsBitwise` is why the two
    agree. */
module Crc {
  import opened Common

  function LowBit(c: nat): nat { c % 2 }
  function Half(c: nat): nat { c / 2 }
  function Shr8(c: nat): nat { c / 256 }
  function LowByte(c: nat): (b: nat)
    ensures b < 256
  {
    c % 256
  }

  /** Exclusive or, least significant bit first. */
  function Xor(a: nat, b: nat): nat
    decreases a + b
  {
    if a == 0 && b == 0 then 0
    else 2 * Xor(a / 2, b / 2) + (if a % 2 == b % 2 then 0 else 1)
  }

  /** One shift/xor step of `CreateCRCTable`'s inner loop. */
  function Step(c: nat): nat
  {
    if LowBit(c) == 1 then Xor(0xedb88320, Half(c)) else Half(c)
  }

  /** `n` steps. */
  function Steps(c: nat, n: nat): nat
    decreases n
  {
    if n == 0 then c else Steps(Step(c), n - 1)
  }

  /** Table entry `i`: eight steps applied to the index. */
  function TableEntry(i: nat): nat
  {
    Steps(i, 8)
  }

  /** The bitwise register after the bytes `s`: each byte is xored into the low end and
      shifted through eight steps. It always fits in 32 bits. */
  function Register(s: seq<byte>): (r: nat)
    ensures r < 0x1_0000_0000
  {
    if s == [] then 0xffff_ffff
    else
      var c := Register(s[..|s| - 1]);
      XorFits32(c, s[|s| - 1]);
      StepsFit(Xor(c, s[|s| - 1]), 8);
      Steps(Xor(c, s[|s| - 1]), 8)
  }

  /** The CRC-32 of `s`: the complemented register (`Crc32Is`). It is reached through one
      recursive call of `Deferred`, so that the verifier does not expand the register
      wherever only the layout of a chunk matters. */
  function Crc32(s: seq<byte>): u32
  {
    Deferred(s, 1)
  }

  /** The complemented register, after `delay` trivial calls. */
  function Deferred(s: seq<byte>, delay: nat): u32
    decreases delay
  {
    if delay == 0 then
      XorFits32(Register(s), 0xffff_ffff);
      Xor(Register(s), 0xffff_ffff)
    else Deferred(s, delay - 1)
  }

  /** The definition of the CRC-32. */
  lemma Crc32Is(s: seq<byte>)
    ensures Crc32(s) == Xor(Register(s), 0xffff_ffff)
  {
    assert Deferred(s, 0) == Xor(Register(s), 0xffff_ffff);
  }

  /** One table-driven byte: `table[(crc ^ value) & 0xff] ^ (crc >> 8)`. */
  function TableStep(crc: nat, value: byte): nat
  {
    Xor(TableEntry(LowByte(Xor(crc, value))), Shr8(crc))
  }

  // ---- exclusive or ----

  /** An integer is determined by its low bit and the rest. */
  lemma BitsDetermine(x: nat, y: nat)
    requires x / 2 == y / 2 && x % 2 == y % 2
    ensures x == y
  {
  }

  /** `Xor` works bit by bit: its low bit is the xor of the low bits, the rest the xor of
      the rest. */
  lemma XorHalves(a: nat, b: nat)
    ensures Xor(a, b) / 2 == Xor(a / 2, b / 2)
    ensures Xor(a, b) % 2 == (if a % 2 == b % 2 then 0 else 1)
  {
  }

  lemma XorZero(a: nat)
    ensures Xor(a, 0) == a
    decreases a
  {
    if a != 0 {
      XorZero(a / 2);
    }
  }

  lemma {:induction false} XorCommutes(a: nat, b: nat)
    ensures Xor(a, b) == Xor(b, a)
    decreases a + b
  {
    if a != 0 || b != 0 {
      XorCommutes(a / 2, b / 2);
    }
  }

  lemma {:induction false} XorAssociates(a: nat, b: nat, c: nat)
    ensures Xor(Xor(a, b), c) == Xor(a, Xor(b, c))
    decreases a + b + c
  {
    if a != 0 || b != 0 || c != 0 {
      XorAssociates(a / 2, b / 2, c / 2);
      XorHalves(a, b);
      XorHalves(Xor(a, b), c);
      XorHalves(b, c);
      XorHalves(a, Xor(b, c));
      BitsDetermine(Xor(Xor(a, b), c), Xor(a, Xor(b, c)));
    }
  }

  lemma {:induction false} XorSelf(a: nat)
    ensures Xor(a, a) == 0
    decreases a
  {
    if a != 0 {
      XorSelf(a / 2);
    }
  }

  lemma CancelBoth(p: nat, x: nat, y: nat)
    ensures Xor(Xor(p, x), Xor(p, y)) == Xor(x, y)
  {
    XorAssociates(p, x, Xor(p, y));
    XorAssociates(x, p, y);
    XorCommutes(x, p);
    XorAssociates(p, p, y);
    XorSelf(p);
    XorAssociates(p, x, y);
    XorAssociates(p, p, Xor(x, y));
    XorCommutes(Xor(x, y), 0);
    XorZero(Xor(x, y));
  }

  lemma CancelRight(p: nat, x: nat, y: nat)
    ensures Xor(x, Xor(p, y)) == Xor(p, Xor(x, y))
  {
    XorAssociates(x, p, y);
    XorCommutes(x, p);
    XorAssociates(p, x, y);
  }

  lemma PolyCancelBoth(x: nat, y: nat)
    ensures Xor(Xor(0xedb88320, x), Xor(0xedb88320, y)) == Xor(x, y)
  {
    CancelBoth(0xedb88320, x, y);
  }

  lemma PolyCancelLeft(x: nat, y: nat)
    ensures Xor(Xor(0xedb88320, x), y) == Xor(0xedb88320, Xor(x, y))
  {
    XorAssociates(0xedb88320, x, y);
  }

  lemma PolyCancelRight(x: nat, y: nat)
    ensures Xor(x, Xor(0xedb88320, y)) == Xor(0xedb88320, Xor(x, y))
  {
    CancelRight(0xedb88320, x, y);
  }

  /** Below `2^k`, `Xor` stays below `2^k`. */
  lemma {:induction false} XorFits(a: nat, b: nat, k: nat)
    requires a < Pow2(k) && b < Pow2(k)
    ensures Xor(a, b) < Pow2(k)
  {
    if k > 0 {
      XorFits(a / 2, b / 2, k - 1);
      XorHalves(a, b);
    } else {
      assert a == 0 && b == 0;
    }
  }

  lemma {:induction false} Pow2Sum(m: nat, n: nat)
    ensures Pow2(m + n) == Pow2(m) * Pow2(n)
  {
    if m > 0 {
      Pow2Sum(m - 1, n);
    }
  }

  lemma Pow2Of32()
    ensures Pow2(32) == 0x1_0000_0000
  {
    assert Pow2(8) == 256;
    assert Pow2(16) == 256 * Pow2(8) by { Pow2Sum(8, 8); }
    assert Pow2(32) == Pow2(16) * Pow2(16) by { Pow2Sum(16, 16); }
  }

  lemma XorFits32(a: nat, b: nat)
    requires a < 0x1_0000_0000 && b < 0x1_0000_0000
    ensures Xor(a, b) < 0x1_0000_0000
  {
    Pow2Of32();
    XorFits(a, b, 32);
  }

  lemma StepFits(c: nat)
    requires c < 0x1_0000_0000
    ensures Step(c) < 0x1_0000_0000
  {
    XorFits32(0xedb88320, Half(c));
  }

  lemma {:induction false} StepsFit(c: nat, n: nat)
    requires c < 0x1_0000_0000
    ensures Steps(c, n) < 0x1_0000_0000
    decreases n
  {
    if n > 0 {
      StepFits(c);
      StepsFit(Step(c), n - 1);
    }
  }

  /** Bits that do not overlap add. */
  lemma {:induction false} XorDisjoint(l: nat, h: nat, k: nat)
    requires l < Pow2(k)
    ensures Xor(l, h * Pow2(k)) == l + h * Pow2(k)
  {
    if k > 0 {
      var p := Pow2(k - 1);
      var big := h * Pow2(k);
      assert big == 2 * (h * p);
      assert big / 2 == h * p && big % 2 == 0;
      XorDisjoint(l / 2, h, k - 1);
      XorHalves(l, big);
      assert Xor(l, big) / 2 == (l + big) / 2;
      assert Xor(l, big) % 2 == (l + big) % 2;
      BitsDetermine(Xor(l, big), l + big);
    } else {
      XorCommutes(l, h);
      assert l == 0;
      XorCommutes(0, h * Pow2(k));
      XorZero(h * Pow2(k));
    }
  }

  /** A register is its low byte xored with the rest. */
  lemma SplitByte(x: nat)
    ensures x == Xor(LowByte(x), Shr8(x) * 256)
  {
    assert Pow2(8) == 256;
    XorDisjoint(x % 256, x / 256, 8);
  }

  /** Xoring in a byte leaves the bits above the low byte alone. */
  lemma XorByteKeepsHigh(crc: nat, b: byte)
    ensures Shr8(Xor(crc, b)) == Shr8(crc)
  {
    var lo, hi := LowByte(crc), Shr8(crc);
    SplitByte(crc);
    assert Pow2(8) == 256;
    XorCommutes(lo, hi * 256);
    XorAssociates(hi * 256, lo, b);
    XorFits(lo, b, 8);
    XorCommutes(hi * 256, Xor(lo, b));
    XorDisjoint(Xor(lo, b), hi, 8);
    assert Xor(crc, b) == Xor(lo, b) + hi * 256;
  }

  // ---- the step ----

  lemma StepLinearOddOdd(a: nat, b: nat)
    requires LowBit(a) == 1 && LowBit(b) == 1
    ensures Step(Xor(a, b)) == Xor(Step(a), Step(b))
  {
    XorHalves(a, b);
    PolyCancelBoth(Half(a), Half(b));
  }

  lemma StepLinearOddEven(a: nat, b: nat)
    requires LowBit(a) == 1 && LowBit(b) == 0
    ensures Step(Xor(a, b)) == Xor(Step(a), Step(b))
  {
    XorHalves(a, b);
    PolyCancelLeft(Half(a), Half(b));
  }

  lemma StepLinearEvenOdd(a: nat, b: nat)
    requires LowBit(a) == 0 && LowBit(b) == 1
    ensures Step(Xor(a, b)) == Xor(Step(a), Step(b))
  {
    XorHalves(a, b);
    PolyCancelRight(Half(a), Half(b));
  }

  lemma StepLinearEvenEven(a: nat, b: nat)
    requires LowBit(a) == 0 && LowBit(b) == 0
    ensures Step(Xor(a, b)) == Xor(Step(a), Step(b))
  {
    XorHalves(a, b);
  }

  /** A step is linear over xor. */
  lemma StepLinear(a: nat, b: nat)
    ensures Step(Xor(a, b)) == Xor(Step(a), Step(b))
  {
    if LowBit(a) == 1 && LowBit(b) == 1 {
      StepLinearOddOdd(a, b);
    } else if LowBit(a) == 1 {
      StepLinearOddEven(a, b);
    } else if LowBit(b) == 1 {
      StepLinearEvenOdd(a, b);
    } else {
      StepLinearEvenEven(a, b);
    }
  }

  /** So is any number of steps. */
  lemma {:induction false} StepsLinear(a: nat, b: nat, n: nat)
    ensures Steps(Xor(a, b), n) == Xor(Steps(a, n), Steps(b, n))
    decreases n
  {
    if n > 0 {
      StepLinear(a, b);
      StepsLinear(Step(a), Step(b), n - 1);
    }
  }

  /** An even register just shifts. */
  lemma EvenSteps(c: nat, z: nat, k: nat)
    requires c == 2 * z
    ensures Steps(c, k + 1) == Steps(z, k)
  {
    assert Step(c) == z;
  }

  /** Eight steps of the bits above the low byte shift them out: `crc >> 8`. */
  lemma HighSteps(h: nat)
    ensures Steps(h * 256, 8) == h
  {
    EvenSteps(h * 256, h * 128, 7);
    EvenSteps(h * 128, h * 64, 6);
    EvenSteps(h * 64, h * 32, 5);
    EvenSteps(h * 32, h * 16, 4);
    EvenSteps(h * 16, h * 8, 3);
    EvenSteps(h * 8, h * 4, 2);
    EvenSteps(h * 4, h * 2, 1);
    EvenSteps(h * 2, h, 0);
  }

  /** The table-driven byte step equals eight bitwise steps: the table entry handles the
      low byte and the high bits only shift, because the steps are linear. */
  lemma TableStepIsBitwise(crc: nat, value: byte)
    ensures TableStep(crc, value) == Steps(Xor(crc, value), 8)
  {
    var x := Xor(crc, value);
    SplitByte(x);
    StepsLinear(LowByte(x), Shr8(x) * 256, 8);
    HighSteps(Shr8(x));
    XorByteKeepsHigh(crc, value);
  }

  /** Appending a byte advances the register by one byte. */
  lemma RegisterSnoc(s: seq<byte>, b: byte)
    ensures Register(s + [b]) == Steps(Xor(Register(s), b), 8)
  {
    assert (s + [b])[..|s|] == s;
  }

  /** Appending a byte advances the register by one table step. */
  lemma RegisterByTable(s: seq<byte>, b: byte)
    ensures Register(s + [b]) == TableStep(Register(s), b)
  {
    RegisterSnoc(s, b);
    TableStepIsBitwise(Register(s), b);
  }

  /** The loop step of `CreateCRC`: one more byte of `s` through the table. */
  lemma RegisterAdvance(s: seq<byte>, i: nat, crc: nat)
    requires i < |s| && crc == Register(s[..i])
    ensures TableStep(crc, s[i]) == Register(s[..i + 1])
  {
    assert s[..i + 1] == s[..i] + [s[i]];
    RegisterByTable(s[..i], s[i]);
  }
}
