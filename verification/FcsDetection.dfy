/** What the frame check sequence detects: the good-frame residue of RFC 1662, Appendix C.2, bursts and odd errors. */
module FcsDetection {
  import opened Words
  import opened FcsTable
  import opened Fcs

  // A bit string as a number, first bit lowest.
  function Pack(x: seq<bool>): nat
    decreases |x|
  {
    if |x| == 0 then 0 else (if x[0] then 1 else 0) + 2 * Pack(x[1..])
  }

  lemma {:induction false} PackBound(x: seq<bool>)
    ensures Pack(x) < Pow2(|x|)
    decreases |x|
  {
    if |x| == 0 {
    } else {
      PackBound(x[1..]);
    }
  }

  lemma {:induction false} PackInjective(x: seq<bool>, y: seq<bool>)
    requires |x| == |y| && Pack(x) == Pack(y)
    ensures x == y
    decreases |x|
  {
    if |x| == 0 {
    } else {
      PackInjective(x[1..], y[1..]);
      assert x == [x[0]] + x[1..] && y == [y[0]] + y[1..];
    }
  }

  // Shifting in a bit string is plain shifts of the register with the string toggled into it, as polynomials.
  lemma {:induction false} ShiftPacked(r: nat, x: seq<bool>)
    ensures ShiftAll(r, x) == BitSteps(Xor(r, Pack(x)), |x|)
    decreases |x|
  {
    if |x| == 0 {
      XorZero(r);
    } else {
      var low := if x[0] then 1 else 0;
      ShiftPacked(ShiftIn(r, x[0]), x[1..]);
      ShiftInIs(r, x[0]);
      ShiftWordStep(r, low, Pack(x[1..]));
    }
  }

  lemma {:induction false} Pow2Mono(m: nat, n: nat)
    requires m <= n
    ensures Pow2(m) <= Pow2(n)
    decreases n
  {
    if m < n { Pow2Mono(m, n - 1); }
  }

  lemma {:induction false} ShiftAllBound(r: nat, x: seq<bool>)
    requires r < 0x1_0000
    ensures ShiftAll(r, x) < 0x1_0000
    decreases |x|
  {
    if |x| == 0 {
    } else {
      WordSizes();
      XorBound(r / 2, 0x8408, 16);
      ShiftAllBound(ShiftIn(r, x[0]), x[1..]);
    }
  }

  // Two different windows of at most sixteen bits leave different registers.
  lemma WindowInjective(r: nat, x: seq<bool>, y: seq<bool>)
    requires r < 0x1_0000 && |x| == |y| <= 16
    requires ShiftAll(r, x) == ShiftAll(r, y)
    ensures x == y
  {
    ShiftPacked(r, x);
    ShiftPacked(r, y);
    PackBound(x);
    PackBound(y);
    Pow2Mono(|x|, 16);
    WordSizes();
    XorBound(r, Pack(x), 16);
    XorBound(r, Pack(y), 16);
    BitStepsInjective(Xor(r, Pack(x)), Xor(r, Pack(y)), |x|);
    XorComm(r, Pack(x));
    XorComm(r, Pack(y));
    XorInjective(Pack(x), Pack(y), r);
    PackInjective(x, y);
  }

  // Registers that differ still differ after any equal bits.
  lemma {:induction false} ShiftAllInjective(r: nat, s: nat, x: seq<bool>)
    requires r < 0x1_0000 && s < 0x1_0000
    requires ShiftAll(r, x) == ShiftAll(s, x)
    ensures r == s
    decreases |x|
  {
    if |x| == 0 {
    } else {
      ShiftAllBound(r, [x[0]]);
      ShiftAllBound(s, [x[0]]);
      assert ShiftAll(r, [x[0]]) == ShiftIn(r, x[0]) && ShiftAll(s, [x[0]]) == ShiftIn(s, x[0]);
      ShiftAllInjective(ShiftIn(r, x[0]), ShiftIn(s, x[0]), x[1..]);
      var b := if x[0] then 1 else 0;
      ShiftInIs(r, x[0]);
      ShiftInIs(s, x[0]);
      WordSizes();
      XorBound(r, b, 16);
      XorBound(s, b, 16);
      BitStepInjective(Xor(r, b), Xor(s, b));
      XorInjective(r, s, b);
    }
  }

  // Two bit strings that agree outside sixteen consecutive bits and leave the same register are equal.
  lemma BurstDetected(r: nat, x: seq<bool>, y: seq<bool>, p: nat, w: nat)
    requires r < 0x1_0000 && |x| == |y| && p + w <= |x| && w <= 16
    requires x[..p] == y[..p] && x[p + w..] == y[p + w..]
    requires ShiftAll(r, x) == ShiftAll(r, y)
    ensures x == y
  {
    var before, wx, wy, after := x[..p], x[p..p + w], y[p..p + w], x[p + w..];
    assert x == before + (wx + after) && y == before + (wy + after);
    ShiftAllAppend(r, before, wx + after);
    ShiftAllAppend(r, before, wy + after);
    var s := ShiftAll(r, before);
    ShiftAllAppend(s, wx, after);
    ShiftAllAppend(s, wy, after);
    ShiftAllBound(r, before);
    ShiftAllBound(s, wx);
    ShiftAllBound(s, wy);
    ShiftAllInjective(ShiftAll(s, wx), ShiftAll(s, wy), after);
    WindowInjective(s, wx, wy);
  }

  // Parity: the polynomial x^16 + x^12 + x^5 + 1 has an even number of terms.

  predicate OddOnes(x: seq<bool>)
    decreases |x|
  {
    if |x| == 0 then false else x[0] != OddOnes(x[1..])
  }

  lemma PolyParity()
    ensures OddBits(0x8408)
  {
    assert !OddBits(0x84) && OddBits(0x8408) == OddBits(0x1081);
  }

  lemma ShiftInParity(r: nat, bit: bool)
    ensures OddBits(ShiftIn(r, bit)) == (OddBits(r) != bit)
  {
    PolyParity();
    OddBitsXor(r / 2, 0x8408);
  }

  lemma {:induction false} ShiftAllParity(r: nat, x: seq<bool>)
    ensures OddBits(ShiftAll(r, x)) == (OddBits(r) != OddOnes(x))
    decreases |x|
  {
    if |x| == 0 {
    } else {
      ShiftInParity(r, x[0]);
      ShiftAllParity(ShiftIn(r, x[0]), x[1..]);
    }
  }

  // The good-frame residue.

  lemma NextBits(x: nat, next: nat, n: nat)
    requires next == BitStep(x) && n > 0
    ensures BitSteps(x, n) == BitSteps(next, n - 1)
  {}

  lemma Residue0(t: bool, f: bool, n: nat)
    requires t && !f && n >= 4
    ensures BitSteps(W(t, t, t, t, t, t, t, t, t, t, t, t, t, t, t, t), n)
         == BitSteps(W(f, f, f, f, t, t, t, f, f, f, f, t, t, t, t, t), n - 4)
  {
    BitStepOnBits(t, t, t, t, t, t, t, t, t, t, t, t, t, t, t, t);
    BitStepOnBits(t, t, t, f, t, t, t, t, t, t, f, t, t, t, t, t);
    BitStepOnBits(t, t, f, f, t, t, t, t, t, f, f, t, t, t, t, t);
    BitStepOnBits(t, f, f, f, t, t, t, t, f, f, f, t, t, t, t, t);
    var x0, x1 := W(t, t, t, t, t, t, t, t, t, t, t, t, t, t, t, t), W(t, t, t, f, t, t, t, t, t, t, f, t, t, t, t, t);
    var x2, x3 := W(t, t, f, f, t, t, t, t, t, f, f, t, t, t, t, t), W(t, f, f, f, t, t, t, t, f, f, f, t, t, t, t, t);
    NextBits(x0, x1, n);
    NextBits(x1, x2, n - 1);
    NextBits(x2, x3, n - 2);
    NextBits(x3, BitStep(x3), n - 3);
  }

  lemma Residue1(t: bool, f: bool, n: nat)
    requires t && !f && n >= 4
    ensures BitSteps(W(f, f, f, f, t, t, t, f, f, f, f, t, t, t, t, t), n)
         == BitSteps(W(t, t, t, f, f, f, f, t, t, t, t, t, f, f, f, f), n - 4)
  {
    BitStepOnBits(f, f, f, f, t, t, t, f, f, f, f, t, t, t, t, t);
    BitStepOnBits(f, f, f, t, t, t, f, f, f, f, t, t, t, t, t, f);
    BitStepOnBits(f, f, t, t, t, f, f, f, f, t, t, t, t, t, f, f);
    BitStepOnBits(f, t, t, t, f, f, f, f, t, t, t, t, t, f, f, f);
    var x0, x1 := W(f, f, f, f, t, t, t, f, f, f, f, t, t, t, t, t), W(f, f, f, t, t, t, f, f, f, f, t, t, t, t, t, f);
    var x2, x3 := W(f, f, t, t, t, f, f, f, f, t, t, t, t, t, f, f), W(f, t, t, t, f, f, f, f, t, t, t, t, t, f, f, f);
    NextBits(x0, x1, n);
    NextBits(x1, x2, n - 1);
    NextBits(x2, x3, n - 2);
    NextBits(x3, BitStep(x3), n - 3);
  }

  lemma Residue2(t: bool, f: bool, n: nat)
    requires t && !f && n >= 4
    ensures BitSteps(W(t, t, t, f, f, f, f, t, t, t, t, t, f, f, f, f), n)
         == BitSteps(W(t, t, t, t, t, t, t, f, t, t, f, f, t, t, t, f), n - 4)
  {
    BitStepOnBits(t, t, t, f, f, f, f, t, t, t, t, t, f, f, f, f);
    BitStepOnBits(t, t, f, t, f, f, t, t, t, t, f, f, f, f, f, t);
    BitStepOnBits(t, f, t, t, f, t, t, t, t, f, t, f, f, f, t, t);
    BitStepOnBits(f, t, t, t, t, t, t, t, f, t, t, f, f, t, t, t);
    var x0, x1 := W(t, t, t, f, f, f, f, t, t, t, t, t, f, f, f, f), W(t, t, f, t, f, f, t, t, t, t, f, f, f, f, f, t);
    var x2, x3 := W(t, f, t, t, f, t, t, t, t, f, t, f, f, f, t, t), W(f, t, t, t, t, t, t, t, f, t, t, f, f, t, t, t);
    NextBits(x0, x1, n);
    NextBits(x1, x2, n - 1);
    NextBits(x2, x3, n - 2);
    NextBits(x3, BitStep(x3), n - 3);
  }

  lemma Residue3(t: bool, f: bool, n: nat)
    requires t && !f && n >= 4
    ensures BitSteps(W(t, t, t, t, t, t, t, f, t, t, f, f, t, t, t, f), n)
         == BitSteps(W(f, f, f, t, t, t, f, t, f, f, f, f, t, t, t, t), n - 4)
  {
    BitStepOnBits(t, t, t, t, t, t, t, f, t, t, f, f, t, t, t, f);
    BitStepOnBits(t, t, t, f, t, t, f, t, t, f, t, t, t, t, f, t);
    BitStepOnBits(t, t, f, f, t, f, t, t, f, t, f, t, t, f, t, t);
    BitStepOnBits(t, f, f, f, f, t, t, f, t, f, f, t, f, t, t, t);
    var x0, x1 := W(t, t, t, t, t, t, t, f, t, t, f, f, t, t, t, f), W(t, t, t, f, t, t, f, t, t, f, t, t, t, t, f, t);
    var x2, x3 := W(t, t, f, f, t, f, t, t, f, t, f, t, t, f, t, t), W(t, f, f, f, f, t, t, f, t, f, f, t, f, t, t, t);
    NextBits(x0, x1, n);
    NextBits(x1, x2, n - 1);
    NextBits(x2, x3, n - 2);
    NextBits(x3, BitStep(x3), n - 3);
  }

  lemma GoodResidue()
    ensures BitSteps(0xFFFF, 16) == 0xF0B8
  {
    var t, f, n := true, false, 16;
    Residue0(t, f, n - 0);
    Residue1(t, f, n - 4);
    Residue2(t, f, n - 8);
    Residue3(t, f, n - 12);
    assert W(t, t, t, t, t, t, t, t, t, t, t, t, t, t, t, t) == 0xFFFF;
    assert W(f, f, f, t, t, t, f, t, f, f, f, f, t, t, t, t) == 0xF0B8;
  }

  lemma {:induction false} WordBitsOfJoin(low: nat, high: nat, m: nat, n: nat)
    ensures WordBits(Join(low, high, m), m + n) == WordBits(low, m) + WordBits(high, n)
    decreases m
  {
    if m == 0 {
    } else {
      WordBitsOfJoin(low / 2, high, m - 1, n);
      hide WordBits;
      BitInFront(low % 2, Join(low / 2, high, m - 1), low / 2, high, m - 1, n);
    }
  }

  // One bit more in front of both.
  lemma BitInFront(bit: nat, x: nat, low: nat, high: nat, m: nat, n: nat)
    requires bit < 2 && WordBits(x, m + n) == WordBits(low, m) + WordBits(high, n)
    ensures WordBits(bit + 2 * x, m + 1 + n) == WordBits(bit + 2 * low, m + 1) + WordBits(high, n)
  {
    FirstBit(bit, x, m + n);
    FirstBit(bit, low, m);
    hide WordBits;
    assert [bit == 1] + (WordBits(low, m) + WordBits(high, n)) == ([bit == 1] + WordBits(low, m)) + WordBits(high, n);
  }

  lemma FirstBit(bit: nat, rest: nat, n: nat)
    requires bit < 2
    ensures WordBits(bit + 2 * rest, n + 1) == [bit == 1] + WordBits(rest, n)
  {
    assert (bit + 2 * rest) / 2 == rest && (bit + 2 * rest) % 2 == bit;
  }

  lemma WordBitsByParts(low: nat, high: nat, m: nat, x: nat)
    requires Pow2(m) == 0x100 && low < 0x100 && x == low + 0x100 * high
    ensures WordBits(x, m + m) == WordBits(low, m) + WordBits(high, m)
  {
    WordBitsOfJoin(low, high, m, m);
    JoinIs(low, high, m);
  }

  lemma OctetsOfWord(low: byte, high: byte)
    ensures WordBits(Word(low, high), 16) == WordBits(low, 8) + WordBits(high, 8)
  {
    WordSizes();
    WordBitsByParts(low, high, 8, Word(low, high));
  }

  lemma SixteenSteps(r: uint16, low: byte, high: byte)
    ensures FcsRun(r, [low, high]) == BitSteps(Xor(r, Word(low, high)), 16)
  {
    WordSizes();
    FcsRunIsShift(r, [low, high]);
    OctetsOfWord(low, high);
    BitsOfTwo(low, high);
    ShiftWord(r, Word(low, high), 16);
  }

  lemma BitsOfTwo(low: byte, high: byte)
    ensures Bits([low, high]) == WordBits(low, 8) + WordBits(high, 8)
  {
    assert [low, high][1..] == [high] && [high][1..] == [];
    assert Bits([high]) == WordBits(high, 8) + Bits([]);
  }

  lemma ToggledToOnes(r: uint16, w: uint16)
    ensures Xor(r, w) == 0xFFFF <==> w == 0xFFFF - r
  {
    WordSizes();
    XorOnes(r, 16);
    XorComm(r, w);
    XorComm(r, 0xFFFF - r);
    if Xor(r, w) == 0xFFFF { XorInjective(w, 0xFFFF - r, r); }
  }

  lemma ResidueIff(x: nat, n: nat)
    requires x < 0x1_0000 && n == 16
    ensures BitSteps(x, n) == 0xF0B8 <==> x == 0xFFFF
  {
    GoodResidue();
    if BitSteps(x, n) == 0xF0B8 { BitStepsInjective(x, 0xFFFF, n); }
  }

  // Comparing the received check octets with FCS_Get of what precedes them is the RFC's test:
  // FCS_Calculate over everything, check octets included, ends at 0xF0B8.
  lemma GoodFcsIff(data: seq<byte>, low: byte, high: byte)
    ensures FcsOf(data) == Word(low, high) <==> FcsRun(0xFFFF, data + [low, high]) == 0xF0B8
  {
    var r, w := FcsRun(0xFFFF, data), Word(low, high);
    FcsRunAppend(0xFFFF, data, [low, high]);
    SixteenSteps(r, low, high);
    ToggledToOnes(r, w);
    ResidueIff(XorWords(r, w), 16);
  }

  // The test the receiver applies to an unstuffed body: at least four octets, the last two being the check octets.
  predicate Accepts(body: seq<byte>) {
    && |body| >= 4
    && FcsOf(body[..|body| - 2]) == Word(body[|body| - 2], body[|body| - 1])
  }

  lemma AcceptsIsGood(body: seq<byte>)
    ensures Accepts(body) <==> |body| >= 4 && FcsRun(0xFFFF, body) == 0xF0B8
  {
    if |body| >= 4 {
      var n := |body| - 2;
      assert body == body[..n] + [body[n], body[n + 1]];
      GoodFcsIff(body[..n], body[n], body[n + 1]);
    }
  }

  lemma AcceptedRegister(x: seq<byte>, y: seq<byte>)
    requires Accepts(x) && Accepts(y)
    ensures ShiftAll(0xFFFF, Bits(x)) == ShiftAll(0xFFFF, Bits(y))
  {
    AcceptsIsGood(x);
    AcceptsIsGood(y);
    FcsRunIsShift(0xFFFF, x);
    FcsRunIsShift(0xFFFF, y);
  }

  // No burst of sixteen bits or less, at any bit position, turns an accepted body into another accepted one.
  lemma AcceptedBodiesNoBurst(x: seq<byte>, y: seq<byte>, p: nat, w: nat)
    requires Accepts(x) && Accepts(y) && |x| == |y|
    requires p + w <= 8 * |x| && w <= 16
    requires Bits(x)[..p] == Bits(y)[..p] && Bits(x)[p + w..] == Bits(y)[p + w..]
    ensures x == y
  {
    AcceptedRegister(x, y);
    BurstDetected(0xFFFF, Bits(x), Bits(y), p, w);
    BitsInjective(x, y);
  }

  lemma {:induction false} WordBitsInjective(a: nat, b: nat, n: nat)
    requires a < Pow2(n) && b < Pow2(n) && WordBits(a, n) == WordBits(b, n)
    ensures a == b
    decreases n
  {
    if n == 0 {
    } else {
      assert WordBits(a, n)[1..] == WordBits(a / 2, n - 1) && WordBits(b, n)[1..] == WordBits(b / 2, n - 1);
      assert WordBits(a, n)[0] == (a % 2 == 1) && WordBits(b, n)[0] == (b % 2 == 1);
      WordBitsInjective(a / 2, b / 2, n - 1);
    }
  }

  lemma {:induction false} BitsInjective(x: seq<byte>, y: seq<byte>)
    requires |x| == |y| && Bits(x) == Bits(y)
    ensures x == y
    decreases |x|
  {
    if |x| == 0 {
    } else {
      assert Bits(x)[..8] == WordBits(x[0], 8) && Bits(y)[..8] == WordBits(y[0], 8);
      assert Bits(x)[8..] == Bits(x[1..]) && Bits(y)[8..] == Bits(y[1..]);
      WordSizes();
      WordBitsInjective(x[0], y[0], 8);
      BitsInjective(x[1..], y[1..]);
      assert x == [x[0]] + x[1..] && y == [y[0]] + y[1..];
    }
  }

  // Nor does any odd number of flipped bits.

  function Flips(x: seq<bool>, y: seq<bool>): nat
    requires |x| == |y|
    decreases |x|
  {
    if |x| == 0 then 0 else (if x[0] != y[0] then 1 else 0) + Flips(x[1..], y[1..])
  }

  lemma {:induction false} FlipsParity(x: seq<bool>, y: seq<bool>)
    requires |x| == |y|
    ensures Flips(x, y) % 2 == if OddOnes(x) != OddOnes(y) then 1 else 0
    decreases |x|
  {
    if |x| == 0 {
    } else {
      FlipsParity(x[1..], y[1..]);
    }
  }

  lemma AcceptedBodiesEvenFlips(x: seq<byte>, y: seq<byte>)
    requires Accepts(x) && Accepts(y) && |x| == |y|
    ensures Flips(Bits(x), Bits(y)) % 2 == 0
  {
    AcceptedRegister(x, y);
    ShiftAllParity(0xFFFF, Bits(x));
    ShiftAllParity(0xFFFF, Bits(y));
    FlipsParity(Bits(x), Bits(y));
  }
}
