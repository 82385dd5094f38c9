/** The 256-entry lookup table of fcs.c, and the proof that every entry is what the
    bit-by-bit generator of RFC 1662, Appendix C.2 computes for its index. */
module FcsTable {
  import opened Words

  function Row0(j: nat): uint16 {
    match j
    case 0x0 => 0x0000 case 0x1 => 0x1189 case 0x2 => 0x2312 case 0x3 => 0x329b
    case 0x4 => 0x4624 case 0x5 => 0x57ad case 0x6 => 0x6536 case 0x7 => 0x74bf
    case 0x8 => 0x8c48 case 0x9 => 0x9dc1 case 0xA => 0xaf5a case 0xB => 0xbed3
    case 0xC => 0xca6c case 0xD => 0xdbe5 case 0xE => 0xe97e case 0xF => 0xf8f7
    case _ => 0
  }

  function Row1(j: nat): uint16 {
    match j
    case 0x0 => 0x1081 case 0x1 => 0x0108 case 0x2 => 0x3393 case 0x3 => 0x221a
    case 0x4 => 0x56a5 case 0x5 => 0x472c case 0x6 => 0x75b7 case 0x7 => 0x643e
    case 0x8 => 0x9cc9 case 0x9 => 0x8d40 case 0xA => 0xbfdb case 0xB => 0xae52
    case 0xC => 0xdaed case 0xD => 0xcb64 case 0xE => 0xf9ff case 0xF => 0xe876
    case _ => 0
  }

  function Row2(j: nat): uint16 {
    match j
    case 0x0 => 0x2102 case 0x1 => 0x308b case 0x2 => 0x0210 case 0x3 => 0x1399
    case 0x4 => 0x6726 case 0x5 => 0x76af case 0x6 => 0x4434 case 0x7 => 0x55bd
    case 0x8 => 0xad4a case 0x9 => 0xbcc3 case 0xA => 0x8e58 case 0xB => 0x9fd1
    case 0xC => 0xeb6e case 0xD => 0xfae7 case 0xE => 0xc87c case 0xF => 0xd9f5
    case _ => 0
  }

  function Row3(j: nat): uint16 {
    match j
    case 0x0 => 0x3183 case 0x1 => 0x200a case 0x2 => 0x1291 case 0x3 => 0x0318
    case 0x4 => 0x77a7 case 0x5 => 0x662e case 0x6 => 0x54b5 case 0x7 => 0x453c
    case 0x8 => 0xbdcb case 0x9 => 0xac42 case 0xA => 0x9ed9 case 0xB => 0x8f50
    case 0xC => 0xfbef case 0xD => 0xea66 case 0xE => 0xd8fd case 0xF => 0xc974
    case _ => 0
  }

  function Row4(j: nat): uint16 {
    match j
    case 0x0 => 0x4204 case 0x1 => 0x538d case 0x2 => 0x6116 case 0x3 => 0x709f
    case 0x4 => 0x0420 case 0x5 => 0x15a9 case 0x6 => 0x2732 case 0x7 => 0x36bb
    case 0x8 => 0xce4c case 0x9 => 0xdfc5 case 0xA => 0xed5e case 0xB => 0xfcd7
    case 0xC => 0x8868 case 0xD => 0x99e1 case 0xE => 0xab7a case 0xF => 0xbaf3
    case _ => 0
  }

  function Row5(j: nat): uint16 {
    match j
    case 0x0 => 0x5285 case 0x1 => 0x430c case 0x2 => 0x7197 case 0x3 => 0x601e
    case 0x4 => 0x14a1 case 0x5 => 0x0528 case 0x6 => 0x37b3 case 0x7 => 0x263a
    case 0x8 => 0xdecd case 0x9 => 0xcf44 case 0xA => 0xfddf case 0xB => 0xec56
    case 0xC => 0x98e9 case 0xD => 0x8960 case 0xE => 0xbbfb case 0xF => 0xaa72
    case _ => 0
  }

  function Row6(j: nat): uint16 {
    match j
    case 0x0 => 0x6306 case 0x1 => 0x728f case 0x2 => 0x4014 case 0x3 => 0x519d
    case 0x4 => 0x2522 case 0x5 => 0x34ab case 0x6 => 0x0630 case 0x7 => 0x17b9
    case 0x8 => 0xef4e case 0x9 => 0xfec7 case 0xA => 0xcc5c case 0xB => 0xddd5
    case 0xC => 0xa96a case 0xD => 0xb8e3 case 0xE => 0x8a78 case 0xF => 0x9bf1
    case _ => 0
  }

  function Row7(j: nat): uint16 {
    match j
    case 0x0 => 0x7387 case 0x1 => 0x620e case 0x2 => 0x5095 case 0x3 => 0x411c
    case 0x4 => 0x35a3 case 0x5 => 0x242a case 0x6 => 0x16b1 case 0x7 => 0x0738
    case 0x8 => 0xffcf case 0x9 => 0xee46 case 0xA => 0xdcdd case 0xB => 0xcd54
    case 0xC => 0xb9eb case 0xD => 0xa862 case 0xE => 0x9af9 case 0xF => 0x8b70
    case _ => 0
  }

  function Row8(j: nat): uint16 {
    match j
    case 0x0 => 0x8408 case 0x1 => 0x9581 case 0x2 => 0xa71a case 0x3 => 0xb693
    case 0x4 => 0xc22c case 0x5 => 0xd3a5 case 0x6 => 0xe13e case 0x7 => 0xf0b7
    case 0x8 => 0x0840 case 0x9 => 0x19c9 case 0xA => 0x2b52 case 0xB => 0x3adb
    case 0xC => 0x4e64 case 0xD => 0x5fed case 0xE => 0x6d76 case 0xF => 0x7cff
    case _ => 0
  }

  function Row9(j: nat): uint16 {
    match j
    case 0x0 => 0x9489 case 0x1 => 0x8500 case 0x2 => 0xb79b case 0x3 => 0xa612
    case 0x4 => 0xd2ad case 0x5 => 0xc324 case 0x6 => 0xf1bf case 0x7 => 0xe036
    case 0x8 => 0x18c1 case 0x9 => 0x0948 case 0xA => 0x3bd3 case 0xB => 0x2a5a
    case 0xC => 0x5ee5 case 0xD => 0x4f6c case 0xE => 0x7df7 case 0xF => 0x6c7e
    case _ => 0
  }

  function RowA(j: nat): uint16 {
    match j
    case 0x0 => 0xa50a case 0x1 => 0xb483 case 0x2 => 0x8618 case 0x3 => 0x9791
    case 0x4 => 0xe32e case 0x5 => 0xf2a7 case 0x6 => 0xc03c case 0x7 => 0xd1b5
    case 0x8 => 0x2942 case 0x9 => 0x38cb case 0xA => 0x0a50 case 0xB => 0x1bd9
    case 0xC => 0x6f66 case 0xD => 0x7eef case 0xE => 0x4c74 case 0xF => 0x5dfd
    case _ => 0
  }

  function RowB(j: nat): uint16 {
    match j
    case 0x0 => 0xb58b case 0x1 => 0xa402 case 0x2 => 0x9699 case 0x3 => 0x8710
    case 0x4 => 0xf3af case 0x5 => 0xe226 case 0x6 => 0xd0bd case 0x7 => 0xc134
    case 0x8 => 0x39c3 case 0x9 => 0x284a case 0xA => 0x1ad1 case 0xB => 0x0b58
    case 0xC => 0x7fe7 case 0xD => 0x6e6e case 0xE => 0x5cf5 case 0xF => 0x4d7c
    case _ => 0
  }

  function RowC(j: nat): uint16 {
    match j
    case 0x0 => 0xc60c case 0x1 => 0xd785 case 0x2 => 0xe51e case 0x3 => 0xf497
    case 0x4 => 0x8028 case 0x5 => 0x91a1 case 0x6 => 0xa33a case 0x7 => 0xb2b3
    case 0x8 => 0x4a44 case 0x9 => 0x5bcd case 0xA => 0x6956 case 0xB => 0x78df
    case 0xC => 0x0c60 case 0xD => 0x1de9 case 0xE => 0x2f72 case 0xF => 0x3efb
    case _ => 0
  }

  function RowD(j: nat): uint16 {
    match j
    case 0x0 => 0xd68d case 0x1 => 0xc704 case 0x2 => 0xf59f case 0x3 => 0xe416
    case 0x4 => 0x90a9 case 0x5 => 0x8120 case 0x6 => 0xb3bb case 0x7 => 0xa232
    case 0x8 => 0x5ac5 case 0x9 => 0x4b4c case 0xA => 0x79d7 case 0xB => 0x685e
    case 0xC => 0x1ce1 case 0xD => 0x0d68 case 0xE => 0x3ff3 case 0xF => 0x2e7a
    case _ => 0
  }

  function RowE(j: nat): uint16 {
    match j
    case 0x0 => 0xe70e case 0x1 => 0xf687 case 0x2 => 0xc41c case 0x3 => 0xd595
    case 0x4 => 0xa12a case 0x5 => 0xb0a3 case 0x6 => 0x8238 case 0x7 => 0x93b1
    case 0x8 => 0x6b46 case 0x9 => 0x7acf case 0xA => 0x4854 case 0xB => 0x59dd
    case 0xC => 0x2d62 case 0xD => 0x3ceb case 0xE => 0x0e70 case 0xF => 0x1ff9
    case _ => 0
  }

  function RowF(j: nat): uint16 {
    match j
    case 0x0 => 0xf78f case 0x1 => 0xe606 case 0x2 => 0xd49d case 0x3 => 0xc514
    case 0x4 => 0xb1ab case 0x5 => 0xa022 case 0x6 => 0x92b9 case 0x7 => 0x8330
    case 0x8 => 0x7bc7 case 0x9 => 0x6a4e case 0xA => 0x58d5 case 0xB => 0x495c
    case 0xC => 0x3de3 case 0xD => 0x2c6a case 0xE => 0x1ef1 case 0xF => 0x0f78
    case _ => 0
  }

  function Row(h: nat, j: nat): uint16 {
    match h
    case 0x0 => Row0(j) case 0x1 => Row1(j) case 0x2 => Row2(j) case 0x3 => Row3(j)
    case 0x4 => Row4(j) case 0x5 => Row5(j) case 0x6 => Row6(j) case 0x7 => Row7(j)
    case 0x8 => Row8(j) case 0x9 => Row9(j) case 0xA => RowA(j) case 0xB => RowB(j)
    case 0xC => RowC(j) case 0xD => RowD(j) case 0xE => RowE(j) case 0xF => RowF(j)
    case _ => 0
  }

  // fcstab[i]: sixteen rows of sixteen entries, in the order of the source.
  function Fcstab(i: byte): uint16 { Row(i / 16, i % 16) }

  // One shift of the reflected generator, polynomial 0x8408, on words as naturals.
  function BitStep(r: nat): nat {
    if r % 2 == 1 then Xor(r / 2, 0x8408) else r / 2
  }

  function BitSteps(r: nat, n: nat): nat
    decreases n
  {
    if n == 0 then r else BitSteps(BitStep(r), n - 1)
  }

  // The generator is linear over exclusive-or ...

  lemma BitStepLinear(r: nat, s: nat)
    ensures BitStep(Xor(r, s)) == Xor(BitStep(r), BitStep(s))
  {
    var a, b, k := r / 2, s / 2, 0x8408;
    XorStep(r, s);
    XorSwap(a, b, k, k);
    XorSelf(k);
    XorZero(Xor(a, b));
    XorAssoc(a, b, k);
    XorAssoc(a, k, b);
    XorComm(k, b);
  }

  lemma {:induction false} BitStepsLinear(r: nat, s: nat, n: nat)
    ensures BitSteps(Xor(r, s), n) == Xor(BitSteps(r, n), BitSteps(s, n))
    decreases n
  {
    if n == 0 {
    } else {
      BitStepLinear(r, s);
      BitStepsLinear(BitStep(r), BitStep(s), n - 1);
    }
  }

  lemma {:induction false} BitStepsAdd(r: nat, m: nat, n: nat)
    ensures BitSteps(BitSteps(r, m), n) == BitSteps(r, m + n)
    decreases m
  {
    if m == 0 {
    } else {
      BitStepsAdd(BitStep(r), m - 1, n);
    }
  }

  // ... only shifts while the low bits are clear ...

  lemma {:induction false} BitStepsShift(h: nat, n: nat)
    ensures BitSteps(h * Pow2(n), n) == h
    decreases n
  {
    if n == 0 {
    } else {
      assert h * Pow2(n) == 2 * (h * Pow2(n - 1));
      BitStepsShift(h, n - 1);
    }
  }

  // ... keeps sixteen-bit words sixteen bits wide ...

  lemma BitStepBound(r: nat)
    requires r < 0x1_0000
    ensures BitStep(r) < 0x1_0000
  {
    WordSizes();
    XorBound(r / 2, 0x8408, 16);
  }

  // ... and is invertible on them: the polynomial sets the top bit, so the result says which branch was taken.

  lemma PolyTop(h: nat)
    requires h < 0x8000
    ensures Xor(h, 0x8408) >= 0x8000
  {
    WordSizes();
    if Xor(h, 0x8408) < 0x8000 {
      XorBound(Xor(h, 0x8408), h, 15);
      XorComm(h, 0x8408);
      XorCancel(0x8408, h);
    }
  }

  lemma BitStepInjective(r: nat, s: nat)
    requires r < 0x1_0000 && s < 0x1_0000
    requires BitStep(r) == BitStep(s)
    ensures r == s
  {
    PolyTop(r / 2);
    PolyTop(s / 2);
    if r % 2 == 1 && s % 2 == 1 { XorInjective(r / 2, s / 2, 0x8408); }
  }

  lemma {:induction false} BitStepsInjective(r: nat, s: nat, n: nat)
    requires r < 0x1_0000 && s < 0x1_0000
    requires BitSteps(r, n) == BitSteps(s, n)
    ensures r == s
    decreases n
  {
    if n == 0 {
    } else {
      BitStepBound(r);
      BitStepBound(s);
      BitStepsInjective(BitStep(r), BitStep(s), n - 1);
      BitStepInjective(r, s);
    }
  }

  lemma {:induction false} BitStepsOfZero(n: nat)
    ensures BitSteps(0, n) == 0
  {
    if n == 0 {
    } else {
      BitStepsOfZero(n - 1);
    }
  }

  lemma StepsOfDouble(high: nat, n: nat)
    requires n > 0
    ensures BitSteps(2 * high, n) == BitSteps(high, n - 1)
  {
    assert BitStep(2 * high) == high;
  }

  // What the lowest bit of a word contributes to n shifts.
  lemma StepsByLowBit(low: nat, high: nat, n: nat)
    requires low < 2 && n > 0
    ensures BitSteps(low + 2 * high, n) == Xor(if low == 1 then BitSteps(1, n) else 0, BitSteps(high, n - 1))
  {
    XorLowBit(high, low);
    XorComm(2 * high, low);
    BitStepsLinear(low, 2 * high, n);
    StepsOfDouble(high, n);
    BitStepsOfZero(n);
  }

  function Bit(b: bool): nat { if b then 1 else 0 }

  // A sixteen-bit word from its bits, lowest first.
  function W(o0: bool, o1: bool, o2: bool, o3: bool, o4: bool, o5: bool, o6: bool, o7: bool, o8: bool, o9: bool,
             o10: bool, o11: bool, o12: bool, o13: bool, o14: bool, o15: bool): nat {
    Bit(o0) + 2 * Bit(o1) + 4 * Bit(o2) + 8 * Bit(o3) + 16 * Bit(o4) + 32 * Bit(o5) + 64 * Bit(o6) + 128 * Bit(o7)
    + 0x100 * Bit(o8) + 0x200 * Bit(o9) + 0x400 * Bit(o10) + 0x800 * Bit(o11)
    + 0x1000 * Bit(o12) + 0x2000 * Bit(o13) + 0x4000 * Bit(o14) + 0x8000 * Bit(o15)
  }

  lemma ToggleBit(low: nat, here: nat, toggled: nat, n: nat, p: nat)
    requires p == Pow2(n) && low < p
    requires toggled == if here % 2 == 1 then here - 1 else here + 1
    ensures Xor(low + p * here, p) == low + p * toggled
  {
    JoinIs(low, here, n);
    JoinIs(low, toggled, n);
    XorOneBit(low, here, toggled, n);
  }

  lemma Toggle3(low: nat, b: bool, high: nat)
    requires low < 8
    ensures Xor(low + 8 * Bit(b) + 16 * high, 8) == low + 8 * Bit(!b) + 16 * high
  {
    ToggleBit(low, Bit(b) + 2 * high, Bit(!b) + 2 * high, 3, 8);
  }

  lemma Toggle10(low: nat, b: bool, high: nat)
    requires low < 0x400
    ensures Xor(low + 0x400 * Bit(b) + 0x800 * high, 0x400) == low + 0x400 * Bit(!b) + 0x800 * high
  {
    ToggleBit(low, Bit(b) + 2 * high, Bit(!b) + 2 * high, 10, 0x400);
  }

  lemma Set15(low: nat)
    requires low < 0x8000
    ensures Xor(low, 0x8000) == low + 0x8000
  {
    WordSizes();
    ToggleBit(low, 0, 1, 15, 0x8000);
  }

  lemma PolyParts(x: nat)
    ensures Xor(x, 0x8408) == Xor(Xor(Xor(x, 8), 0x400), 0x8000)
  {
    Toggle10(8, false, 0);
    Set15(0x408);
    XorAssoc(x, 8, 0x400);
    XorAssoc(x, 0x408, 0x8000);
  }

  // The polynomial toggles bits 3, 10 and 15.
  lemma TogglePoly(low: nat, b3: bool, mid: nat, b10: bool, high: nat)
    requires low < 8 && mid < 0x40 && high < 0x10
    ensures Xor(low + 8 * Bit(b3) + 16 * mid + 0x400 * Bit(b10) + 0x800 * high, 0x8408)
         == low + 8 * Bit(!b3) + 16 * mid + 0x400 * Bit(!b10) + 0x800 * high + 0x8000
  {
    var x := low + 8 * Bit(b3) + 16 * mid + 0x400 * Bit(b10) + 0x800 * high;
    var y := low + 8 * Bit(!b3) + 16 * mid;
    var z := y + 0x400 * Bit(!b10) + 0x800 * high;
    PolyParts(x);
    Toggle3(low, b3, mid + 0x40 * Bit(b10) + 0x80 * high);
    assert Xor(x, 8) == y + 0x400 * Bit(b10) + 0x800 * high;
    Toggle10(y, b10, high);
    Set15(z);
  }

  lemma BitStepDigits(h: nat, b: bool)
    ensures BitStep(Bit(b) + 2 * h) == if b then Xor(h, 0x8408) else h
  {}

  // The bits between those that the polynomial toggles.
  function Low(b0: bool, b1: bool, b2: bool): (n: nat)
    ensures n < 8
  {
    Bit(b0) + 2 * Bit(b1) + 4 * Bit(b2)
  }

  function Mid(b0: bool, b1: bool, b2: bool, b3: bool, b4: bool, b5: bool): (n: nat)
    ensures n < 0x40
  {
    Bit(b0) + 2 * Bit(b1) + 4 * Bit(b2) + 8 * Bit(b3) + 16 * Bit(b4) + 32 * Bit(b5)
  }

  function High(b0: bool, b1: bool, b2: bool, b3: bool): (n: nat)
    ensures n < 0x10
  {
    Bit(b0) + 2 * Bit(b1) + 4 * Bit(b2) + 8 * Bit(b3)
  }

  lemma WHalf(o0: bool, o1: bool, o2: bool, o3: bool, o4: bool, o5: bool, o6: bool, o7: bool, o8: bool, o9: bool,
              o10: bool, o11: bool, o12: bool, o13: bool, o14: bool, o15: bool)
    ensures W(o0, o1, o2, o3, o4, o5, o6, o7, o8, o9, o10, o11, o12, o13, o14, o15)
         == Bit(o0)
            + 2 * (Low(o1, o2, o3) + 8 * Bit(o4) + 16 * Mid(o5, o6, o7, o8, o9, o10) + 0x400 * Bit(o11)
                   + 0x800 * High(o12, o13, o14, o15))
  {}

  lemma WNext(o0: bool, o1: bool, o2: bool, o3: bool, o4: bool, o5: bool, o6: bool, o7: bool, o8: bool, o9: bool,
              o10: bool, o11: bool, o12: bool, o13: bool, o14: bool, o15: bool)
    ensures W(o1, o2, o3, o4 != o0, o5, o6, o7, o8, o9, o10, o11 != o0, o12, o13, o14, o15, o0)
         == Low(o1, o2, o3) + 8 * Bit(o4 != o0) + 16 * Mid(o5, o6, o7, o8, o9, o10) + 0x400 * Bit(o11 != o0)
            + 0x800 * High(o12, o13, o14, o15) + 0x8000 * Bit(o0)
  {}

  // What one shift does to each bit.
  lemma BitStepOnBits(o0: bool, o1: bool, o2: bool, o3: bool, o4: bool, o5: bool, o6: bool, o7: bool, o8: bool,
                      o9: bool, o10: bool, o11: bool, o12: bool, o13: bool, o14: bool, o15: bool)
    ensures BitStep(W(o0, o1, o2, o3, o4, o5, o6, o7, o8, o9, o10, o11, o12, o13, o14, o15))
         == W(o1, o2, o3, o4 != o0, o5, o6, o7, o8, o9, o10, o11 != o0, o12, o13, o14, o15, o0)
  {
    WHalf(o0, o1, o2, o3, o4, o5, o6, o7, o8, o9, o10, o11, o12, o13, o14, o15);
    WNext(o0, o1, o2, o3, o4, o5, o6, o7, o8, o9, o10, o11, o12, o13, o14, o15);
    StepDigits(Low(o1, o2, o3), o4, Mid(o5, o6, o7, o8, o9, o10), o11, High(o12, o13, o14, o15), o0);
  }

  lemma StepDigits(low: nat, b3: bool, mid: nat, b10: bool, high: nat, out: bool)
    requires low < 8 && mid < 0x40 && high < 0x10
    ensures BitStep(Bit(out) + 2 * (low + 8 * Bit(b3) + 16 * mid + 0x400 * Bit(b10) + 0x800 * high))
         == low + 8 * Bit(b3 != out) + 16 * mid + 0x400 * Bit(b10 != out) + 0x800 * high + 0x8000 * Bit(out)
  {
    BitStepDigits(low + 8 * Bit(b3) + 16 * mid + 0x400 * Bit(b10) + 0x800 * high, out);
    TogglePoly(low, b3, mid, b10, high);
  }

  // Eight shifts of an octet: each bit of the result is a parity of at most three bits of the octet.
  function Entry(b0: bool, b1: bool, b2: bool, b3: bool, b4: bool, b5: bool, b6: bool, b7: bool): nat {
    W((b0 != b4), (b1 != b5), (b2 != b6), ((b0 != b3) != b7), b1, b2, b3, (b0 != b4),
      ((b0 != b1) != b5), ((b1 != b2) != b6), ((b2 != b3) != b7), b3, (b0 != b4), (b1 != b5), (b2 != b6), (b3 != b7))
  }

  lemma EightSteps(b0: bool, b1: bool, b2: bool, b3: bool, b4: bool, b5: bool, b6: bool, b7: bool)
    ensures BitSteps(W(b0, b1, b2, b3, b4, b5, b6, b7, false, false, false, false, false, false, false, false), 8)
            == Entry(b0, b1, b2, b3, b4, b5, b6, b7)
  {
    BitStepOnBits(b0, b1, b2, b3, b4, b5, b6, b7, false, false, false, false, false, false, false, false);
    BitStepOnBits(b1, b2, b3, (b0 != b4), b5, b6, b7, false, false, false, b0, false, false, false, false, b0);
    BitStepOnBits(b2, b3, (b0 != b4), (b1 != b5), b6, b7, false, false, false, b0, b1, false, false, false, b0, b1);
    BitStepOnBits(b3, (b0 != b4), (b1 != b5), (b2 != b6), b7, false, false, false,
                  b0, b1, b2, false, false, b0, b1, b2);
    BitStepOnBits((b0 != b4), (b1 != b5), (b2 != b6), (b3 != b7), false, false, false, b0,
                  b1, b2, b3, false, b0, b1, b2, b3);
    BitStepOnBits((b1 != b5), (b2 != b6), (b3 != b7), (b0 != b4), false, false, b0, b1,
                  b2, b3, (b0 != b4), b0, b1, b2, b3, (b0 != b4));
    BitStepOnBits((b2 != b6), (b3 != b7), (b0 != b4), (b1 != b5), false, b0, b1, b2,
                  b3, (b0 != b4), ((b0 != b1) != b5), b1, b2, b3, (b0 != b4), (b1 != b5));
    BitStepOnBits((b3 != b7), (b0 != b4), (b1 != b5), (b2 != b6), b0, b1, b2, b3,
                  (b0 != b4), ((b0 != b1) != b5), ((b1 != b2) != b6), b2, b3, (b0 != b4), (b1 != b5), (b2 != b6));
  }

  lemma Row0Bits(b0: bool, b1: bool, b2: bool, b3: bool)
    ensures Row0(High(b0, b1, b2, b3)) == Entry(b0, b1, b2, b3, false, false, false, false)
  {}

  lemma Row1Bits(b0: bool, b1: bool, b2: bool, b3: bool)
    ensures Row1(High(b0, b1, b2, b3)) == Entry(b0, b1, b2, b3, true, false, false, false)
  {}

  lemma Row2Bits(b0: bool, b1: bool, b2: bool, b3: bool)
    ensures Row2(High(b0, b1, b2, b3)) == Entry(b0, b1, b2, b3, false, true, false, false)
  {}

  lemma Row3Bits(b0: bool, b1: bool, b2: bool, b3: bool)
    ensures Row3(High(b0, b1, b2, b3)) == Entry(b0, b1, b2, b3, true, true, false, false)
  {}

  lemma Row4Bits(b0: bool, b1: bool, b2: bool, b3: bool)
    ensures Row4(High(b0, b1, b2, b3)) == Entry(b0, b1, b2, b3, false, false, true, false)
  {}

  lemma Row5Bits(b0: bool, b1: bool, b2: bool, b3: bool)
    ensures Row5(High(b0, b1, b2, b3)) == Entry(b0, b1, b2, b3, true, false, true, false)
  {}

  lemma Row6Bits(b0: bool, b1: bool, b2: bool, b3: bool)
    ensures Row6(High(b0, b1, b2, b3)) == Entry(b0, b1, b2, b3, false, true, true, false)
  {}

  lemma Row7Bits(b0: bool, b1: bool, b2: bool, b3: bool)
    ensures Row7(High(b0, b1, b2, b3)) == Entry(b0, b1, b2, b3, true, true, true, false)
  {}

  lemma Row8Bits(b0: bool, b1: bool, b2: bool, b3: bool)
    ensures Row8(High(b0, b1, b2, b3)) == Entry(b0, b1, b2, b3, false, false, false, true)
  {}

  lemma Row9Bits(b0: bool, b1: bool, b2: bool, b3: bool)
    ensures Row9(High(b0, b1, b2, b3)) == Entry(b0, b1, b2, b3, true, false, false, true)
  {}

  lemma RowABits(b0: bool, b1: bool, b2: bool, b3: bool)
    ensures RowA(High(b0, b1, b2, b3)) == Entry(b0, b1, b2, b3, false, true, false, true)
  {}

  lemma RowBBits(b0: bool, b1: bool, b2: bool, b3: bool)
    ensures RowB(High(b0, b1, b2, b3)) == Entry(b0, b1, b2, b3, true, true, false, true)
  {}

  lemma RowCBits(b0: bool, b1: bool, b2: bool, b3: bool)
    ensures RowC(High(b0, b1, b2, b3)) == Entry(b0, b1, b2, b3, false, false, true, true)
  {}

  lemma RowDBits(b0: bool, b1: bool, b2: bool, b3: bool)
    ensures RowD(High(b0, b1, b2, b3)) == Entry(b0, b1, b2, b3, true, false, true, true)
  {}

  lemma RowEBits(b0: bool, b1: bool, b2: bool, b3: bool)
    ensures RowE(High(b0, b1, b2, b3)) == Entry(b0, b1, b2, b3, false, true, true, true)
  {}

  lemma RowFBits(b0: bool, b1: bool, b2: bool, b3: bool)
    ensures RowF(High(b0, b1, b2, b3)) == Entry(b0, b1, b2, b3, true, true, true, true)
  {}

  lemma RowBits(h: nat, b0: bool, b1: bool, b2: bool, b3: bool, b4: bool, b5: bool, b6: bool, b7: bool)
    requires h == High(b4, b5, b6, b7)
    ensures Row(h, High(b0, b1, b2, b3)) == Entry(b0, b1, b2, b3, b4, b5, b6, b7)
  {
    if !b7 {
      if !b6 {
        if !b5 { if !b4 { Row0Bits(b0, b1, b2, b3); } else { Row1Bits(b0, b1, b2, b3); } }
        else   { if !b4 { Row2Bits(b0, b1, b2, b3); } else { Row3Bits(b0, b1, b2, b3); } }
      } else {
        if !b5 { if !b4 { Row4Bits(b0, b1, b2, b3); } else { Row5Bits(b0, b1, b2, b3); } }
        else   { if !b4 { Row6Bits(b0, b1, b2, b3); } else { Row7Bits(b0, b1, b2, b3); } }
      }
    } else {
      if !b6 {
        if !b5 { if !b4 { Row8Bits(b0, b1, b2, b3); } else { Row9Bits(b0, b1, b2, b3); } }
        else   { if !b4 { RowABits(b0, b1, b2, b3); } else { RowBBits(b0, b1, b2, b3); } }
      } else {
        if !b5 { if !b4 { RowCBits(b0, b1, b2, b3); } else { RowDBits(b0, b1, b2, b3); } }
        else   { if !b4 { RowEBits(b0, b1, b2, b3); } else { RowFBits(b0, b1, b2, b3); } }
      }
    }
  }

  lemma OctetFromBits(i: byte) returns (b0: bool, b1: bool, b2: bool, b3: bool, b4: bool, b5: bool, b6: bool, b7: bool)
    ensures i % 16 == High(b0, b1, b2, b3) && i / 16 == High(b4, b5, b6, b7)
    ensures i == W(b0, b1, b2, b3, b4, b5, b6, b7, false, false, false, false, false, false, false, false)
  {
    var l, h := i % 16, i / 16;
    b0, b1, b2, b3 := NibbleFromBits(l);
    b4, b5, b6, b7 := NibbleFromBits(h);
    assert i == l + 16 * h;
  }

  lemma NibbleFromBits(l: nat) returns (b0: bool, b1: bool, b2: bool, b3: bool)
    requires l < 16
    ensures l == High(b0, b1, b2, b3)
  {
    var l1 := l / 2;
    var l2 := l1 / 2;
    var l3 := l2 / 2;
    b0, b1, b2, b3 := l % 2 == 1, l1 % 2 == 1, l2 % 2 == 1, l3 == 1;
  }

  // Every entry is the generator's value at its index.
  lemma FcstabIsSteps(i: byte)
    ensures Fcstab(i) == BitSteps(i, 8)
  {
    var b0, b1, b2, b3, b4, b5, b6, b7 := OctetFromBits(i);
    RowBits(i / 16, b0, b1, b2, b3, b4, b5, b6, b7);
    EightSteps(b0, b1, b2, b3, b4, b5, b6, b7);
  }
}
