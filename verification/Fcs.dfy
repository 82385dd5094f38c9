/** The frame check sequence of fcs.c against the bit-serial definition of RFC 1662, Appendix C.2. */
module Fcs {
  import opened Words
  import opened FcsTable

  // FCS_Calculate: one octet through the table.
  function FcsCalculate(val: byte, fcs: uint16): uint16 {
    XorWords(fcs / 0x100, Fcstab(XorWords(fcs, val) % 0x100))
  }

  function XorWords(a: uint16, b: uint16): uint16 {
    WordSizes(); XorBound(a, b, 16);
    Xor(a, b)
  }

  // The register after a sequence of octets.
  function FcsRun(fcs: uint16, data: seq<byte>): uint16
    decreases |data|
  {
    if |data| == 0 then fcs else FcsRun(FcsCalculate(data[0], fcs), data[1..])
  }

  // FCS_Get: the register starts at all ones and is complemented at the end.
  function FcsOf(data: seq<byte>): uint16 { 0xFFFF - FcsRun(0xFFFF, data) }

  lemma {:induction false} FcsRunAppend(fcs: uint16, x: seq<byte>, y: seq<byte>)
    ensures FcsRun(fcs, x + y) == FcsRun(FcsRun(fcs, x), y)
    decreases |x|
  {
    if |x| == 0 {
      assert x + y == y;
    } else {
      assert (x + y)[1..] == x[1..] + y;
      FcsRunAppend(FcsCalculate(x[0], fcs), x[1..], y);
    }
  }

  method FcsGet(cp: array<byte>, len: nat) returns (fcs: uint16)
    requires len <= cp.Length
    ensures fcs == FcsOf(cp[..len])
    ensures fcs == 0xFFFF - ShiftAll(0xFFFF, Bits(cp[..len]))
  {
    fcs := 0xFFFF;
    var i := 0;
    while i < len
      invariant i <= len
      invariant fcs == FcsRun(0xFFFF, cp[..i])
    {
      assert cp[..i + 1] == cp[..i] + [cp[i]];
      FcsRunAppend(0xFFFF, cp[..i], [cp[i]]);
      fcs := FcsCalculate(cp[i], fcs);
      i := i + 1;
    }
    FcsRunIsShift(0xFFFF, cp[..len]);
    fcs := 0xFFFF - fcs;
  }

  // The bit-serial register: shift right, and apply the polynomial when the bit shifted out differs from the data bit.
  function ShiftIn(r: nat, bit: bool): nat {
    if (r % 2 == 1) != bit then Xor(r / 2, 0x8408) else r / 2
  }

  function ShiftAll(r: nat, bits: seq<bool>): nat
    decreases |bits|
  {
    if |bits| == 0 then r else ShiftAll(ShiftIn(r, bits[0]), bits[1..])
  }

  // The low n bits of a word, least significant first, the order in which octets are sent.
  function WordBits(b: nat, n: nat): (s: seq<bool>)
    ensures |s| == n
    decreases n
  {
    if n == 0 then [] else [b % 2 == 1] + WordBits(b / 2, n - 1)
  }

  function Bits(data: seq<byte>): (s: seq<bool>)
    ensures |s| == 8 * |data|
    decreases |data|
  {
    if |data| == 0 then [] else WordBits(data[0], 8) + Bits(data[1..])
  }

  lemma ShiftInIs(r: nat, bit: bool)
    ensures ShiftIn(r, bit) == BitStep(Xor(r, Bit(bit)))
  {
    XorStep(r, Bit(bit));
    XorZero(r / 2);
  }

  lemma {:induction false} ShiftAllAppend(r: nat, x: seq<bool>, y: seq<bool>)
    ensures ShiftAll(r, x + y) == ShiftAll(ShiftAll(r, x), y)
    decreases |x|
  {
    if |x| == 0 {
      assert x + y == y;
    } else {
      assert (x + y)[1..] == x[1..] + y;
      ShiftAllAppend(ShiftIn(r, x[0]), x[1..], y);
    }
  }

  lemma ShiftWordStep(r: nat, low: nat, v: nat)
    requires low < 2
    ensures BitStep(Xor(r, low + 2 * v)) == Xor(BitStep(Xor(r, low)), v)
  {
    XorLowBit(v, low);
    XorComm(2 * v, low);
    XorAssoc(r, low, 2 * v);
    BitStepLinear(Xor(r, low), 2 * v);
  }

  // Shifting in the bits of a word is as many plain shifts of the register with the word toggled into it.
  lemma {:induction false} ShiftWord(r: nat, b: nat, n: nat)
    requires b < Pow2(n)
    ensures ShiftAll(r, WordBits(b, n)) == BitSteps(Xor(r, b), n)
    decreases n
  {
    if n == 0 {
      XorZero(r);
    } else {
      ShiftWord(ShiftIn(r, b % 2 == 1), b / 2, n - 1);
      ShiftInIs(r, b % 2 == 1);
      ShiftWordStep(r, b % 2, b / 2);
    }
  }

  // The low n bits of a word are shifted out, the rest is exclusive-ored in.
  lemma {:induction false} StepsOfJoin(low: nat, high: nat, n: nat)
    requires low < Pow2(n)
    ensures BitSteps(Join(low, high, n), n) == Xor(BitSteps(low, n), high)
    decreases n
  {
    if n == 0 {
      XorZero(high);
    } else {
      var l0, l' := low % 2, low / 2;
      StepsOfJoin(l', high, n - 1);
      StepsByLowBit(l0, Join(l', high, n - 1), n);
      StepsByLowBit(l0, l', n);
      XorAssoc(if l0 == 1 then BitSteps(1, n) else 0, BitSteps(l', n - 1), high);
    }
  }

  lemma StepsByLowOctet(low: nat, high: nat, n: nat, x: nat)
    requires Pow2(n) == 0x100 && low < 0x100 && x == low + 0x100 * high
    ensures BitSteps(x, n) == Xor(BitSteps(low, n), high)
  {
    StepsOfJoin(low, high, n);
    JoinIs(low, high, n);
  }

  lemma XorLowOctet(r: nat, low: nat, high: nat, v: byte, n: nat)
    requires Pow2(n) == 0x100 && low < 0x100 && r == low + 0x100 * high
    ensures Xor(low, v) < 0x100 && Xor(r, v) == Xor(low, v) + 0x100 * high
  {
    XorLowBits(low, high, v, n, 0x100);
  }

  lemma ToggledOctet(val: byte, fcs: uint16, low: nat, high: nat, n: nat) returns (i: byte)
    requires fcs == low + 0x100 * high && low < 0x100 && Pow2(n) == 0x100
    ensures Xor(fcs, val) == i + 0x100 * high
  {
    XorLowOctet(fcs, low, high, val, n);
    i := Xor(low, val);
  }

  lemma LowOctet(i: byte, high: nat, x: nat)
    requires x == i + 0x100 * high
    ensures x % 0x100 == i
  {}

  lemma StepsOfHigh(i: byte, high: nat, n: nat, x: nat, steps: nat)
    requires x == i + 0x100 * high && Pow2(n) == 0x100 && steps == BitSteps(i, n)
    ensures BitSteps(x, n) == Xor(high, steps)
  {
    StepsByLowOctet(i, high, n, x);
    XorComm(high, steps);
  }

  // FCS_Calculate toggles the octet in and shifts eight times.
  lemma FcsCalculateIsSteps(val: byte, fcs: uint16)
    ensures FcsCalculate(val, fcs) == BitSteps(Xor(fcs, val), 8)
  {
    WordSizes();
    var i := ToggledOctet(val, fcs, fcs % 0x100, fcs / 0x100, 8);
    var x := XorWords(fcs, val);
    LowOctet(i, fcs / 0x100, x);
    FcstabIsSteps(i);
    StepsOfHigh(i, fcs / 0x100, 8, x, Fcstab(i));
  }

  // The table-driven register is the bit-serial one, for every octet sequence.
  lemma {:induction false} FcsRunIsShift(fcs: uint16, data: seq<byte>)
    ensures FcsRun(fcs, data) == ShiftAll(fcs, Bits(data))
    decreases |data|
  {
    if |data| == 0 {
    } else {
      WordSizes();
      FcsCalculateIsSteps(data[0], fcs);
      ShiftWord(fcs, data[0], 8);
      FcsRunIsShift(FcsCalculate(data[0], fcs), data[1..]);
      ShiftAllAppend(fcs, WordBits(data[0], 8), Bits(data[1..]));
    }
  }
}
