/** Machine words as naturals, with the bitwise operators the firmware applies to them. */
module Words {

  type byte = b: int | 0 <= b < 0x100
  type uint16 = w: int | 0 <= w < 0x1_0000
  type uint32 = w: int | 0 <= w < 0x1_0000_0000

  // Two octets, low one first.
  function Word(low: byte, high: byte): uint16 { 0x100 * high + low }

  // Exclusive-or, least significant bit first.
  function Xor(a: nat, b: nat): nat
    decreases a, b
  {
    if a == 0 && b == 0 then 0
    else 2 * Xor(a / 2, b / 2) + (if a % 2 != b % 2 then 1 else 0)
  }

  lemma {:induction false} XorComm(a: nat, b: nat)
    ensures Xor(a, b) == Xor(b, a)
    decreases a, b
  {
    if a != 0 || b != 0 { XorComm(a / 2, b / 2); }
  }

  lemma {:induction false} XorZero(a: nat)
    ensures Xor(a, 0) == a && Xor(0, a) == a
  {
    if a != 0 { XorZero(a / 2); }
  }

  lemma {:induction false} XorSelf(a: nat)
    ensures Xor(a, a) == 0
  {
    if a != 0 { XorSelf(a / 2); }
  }

  lemma XorStep(a: nat, b: nat)
    ensures Xor(a, b) / 2 == Xor(a / 2, b / 2)
    ensures Xor(a, b) % 2 == if a % 2 != b % 2 then 1 else 0
  {}

  lemma {:induction false} XorAssoc(a: nat, b: nat, c: nat)
    ensures Xor(Xor(a, b), c) == Xor(a, Xor(b, c))
    decreases a, b, c
  {
    if a != 0 || b != 0 || c != 0 {
      XorAssoc(a / 2, b / 2, c / 2);
      XorStep(a, b);
      XorStep(b, c);
      XorStep(Xor(a, b), c);
      XorStep(a, Xor(b, c));
    }
  }

  // Toggling by the same word twice restores the value.
  lemma XorCancel(a: nat, k: nat)
    ensures Xor(Xor(a, k), k) == a
  {
    XorAssoc(a, k, k);
    XorSelf(k);
    XorZero(a);
  }

  lemma XorInjective(a: nat, b: nat, k: nat)
    requires Xor(a, k) == Xor(b, k)
    ensures a == b
  {
    XorCancel(a, k);
    XorCancel(b, k);
  }

  // a ^ b with both sides toggled by c and d regroups freely.
  lemma XorSwap(a: nat, b: nat, c: nat, d: nat)
    ensures Xor(Xor(a, c), Xor(b, d)) == Xor(Xor(a, b), Xor(c, d))
  {
    XorAssoc(a, c, Xor(b, d));
    XorAssoc(c, b, d);
    XorComm(c, b);
    XorAssoc(b, c, d);
    XorAssoc(a, b, Xor(c, d));
  }

  function Pow2(n: nat): (p: nat)
    ensures p > 0
  {
    if n == 0 then 1 else 2 * Pow2(n - 1)
  }

  lemma {:induction false} XorBound(a: nat, b: nat, n: nat)
    requires a < Pow2(n) && b < Pow2(n)
    ensures Xor(a, b) < Pow2(n)
    decreases n
  {
    if n == 0 {
    } else {
      XorBound(a / 2, b / 2, n - 1);
    }
  }

  lemma WordSizes()
    ensures Pow2(8) == 0x100 && Pow2(15) == 0x8000 && Pow2(16) == 0x1_0000
  {
    assert Pow2(8) == 0x100;
    assert Pow2(16) == 0x1_0000;
  }

  lemma XorLowBit(high: nat, low: nat)
    requires low < 2
    ensures Xor(2 * high, low) == 2 * high + low
  {
    XorStep(2 * high, low);
    XorZero(high);
  }

  // The parity of a word's set bits.
  predicate OddBits(w: nat) {
    if w == 0 then false else (w % 2 == 1) != OddBits(w / 2)
  }

  lemma {:induction false} OddBitsXor(a: nat, b: nat)
    ensures OddBits(Xor(a, b)) == (OddBits(a) != OddBits(b))
    decreases a, b
  {
    if a != 0 || b != 0 {
      OddBitsXor(a / 2, b / 2);
      XorStep(a, b);
    }
  }

  // Exclusive-or digit by digit.
  lemma XorDigits(a: nat, la: nat, b: nat, lb: nat)
    requires la < 2 && lb < 2
    ensures Xor(la + 2 * a, lb + 2 * b) == (if la != lb then 1 else 0) + 2 * Xor(a, b)
  {
    assert (la + 2 * a) / 2 == a && (lb + 2 * b) / 2 == b;
  }

  // The low n bits of one word with another word above them.
  function Join(low: nat, high: nat, n: nat): nat
    decreases n
  {
    if n == 0 then high else low % 2 + 2 * Join(low / 2, high, n - 1)
  }

  lemma {:induction false} JoinIs(low: nat, high: nat, n: nat)
    requires low < Pow2(n)
    ensures Join(low, high, n) == low + Pow2(n) * high
    decreases n
  {
    if n == 0 {
    } else {
      JoinIs(low / 2, high, n - 1);
      assert (2 * Pow2(n - 1)) * high == 2 * (Pow2(n - 1) * high);
    }
  }

  // Toggling low bits leaves the bits above them alone.
  lemma {:induction false} XorJoin(low: nat, high: nat, v: nat, n: nat)
    requires low < Pow2(n) && v < Pow2(n)
    ensures Xor(Join(low, high, n), v) == Join(Xor(low, v), high, n)
    decreases n
  {
    if n == 0 {
      XorZero(high);
    } else {
      XorJoin(low / 2, high, v / 2, n - 1);
      XorDigits(Join(low / 2, high, n - 1), low % 2, v / 2, v % 2);
      XorStep(low, v);
    }
  }

  lemma XorLowBits(low: nat, high: nat, v: nat, n: nat, p: nat)
    requires p == Pow2(n) && low < p && v < p
    ensures Xor(low, v) < p && Xor(low + p * high, v) == Xor(low, v) + p * high
  {
    XorBound(low, v, n);
    XorJoin(low, high, v, n);
    JoinIs(low, high, n);
    JoinIs(Xor(low, v), high, n);
  }

  // Toggling bit n leaves the bits below and above it alone.
  lemma {:induction false} XorOneBit(low: nat, here: nat, toggled: nat, n: nat)
    requires toggled == if here % 2 == 1 then here - 1 else here + 1
    ensures Xor(Join(low, here, n), Pow2(n)) == Join(low, toggled, n)
    decreases n
  {
    if n == 0 {
      XorDigits(here / 2, here % 2, 0, 1);
      XorZero(here / 2);
    } else {
      XorOneBit(low / 2, here, toggled, n - 1);
      XorDigits(Join(low / 2, here, n - 1), low % 2, Pow2(n - 1), 0);
    }
  }

  // Exclusive-or with all ones complements a word.
  lemma {:induction false} XorOnes(w: nat, n: nat)
    requires w < Pow2(n)
    ensures Xor(Pow2(n) - 1 - w, w) == Pow2(n) - 1
    decreases n
  {
    if n == 0 {
      XorZero(0);
    } else {
      XorOnes(w / 2, n - 1);
      XorDigits(Pow2(n - 1) - 1 - w / 2, 1 - w % 2, w / 2, w % 2);
      assert w == w % 2 + 2 * (w / 2);
    }
  }
}
