/**
  The C bitwise operators &, | and ^ on unsigned values, defined bit by
  bit from the least significant end. Each is related to a reference
  definition, the bit at position i (Bit), and the source's uses of them
  (a mask keeping the low bits, an or of non-overlapping fields) are
  proved to be the arithmetic they stand for.
*/
module Bits {
  import opened Words

  /** Bit i of x. */
  function Bit(x: nat, i: nat): bool {
    if i == 0 then x % 2 == 1 else Bit(x / 2, i - 1)
  }

  function BitAnd(a: nat, b: nat): (r: nat)
    ensures r <= a && r <= b
    decreases a
  {
    if a == 0 || b == 0 then 0
    else 2 * BitAnd(a / 2, b / 2) + (if a % 2 == 1 && b % 2 == 1 then 1 else 0)
  }

  function BitOr(a: nat, b: nat): (r: nat)
    ensures a <= r && b <= r && r <= a + b
    decreases a + b
  {
    if a == 0 then b
    else if b == 0 then a
    else 2 * BitOr(a / 2, b / 2) + (if a % 2 == 1 || b % 2 == 1 then 1 else 0)
  }

  function BitXor(a: nat, b: nat): (r: nat)
    ensures r <= a + b
    decreases a + b
  {
    if a == 0 then b
    else if b == 0 then a
    else 2 * BitXor(a / 2, b / 2) + (if a % 2 != b % 2 then 1 else 0)
  }

  // ---------------------------------------------------------------------
  // Each operator against the reference definition, bit by bit.

  lemma {:induction false} BitOfZero(i: nat)
    ensures !Bit(0, i)
  {
    if i > 0 {
      BitOfZero(i - 1);
    }
  }

  lemma {:induction false} BitAndBits(a: nat, b: nat, i: nat)
    ensures Bit(BitAnd(a, b), i) == (Bit(a, i) && Bit(b, i))
    decreases a
  {
    if a == 0 || b == 0 {
      BitOfZero(i);
    } else if i > 0 {
      BitAndBits(a / 2, b / 2, i - 1);
    }
  }

  lemma {:induction false} BitOrBits(a: nat, b: nat, i: nat)
    ensures Bit(BitOr(a, b), i) == (Bit(a, i) || Bit(b, i))
    decreases a + b
  {
    if a == 0 || b == 0 {
      BitOfZero(i);
    } else if i > 0 {
      BitOrBits(a / 2, b / 2, i - 1);
    }
  }

  lemma {:induction false} BitXorBits(a: nat, b: nat, i: nat)
    ensures Bit(BitXor(a, b), i) == (Bit(a, i) != Bit(b, i))
    decreases a + b
  {
    if a == 0 || b == 0 {
      BitOfZero(i);
    } else if i > 0 {
      BitXorBits(a / 2, b / 2, i - 1);
    }
  }

  // ---------------------------------------------------------------------
  // Algebra the instruction set relies on.

  /** xor with the same value twice is the identity. */
  lemma {:induction false} XorTwice(a: nat, b: nat)
    ensures BitXor(BitXor(a, b), b) == a
    decreases a + b
  {
    if a == 0 {
      XorSelf(b);
    } else if b != 0 {
      var h := BitXor(a / 2, b / 2);
      var c := 2 * h + (if a % 2 != b % 2 then 1 else 0);
      assert BitXor(a, b) == c;
      XorTwice(a / 2, b / 2);
      if c == 0 {
        assert h == 0 && a % 2 == b % 2;
        assert BitXor(h, b / 2) == b / 2;
        assert a == 2 * (a / 2) + a % 2 && b == 2 * (b / 2) + b % 2;
      } else {
        assert c / 2 == h && c % 2 == (if a % 2 != b % 2 then 1 else 0);
        assert BitXor(c, b) == 2 * BitXor(h, b / 2) + (if c % 2 != b % 2 then 1 else 0);
        assert BitXor(h, b / 2) == a / 2;
        assert (if c % 2 != b % 2 then 1 else 0) == a % 2;
      }
    }
  }

  /** xor of a value with itself is zero. */
  lemma {:induction false} XorSelf(a: nat)
    ensures BitXor(a, a) == 0
  {
    if a != 0 {
      XorSelf(a / 2);
    }
  }

  lemma {:induction false} OrSelf(a: nat)
    ensures BitOr(a, a) == a
  {
    if a != 0 {
      OrSelf(a / 2);
    }
  }

  lemma {:induction false} AndIdempotent(a: nat, b: nat)
    ensures BitAnd(BitAnd(a, b), b) == BitAnd(a, b)
    decreases a
  {
    if a != 0 && b != 0 {
      var h := BitAnd(a / 2, b / 2);
      var c := 2 * h + (if a % 2 == 1 && b % 2 == 1 then 1 else 0);
      assert BitAnd(a, b) == c;
      AndIdempotent(a / 2, b / 2);
      if c != 0 {
        assert c / 2 == h && c % 2 == (if a % 2 == 1 && b % 2 == 1 then 1 else 0);
        assert BitAnd(c, b) == 2 * BitAnd(h, b / 2) + (if c % 2 == 1 && b % 2 == 1 then 1 else 0);
      }
    }
  }

  lemma {:induction false} OrIdempotent(a: nat, b: nat)
    ensures BitOr(BitOr(a, b), b) == BitOr(a, b)
    decreases a + b
  {
    if a == 0 {
      OrSelf(b);
    } else if b != 0 {
      var h := BitOr(a / 2, b / 2);
      var c := 2 * h + (if a % 2 == 1 || b % 2 == 1 then 1 else 0);
      assert BitOr(a, b) == c;
      OrIdempotent(a / 2, b / 2);
      assert BitOr(h, b / 2) == h;
      assert c != 0;
      assert c / 2 == h && c % 2 == (if a % 2 == 1 || b % 2 == 1 then 1 else 0);
      assert BitOr(c, b) == 2 * BitOr(h, b / 2) + (if c % 2 == 1 || b % 2 == 1 then 1 else 0);
    }
  }

  // ---------------------------------------------------------------------
  // Widths

  /** Or and xor of two values below 2^k stay below 2^k. */
  lemma {:induction false} OrBelow(a: nat, b: nat, k: nat)
    requires a < Pow2(k) && b < Pow2(k)
    ensures BitOr(a, b) < Pow2(k)
    decreases a + b
  {
    if a != 0 && b != 0 {
      OrBelow(a / 2, b / 2, k - 1);
    }
  }

  lemma {:induction false} XorBelow(a: nat, b: nat, k: nat)
    requires a < Pow2(k) && b < Pow2(k)
    ensures BitXor(a, b) < Pow2(k)
    decreases a + b
  {
    if a != 0 && b != 0 {
      XorBelow(a / 2, b / 2, k - 1);
    }
  }

  /** Masking with k low ones keeps x modulo 2^k. */
  lemma {:induction false} LowMask(x: nat, k: nat)
    ensures BitAnd(x, Pow2(k) - 1) == x % Pow2(k)
    decreases x
  {
    if k == 0 {
      assert Pow2(0) - 1 == 0;
    } else if x != 0 {
      LowMask(x / 2, k - 1);
      LowMaskStep(x, k);
    } else {
      assert Pow2(k) > 0;
    }
  }

  /** The step of LowMask: from the mask of x / 2 to the mask of x. */
  lemma LowMaskStep(x: nat, k: nat)
    requires x != 0 && k != 0
    requires BitAnd(x / 2, Pow2(k - 1) - 1) == (x / 2) % Pow2(k - 1)
    ensures BitAnd(x, Pow2(k) - 1) == x % Pow2(k)
  {
    var p := Pow2(k - 1);
    MaskHalves(k);
    assert BitAnd(x, Pow2(k) - 1) == 2 * ((x / 2) % p) + x % 2;
    ModDouble(x, p);
  }

  /** k low ones are a one above k - 1 low ones. */
  lemma MaskHalves(k: nat)
    requires k > 0
    ensures Pow2(k) == 2 * Pow2(k - 1)
    ensures (Pow2(k) - 1) / 2 == Pow2(k - 1) - 1 && (Pow2(k) - 1) % 2 == 1
  {
    assert Pow2(k) == 2 * Pow2(k - 1);
  }

  /** x modulo 2p, from x / 2 modulo p and the low bit of x. */
  lemma ModDouble(x: nat, p: nat)
    requires p >= 1
    ensures x % (2 * p) == 2 * ((x / 2) % p) + x % 2
  {
    var h := x / 2;
    var q := h / p;
    var s := h % p;
    assert h == q * p + s;
    assert x == 2 * h + x % 2;
    assert q * (2 * p) == 2 * (q * p);
    DivMod(x, 2 * p, q, 2 * s + x % 2);
  }

  /** An or of a value below 2^k with a multiple of 2^k is their sum: the
      two have no bit in common. */
  lemma {:induction false} OrDisjoint(a: nat, b: nat, k: nat)
    requires a < Pow2(k) && b % Pow2(k) == 0
    ensures BitOr(a, b) == a + b
    decreases k
  {
    if k > 0 && a != 0 && b != 0 {
      var p := Pow2(k - 1);
      var c := b / Pow2(k);
      DivMod(b, Pow2(k), c, 0);
      assert b == c * (2 * p);
      assert c * (2 * p) == 2 * (c * p);
      DivMod(b, 2, c * p, 0);
      DivMod(b / 2, p, c, 0);
      OrDisjoint(a / 2, b / 2, k - 1);
    }
  }

  /** Below 2^(k+1), bit k is set exactly from 2^k up. */
  lemma {:induction false} TopBit(x: nat, k: nat)
    requires x < Pow2(k + 1)
    ensures Bit(x, k) <==> x >= Pow2(k)
  {
    if k > 0 {
      TopBit(x / 2, k - 1);
    }
  }

  /** The source tests the sign of a word with the mask 0x80000000: bit 31
      is set exactly on the words from 2^31 up. */
  lemma SignBit(x: Word)
    ensures Bit(x, 31) <==> x >= HALF
  {
    Pow2Values();
    TopBit(x, 31);
  }

  // ---------------------------------------------------------------------
  // The operators on words

  function AndWord(a: Word, b: Word): (r: Word)
    ensures forall i :: Bit(r, i) == (Bit(a, i) && Bit(b, i))
  {
    forall i ensures Bit(BitAnd(a, b), i) == (Bit(a, i) && Bit(b, i)) {
      BitAndBits(a, b, i);
    }
    BitAnd(a, b)
  }

  function OrWord(a: Word, b: Word): (r: Word)
    ensures forall i :: Bit(r, i) == (Bit(a, i) || Bit(b, i))
  {
    Pow2Values();
    OrBelow(a, b, 32);
    forall i ensures Bit(BitOr(a, b), i) == (Bit(a, i) || Bit(b, i)) {
      BitOrBits(a, b, i);
    }
    BitOr(a, b)
  }

  function XorWord(a: Word, b: Word): (r: Word)
    ensures forall i :: Bit(r, i) == (Bit(a, i) != Bit(b, i))
  {
    Pow2Values();
    XorBelow(a, b, 32);
    forall i ensures Bit(BitXor(a, b), i) == (Bit(a, i) != Bit(b, i)) {
      BitXorBits(a, b, i);
    }
    BitXor(a, b)
  }
}
