/**
  Words read as two's-complement int32_t values, and the overflow tests of
  vm/cycle.c. The source reinterprets the two operands as int32_t, forms
  the exact sum or difference in 64 bits, forms it again in 32 bits, and
  reports overflow when the two disagree; both sides are written out here.
*/
module SignedWords {
  import opened Words

  /** The int32_t a word's bits stand for. */
  function Signed(v: Word): (s: int)
    ensures -HALF <= s < HALF
    ensures Wrap(s) == v
    ensures s < 0 <==> v >= HALF
  {
    if v < HALF then v else v - WORD
  }

  /** Reading back a wrapped value in the int32_t range gives the value. */
  lemma SignedOfWrap(s: int)
    requires -HALF <= s < HALF
    ensures Signed(Wrap(s)) == s
  {
    if s < 0 {
      DivMod(s, WORD, -1, s + WORD);
    }
  }

  /** The 32-bit sum of the int32_t operands, as the source computes sx + sy
      (on a two's-complement machine, where it wraps). */
  function WrappedSum(x: Word, y: Word): int {
    Signed(Wrap(Signed(x) + Signed(y)))
  }

  function WrappedDifference(x: Word, y: Word): int {
    Signed(Wrap(Signed(x) - Signed(y)))
  }

  /** overflow_add: the exact sum differs from the 32-bit one. */
  predicate OverflowAdd(x: Word, y: Word) {
    Signed(x) + Signed(y) != WrappedSum(x, y)
  }

  /** overflow_sub: the exact difference differs from the 32-bit one. */
  predicate OverflowSub(x: Word, y: Word) {
    Signed(x) - Signed(y) != WrappedDifference(x, y)
  }

  /** The wrapped sum of the signed readings is the wrapped sum of the
      words. */
  lemma WrapSigned(x: Word, y: Word)
    ensures Wrap(Signed(x) + Signed(y)) == Wrap(x + y)
    ensures Wrap(Signed(x) - Signed(y)) == Wrap(x - y)
  {
    WrapShift(x + y, (if x >= HALF then -1 else 0) + (if y >= HALF then -1 else 0));
    WrapShift(x - y, (if x >= HALF then -1 else 0) - (if y >= HALF then -1 else 0));
  }

  /** Overflow is exactly the case where the true result does not fit an
      int32_t. */
  lemma OverflowAddOutOfRange(x: Word, y: Word)
    ensures OverflowAdd(x, y) <==> !(-HALF <= Signed(x) + Signed(y) < HALF)
  {
    var s := Signed(x) + Signed(y);
    if -HALF <= s < HALF {
      SignedOfWrap(s);
    }
  }

  lemma OverflowSubOutOfRange(x: Word, y: Word)
    ensures OverflowSub(x, y) <==> !(-HALF <= Signed(x) - Signed(y) < HALF)
  {
    var s := Signed(x) - Signed(y);
    if -HALF <= s < HALF {
      SignedOfWrap(s);
    }
  }

  /** The sign rule for addition: overflow exactly when both operands have
      the same sign and the wrapped sum has the other one. */
  lemma OverflowAddSignRule(x: Word, y: Word)
    ensures OverflowAdd(x, y) <==> (x >= HALF) == (y >= HALF) && (Wrap(x + y) >= HALF) != (x >= HALF)
  {
    OverflowAddOutOfRange(x, y);
    WrapSigned(x, y);
    var s := Signed(x) + Signed(y);
    if s >= HALF {
      DivMod(s, WORD, 0, s);
    } else if s < -HALF {
      DivMod(s, WORD, -1, s + WORD);
    } else {
      SignedOfWrap(s);
    }
  }

  /** The sign rule for subtraction: overflow exactly when the operands
      have different signs and the wrapped difference has the sign of the
      subtrahend. */
  lemma OverflowSubSignRule(x: Word, y: Word)
    ensures OverflowSub(x, y) <==> (x >= HALF) != (y >= HALF) && (Wrap(x - y) >= HALF) != (x >= HALF)
  {
    OverflowSubOutOfRange(x, y);
    WrapSigned(x, y);
    var s := Signed(x) - Signed(y);
    if s >= HALF {
      DivMod(s, WORD, 0, s);
    } else if s < -HALF {
      DivMod(s, WORD, -1, s + WORD);
    } else {
      SignedOfWrap(s);
    }
  }
}
