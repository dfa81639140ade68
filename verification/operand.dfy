/**
  Condition gating and operand shaping of vm/cycle.c: check, shift and fit.
*/
module Operand {
  import opened Words
  import opened Bits
  import opened SignedWords
  import opened VmState
  import opened Decoder

  /** Whether an instruction with condition c runs under the flag byte f.
      The code 0b101 names no condition and falls through to true. */
  function Check(f: bv8, c: Cond): (holds: bool)
    ensures c == Alw || c == Unnamed ==> holds
    ensures c == Neq ==> (holds <==> f & FLAG_NIL != 0)
    ensures c == Eeq ==> (holds <==> f & FLAG_NIL == 0)
    ensures c == Ltu ==> (holds <==> f & FLAG_CARRY != 0)
    ensures c == Geu ==> (holds <==> f & FLAG_CARRY == 0)
    ensures c == Lts ==> (holds <==> f & FLAG_OVER == 0)
    ensures c == Ges ==> (holds <==> f & FLAG_OVER != 0)
  {
    match c
    case Alw => true
    case Neq => f & FLAG_NIL != 0
    case Eeq => f & FLAG_NIL == 0
    case Ltu => f & FLAG_CARRY != 0
    case Geu => f & FLAG_CARRY == 0
    case Lts => f & FLAG_OVER == 0
    case Ges => f & FLAG_OVER != 0
    case Unnamed => true
  }

  /** The three pairs of conditions are complements of each other. */
  lemma CheckComplements(f: bv8)
    ensures Check(f, Neq) != Check(f, Eeq)
    ensures Check(f, Ltu) != Check(f, Geu)
    ensures Check(f, Lts) != Check(f, Ges)
  {
  }

  /** A condition reads only the Zero, Carry and Overflow bits: neither the
      Sign flag nor the reserved bits can change whether it holds. */
  lemma CheckReadsThreeFlags(f: bv8, g: bv8, c: Cond)
    requires f & (FLAG_NIL | FLAG_CARRY | FLAG_OVER) == g & (FLAG_NIL | FLAG_CARRY | FLAG_OVER)
    ensures Check(f, c) == Check(g, c)
  {
    assert f & FLAG_NIL == g & FLAG_NIL;
    assert f & FLAG_CARRY == g & FLAG_CARRY;
    assert f & FLAG_OVER == g & FLAG_OVER;
  }

  // ---------------------------------------------------------------------
  // shift

  /** x << s on a uint32_t: the bits pushed past bit 31 are lost. */
  function ShiftLeft(x: Word, s: nat): (r: Word)
    requires s < 32
  {
    Wrap(x * Pow2(s))
  }

  /** x >> s on a uint32_t. */
  function ShiftRight(x: Word, s: nat): (r: Word)
    requires s < 32
  {
    DivNonNegative(x, Pow2(s));
    x / Pow2(s)
  }

  /** (uint32_t)((int32_t)x >> s) on an implementation that shifts signed
      values arithmetically: the int32_t reading divided by 2^s, rounding
      toward minus infinity, and written back as a word. */
  function ShiftArithmetic(x: Word, s: nat): (r: Word)
    requires s < 32
  {
    Wrap(Signed(x) / Pow2(s))
  }

  /** shift: the source shifts by a uint8_t amount, which C defines only
      below the operand width; a real shift is therefore required to take
      an amount below 32, and the instruction-level callers turn a larger
      amount into a fault. NONE ignores the amount. */
  function ShiftValue(x: Word, st: Shift, s: nat): (r: Word)
    requires st == NoShift || s < 32
    ensures st == NoShift ==> r == x
  {
    match st
    case NoShift => x
    case Lsl => ShiftLeft(x, s)
    case Lsr => ShiftRight(x, s)
    case Asr => ShiftArithmetic(x, s)
  }

  /** 2^s and 2^(32-s) multiply to 2^32. */
  lemma SplitWord(s: nat)
    requires s <= 32
    ensures Pow2(s) * Pow2(32 - s) == WORD
  {
    Pow2Add(s, 32 - s);
    Pow2Values();
  }

  /** A shift by zero, of any kind, is the identity. */
  lemma ShiftByZero(x: Word, st: Shift)
    ensures ShiftValue(x, st, 0) == x
  {
    if st == Asr {
      assert Signed(x) / 1 == Signed(x);
    }
  }

  /** A left shift clears the bottom s bits. */
  lemma ShiftLeftFillsZeros(x: Word, s: nat)
    requires s < 32
    ensures ShiftValue(x, Lsl, s) % Pow2(s) == 0
  {
    SplitWord(s);
    WrapMultiple(x, Pow2(s), Pow2(32 - s));
  }

  /** A logical right shift clears the top s bits: the result is below
      2^(32-s). */
  lemma ShiftRightFillsZeros(x: Word, s: nat)
    requires s < 32
    ensures ShiftValue(x, Lsr, s) < Pow2(32 - s)
  {
    SplitWord(s);
    DivBelow(x, Pow2(s), Pow2(32 - s));
  }

  /** Shifting left and back right keeps the low 32-s bits of x: exactly
      the top s bits are lost. */
  lemma ShiftLeftThenRight(x: Word, s: nat)
    requires s < 32
    ensures ShiftValue(ShiftValue(x, Lsl, s), Lsr, s) == x % Pow2(32 - s)
  {
    SplitWord(s);
    WrapMulDiv(x, Pow2(s), Pow2(32 - s));
  }

  /** On a non-negative operand the arithmetic shift is the logical one. */
  lemma ArithmeticShiftOfNonNegative(x: Word, s: nat)
    requires s < 32 && x < HALF
    ensures ShiftValue(x, Asr, s) == ShiftValue(x, Lsr, s)
  {
    DivNonNegative(x, Pow2(s));
  }

  /** On a negative operand the arithmetic shift is the logical one with
      the s vacated top bits set: it adds 2^32 - 2^(32-s). */
  lemma ArithmeticShiftOfNegative(x: Word, s: nat)
    requires s < 32 && x >= HALF
    ensures ShiftValue(x, Asr, s) == ShiftValue(x, Lsr, s) + (WORD - Pow2(32 - s))
  {
    SplitWord(s);
    WrapDivNegative(x, Pow2(s), Pow2(32 - s));
  }

  /** An arithmetic right shift keeps the sign of its operand. */
  lemma ArithmeticShiftKeepsSign(x: Word, s: nat)
    requires s < 32
    ensures ShiftValue(x, Asr, s) >= HALF <==> x >= HALF
  {
    if x >= HALF {
      ArithmeticShiftOfNegative(x, s);
      if s > 0 {
        Pow2Monotone(32 - s, 31);
        Pow2Values();
      } else {
        ShiftByZero(x, Asr);
      }
    } else {
      ArithmeticShiftOfNonNegative(x, s);
      DivNonNegative(x, Pow2(s));
    }
  }

  /** Read as an int32_t, the arithmetic shift divides by 2^s rounding
      toward minus infinity. */
  lemma ArithmeticShiftDivides(x: Word, s: nat)
    requires s < 32
    ensures Signed(ShiftValue(x, Asr, s)) == Signed(x) / Pow2(s)
  {
    var v := Signed(x);
    if v >= 0 {
      DivNonNegative(v, Pow2(s));
    } else {
      DivNegative(v, Pow2(s));
    }
    SignedOfWrap(v / Pow2(s));
  }

  // ---------------------------------------------------------------------
  // fit

  /** The number of bits an operand size keeps. */
  function SizeBits(z: OpSize): (n: nat)
    ensures n <= 32
  {
    match z
    case SizeWord => 32
    case SizeDay => 24
    case SizeHalf => 16
    case SizeByte => 8
  }

  /** The mask of the source's fit for each size. */
  function SizeMask(z: OpSize): (m: Word) {
    match z
    case SizeWord => 0xFFFF_FFFF
    case SizeDay => 0x00FF_FFFF
    case SizeHalf => 0x0000_FFFF
    case SizeByte => 0x0000_00FF
  }

  /** fit: the word size returns x unchanged, the others mask it. The
      result is x modulo 2^bits of the size: the mask keeps exactly the
      low bits. */
  function Fit(x: Word, z: OpSize): (r: Word)
    ensures r == x % Pow2(SizeBits(z))
    ensures r < Pow2(SizeBits(z))
  {
    Pow2Values();
    if z == SizeWord then
      x
    else
      LowMask(x, SizeBits(z));
      AndWord(x, SizeMask(z))
  }

  /** Fitting twice is fitting once, and a value below the size's range is
      left alone. */
  lemma FitIdempotent(x: Word, z: OpSize)
    ensures Fit(Fit(x, z), z) == Fit(x, z)
    ensures x < Pow2(SizeBits(z)) ==> Fit(x, z) == x
  {
    var p := Pow2(SizeBits(z));
    DivMod(x % p, p, 0, x % p);
    if x < p {
      DivMod(x, p, 0, x);
    }
  }
}
