/**
  Machine words and bytes. The source's uint32_t and uint8_t values are
  integers in [0, 2^32) and [0, 256); every place where the C arithmetic
  wraps is written with Wrap, so wrap-around is explicit rather than
  implied by a bit-vector type.
*/
module Words {

  /** 2^32, the number of distinct words. */
  const WORD: int := 0x1_0000_0000

  /** 2^31, the weight of the top (sign) bit. */
  const HALF: int := 0x8000_0000

  type Word = x: int | 0 <= x < 0x1_0000_0000
  type Byte = b: int | 0 <= b < 0x100

  /** The word a uint32_t computation leaves: v reduced modulo 2^32. */
  function Wrap(v: int): (r: Word)
    ensures 0 <= v < WORD ==> r == v
    ensures (v - r) % WORD == 0
  {
    v % WORD
  }

  /** A value below 2^33 wraps at most once. */
  lemma WrapOnce(v: int)
    requires 0 <= v < 2 * WORD
    ensures Wrap(v) == if v < WORD then v else v - WORD
  {
    if v >= WORD {
      DivMod(v, WORD, 1, v - WORD);
    }
  }

  /** Reducing an operand first does not change a wrapped sum. */
  lemma WrapAddRight(a: int, b: int)
    ensures Wrap(a + Wrap(b)) == Wrap(a + b)
  {
    var q := b / WORD;
    assert b == q * WORD + Wrap(b);
    assert a + b == (a + Wrap(b)) + q * WORD;
  }

  lemma WrapAddLeft(a: int, b: int)
    ensures Wrap(Wrap(a) + b) == Wrap(a + b)
  {
    WrapAddRight(b, a);
  }

  /** Wrapping is exact on values that differ by whole multiples of 2^32. */
  lemma WrapShift(v: int, k: int)
    ensures Wrap(v + k * WORD) == Wrap(v)
  {
    var q := v / WORD;
    assert v == q * WORD + Wrap(v);
    assert v + k * WORD == (q + k) * WORD + Wrap(v);
  }

  lemma MulLe(a: int, b: int, m: int)
    requires m > 0 && a <= b
    ensures a * m <= b * m
  {
    assert b * m - a * m == (b - a) * m;
  }

  /** Quotient and remainder are unique: any decomposition x = q m + r
      with 0 <= r < m is the one / and % compute. */
  lemma DivMod(x: int, m: int, q: int, r: int)
    requires m > 0 && 0 <= r < m && x == q * m + r
    ensures x / m == q && x % m == r
  {
    var q' := x / m;
    if q' < q {
      MulLe(q' + 1, q, m);
      assert false;
    } else if q < q' {
      MulLe(q + 1, q', m);
      assert false;
    }
  }

  /** Two to the power k. */
  function Pow2(k: nat): (p: nat)
    ensures p >= 1
  {
    if k == 0 then 1 else 2 * Pow2(k - 1)
  }

  lemma {:induction false} Pow2Add(a: nat, b: nat)
    ensures Pow2(a + b) == Pow2(a) * Pow2(b)
  {
    if a > 0 {
      Pow2Add(a - 1, b);
      assert Pow2(a + b) == 2 * Pow2(a - 1 + b);
      assert 2 * (Pow2(a - 1) * Pow2(b)) == (2 * Pow2(a - 1)) * Pow2(b);
    }
  }

  lemma {:induction false} Pow2Monotone(a: nat, b: nat)
    requires a <= b
    ensures Pow2(a) <= Pow2(b)
  {
    if a < b {
      Pow2Monotone(a, b - 1);
    }
  }

  /** The powers of two the machine uses. */
  lemma Pow2Values()
    ensures Pow2(8) == 0x100 && Pow2(16) == 0x1_0000 && Pow2(24) == 0x100_0000
    ensures Pow2(31) == HALF && Pow2(32) == WORD
  {
  }

  // ---------------------------------------------------------------------
  // Scaling by a power of two inside a word. Here p = 2^s and q = 2^(32-s)
  // are plain factors of 2^32, so the facts stay linear once p and q are
  // fixed.

  /** A wrapped multiple of p is still a multiple of p. */
  lemma WrapMultiple(x: int, p: int, q: int)
    requires p >= 1 && q >= 1 && p * q == WORD
    ensures Wrap(x * p) % p == 0
  {
    var m := x * p;
    var k := m / WORD;
    assert m == k * WORD + Wrap(m);
    assert k * WORD == (k * q) * p;
    assert Wrap(m) == (x - k * q) * p;
    DivMod(Wrap(m), p, x - k * q, 0);
  }

  /** A word divided by p is below q. */
  lemma DivBelow(x: int, p: int, q: int)
    requires p >= 1 && q >= 1 && p * q == WORD && 0 <= x < WORD
    ensures x / p < q
  {
    if x / p >= q {
      MulLe(q, x / p, p);
      assert false;
    }
  }

  /** Multiplying by p, wrapping and dividing by p again keeps x modulo q. */
  lemma WrapMulDiv(x: int, p: int, q: int)
    requires p >= 1 && q >= 1 && p * q == WORD && 0 <= x
    ensures Wrap(x * p) / p == x % q
  {
    var d, r := x / q, x % q;
    assert x == d * q + r;
    assert x * p == d * WORD + r * p by {
      assert x * p == (d * q + r) * p;
      assert (d * q + r) * p == d * (q * p) + r * p;
    }
    MulLe(r, q - 1, p);
    assert (q - 1) * p == WORD - p;
    DivMod(x * p, WORD, d, r * p);
    DivMod(r * p, p, r, 0);
  }

  /** The floor quotient of x - 2^32 by p, wrapped, is x / p with the top
      bits above q set. */
  lemma WrapDivNegative(x: int, p: int, q: int)
    requires p >= 1 && q >= 1 && p * q == WORD && 0 <= x < WORD
    ensures Wrap((x - WORD) / p) == x / p + (WORD - q)
  {
    DivBelow(x, p, q);
    var d := x / p;
    ShiftQuotient(x, p, q);
    MulLe(1, p, q);
    WrapNegative(d - q);
  }

  /** Taking 2^32 = p q away from x takes q away from its quotient by p. */
  lemma ShiftQuotient(x: int, p: int, q: int)
    requires p >= 1 && q >= 1 && p * q == WORD
    ensures (x - WORD) / p == x / p - q
  {
    var d, r := x / p, x % p;
    assert x - WORD == (d - q) * p + r by {
      assert x == d * p + r;
      assert (d - q) * p == d * p - q * p;
    }
    DivMod(x - WORD, p, d - q, r);
  }

  /** A value just below zero wraps to itself plus 2^32. */
  lemma WrapNegative(v: int)
    requires -WORD <= v < 0
    ensures Wrap(v) == v + WORD
  {
    DivMod(v, WORD, -1, v + WORD);
  }

  /** Floor division by p >= 1 moves a value toward zero without crossing
      it. */
  lemma DivNonNegative(v: int, p: int)
    requires p >= 1 && v >= 0
    ensures 0 <= v / p <= v
  {
    var q := v / p;
    assert q * p <= v;
    if q > v {
      MulLe(v + 1, q, p);
      MulLe(1, p, v + 1);
      assert false;
    }
  }

  lemma DivNegative(v: int, p: int)
    requires p >= 1 && v < 0
    ensures v <= v / p < 0
  {
    var q := v / p;
    assert v < q * p + p;
    if q >= 0 {
      MulLe(0, q, p);
      assert false;
    }
    if q < v {
      MulLe(q, v - 1, p);
      MulLe(1, p, -v);
      assert false;
    }
  }
}
