/**
  The register operations of vm/cycle.c: partial_flagset, mov, add, sub,
  and, or, xor, car, cdr, str and cmp.

  Every operation that writes a register then ORs the Zero and Sign flags
  in from the value written; add and sub first OR in Overflow and Carry.
  No operation ever clears a flag. The memory operations fault on an index
  outside memory, where the source's behaviour is undefined.
*/
module Alu {
  import opened Words
  import opened Bits
  import opened SignedWords
  import opened VmState

  /** partial_flagset, given the value just written: Zero is raised when it
      is zero and Sign when its top bit is set, that is, on the words from
      2^31 up (PartialFlagsetSignBit states it bit by bit); Carry and
      Overflow are left as they were. */
  function PartialFlagset(f: bv8, v: Word): (g: bv8)
    ensures FlagsGrow(f, g)
    ensures g & FLAG_NIL != 0 <==> f & FLAG_NIL != 0 || v == 0
    ensures g & FLAG_SIGN != 0 <==> f & FLAG_SIGN != 0 || v >= HALF
    ensures g & FLAG_CARRY == f & FLAG_CARRY
    ensures g & FLAG_OVER == f & FLAG_OVER
  {
    f | (if v == 0 then FLAG_NIL else 0) | (if v >= HALF then FLAG_SIGN else 0)
  }

  /** The Sign test as the source writes it, a mask of bit 31. */
  lemma PartialFlagsetSignBit(f: bv8, v: Word)
    ensures PartialFlagset(f, v) & FLAG_SIGN != 0 <==> f & FLAG_SIGN != 0 || Bit(v, 31)
  {
    SignBit(v);
  }

  /** The Overflow and Carry part of add and sub: Overflow when ov holds,
      Carry when cy holds, Zero and Sign untouched. */
  function ArithmeticFlags(f: bv8, ov: bool, cy: bool): (g: bv8)
    ensures FlagsGrow(f, g)
    ensures g & FLAG_OVER != 0 <==> f & FLAG_OVER != 0 || ov
    ensures g & FLAG_CARRY != 0 <==> f & FLAG_CARRY != 0 || cy
    ensures g & FLAG_NIL == f & FLAG_NIL
    ensures g & FLAG_SIGN == f & FLAG_SIGN
  {
    f | (if ov then FLAG_OVER else 0) | (if cy then FLAG_CARRY else 0)
  }

  /** The Carry test of add: both operands above HALF_UINT32_T, that is,
      both with the top bit set. */
  predicate AddCarry(a: Word, x: Word) {
    x >= HALF && a >= HALF
  }

  /** The flags add leaves: Overflow from overflow_add, Carry from
      AddCarry, then Zero and Sign from the wrapped sum. */
  function AddFlags(f: bv8, a: Word, x: Word): (g: bv8)
    ensures FlagsGrow(f, g)
    ensures g & FLAG_OVER != 0 <==> f & FLAG_OVER != 0 || OverflowAdd(a, x)
    ensures g & FLAG_CARRY != 0 <==> f & FLAG_CARRY != 0 || AddCarry(a, x)
    ensures g & FLAG_NIL != 0 <==> f & FLAG_NIL != 0 || Wrap(a + x) == 0
    ensures g & FLAG_SIGN != 0 <==> f & FLAG_SIGN != 0 || Wrap(a + x) >= HALF
  {
    var o := ArithmeticFlags(f, OverflowAdd(a, x), AddCarry(a, x));
    var g := PartialFlagset(o, Wrap(a + x));
    FlagsGrowTransitive(f, o, g);
    g
  }

  /** The flags sub leaves: Overflow from overflow_sub, Carry when x is
      below the old value, then Zero and Sign from the wrapped difference. */
  function SubFlags(f: bv8, a: Word, x: Word): (g: bv8)
    ensures FlagsGrow(f, g)
    ensures g & FLAG_OVER != 0 <==> f & FLAG_OVER != 0 || OverflowSub(a, x)
    ensures g & FLAG_CARRY != 0 <==> f & FLAG_CARRY != 0 || x < a
    ensures g & FLAG_NIL != 0 <==> f & FLAG_NIL != 0 || Wrap(a - x) == 0
    ensures g & FLAG_SIGN != 0 <==> f & FLAG_SIGN != 0 || Wrap(a - x) >= HALF
  {
    var o := ArithmeticFlags(f, OverflowSub(a, x), x < a);
    var g := PartialFlagset(o, Wrap(a - x));
    FlagsGrowTransitive(f, o, g);
    g
  }

  /** m2 differs from m at most in register rd and the flags. */
  ghost predicate RegisterFrame(m: Machine, m2: Machine, rd: nat) {
    && |m2.regs| == |m.regs|
    && (forall i :: 0 <= i < |m.regs| && i != rd ==> m2.regs[i] == m.regs[i])
    && m2.memory == m.memory
    && m2.heap == m.heap && m2.rodata == m.rodata && m2.data == m.data && m2.text == m.text
  }

  /** The register write every operation but str ends in. */
  function Write(m: Machine, rd: nat, v: Word, f: bv8): (m2: Machine)
    requires m.Valid() && rd < 16
    ensures m2.Valid() && RegisterFrame(m, m2, rd)
    ensures m2.regs[rd] == v && m2.flags == f
  {
    m.(regs := m.regs[rd := v], flags := f)
  }

  // ---------------------------------------------------------------------
  // The operations. Each names the flags it leaves; what those flags are
  // is stated once, above.

  /** mov: the register takes x. */
  function Mov(m: Machine, rd: nat, x: Word): (m2: Machine)
    requires m.Valid() && rd < 16
    ensures m2.Valid() && RegisterFrame(m, m2, rd)
    ensures m2.regs[rd] == x
    ensures m2.flags == PartialFlagset(m.flags, x)
  {
    Write(m, rd, x, PartialFlagset(m.flags, x))
  }

  /** add: the register takes the sum modulo 2^32. */
  function Add(m: Machine, rd: nat, x: Word): (m2: Machine)
    requires m.Valid() && rd < 16
    ensures m2.Valid() && RegisterFrame(m, m2, rd)
    ensures m2.regs[rd] == (m.regs[rd] + x) % WORD
    ensures m2.flags == AddFlags(m.flags, m.regs[rd], x)
  {
    Write(m, rd, Wrap(m.regs[rd] + x), AddFlags(m.flags, m.regs[rd], x))
  }

  /** sub: the register takes the difference modulo 2^32. */
  function Sub(m: Machine, rd: nat, x: Word): (m2: Machine)
    requires m.Valid() && rd < 16
    ensures m2.Valid() && RegisterFrame(m, m2, rd)
    ensures m2.regs[rd] == (m.regs[rd] - x) % WORD
    ensures m2.flags == SubFlags(m.flags, m.regs[rd], x)
  {
    Write(m, rd, Wrap(m.regs[rd] - x), SubFlags(m.flags, m.regs[rd], x))
  }

  /** and: the register keeps the bits it shares with x. */
  function And(m: Machine, rd: nat, x: Word): (m2: Machine)
    requires m.Valid() && rd < 16
    ensures m2.Valid() && RegisterFrame(m, m2, rd)
    ensures forall i :: Bit(m2.regs[rd], i) == (Bit(m.regs[rd], i) && Bit(x, i))
    ensures m2.flags == PartialFlagset(m.flags, m2.regs[rd])
  {
    var v := AndWord(m.regs[rd], x);
    Write(m, rd, v, PartialFlagset(m.flags, v))
  }

  /** or: the register gains the bits of x. */
  function Or(m: Machine, rd: nat, x: Word): (m2: Machine)
    requires m.Valid() && rd < 16
    ensures m2.Valid() && RegisterFrame(m, m2, rd)
    ensures forall i :: Bit(m2.regs[rd], i) == (Bit(m.regs[rd], i) || Bit(x, i))
    ensures m2.flags == PartialFlagset(m.flags, m2.regs[rd])
  {
    var v := OrWord(m.regs[rd], x);
    Write(m, rd, v, PartialFlagset(m.flags, v))
  }

  /** xor: the register's bits are flipped where x is set. */
  function Xor(m: Machine, rd: nat, x: Word): (m2: Machine)
    requires m.Valid() && rd < 16
    ensures m2.Valid() && RegisterFrame(m, m2, rd)
    ensures forall i :: Bit(m2.regs[rd], i) == (Bit(m.regs[rd], i) != Bit(x, i))
    ensures m2.flags == PartialFlagset(m.flags, m2.regs[rd])
  {
    var v := XorWord(m.regs[rd], x);
    Write(m, rd, v, PartialFlagset(m.flags, v))
  }

  /** car: the register takes the byte at index x, or a fault when the
      index lies outside memory. */
  function Car(m: Machine, rd: nat, x: Word): (r: Result<Machine>)
    requires m.Valid() && rd < 16
    ensures r.Ok? <==> x < m.memory.mSize
    ensures r.Ok? ==> r.value.Valid() && RegisterFrame(m, r.value, rd)
    ensures r.Ok? ==> r.value.regs[rd] == m.memory.bytes[x]
    ensures r.Ok? ==> r.value.flags == PartialFlagset(m.flags, r.value.regs[rd])
    ensures r.Fault? ==> r.trap == OutOfBounds(x)
  {
    match Load(m.memory, x)
    case Ok(b) => Ok(Write(m, rd, b, PartialFlagset(m.flags, b)))
    case Fault(t) => Fault(t)
  }

  /** cdr: the register takes the byte four past index x; the source adds
      the size of a word in size_t, so the index does not wrap. */
  function Cdr(m: Machine, rd: nat, x: Word): (r: Result<Machine>)
    requires m.Valid() && rd < 16
    ensures r.Ok? <==> x + 4 < m.memory.mSize
    ensures r.Ok? ==> r.value.Valid() && RegisterFrame(m, r.value, rd)
    ensures r.Ok? ==> r.value.regs[rd] == m.memory.bytes[x + 4]
    ensures r.Ok? ==> r.value.flags == PartialFlagset(m.flags, r.value.regs[rd])
    ensures r.Fault? ==> r.trap == OutOfBounds(x + 4)
  {
    match Load(m.memory, x + 4)
    case Ok(b) => Ok(Write(m, rd, b, PartialFlagset(m.flags, b)))
    case Fault(t) => Fault(t)
  }

  /** str: the low byte of x is stored at the index held in register rd.
      Exactly that byte changes: no register, no flag and no other byte. */
  function Str(m: Machine, rd: nat, x: Word): (r: Result<Machine>)
    requires m.Valid() && rd < 16
    ensures r.Ok? <==> m.regs[rd] < m.memory.mSize
    ensures r.Ok? ==> r.value.Valid()
    ensures r.Ok? ==> r.value.regs == m.regs && r.value.flags == m.flags
    ensures r.Ok? ==> r.value.memory.bytes.Keys == m.memory.bytes.Keys
    ensures r.Ok? ==> r.value.memory.bytes[m.regs[rd]] == x % 0x100
    ensures r.Ok? ==> forall a :: a in m.memory.bytes && a != m.regs[rd] ==>
                        r.value.memory.bytes[a] == m.memory.bytes[a]
    ensures r.Fault? ==> r.trap == OutOfBounds(m.regs[rd])
  {
    match Store(m.memory, m.regs[rd], x % 0x100)
    case Ok(mem) =>
      StoreKeepsValid(m.memory, m.regs[rd], x % 0x100);
      Ok(m.(memory := mem))
    case Fault(t) => Fault(t)
  }

  /** cmp: x0 takes the value of register rx and y is subtracted from it,
      with sub's flags. Every other register, memory and the sections are
      as before. */
  function Cmp(m: Machine, rx: nat, y: Word): (m2: Machine)
    requires m.Valid() && rx < 16
    ensures m2.Valid() && RegisterFrame(m, m2, 0)
    ensures m2.regs[0] == (m.regs[rx] - y) % WORD
    ensures m2.flags == SubFlags(m.flags, m.regs[rx], y)
  {
    var m1 := m.(regs := m.regs[0 := m.regs[rx]]);
    assert m1.regs[0] == m.regs[rx];
    Sub(m1, 0, y)
  }

  // ---------------------------------------------------------------------
  // Properties relating operations

  /** The Overflow flag of add, in terms of the operands' signs: it is
      raised exactly when two operands of one sign give a sum of the
      other. */
  lemma AddOverflowFlag(f: bv8, a: Word, x: Word)
    ensures AddFlags(f, a, x) & FLAG_OVER != 0 <==>
              f & FLAG_OVER != 0 || ((a >= HALF) == (x >= HALF) && (Wrap(a + x) >= HALF) != (a >= HALF))
  {
    OverflowAddSignRule(a, x);
  }

  /** The Overflow flag of sub: raised exactly when operands of opposite
      signs give a difference with the sign of the subtrahend. */
  lemma SubOverflowFlag(f: bv8, a: Word, x: Word)
    ensures SubFlags(f, a, x) & FLAG_OVER != 0 <==>
              f & FLAG_OVER != 0 || ((a >= HALF) != (x >= HALF) && (Wrap(a - x) >= HALF) != (a >= HALF))
  {
    OverflowSubSignRule(a, x);
  }

  /** Whenever add's Carry test fires, the unsigned sum really does pass
      2^32. */
  lemma AddCarryMeansWrap(a: Word, x: Word)
    requires AddCarry(a, x)
    ensures a + x >= WORD && Wrap(a + x) == a + x - WORD
  {
    DivMod(a + x, WORD, 1, a + x - WORD);
  }

  /** The converse fails: 0xFFFFFFFF + 1 wraps to zero and yet Carry is
      left as it was. */
  lemma AddCarryMissesWrap(f: bv8)
    ensures 0xFFFF_FFFF + 1 >= WORD && Wrap(0xFFFF_FFFF + 1) == 0
    ensures AddFlags(f, 0xFFFF_FFFF, 1) & FLAG_CARRY == f & FLAG_CARRY
  {
  }

  /** cmp raises Zero exactly when the two operands are equal (or Zero was
      already set). */
  lemma CmpZeroIffEqual(m: Machine, rx: nat, y: Word)
    requires m.Valid() && rx < 16
    ensures Cmp(m, rx, y).flags & FLAG_NIL != 0 <==> m.flags & FLAG_NIL != 0 || m.regs[rx] == y
  {
    var a := m.regs[rx];
    if Wrap(a - y) == 0 && a != y {
      if a > y {
        DivMod(a - y, WORD, 0, a - y);
      } else {
        DivMod(a - y, WORD, -1, a - y + WORD);
      }
      assert false;
    }
  }

  /** Adding x and then subtracting it restores every register. */
  lemma AddThenSubRestores(m: Machine, rd: nat, x: Word)
    requires m.Valid() && rd < 16
    ensures Sub(Add(m, rd, x), rd, x).regs == m.regs
    ensures FlagsGrow(m.flags, Sub(Add(m, rd, x), rd, x).flags)
  {
    var m1 := Add(m, rd, x);
    var m2 := Sub(m1, rd, x);
    var back := -(x as int);
    WrapAddLeft(m.regs[rd] + x, back);
    assert m2.regs[rd] == m.regs[rd];
    assert forall i :: 0 <= i < |m.regs| ==> m2.regs[i] == m.regs[i];
    FlagsGrowTransitive(m.flags, m1.flags, m2.flags);
  }

  /** xor with the same operand twice restores every register. */
  lemma XorTwiceRestores(m: Machine, rd: nat, x: Word)
    requires m.Valid() && rd < 16
    ensures Xor(Xor(m, rd, x), rd, x).regs == m.regs
  {
    var m2 := Xor(Xor(m, rd, x), rd, x);
    XorTwice(m.regs[rd], x);
    assert forall i :: 0 <= i < |m.regs| ==> m2.regs[i] == m.regs[i];
  }

  /** and with the same operand a second time changes no register. */
  lemma AndIdempotentRegs(m: Machine, rd: nat, x: Word)
    requires m.Valid() && rd < 16
    ensures And(And(m, rd, x), rd, x).regs == And(m, rd, x).regs
  {
    var a := And(m, rd, x);
    AndIdempotent(m.regs[rd], x);
    assert forall i :: 0 <= i < |m.regs| ==> And(a, rd, x).regs[i] == a.regs[i];
  }

  /** or with the same operand a second time changes no register. */
  lemma OrIdempotentRegs(m: Machine, rd: nat, x: Word)
    requires m.Valid() && rd < 16
    ensures Or(Or(m, rd, x), rd, x).regs == Or(m, rd, x).regs
  {
    var o := Or(m, rd, x);
    OrIdempotent(m.regs[rd], x);
    assert forall i :: 0 <= i < |m.regs| ==> Or(o, rd, x).regs[i] == o.regs[i];
  }

  /** add of 0x80000000 twice to a zero register: the first sum, -2^31 as
      an int32_t, fits and only raises Sign; the second, -2^32, does not,
      so it raises Overflow, and with the wrapped sum 0 it raises Zero
      (and Carry, both operands having the top bit set). Sign stays set
      although the final value is not negative. */
  lemma AddTwiceOverflows(m: Machine, rd: nat)
    requires m.Valid() && rd < 16 && m.regs[rd] == 0 && m.flags & FLAG_OVER == 0
    ensures Add(m, rd, 0x8000_0000).regs[rd] == 0x8000_0000
    ensures Add(m, rd, 0x8000_0000).flags & FLAG_OVER == 0
    ensures Add(m, rd, 0x8000_0000).flags & FLAG_SIGN != 0
    ensures Add(Add(m, rd, 0x8000_0000), rd, 0x8000_0000).regs[rd] == 0
    ensures Add(Add(m, rd, 0x8000_0000), rd, 0x8000_0000).flags & FLAG_OVER != 0
    ensures Add(Add(m, rd, 0x8000_0000), rd, 0x8000_0000).flags & FLAG_NIL != 0
    ensures Add(Add(m, rd, 0x8000_0000), rd, 0x8000_0000).flags & FLAG_SIGN != 0
    ensures Add(Add(m, rd, 0x8000_0000), rd, 0x8000_0000).flags & FLAG_CARRY != 0
  {
    OverflowAddOutOfRange(0, 0x8000_0000);
    OverflowAddOutOfRange(0x8000_0000, 0x8000_0000);
  }

  /** A byte stored by str is read back by car: of the word stored only its
      low eight bits survive. */
  lemma StrThenCar(m: Machine, rd: nat, x: Word, rd2: nat)
    requires m.Valid() && rd < 16 && rd2 < 16
    requires Str(m, rd, x).Ok?
    ensures Car(Str(m, rd, x).value, rd2, m.regs[rd]).Ok?
    ensures Car(Str(m, rd, x).value, rd2, m.regs[rd]).value.regs[rd2] == x % 0x100
  {
  }
}
