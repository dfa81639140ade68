/**
  The Yesod machine state of vm/vm.h: sixteen 32-bit registers (the
  program counter in x14, the stack pointer in x15), a flag byte, and a
  byte-addressed memory with its stack size and section bounds.

  Memory is a map from index to byte whose domain is exactly the indices
  below the memory size; an access is defined when its index is a key, and
  an index outside memory is a visible fault rather than undefined
  behaviour. Indices are the source's array subscripts: 32-bit words
  (which wrap) for fetch, car, str and push, and a wider size_t for cdr.
*/
module VmState {
  import opened Words

  const REGISTER_COUNT: nat := 16
  const PC: nat := 14
  const SP: nat := 15

  /** Flag bits: Zero (called nil in the source), Carry, Sign, Overflow.
      Bits 4-7 are reserved. */
  const FLAG_NIL: bv8 := 0x01
  const FLAG_CARRY: bv8 := 0x02
  const FLAG_SIGN: bv8 := 0x04
  const FLAG_OVER: bv8 := 0x08
  const FLAGS_RESERVED: bv8 := 0xF0

  /** The memory: its bytes, its size, the size of the stack region and the
      stack base STACK that push measures the stack pointer from. */
  datatype Memory = Memory(bytes: map<int, Byte>, mSize: Word, sSize: Word, stackBase: Word)
  {
    ghost predicate Valid() {
      forall a :: a in bytes <==> 0 <= a < mSize
    }
  }

  datatype Machine = Machine(
    regs: seq<Word>,
    memory: Memory,
    heap: Word,
    rodata: Word,
    data: Word,
    text: Word,
    flags: bv8)
  {
    ghost predicate Valid() {
      |regs| == REGISTER_COUNT && memory.Valid()
    }
  }

  /** What the source leaves undefined, made an explicit fault: a memory
      index at or beyond the memory size, or a shift by 32 or more. */
  datatype Trap = OutOfBounds(addr: int) | ShiftTooWide(amount: int)

  datatype Result<T> = Ok(value: T) | Fault(trap: Trap)

  /** Flags only accumulate: every bit set before is still set, and the
      reserved bits never change. */
  predicate FlagsGrow(before: bv8, after: bv8) {
    && before & after == before
    && after & FLAGS_RESERVED == before & FLAGS_RESERVED
  }

  /** The flag masks are four distinct single bits, disjoint from the
      reserved ones. */
  lemma FlagMasks()
    ensures FLAG_NIL == 1 << 0 && FLAG_CARRY == 1 << 1 && FLAG_SIGN == 1 << 2 && FLAG_OVER == 1 << 3
    ensures (FLAG_NIL | FLAG_CARRY | FLAG_SIGN | FLAG_OVER) & FLAGS_RESERVED == 0
  {
  }

  lemma FlagsGrowTransitive(a: bv8, b: bv8, c: bv8)
    requires FlagsGrow(a, b) && FlagsGrow(b, c)
    ensures FlagsGrow(a, c)
  {
  }

  // ---------------------------------------------------------------------
  // Memory access

  /** The byte at an index, or a fault when it lies outside memory. */
  function Load(mem: Memory, i: int): (r: Result<Byte>)
    ensures r.Ok? <==> i in mem.bytes
    ensures r.Ok? ==> r.value == mem.bytes[i]
    ensures r.Fault? ==> r.trap == OutOfBounds(i)
  {
    if i in mem.bytes then Ok(mem.bytes[i]) else Fault(OutOfBounds(i))
  }

  /** Writes one byte, or faults when the index lies outside memory; no
      other byte and no size changes. */
  function Store(mem: Memory, i: int, v: Byte): (r: Result<Memory>)
    ensures r.Ok? <==> i in mem.bytes
    ensures r.Ok? ==> r.value.bytes.Keys == mem.bytes.Keys
    ensures r.Ok? ==> r.value.bytes[i] == v
    ensures r.Ok? ==> forall a :: a in mem.bytes && a != i ==> r.value.bytes[a] == mem.bytes[a]
    ensures r.Ok? ==> r.value.mSize == mem.mSize && r.value.sSize == mem.sSize && r.value.stackBase == mem.stackBase
    ensures r.Fault? ==> r.trap == OutOfBounds(i)
  {
    if i in mem.bytes then Ok(mem.(bytes := mem.bytes[i := v])) else Fault(OutOfBounds(i))
  }

  /** A store leaves a valid memory valid. */
  lemma StoreKeepsValid(mem: Memory, i: int, v: Byte)
    requires mem.Valid() && Store(mem, i, v).Ok?
    ensures Store(mem, i, v).value.Valid()
  {
  }

  /** A store followed by a load of the same index gives back the byte. */
  lemma LoadAfterStore(mem: Memory, i: int, j: int, v: Byte)
    requires Store(mem, i, v).Ok?
    ensures Load(Store(mem, i, v).value, j) == if i == j then Ok(v) else Load(mem, j)
  {
  }

  // ---------------------------------------------------------------------
  // Words in memory, least significant byte first

  /** The weight of byte k of a word: 2^(8k). */
  function ByteWeight(k: nat): (w: nat)
    requires k < 4
  {
    if k == 0 then 1 else if k == 1 then 0x100 else if k == 2 then 0x1_0000 else 0x100_0000
  }

  /** Assembles four bytes, least significant first, as fetch does. */
  function Bytes4(b0: Byte, b1: Byte, b2: Byte, b3: Byte): (w: Word) {
    b0 + 0x100 * b1 + 0x1_0000 * b2 + 0x100_0000 * b3
  }

  /** The byte of x at position k (0 = least significant): the source's
      (uint8_t)(x >> 8k). */
  function ByteOf(x: Word, k: nat): (b: Byte)
    requires k < 4
  {
    (x / ByteWeight(k)) % 0x100
  }

  /** A word is its four bytes. */
  lemma BytesOfWord(x: Word)
    ensures Bytes4(ByteOf(x, 0), ByteOf(x, 1), ByteOf(x, 2), ByteOf(x, 3)) == x
  {
    var b0, q1 := x % 0x100, x / 0x100;
    var b1, q2 := q1 % 0x100, q1 / 0x100;
    var b2, b3 := q2 % 0x100, q2 / 0x100;
    assert x == b0 + 0x100 * b1 + 0x1_0000 * b2 + 0x100_0000 * b3;
    DivMod(x, 0x1_0000, q2, b0 + 0x100 * b1);
    DivMod(x, 0x100_0000, b3, b0 + 0x100 * b1 + 0x1_0000 * b2);
  }

  /** Four bytes are the bytes of the word they assemble. */
  lemma WordOfBytes(b0: Byte, b1: Byte, b2: Byte, b3: Byte)
    ensures ByteOf(Bytes4(b0, b1, b2, b3), 0) == b0
    ensures ByteOf(Bytes4(b0, b1, b2, b3), 1) == b1
    ensures ByteOf(Bytes4(b0, b1, b2, b3), 2) == b2
    ensures ByteOf(Bytes4(b0, b1, b2, b3), 3) == b3
  {
    var x := Bytes4(b0, b1, b2, b3);
    DivMod(x, 0x100, b1 + 0x100 * b2 + 0x1_0000 * b3, b0);
    DivMod(x / 0x100, 0x100, b2 + 0x100 * b3, b1);
    DivMod(x, 0x1_0000, b2 + 0x100 * b3, b0 + 0x100 * b1);
    DivMod(x / 0x1_0000, 0x100, b3, b2);
    DivMod(x, 0x100_0000, b3, b0 + 0x100 * b1 + 0x1_0000 * b2);
    DivMod(b3, 0x100, 0, b3);
  }

  /** The four indices of the word at addr, the index arithmetic wrapping
      at 32 bits as the source's uint32_t sums do. */
  predicate WordInMemory(mem: Memory, addr: Word) {
    && Wrap(addr) in mem.bytes
    && Wrap(addr + 1) in mem.bytes
    && Wrap(addr + 2) in mem.bytes
    && Wrap(addr + 3) in mem.bytes
  }

  /** The little-endian word at addr..addr+3, or a fault at the first index
      outside memory. */
  function LoadWord(mem: Memory, addr: Word): (r: Result<Word>)
    ensures r.Ok? <==> WordInMemory(mem, addr)
    ensures r.Ok? ==> ByteOf(r.value, 0) == mem.bytes[addr]
    ensures r.Ok? ==> ByteOf(r.value, 1) == mem.bytes[Wrap(addr + 1)]
    ensures r.Ok? ==> ByteOf(r.value, 2) == mem.bytes[Wrap(addr + 2)]
    ensures r.Ok? ==> ByteOf(r.value, 3) == mem.bytes[Wrap(addr + 3)]
    ensures r.Fault? ==> r.trap.OutOfBounds?
  {
    var i0, i1, i2, i3 := addr, Wrap(addr + 1), Wrap(addr + 2), Wrap(addr + 3);
    if i0 !in mem.bytes then Fault(OutOfBounds(i0))
    else if i1 !in mem.bytes then Fault(OutOfBounds(i1))
    else if i2 !in mem.bytes then Fault(OutOfBounds(i2))
    else if i3 !in mem.bytes then Fault(OutOfBounds(i3))
    else
      var b0, b1, b2, b3 := mem.bytes[i0], mem.bytes[i1], mem.bytes[i2], mem.bytes[i3];
      WordOfBytes(b0, b1, b2, b3);
      Ok(Bytes4(b0, b1, b2, b3))
  }

  /** The four indices of a word are distinct, even where they wrap past
      2^32. */
  lemma WordIndicesDistinct(addr: Word)
    ensures addr != Wrap(addr + 1) && addr != Wrap(addr + 2) && addr != Wrap(addr + 3)
    ensures Wrap(addr + 1) != Wrap(addr + 2) && Wrap(addr + 1) != Wrap(addr + 3)
    ensures Wrap(addr + 2) != Wrap(addr + 3)
  {
    WrapOnce(addr + 1);
    WrapOnce(addr + 2);
    WrapOnce(addr + 3);
  }

  /** Two words with the same four bytes are equal. */
  lemma SameBytesSameWord(a: Word, b: Word)
    requires forall k :: 0 <= k < 4 ==> ByteOf(a, k) == ByteOf(b, k)
    ensures a == b
  {
    BytesOfWord(a);
    BytesOfWord(b);
    assert ByteOf(a, 0) == ByteOf(b, 0) && ByteOf(a, 1) == ByteOf(b, 1);
    assert ByteOf(a, 2) == ByteOf(b, 2) && ByteOf(a, 3) == ByteOf(b, 3);
  }

  /** The indices a word at addr occupies. */
  function WordIndices(addr: Word): set<int> {
    {addr, Wrap(addr + 1), Wrap(addr + 2), Wrap(addr + 3)}
  }

  /** Writes x little-endian at addr..addr+3 (indices wrapping), or faults
      at the first index outside memory. Reading the word back gives x, and
      no byte outside the four changes. */
  function StoreWord(mem: Memory, addr: Word, x: Word): (r: Result<Memory>)
    ensures r.Ok? <==> WordInMemory(mem, addr)
    ensures r.Ok? ==> LoadWord(r.value, addr) == Ok(x)
    ensures r.Ok? ==> r.value.bytes.Keys == mem.bytes.Keys
    ensures r.Ok? ==> r.value.mSize == mem.mSize && r.value.sSize == mem.sSize && r.value.stackBase == mem.stackBase
    ensures r.Ok? ==> forall a :: a in mem.bytes && a !in WordIndices(addr) ==> r.value.bytes[a] == mem.bytes[a]
    ensures r.Fault? ==> r.trap.OutOfBounds?
  {
    WordIndicesDistinct(addr);
    match Store(mem, addr, ByteOf(x, 0))
    case Fault(t) => Fault(t)
    case Ok(m0) =>
      match Store(m0, Wrap(addr + 1), ByteOf(x, 1))
      case Fault(t) => Fault(t)
      case Ok(m1) =>
        match Store(m1, Wrap(addr + 2), ByteOf(x, 2))
        case Fault(t) => Fault(t)
        case Ok(m2) =>
          match Store(m2, Wrap(addr + 3), ByteOf(x, 3))
          case Fault(t) => Fault(t)
          case Ok(m3) =>
            var w := LoadWord(m3, addr);
            assert w.Ok?;
            SameBytesSameWord(w.value, x);
            Ok(m3)
  }

  /** A store of a word leaves a valid memory valid. */
  lemma StoreWordKeepsValid(mem: Memory, addr: Word, x: Word)
    requires mem.Valid() && WordInMemory(mem, addr)
    ensures StoreWord(mem, addr, x).Ok? && StoreWord(mem, addr, x).value.Valid()
  {
  }
}
