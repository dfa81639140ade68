/**
  The four instruction-class handlers of vm/cycle.c (cycle1 to cycle4) and
  push. Each handler returns the machine it leaves and the code it
  returns: 0 to continue, the operand for a halt, 1 for an opcode the
  class does not implement or a push onto a full stack.

  A handler whose condition fails returns 0 and changes nothing. Otherwise
  the operand is formed (classes I and III: register, shift, fit; class
  II: the immediate, optionally moved to the upper half; class IV: the
  immediate with a register in the upper half), and the opcode is
  dispatched.
*/
module Execute {
  import opened Words
  import opened Bits
  import opened VmState
  import opened Decoder
  import opened Operand
  import opened Alu

  datatype Outcome = Outcome(machine: Machine, code: Word)

  // ---------------------------------------------------------------------
  // Operands

  /** A 16-bit immediate field as a word. */
  function Imm16(imm: bv32): (v: Word)
    requires imm < 0x1_0000
    ensures v < 0x1_0000
  {
    (imm as bv16) as int
  }

  /** The shift amount of classes I and III: the immediate in the word, or
      the low byte of register rh (the source's cast to uint8_t). */
  function ShiftAmountOf(m: Machine, a: ShiftAmount): (s: nat)
    requires m.Valid() && WellFormedAmount(a)
    ensures s < 0x100
  {
    match a
    case ShiftByImm(n) => n as int
    case ShiftByReg(rh) => m.regs[rh] % 0x100
  }

  /** The operand of classes I and III: x shifted, then fitted to the
      size. A real shift by 32 or more, which C leaves undefined, is a
      fault; the fitted operand is below 2^bits of the size. */
  function ShapeOperand(x: Word, st: Shift, s: nat, z: OpSize): (r: Result<Word>)
    ensures r.Fault? <==> st != NoShift && s >= 32
    ensures r.Fault? ==> r.trap == ShiftTooWide(s)
    ensures r.Ok? ==> r.value < Pow2(SizeBits(z))
    ensures r.Ok? && st == NoShift ==> r.value == x % Pow2(SizeBits(z))
  {
    if st != NoShift && s >= 32 then Fault(ShiftTooWide(s))
    else Ok(Fit(ShiftValue(x, st, s), z))
  }

  /** The class II operand: the 16-bit immediate, moved to the upper half
      when uplo is set. */
  function ImmediateOperand(imm: Word, uplo: bool): (src: Word)
    requires imm < 0x1_0000
    ensures uplo ==> src == imm * 0x1_0000
    ensures uplo ==> src % 0x1_0000 == 0 && src / 0x1_0000 == imm
    ensures !uplo ==> src == imm
  {
    if uplo then
      Pow2Values();
      ShiftLeftThenRight(imm, 16);
      ShiftLeftFillsZeros(imm, 16);
      DivMod(imm, 0x1_0000, 0, imm);
      ShiftLeft(imm, 16)
    else imm
  }

  /** The class IV operand: the 16-bit immediate ORed with register value
      hi shifted into the upper half. The two do not overlap, so the or is
      the sum of the immediate and the low 16 bits of hi times 2^16. */
  function ImmediateBranchOperand(imm: Word, hi: Word): (src: Word)
    requires imm < 0x1_0000
    ensures src == imm + (hi % 0x1_0000) * 0x1_0000
  {
    Pow2Values();
    ShiftLeftFillsZeros(hi, 16);
    OrDisjoint(imm, ShiftLeft(hi, 16), 16);
    UpperHalf(hi);
    OrWord(imm, ShiftLeft(hi, 16))
  }

  /** hi << 16 keeps the low half of hi, moved up. */
  lemma UpperHalf(hi: Word)
    ensures ShiftLeft(hi, 16) == (hi % 0x1_0000) * 0x1_0000
  {
    Pow2Values();
    var d, r := hi / 0x1_0000, hi % 0x1_0000;
    assert hi * 0x1_0000 == d * WORD + r * 0x1_0000;
    DivMod(hi * 0x1_0000, WORD, d, r * 0x1_0000);
  }

  // ---------------------------------------------------------------------
  // Register operations, shared by classes I and II

  /** The opcodes mov to cmp: the operation on register rd with operand
      src, then code 0. car, cdr and str fault on an index outside memory.
      Any other opcode returns 1 and changes nothing. */
  function RegisterOp(m: Machine, op: bv32, rd: nat, src: Word): (r: Result<Outcome>)
    requires m.Valid() && rd < 16
    ensures !IsRegisterOp(op) ==> r == Ok(Outcome(m, 1))
    ensures IsRegisterOp(op) && r.Ok? ==> r.value.code == 0
    ensures r.Ok? ==> r.value.machine.Valid() && FlagsGrow(m.flags, r.value.machine.flags)
    ensures r.Fault? ==> op == CAR || op == CDR || op == STR
  {
    if op == MOV then Ok(Outcome(Mov(m, rd, src), 0))
    else if op == ADD then Ok(Outcome(Add(m, rd, src), 0))
    else if op == SUB then Ok(Outcome(Sub(m, rd, src), 0))
    else if op == AND then Ok(Outcome(And(m, rd, src), 0))
    else if op == OR then Ok(Outcome(Or(m, rd, src), 0))
    else if op == XOR then Ok(Outcome(Xor(m, rd, src), 0))
    else if op == CAR then Lift(Car(m, rd, src))
    else if op == CDR then Lift(Cdr(m, rd, src))
    else if op == STR then Lift(Str(m, rd, src))
    else if op == CMP then Ok(Outcome(Cmp(m, rd, src), 0))
    else Ok(Outcome(m, 1))
  }

  /** A register operation changes no register other than its destination
      and x0 (which cmp uses as its scratch register). */
  lemma RegisterOpKeepsOthers(m: Machine, op: bv32, rd: nat, src: Word, r: nat)
    requires m.Valid() && rd < 16 && r < 16 && r != rd && r != 0
    requires RegisterOp(m, op, rd, src).Ok?
    ensures RegisterOp(m, op, rd, src).value.machine.regs[r] == m.regs[r]
  {
  }

  /** A machine from an operation that may fault, with code 0. */
  function Lift(r: Result<Machine>): (o: Result<Outcome>)
    ensures o.Ok? <==> r.Ok?
    ensures o.Ok? ==> o.value == Outcome(r.value, 0)
    ensures o.Fault? ==> o.trap == r.trap
  {
    match r
    case Ok(m) => Ok(Outcome(m, 0))
    case Fault(t) => Fault(t)
  }

  // ---------------------------------------------------------------------
  // push and the jumps, shared by classes III and IV

  /** Whether push finds the stack full: the distance of the stack pointer
      from the stack base, in wrapping 32-bit arithmetic, exceeds the stack
      size. */
  predicate StackFull(m: Machine)
    requires m.Valid()
  {
    Wrap(m.regs[SP] - m.memory.stackBase) > m.memory.sSize
  }

  /** m2 differs from m at most in the stack pointer and the bytes of the
      word at addr. */
  ghost predicate PushFrame(m: Machine, m2: Machine, addr: Word) {
    && |m2.regs| == |m.regs|
    && (forall i :: 0 <= i < |m.regs| && i != SP ==> m2.regs[i] == m.regs[i])
    && m2.memory.bytes.Keys == m.memory.bytes.Keys
    && (forall a :: a in m.memory.bytes && a !in WordIndices(addr) ==> m2.memory.bytes[a] == m.memory.bytes[a])
    && m2.memory.mSize == m.memory.mSize && m2.memory.sSize == m.memory.sSize
    && m2.memory.stackBase == m.memory.stackBase
    && m2.heap == m.heap && m2.rodata == m.rodata && m2.data == m.data && m2.text == m.text
    && m2.flags == m.flags
  }

  /** push: on a full stack, code 1 and nothing changes. Otherwise x is
      stored little-endian at the stack pointer (the indices wrapping),
      which then advances by four, and the code is 0; a store outside
      memory faults. */
  function Push(m: Machine, x: Word): (r: Result<Outcome>)
    requires m.Valid()
    ensures StackFull(m) ==> r == Ok(Outcome(m, 1))
    ensures r.Ok? ==> r.value.machine.Valid() && PushFrame(m, r.value.machine, m.regs[SP])
    ensures !StackFull(m) ==> (r.Ok? <==> WordInMemory(m.memory, m.regs[SP]))
    ensures !StackFull(m) && r.Ok? ==> r.value.code == 0
    ensures !StackFull(m) && r.Ok? ==> LoadWord(r.value.machine.memory, m.regs[SP]) == Ok(x)
    ensures !StackFull(m) && r.Ok? ==> r.value.machine.regs[SP] == (m.regs[SP] + 4) % WORD
  {
    if StackFull(m) then Ok(Outcome(m, 1))
    else
      var w := PushWord(m, x);
      if w.Fault? then Fault(w.trap) else Ok(Outcome(w.value, 0))
  }

  /** The store and stack-pointer update of a push that found room. */
  function PushWord(m: Machine, x: Word): (r: Result<Machine>)
    requires m.Valid()
    ensures r.Ok? <==> WordInMemory(m.memory, m.regs[SP])
    ensures r.Ok? ==> r.value.Valid() && PushFrame(m, r.value, m.regs[SP])
    ensures r.Ok? ==> LoadWord(r.value.memory, m.regs[SP]) == Ok(x)
    ensures r.Ok? ==> r.value.regs[SP] == (m.regs[SP] + 4) % WORD
  {
    var sp := m.regs[SP];
    match StoreWord(m.memory, sp, x)
    case Fault(t) => Fault(t)
    case Ok(mem) =>
      StoreWordKeepsValid(m.memory, sp, x);
      Ok(m.(memory := mem, regs := m.regs[SP := Wrap(sp + 4)]))
  }

  /** The jump of classes III and IV on a machine whose PC has already
      advanced past the instruction: JA sets PC to src, JR adds src - 4 to
      it (both in wrapping 32-bit arithmetic). Other opcodes return 1. */
  function Jump(m: Machine, op: bv32, src: Word): (o: Outcome)
    requires m.Valid()
    ensures o.machine.Valid() && RegisterFrame(m, o.machine, PC) && o.machine.flags == m.flags
    ensures op == JA ==> o == Outcome(m.(regs := m.regs[PC := src]), 0)
    ensures op == JR ==> o.code == 0 && o.machine.regs[PC] == (m.regs[PC] + src - 4) % WORD
    ensures !IsJump(op) ==> o == Outcome(m, 1)
  {
    if op == JA then Outcome(m.(regs := m.regs[PC := src]), 0)
    else if op == JR then
      WrapAddRight(m.regs[PC], src - 4);
      Outcome(m.(regs := m.regs[PC := Wrap(m.regs[PC] + Wrap(src - 4))]), 0)
    else Outcome(m, 1)
  }

  /** The push a class III or IV instruction may ask for (of the PC, which
      is the return address), then the jump. A full stack ends the
      instruction with code 1 before the jump; a stack with room gets the
      return address at the old stack pointer, which moves up by four, and
      the jump runs on that machine; a stack word outside memory faults. */
  function PushThenJump(m: Machine, push: bool, op: bv32, src: Word): (r: Result<Outcome>)
    requires m.Valid()
    ensures !push ==> r == Ok(Jump(m, op, src))
    ensures push && StackFull(m) ==> r == Ok(Outcome(m, 1))
    ensures push && !StackFull(m) ==> (r.Ok? <==> WordInMemory(m.memory, m.regs[SP]))
    ensures push && !StackFull(m) && WordInMemory(m.memory, m.regs[SP]) ==>
              r == Ok(Jump(PushWord(m, m.regs[PC]).value, op, src))
    ensures r.Ok? ==> r.value.machine.Valid() && r.value.machine.flags == m.flags
  {
    if !push then Ok(Jump(m, op, src))
    else
      match Push(m, m.regs[PC])
      case Fault(t) => Fault(t)
      case Ok(o) =>
        if o.code != 0 then Ok(Outcome(o.machine, 1))
        else Ok(Jump(o.machine, op, src))
  }

  // ---------------------------------------------------------------------
  // The class handlers

  /** The operand of a class I or III instruction. */
  function RegisterOperand(m: Machine, i: Instruction): Result<Word>
    requires m.Valid() && (i.General? || i.Branch?) && i.WellFormed()
  {
    ShapeOperand(m.regs[i.rs], i.shift, ShiftAmountOf(m, i.amount), i.size)
  }

  /** cycle1: register operand, shifted and fitted; NOP returns 0, HLT
      returns the operand, the register operations as above, any other
      opcode 1. */
  function Cycle1(m: Machine, i: Instruction): (r: Result<Outcome>)
    requires m.Valid() && i.General? && i.WellFormed()
    ensures !Check(m.flags, i.cond) ==> r == Ok(Outcome(m, 0))
    ensures Check(m.flags, i.cond) && RegisterOperand(m, i).Fault? ==> r == Fault(RegisterOperand(m, i).trap)
    ensures Check(m.flags, i.cond) && RegisterOperand(m, i).Ok? ==>
              && (i.opcode == NOP ==> r == Ok(Outcome(m, 0)))
              && (i.opcode == HLT ==> r == Ok(Outcome(m, RegisterOperand(m, i).value)))
              && (IsRegisterOp(i.opcode) ==> r == RegisterOp(m, i.opcode, i.rd, RegisterOperand(m, i).value))
              && (!IsRegisterOp(i.opcode) && i.opcode != NOP && i.opcode != HLT ==> r == Ok(Outcome(m, 1)))
    ensures r.Ok? ==> r.value.machine.Valid() && FlagsGrow(m.flags, r.value.machine.flags)
  {
    if !Check(m.flags, i.cond) then Ok(Outcome(m, 0))
    else
      match RegisterOperand(m, i)
      case Fault(t) => Fault(t)
      case Ok(src) =>
        if i.opcode == NOP then Ok(Outcome(m, 0))
        else if i.opcode == HLT then Ok(Outcome(m, src))
        else RegisterOp(m, i.opcode, i.rd, src)
  }

  /** cycle2: immediate operand; the register operations as above, any
      other opcode (NOP and HLT included) 1. */
  function Cycle2(m: Machine, i: Instruction): (r: Result<Outcome>)
    requires m.Valid() && i.Immediate? && i.WellFormed()
    ensures !Check(m.flags, i.cond) ==> r == Ok(Outcome(m, 0))
    ensures Check(m.flags, i.cond) && !IsRegisterOp(i.opcode) ==> r == Ok(Outcome(m, 1))
    ensures Check(m.flags, i.cond) && IsRegisterOp(i.opcode) ==>
              r == RegisterOp(m, i.opcode, i.rd, if i.uplo then Imm16(i.imm) * 0x1_0000 else Imm16(i.imm))
    ensures r.Ok? ==> r.value.machine.Valid() && FlagsGrow(m.flags, r.value.machine.flags)
  {
    if !Check(m.flags, i.cond) then Ok(Outcome(m, 0))
    else RegisterOp(m, i.opcode, i.rd, ImmediateOperand(Imm16(i.imm), i.uplo))
  }

  /** cycle3: register operand, shifted and fitted, then push and jump. */
  function Cycle3(m: Machine, i: Instruction): (r: Result<Outcome>)
    requires m.Valid() && i.Branch? && i.WellFormed()
    ensures !Check(m.flags, i.cond) ==> r == Ok(Outcome(m, 0))
    ensures Check(m.flags, i.cond) && RegisterOperand(m, i).Fault? ==> r == Fault(RegisterOperand(m, i).trap)
    ensures Check(m.flags, i.cond) && RegisterOperand(m, i).Ok? ==>
              r == PushThenJump(m, i.push, i.opcode, RegisterOperand(m, i).value)
    ensures r.Ok? ==> r.value.machine.Valid() && r.value.machine.flags == m.flags
  {
    if !Check(m.flags, i.cond) then Ok(Outcome(m, 0))
    else
      match RegisterOperand(m, i)
      case Fault(t) => Fault(t)
      case Ok(src) => PushThenJump(m, i.push, i.opcode, src)
  }

  /** cycle4: immediate operand with register rp in the upper half, then
      push and jump. */
  function Cycle4(m: Machine, i: Instruction): (r: Result<Outcome>)
    requires m.Valid() && i.ImmediateBranch? && i.WellFormed()
    ensures !Check(m.flags, i.cond) ==> r == Ok(Outcome(m, 0))
    ensures Check(m.flags, i.cond) ==>
              r == PushThenJump(m, i.push, i.opcode, Imm16(i.imm) + (m.regs[i.rp] % 0x1_0000) * 0x1_0000)
    ensures r.Ok? ==> r.value.machine.Valid() && r.value.machine.flags == m.flags
  {
    if !Check(m.flags, i.cond) then Ok(Outcome(m, 0))
    else PushThenJump(m, i.push, i.opcode, ImmediateBranchOperand(Imm16(i.imm), m.regs[i.rp]))
  }

  // ---------------------------------------------------------------------
  // Properties of the handlers

  /** A call: a class IV JA with push, on a stack with room, stores the
      return address (the PC) at the old stack pointer, advances the stack
      pointer by four and jumps to the operand. */
  lemma CallPushesReturnAddress(m: Machine, i: Instruction)
    requires m.Valid() && i.ImmediateBranch? && i.WellFormed()
    requires i.opcode == JA && i.push && Check(m.flags, i.cond)
    requires !StackFull(m) && WordInMemory(m.memory, m.regs[SP])
    ensures Cycle4(m, i).Ok? && Cycle4(m, i).value.code == 0
    ensures LoadWord(Cycle4(m, i).value.machine.memory, m.regs[SP]) == Ok(m.regs[PC])
    ensures Cycle4(m, i).value.machine.regs[SP] == (m.regs[SP] + 4) % WORD
    ensures Cycle4(m, i).value.machine.regs[PC] == Imm16(i.imm) + (m.regs[i.rp] % 0x1_0000) * 0x1_0000
  {
    var o := Push(m, m.regs[PC]);
    assert o.Ok? && o.value.code == 0;
  }

  /** The same call through a register: a class III JA with push, on a
      stack with room and with an operand that can be formed, stores the
      return address at the old stack pointer, advances the stack pointer
      by four and jumps to the shaped register value. */
  lemma RegisterCallPushesReturnAddress(m: Machine, i: Instruction)
    requires m.Valid() && i.Branch? && i.WellFormed()
    requires i.opcode == JA && i.push && Check(m.flags, i.cond)
    requires i.shift == NoShift || ShiftAmountOf(m, i.amount) < 32
    requires !StackFull(m) && WordInMemory(m.memory, m.regs[SP])
    ensures RegisterOperand(m, i).Ok?
    ensures Cycle3(m, i).Ok? && Cycle3(m, i).value.code == 0
    ensures LoadWord(Cycle3(m, i).value.machine.memory, m.regs[SP]) == Ok(m.regs[PC])
    ensures Cycle3(m, i).value.machine.regs[SP] == (m.regs[SP] + 4) % WORD
    ensures Cycle3(m, i).value.machine.regs[PC] == RegisterOperand(m, i).value
  {
    var src := RegisterOperand(m, i).value;
    assert Cycle3(m, i) == PushThenJump(m, true, JA, src);
    CallRuns(m, src);
  }

  /** JA with push, on a stack with room: the return address lands at the
      old stack pointer, which advances by four, and PC becomes src. */
  lemma CallRuns(m: Machine, src: Word)
    requires m.Valid() && !StackFull(m) && WordInMemory(m.memory, m.regs[SP])
    ensures PushThenJump(m, true, JA, src).Ok? && PushThenJump(m, true, JA, src).value.code == 0
    ensures LoadWord(PushThenJump(m, true, JA, src).value.machine.memory, m.regs[SP]) == Ok(m.regs[PC])
    ensures PushThenJump(m, true, JA, src).value.machine.regs[SP] == (m.regs[SP] + 4) % WORD
    ensures PushThenJump(m, true, JA, src).value.machine.regs[PC] == src
  {
  }

  /** A relative call: JR with push, on a stack with room, stores the
      return address and moves the stack pointer as a call does, and then
      adds src - 4 to the PC, whichever class it came from. */
  lemma RelativeCallPushesReturnAddress(m: Machine, src: Word)
    requires m.Valid() && !StackFull(m) && WordInMemory(m.memory, m.regs[SP])
    ensures PushThenJump(m, true, JR, src).Ok? && PushThenJump(m, true, JR, src).value.code == 0
    ensures LoadWord(PushThenJump(m, true, JR, src).value.machine.memory, m.regs[SP]) == Ok(m.regs[PC])
    ensures PushThenJump(m, true, JR, src).value.machine.regs[SP] == (m.regs[SP] + 4) % WORD
    ensures PushThenJump(m, true, JR, src).value.machine.regs[PC] == (m.regs[PC] + src - 4) % WORD
  {
    PushedJumpKeepsReturnAddress(m, JR, src);
    RelativeCallMovesPc(m, src);
  }

  /** Any jump with push, on a stack with room, returns 0 with the return
      address at the old stack pointer and the stack pointer four higher:
      the jump itself touches only the PC. */
  lemma PushedJumpKeepsReturnAddress(m: Machine, op: bv32, src: Word)
    requires m.Valid() && IsJump(op) && !StackFull(m) && WordInMemory(m.memory, m.regs[SP])
    ensures PushThenJump(m, true, op, src).Ok? && PushThenJump(m, true, op, src).value.code == 0
    ensures LoadWord(PushThenJump(m, true, op, src).value.machine.memory, m.regs[SP]) == Ok(m.regs[PC])
    ensures PushThenJump(m, true, op, src).value.machine.regs[SP] == (m.regs[SP] + 4) % WORD
  {
    var w := PushWord(m, m.regs[PC]).value;
    var o := Jump(w, op, src);
    assert PushThenJump(m, true, op, src) == Ok(o);
    assert o.machine.memory == w.memory && o.machine.regs[SP] == w.regs[SP];
  }

  /** The PC half of a relative call: the push leaves the PC alone, so JR
      moves it from where the prologue left it. */
  lemma RelativeCallMovesPc(m: Machine, src: Word)
    requires m.Valid() && !StackFull(m) && WordInMemory(m.memory, m.regs[SP])
    ensures PushThenJump(m, true, JR, src).Ok?
    ensures PushThenJump(m, true, JR, src).value.machine.regs[PC] == (m.regs[PC] + src - 4) % WORD
  {
    var w := PushWord(m, m.regs[PC]).value;
    assert w.regs[PC] == m.regs[PC];
    JumpFromSamePc(m, w, src);
    assert PushThenJump(m, true, JR, src) == Ok(Jump(w, JR, src));
  }

  /** JR on a machine whose PC is that of m moves it as it would on m.
      This is an instance of Jump's contract, stated separately only to keep
      the proof of RelativeCallMovesPc small; it adds nothing about the
      source. */
  lemma JumpFromSamePc(m: Machine, w: Machine, src: Word)
    requires m.Valid() && w.Valid() && w.regs[PC] == m.regs[PC]
    ensures Jump(w, JR, src).machine.regs[PC] == (m.regs[PC] + src - 4) % WORD
  {
  }

  /** A push onto a full stack ends a jump instruction with code 1 and
      leaves the machine as it was: no jump happens. */
  lemma FullStackStopsJump(m: Machine, i: Instruction)
    requires m.Valid() && i.ImmediateBranch? && i.WellFormed()
    requires i.push && Check(m.flags, i.cond) && StackFull(m)
    ensures Cycle4(m, i) == Ok(Outcome(m, 1))
  {
  }

  /** The push comes before the opcode is looked at: a class III or IV
      instruction with push set and an opcode that is not a jump still
      stores the return address and moves the stack pointer, and only then
      returns 1. */
  lemma PushBeforeOpcodeCheck(m: Machine, op: bv32, src: Word)
    requires m.Valid() && !IsJump(op)
    requires !StackFull(m) && WordInMemory(m.memory, m.regs[SP])
    ensures PushThenJump(m, true, op, src).Ok?
    ensures PushThenJump(m, true, op, src).value.code == 1
    ensures LoadWord(PushThenJump(m, true, op, src).value.machine.memory, m.regs[SP]) == Ok(m.regs[PC])
    ensures PushThenJump(m, true, op, src).value.machine.regs[SP] == (m.regs[SP] + 4) % WORD
    ensures PushThenJump(m, true, op, src).value.machine.regs[PC] == m.regs[PC]
  {
    var o := Push(m, m.regs[PC]);
    assert o.Ok? && o.value.code == 0;
  }
}
