/**
  One machine cycle, yesod_cycle of vm/cycle.c: fetch the word at PC,
  decode it, clear x0, advance PC by four, and hand the instruction to the
  handler of its class. The code the handler returns is the cycle's
  result.
*/
module Cycle {
  import opened Words
  import opened VmState
  import opened Decoder
  import opened Operand
  import opened Alu
  import opened Execute

  /** What every cycle does before its instruction runs: x0 is cleared and
      PC moves past the instruction. Nothing else changes. */
  function Prologue(m: Machine): (m2: Machine)
    requires m.Valid()
    ensures m2.Valid()
    ensures m2.regs[0] == 0
    ensures m2.regs[PC] == (m.regs[PC] + 4) % WORD
    ensures forall r :: 0 < r < 16 && r != PC ==> m2.regs[r] == m.regs[r]
    ensures m2.memory == m.memory && m2.flags == m.flags
  {
    m.(regs := m.regs[0 := 0][PC := Wrap(m.regs[PC] as int + 4)])
  }

  /** yesod_cycle. A fetch outside memory faults before anything changes. */
  function Step(m: Machine): (r: Result<Outcome>)
    requires m.Valid()
    ensures LoadWord(m.memory, m.regs[PC]).Fault? ==> r == Fault(LoadWord(m.memory, m.regs[PC]).trap)
    ensures r.Ok? ==> r.value.machine.Valid() && FlagsGrow(m.flags, r.value.machine.flags)
  {
    match LoadWord(m.memory, m.regs[PC])
    case Fault(t) => Fault(t)
    case Ok(w) => Dispatch(Prologue(m), Decode(AsBits(w)))
  }

  /** A word as the 32-bit pattern the decoder reads. */
  function AsBits(w: Word): bv32 {
    w as bv32
  }

  /** The switch on the instruction class. */
  function Dispatch(m: Machine, i: Instruction): (r: Result<Outcome>)
    requires m.Valid() && i.WellFormed()
    ensures r.Ok? ==> r.value.machine.Valid() && FlagsGrow(m.flags, r.value.machine.flags)
  {
    match i
    case General(_, _, _, _, _, _, _) => Cycle1(m, i)
    case Immediate(_, _, _, _, _) => Cycle2(m, i)
    case Branch(_, _, _, _, _, _, _) =>
      var r := Cycle3(m, i);
      assert r.Ok? ==> r.value.machine.flags == m.flags;
      r
    case ImmediateBranch(_, _, _, _, _) =>
      var r := Cycle4(m, i);
      assert r.Ok? ==> r.value.machine.flags == m.flags;
      r
  }

  // ---------------------------------------------------------------------
  // Properties of a cycle

  /** Relative jumps are relative to the jump's own address: PC has
      already moved four past it, and JR takes the four back. */
  lemma RelativeJumpFromInstruction(m: Machine, src: Word)
    requires m.Valid()
    ensures Jump(Prologue(m), JR, src).machine.regs[PC] == (m.regs[PC] + src) % WORD
  {
    var pc: int := m.regs[PC];
    WrapAddLeft(pc + 4, src - 4);
  }

  /** Every instruction that does not jump, and does not name PC as its
      destination, leaves PC just past itself. */
  lemma StraightLineAdvancesPc(m: Machine, i: Instruction)
    requires m.Valid() && i.WellFormed() && (i.General? || i.Immediate?) && i.rd != PC
    requires Dispatch(Prologue(m), i).Ok?
    ensures Dispatch(Prologue(m), i).value.machine.regs[PC] == (m.regs[PC] + 4) % WORD
  {
    var m1 := Prologue(m);
    if i.General? && Check(m1.flags, i.cond) && RegisterOperand(m1, i).Ok? {
      var src := RegisterOperand(m1, i).value;
      if IsRegisterOp(i.opcode) {
        RegisterOpKeepsOthers(m1, i.opcode, i.rd, src, PC);
      }
    } else if i.Immediate? && Check(m1.flags, i.cond) {
      RegisterOpKeepsOthers(m1, i.opcode, i.rd, ImmediateOperand(Imm16(i.imm), i.uplo), PC);
    }
  }

  /** An instruction whose condition fails does nothing beyond the
      prologue: the cycle returns 0 and the machine is the one the prologue
      left. */
  lemma FailedConditionSkips(m: Machine, i: Instruction)
    requires m.Valid() && i.WellFormed() && !Check(m.flags, i.cond)
    ensures Dispatch(Prologue(m), i) == Ok(Outcome(Prologue(m), 0))
  {
  }

  /** An opcode used outside the classes its documentation gives it (JA in
      class I, NOP or HLT in class II, MOV in class III, ...) returns 1 and
      leaves the machine as the prologue did, provided its register operand
      needs no shift of 32 or more and, for the jump classes, no push is
      requested. */
  lemma UndocumentedOpcodeReturnsOne(m: Machine, i: Instruction)
    requires m.Valid() && i.WellFormed() && Check(m.flags, i.cond)
    requires !DocumentedFor(i.opcode, i.Class())
    requires i.General? || i.Branch? ==> i.shift == NoShift || ShiftAmountOf(m, i.amount) < 32
    requires i.Branch? || i.ImmediateBranch? ==> !i.push
    ensures Dispatch(m, i) == Ok(Outcome(m, 1))
  {
  }

  /** x0 reads zero only at the start of an instruction: the prologue
      clears it, but any register operation may name it as destination, so
      after mov x0, #5 it holds 5. */
  lemma ZeroRegisterWritable(m: Machine)
    requires m.Valid()
    ensures Prologue(m).regs[0] == 0
    ensures Dispatch(Prologue(m), Immediate(MOV, 0, Alw, false, 5)).Ok?
    ensures Dispatch(Prologue(m), Immediate(MOV, 0, Alw, false, 5)).value.machine.regs[0] == 5
  {
    assert Imm16(5) == 5;
  }

  // ---------------------------------------------------------------------
  // Single instructions, from their bytes in memory

  /** The four bytes at PC, PC+1, PC+2 and PC+3 (wrapping) are b0 to b3. */
  ghost predicate BytesAtPc(m: Machine, b0: Byte, b1: Byte, b2: Byte, b3: Byte)
    requires m.Valid()
  {
    var pc := m.regs[PC];
    && WordInMemory(m.memory, pc)
    && m.memory.bytes[pc] == b0 && m.memory.bytes[Wrap(pc + 1)] == b1
    && m.memory.bytes[Wrap(pc + 2)] == b2 && m.memory.bytes[Wrap(pc + 3)] == b3
  }

  /** A cycle over the bytes b0 to b3 at PC runs the decoding of their
      little-endian word on the machine after the prologue. */
  lemma StepFetches(m: Machine, b0: Byte, b1: Byte, b2: Byte, b3: Byte)
    requires m.Valid() && BytesAtPc(m, b0, b1, b2, b3)
    ensures Step(m) == Dispatch(Prologue(m), Decode(AsBits(Bytes4(b0, b1, b2, b3))))
  {
  }

  /** A bit pattern read as a word and back is itself. A proof step for
      the single-instruction lemmas below, not a property of the source. */
  lemma AsBitsOfBits(b: bv32)
    ensures AsBits(b as int) == b
  {
  }

  lemma DecodeHalt()
    ensures Decode(0x0001_0030) == General(HLT, 0, NoShift, SizeWord, 1, Alw, ShiftByReg(0))
  {
  }

  lemma DecodeMove()
    ensures Decode(0x0005_0105) == Immediate(MOV, 1, Alw, false, 5)
  {
  }

  lemma DecodeUpperAdd()
    ensures Decode(0x8000_8109) == Immediate(ADD, 1, Alw, true, 0x8000)
  {
  }

  lemma DecodeRelativeJump()
    ensures Decode(0x0000_002F) == ImmediateBranch(JR, 0, Alw, false, 0)
  {
  }

  /** hlt x1 (class I, opcode 0x0C, rs 1, no shift, word size, always):
      the cycle returns the value of x1 and changes only x0 and PC. */
  lemma HaltReturnsRegister(m: Machine)
    requires m.Valid() && BytesAtPc(m, 0x30, 0x00, 0x01, 0x00)
    ensures Step(m) == Ok(Outcome(Prologue(m), m.regs[1]))
  {
    DecodeHalt();
    StepFetches(m, 0x30, 0x00, 0x01, 0x00);
    AsBitsOfBits(0x0001_0030);
    HaltRuns(m);
  }

  lemma HaltRuns(m: Machine)
    requires m.Valid()
    ensures Dispatch(Prologue(m), General(HLT, 0, NoShift, SizeWord, 1, Alw, ShiftByReg(0))) == Ok(Outcome(Prologue(m), m.regs[1]))
  {
    var m1 := Prologue(m);
    var i := General(HLT, 0, NoShift, SizeWord, 1, Alw, ShiftByReg(0));
    assert m1.regs[1] == m.regs[1];
    assert ShiftAmountOf(m1, ShiftByReg(0)) == 0;
    assert RegisterOperand(m1, i) == Ok(m.regs[1]);
  }

  /** mov x1, #5 (class II, opcode 0x01, rd 1, immediate 5, always): x1
      becomes 5 and the cycle continues. */
  lemma MoveImmediate(m: Machine)
    requires m.Valid() && BytesAtPc(m, 0x05, 0x01, 0x05, 0x00)
    ensures Step(m).Ok? && Step(m).value.code == 0
    ensures Step(m).value.machine.regs[1] == 5
    ensures Step(m).value.machine.regs[PC] == (m.regs[PC] + 4) % WORD
    ensures Step(m).value.machine.memory == m.memory
  {
    DecodeMove();
    StepFetches(m, 0x05, 0x01, 0x05, 0x00);
    AsBitsOfBits(0x0005_0105);
    var i := Immediate(MOV, 1, Alw, false, 5);
    assert Imm16(5) == 5;
    StraightLineAdvancesPc(m, i);
  }

  /** jr x0:#0 (class IV, opcode 0x0B, rp 0, immediate 0, always, no
      push): the target is the instruction itself, so the machine spins in
      place. */
  lemma RelativeJumpToSelf(m: Machine)
    requires m.Valid() && BytesAtPc(m, 0x2F, 0x00, 0x00, 0x00)
    ensures Step(m).Ok? && Step(m).value.code == 0
    ensures Step(m).value.machine.regs[PC] == m.regs[PC]
  {
    DecodeRelativeJump();
    StepFetches(m, 0x2F, 0x00, 0x00, 0x00);
    AsBitsOfBits(0x0000_002F);
    var m1 := Prologue(m);
    RelativeJumpRuns(m1);
    JumpToSelf(m);
  }

  lemma JumpToSelf(m: Machine)
    requires m.Valid()
    ensures Jump(Prologue(m), JR, 0).machine.regs[PC] == m.regs[PC]
  {
    RelativeJumpFromInstruction(m, 0);
  }

  lemma RelativeJumpRuns(m: Machine)
    requires m.Valid() && m.regs[0] == 0
    ensures Dispatch(m, ImmediateBranch(JR, 0, Alw, false, 0)) == Ok(Jump(m, JR, 0))
  {
    assert Imm16(0) == 0;
    assert ImmediateBranchOperand(0, m.regs[0]) == 0;
  }

  // ---------------------------------------------------------------------
  // Two-instruction programs

  /** Bytes at PC are still there on a machine with the same memory and
      the same PC. A proof step that carries the second instruction of a
      two-instruction program over the first cycle. */
  lemma BytesStay(m: Machine, m2: Machine, b0: Byte, b1: Byte, b2: Byte, b3: Byte)
    requires m.Valid() && m2.Valid() && BytesAtPc(m, b0, b1, b2, b3)
    requires m2.memory == m.memory && m2.regs[PC] == m.regs[PC]
    ensures BytesAtPc(m2, b0, b1, b2, b3)
  {
  }

  /** A cycle over mov x1, #5 is the mov after the prologue. */
  lemma MoveStep(m: Machine)
    requires m.Valid() && BytesAtPc(m, 0x05, 0x01, 0x05, 0x00)
    ensures Step(m) == Ok(Outcome(Mov(Prologue(m), 1, 5), 0))
  {
    DecodeMove();
    StepFetches(m, 0x05, 0x01, 0x05, 0x00);
    AsBitsOfBits(0x0005_0105);
    assert Imm16(5) == 5;
  }

  /** mov x1, #5 then hlt x1, the second instruction in the four bytes
      after the first: the second cycle returns 5. */
  lemma MoveThenHalt(m: Machine)
    requires m.Valid() && BytesAtPc(m, 0x05, 0x01, 0x05, 0x00)
    requires BytesAtPc(Prologue(m), 0x30, 0x00, 0x01, 0x00)
    ensures Step(m).Ok? && Step(m).value.code == 0
    ensures Step(Step(m).value.machine).Ok?
    ensures Step(Step(m).value.machine).value.code == 5
  {
    var m1 := Prologue(m);
    var m2 := Mov(m1, 1, 5);
    MoveStep(m);
    BytesStay(m1, m2, 0x30, 0x00, 0x01, 0x00);
    HaltReturnsRegister(m2);
  }

  /** add x1, #0x8000 with uplo (0x80008109: x1 += 0x80000000, always): a
      cycle over it is the add of 0x80000000 to x1 after the prologue. */
  lemma UpperAddStep(m: Machine)
    requires m.Valid() && BytesAtPc(m, 0x09, 0x81, 0x00, 0x80)
    ensures Step(m) == Ok(Outcome(Add(Prologue(m), 1, 0x8000_0000), 0))
  {
    DecodeUpperAdd();
    StepFetches(m, 0x09, 0x81, 0x00, 0x80);
    AsBitsOfBits(0x8000_8109);
    UpperAddRuns(Prologue(m));
  }

  lemma UpperAddRuns(m: Machine)
    requires m.Valid()
    ensures Dispatch(m, Immediate(ADD, 1, Alw, true, 0x8000)) == Ok(Outcome(Add(m, 1, 0x8000_0000), 0))
  {
    assert Imm16(0x8000) == 0x8000;
  }

  /** The same add twice in a row from x1 = 0 with Overflow clear: the
      first cycle leaves Overflow clear and raises Sign, the second raises
      Overflow and Zero and keeps Sign, and x1 is 0 again. */
  lemma UpperAddTwiceOverflows(m: Machine)
    requires m.Valid() && m.regs[1] == 0 && m.flags & FLAG_OVER == 0
    requires BytesAtPc(m, 0x09, 0x81, 0x00, 0x80)
    requires BytesAtPc(Prologue(m), 0x09, 0x81, 0x00, 0x80)
    ensures Step(m).Ok? && Step(m).value.machine.flags & FLAG_OVER == 0
    ensures Step(m).value.machine.flags & FLAG_SIGN != 0
    ensures Step(Step(m).value.machine).Ok?
    ensures Step(Step(m).value.machine).value.machine.regs[1] == 0
    ensures Step(Step(m).value.machine).value.machine.flags & FLAG_OVER != 0
    ensures Step(Step(m).value.machine).value.machine.flags & FLAG_NIL != 0
    ensures Step(Step(m).value.machine).value.machine.flags & FLAG_SIGN != 0
  {
    var m1 := Prologue(m);
    var m2 := Add(m1, 1, 0x8000_0000);
    UpperAddStep(m);
    BytesStay(m1, m2, 0x09, 0x81, 0x00, 0x80);
    UpperAddStep(m2);
    AddTwiceAcrossPrologue(m1);
  }

  /** The prologue between the two adds touches neither x1 nor the flags,
      so the two adds behave as Alu.AddTwiceOverflows says. */
  lemma AddTwiceAcrossPrologue(m1: Machine)
    requires m1.Valid() && m1.regs[1] == 0 && m1.flags & FLAG_OVER == 0
    ensures Add(m1, 1, 0x8000_0000).flags & FLAG_OVER == 0
    ensures Add(m1, 1, 0x8000_0000).flags & FLAG_SIGN != 0
    ensures Add(Prologue(Add(m1, 1, 0x8000_0000)), 1, 0x8000_0000).regs[1] == 0
    ensures Add(Prologue(Add(m1, 1, 0x8000_0000)), 1, 0x8000_0000).flags & FLAG_OVER != 0
    ensures Add(Prologue(Add(m1, 1, 0x8000_0000)), 1, 0x8000_0000).flags & FLAG_NIL != 0
    ensures Add(Prologue(Add(m1, 1, 0x8000_0000)), 1, 0x8000_0000).flags & FLAG_SIGN != 0
  {
    var m2 := Add(m1, 1, 0x8000_0000);
    var m3 := Prologue(m2);
    AddTwiceOverflows(m1, 1);
    assert m3.regs[1] == m2.regs[1] && m3.flags == m2.flags;
  }
}
