/**
  The Yesod instruction set: the enumerations of vm/decoder.h, the four
  instruction layouts, the decoder of vm/decoder.c and an encoder that
  places every field back at its bit range.

  An instruction is one little-endian 32-bit word. Bits 0-1 select one of
  four classes and bits 2-7 hold the opcode in every class; the remaining
  bits are laid out per class:

    class I   (00)  rd 8-11, shift 12-13, size 14-15, rs 16-19, cond 20-22,
                    shifti 23, shift immediate 24-28 or shift register 24-27
    class II  (01)  rd 8-11, cond 12-14, uplo 15, imm 16-31
    class III (10)  rs 8-11, shift 12-13, size 14-15, cond 16-18, push 19,
                    shifti 20, shift immediate 21-25 or shift register 21-24
    class IV  (11)  rp 8-11, cond 12-14, push 15, imm 16-31
*/
module Decoder {

  /** Shift kinds (two bits). */
  datatype Shift = NoShift | Lsl | Lsr | Asr

  /** Operand sizes (two bits): 32, 24, 16 and 8 bits. */
  datatype OpSize = SizeWord | SizeDay | SizeHalf | SizeByte

  /** Conditions (three bits). Code 0b101 has no name in the source; it is
      kept as its own value so that every three-bit pattern decodes. */
  datatype Cond = Alw | Neq | Ltu | Geu | Eeq | Unnamed | Lts | Ges

  /** Opcodes, kept as the raw six-bit value the word carries. */
  const NOP: bv32 := 0x00
  const MOV: bv32 := 0x01
  const ADD: bv32 := 0x02
  const SUB: bv32 := 0x03
  const AND: bv32 := 0x04
  const OR: bv32 := 0x05
  const XOR: bv32 := 0x06
  const CAR: bv32 := 0x07
  const CDR: bv32 := 0x08
  const STR: bv32 := 0x09
  const JA: bv32 := 0x0A
  const JR: bv32 := 0x0B
  const HLT: bv32 := 0x0C
  const CMP: bv32 := 0x0D

  /** The classes each opcode is documented for, as the comments of the
      opcode enumeration state them: NOP and HLT in class I, the register
      operations in classes I and II, the jumps in classes III and IV. */
  predicate IsRegisterOp(op: bv32) {
    MOV <= op <= STR || op == CMP
  }

  predicate IsJump(op: bv32) {
    op == JA || op == JR
  }

  predicate DocumentedFor(op: bv32, cl: nat) {
    match cl
    case 1 => op == NOP || op == HLT || IsRegisterOp(op)
    case 2 => IsRegisterOp(op)
    case 3 => IsJump(op)
    case 4 => IsJump(op)
    case _ => false
  }

  /** Where a class I or III shift amount comes from: the immediate in the
      word, or the low byte of a register. */
  datatype ShiftAmount = ShiftByImm(amount: bv32) | ShiftByReg(rh: nat)

  /** The decoded instruction: a closed sum of the four classes. */
  datatype Instruction =
    | General(opcode: bv32, rd: nat, shift: Shift, size: OpSize, rs: nat, cond: Cond, amount: ShiftAmount)
    | Immediate(opcode: bv32, rd: nat, cond: Cond, uplo: bool, imm: bv32)
    | Branch(opcode: bv32, rs: nat, shift: Shift, size: OpSize, cond: Cond, push: bool, amount: ShiftAmount)
    | ImmediateBranch(opcode: bv32, rp: nat, cond: Cond, push: bool, imm: bv32)
  {
    /** The class number, 1 to 4. */
    function Class(): nat {
      match this
      case General(_, _, _, _, _, _, _) => 1
      case Immediate(_, _, _, _, _) => 2
      case Branch(_, _, _, _, _, _, _) => 3
      case ImmediateBranch(_, _, _, _, _) => 4
    }

    /** Every field fits the bit range it is decoded from. */
    predicate WellFormed() {
      && opcode < 64
      && match this
         case General(_, rd, _, _, rs, _, amount) => rd < 16 && rs < 16 && WellFormedAmount(amount)
         case Immediate(_, rd, _, _, imm) => rd < 16 && imm < 0x1_0000
         case Branch(_, rs, _, _, _, _, amount) => rs < 16 && WellFormedAmount(amount)
         case ImmediateBranch(_, rp, _, _, imm) => rp < 16 && imm < 0x1_0000
    }
  }

  predicate WellFormedAmount(a: ShiftAmount) {
    match a
    case ShiftByImm(n) => n < 32
    case ShiftByReg(r) => r < 16
  }

  // ---------------------------------------------------------------------
  // Enumeration codes

  function ShiftOf(bits: bv32): (s: Shift)
    requires bits < 4
    ensures ShiftCode(s) == bits
  {
    if bits == 0 then NoShift else if bits == 1 then Lsl else if bits == 2 then Lsr else Asr
  }

  function ShiftCode(s: Shift): (bits: bv32)
    ensures bits < 4
  {
    match s
    case NoShift => 0
    case Lsl => 1
    case Lsr => 2
    case Asr => 3
  }

  function SizeOf(bits: bv32): (s: OpSize)
    requires bits < 4
    ensures SizeCode(s) == bits
  {
    if bits == 0 then SizeWord else if bits == 1 then SizeDay else if bits == 2 then SizeHalf else SizeByte
  }

  function SizeCode(s: OpSize): (bits: bv32)
    ensures bits < 4
  {
    match s
    case SizeWord => 0
    case SizeDay => 1
    case SizeHalf => 2
    case SizeByte => 3
  }

  function CondOf(bits: bv32): (c: Cond)
    requires bits < 8
    ensures CondCode(c) == bits
  {
    if bits == 0 then Alw
    else if bits == 1 then Neq
    else if bits == 2 then Ltu
    else if bits == 3 then Geu
    else if bits == 4 then Eeq
    else if bits == 5 then Unnamed
    else if bits == 6 then Lts
    else Ges
  }

  function CondCode(c: Cond): (bits: bv32)
    ensures bits < 8
  {
    match c
    case Alw => 0
    case Neq => 1
    case Ltu => 2
    case Geu => 3
    case Eeq => 4
    case Unnamed => 5
    case Lts => 6
    case Ges => 7
  }

  /** The enumerations are in one-to-one correspondence with their codes:
      decoding a field always yields a value, and encoding it gives the
      same value back. */
  lemma EnumCodesRoundTrip(s: Shift, z: OpSize, c: Cond)
    ensures ShiftOf(ShiftCode(s)) == s
    ensures SizeOf(SizeCode(z)) == z
    ensures CondOf(CondCode(c)) == c
  {
  }

  // ---------------------------------------------------------------------
  // Field extraction (the masks and shifts of vm/decoder.c)

  function OpcodeField(raw: bv32): bv32 { (raw & 0xFC) >> 2 }
  function RegField(raw: bv32): nat { RegisterIndex((raw & 0xF00) >> 8) }
  function ShiftField(raw: bv32): Shift { ShiftOf((raw & 0x3000) >> 12) }
  function SizeField(raw: bv32): OpSize { SizeOf((raw & 0xC000) >> 14) }
  function ImmField(raw: bv32): bv32 { (raw & 0xFFFF_0000) >> 16 }
  function Cond24Field(raw: bv32): Cond { CondOf((raw & 0x7000) >> 12) }
  function Bit15(raw: bv32): bool { raw & 0x8000 != 0 }

  function Decode1(raw: bv32): Instruction {
    var shifti := raw & 0x80_0000 != 0;
    General(
      OpcodeField(raw),
      RegField(raw),
      ShiftField(raw),
      SizeField(raw),
      RegisterIndex((raw & 0xF_0000) >> 16),
      CondOf((raw & 0x70_0000) >> 20),
      if shifti then ShiftByImm((raw & 0x1F00_0000) >> 24)
      else ShiftByReg(RegisterIndex((raw & 0x0F00_0000) >> 24)))
  }

  function Decode2(raw: bv32): Instruction {
    Immediate(OpcodeField(raw), RegField(raw), Cond24Field(raw), Bit15(raw), ImmField(raw))
  }

  function Decode3(raw: bv32): Instruction {
    var shifti := raw & 0x10_0000 != 0;
    Branch(
      OpcodeField(raw),
      RegField(raw),
      ShiftField(raw),
      SizeField(raw),
      CondOf((raw & 0x7_0000) >> 16),
      raw & 0x8_0000 != 0,
      if shifti then ShiftByImm((raw & 0x03E0_0000) >> 21)
      else ShiftByReg(RegisterIndex((raw & 0x01E0_0000) >> 21)))
  }

  function Decode4(raw: bv32): Instruction {
    ImmediateBranch(OpcodeField(raw), RegField(raw), Cond24Field(raw), Bit15(raw), ImmField(raw))
  }

  /** The decoder: total over all 32-bit words, the class chosen by the two
      low bits alone, and every field within its bit range. */
  function Decode(raw: bv32): (i: Instruction)
    ensures i.WellFormed()
    ensures i.General? <==> raw & 0x3 == 0
    ensures i.Immediate? <==> raw & 0x3 == 1
    ensures i.Branch? <==> raw & 0x3 == 2
    ensures i.ImmediateBranch? <==> raw & 0x3 == 3
    ensures i.opcode < 64
  {
    var cl := raw & 0x3;
    if cl == 0 then Decode1(raw)
    else if cl == 1 then Decode2(raw)
    else if cl == 2 then Decode3(raw)
    else Decode4(raw)
  }

  // ---------------------------------------------------------------------
  // Encoding

  function AmountBits(a: ShiftAmount): (bits: bv32)
    requires WellFormedAmount(a)
    ensures bits < 32
  {
    match a
    case ShiftByImm(n) => n
    case ShiftByReg(r) => Nibble(r)
  }

  function Flag(b: bool): (bit: bv32)
    ensures bit < 2 && (bit == 1 <==> b)
  {
    if b then 1 else 0
  }

  /** A register index as the four bits that encode it; reading the bits
      back gives the index. */
  function Nibble(r: nat): (b: bv32)
    requires r < 16
    ensures b < 16
    ensures RegisterIndex(b) == r
  {
    (if r >= 8 then 8 else 0) | (if r % 8 >= 4 then 4 else 0) | (if r % 4 >= 2 then 2 else 0) | (if r % 2 == 1 then 1 else 0)
  }

  /** A four-bit register field as a register index. */
  function RegisterIndex(n: bv32): (r: nat)
    requires n < 16
    ensures r < 16
  {
    (if n & 8 != 0 then 8 else 0) + (if n & 4 != 0 then 4 else 0) + (if n & 2 != 0 then 2 else 0) + (if n & 1 != 0 then 1 else 0)
  }

  /** Class I encoding from the field codes: every field reads back from
      its bit range, and the bits above the shift amount stay clear. */
  function Encode1(op: bv32, rd: bv32, sh: bv32, sz: bv32, rs: bv32, c: bv32, si: bv32, amt: bv32): (raw: bv32)
    requires op < 64 && rd < 16 && sh < 4 && sz < 4 && rs < 16 && c < 8 && si < 2
    requires amt < 32 && (si == 0 ==> amt < 16)
    ensures raw & 0x3 == 0
    ensures (raw & 0xFC) >> 2 == op
    ensures (raw & 0xF00) >> 8 == rd
    ensures (raw & 0x3000) >> 12 == sh
    ensures (raw & 0xC000) >> 14 == sz
    ensures (raw & 0xF_0000) >> 16 == rs
    ensures (raw & 0x70_0000) >> 20 == c
    ensures (raw & 0x80_0000) >> 23 == si
    ensures (raw & 0x1F00_0000) >> 24 == amt
    ensures si == 0 ==> (raw & 0x0F00_0000) >> 24 == amt
    ensures raw & 0xE000_0000 == 0
    ensures si == 0 ==> raw & 0x1000_0000 == 0
  {
    (op << 2) | (rd << 8) | (sh << 12) | (sz << 14) | (rs << 16) | (c << 20) | (si << 23) | (amt << 24)
  }

  /** Class II encoding from the field codes. */
  function Encode2(op: bv32, rd: bv32, c: bv32, uplo: bv32, imm: bv32): (raw: bv32)
    requires op < 64 && rd < 16 && c < 8 && uplo < 2 && imm < 0x1_0000
    ensures raw & 0x3 == 1
    ensures (raw & 0xFC) >> 2 == op
    ensures (raw & 0xF00) >> 8 == rd
    ensures (raw & 0x7000) >> 12 == c
    ensures (raw & 0x8000) >> 15 == uplo
    ensures (raw & 0xFFFF_0000) >> 16 == imm
  {
    0x1 | (op << 2) | (rd << 8) | (c << 12) | (uplo << 15) | (imm << 16)
  }

  /** Class III encoding from the field codes. */
  function Encode3(op: bv32, rs: bv32, sh: bv32, sz: bv32, c: bv32, push: bv32, si: bv32, amt: bv32): (raw: bv32)
    requires op < 64 && rs < 16 && sh < 4 && sz < 4 && c < 8 && push < 2 && si < 2
    requires amt < 32 && (si == 0 ==> amt < 16)
    ensures raw & 0x3 == 2
    ensures (raw & 0xFC) >> 2 == op
    ensures (raw & 0xF00) >> 8 == rs
    ensures (raw & 0x3000) >> 12 == sh
    ensures (raw & 0xC000) >> 14 == sz
    ensures (raw & 0x7_0000) >> 16 == c
    ensures (raw & 0x8_0000) >> 19 == push
    ensures (raw & 0x10_0000) >> 20 == si
    ensures (raw & 0x03E0_0000) >> 21 == amt
    ensures si == 0 ==> (raw & 0x01E0_0000) >> 21 == amt
    ensures raw & 0xFC00_0000 == 0
    ensures si == 0 ==> raw & 0x0200_0000 == 0
  {
    0x2 | (op << 2) | (rs << 8) | (sh << 12) | (sz << 14) | (c << 16) | (push << 19) | (si << 20) | (amt << 21)
  }

  /** Class IV encoding from the field codes. */
  function Encode4(op: bv32, rp: bv32, c: bv32, push: bv32, imm: bv32): (raw: bv32)
    requires op < 64 && rp < 16 && c < 8 && push < 2 && imm < 0x1_0000
    ensures raw & 0x3 == 3
    ensures (raw & 0xFC) >> 2 == op
    ensures (raw & 0xF00) >> 8 == rp
    ensures (raw & 0x7000) >> 12 == c
    ensures (raw & 0x8000) >> 15 == push
    ensures (raw & 0xFFFF_0000) >> 16 == imm
  {
    0x3 | (op << 2) | (rp << 8) | (c << 12) | (push << 15) | (imm << 16)
  }

  /** Places every field of a well-formed instruction at the bit range the
      decoder reads it from. */
  function Encode(i: Instruction): (raw: bv32)
    requires i.WellFormed()
  {
    match i
    case General(op, rd, sh, sz, rs, c, a) =>
      Encode1(op, Nibble(rd), ShiftCode(sh), SizeCode(sz), Nibble(rs), CondCode(c), Flag(a.ShiftByImm?), AmountBits(a))
    case Immediate(op, rd, c, uplo, imm) =>
      Encode2(op, Nibble(rd), CondCode(c), Flag(uplo), imm)
    case Branch(op, rs, sh, sz, c, push, a) =>
      Encode3(op, Nibble(rs), ShiftCode(sh), SizeCode(sz), CondCode(c), Flag(push), Flag(a.ShiftByImm?), AmountBits(a))
    case ImmediateBranch(op, rp, c, push, imm) =>
      Encode4(op, Nibble(rp), CondCode(c), Flag(push), imm)
  }

  /** The bits of a word the decoder reads. Class I ignores bits 28-31 when
      the shift amount is a register (29-31 when it is an immediate);
      class III ignores bits 25-31 (26-31); classes II and IV read them all. */
  function UsedBits(raw: bv32): bv32 {
    var cl := raw & 0x3;
    if cl == 0 then (if raw & 0x80_0000 != 0 then 0x1FFF_FFFF else 0x0FFF_FFFF)
    else if cl == 2 then (if raw & 0x10_0000 != 0 then 0x03FF_FFFF else 0x01FF_FFFF)
    else 0xFFFF_FFFF
  }

  // ---------------------------------------------------------------------
  // Round trips

  /** Decoding an encoded instruction gives back every field. */
  lemma DecodeEncode(i: Instruction)
    requires i.WellFormed()
    ensures Decode(Encode(i)) == i
  {
    match i
    case General(op, rd, sh, sz, rs, c, a) => DecodeEncodeGeneral(op, rd, sh, sz, rs, c, a);
    case Immediate(op, rd, c, uplo, imm) => DecodeEncodeImmediate(op, rd, c, uplo, imm);
    case Branch(op, rs, sh, sz, c, push, a) => DecodeEncodeBranch(op, rs, sh, sz, c, push, a);
    case ImmediateBranch(op, rp, c, push, imm) => DecodeEncodeImmediateBranch(op, rp, c, push, imm);
  }

  lemma DecodeEncodeGeneral(op: bv32, rd: nat, sh: Shift, sz: OpSize, rs: nat, c: Cond, a: ShiftAmount)
    requires General(op, rd, sh, sz, rs, c, a).WellFormed()
    ensures Decode(Encode(General(op, rd, sh, sz, rs, c, a))) == General(op, rd, sh, sz, rs, c, a)
  {
    EnumCodesRoundTrip(sh, sz, c);
    var raw := Encode(General(op, rd, sh, sz, rs, c, a));
    assert Decode(raw) == Decode1(raw);
  }

  lemma DecodeEncodeImmediate(op: bv32, rd: nat, c: Cond, uplo: bool, imm: bv32)
    requires Immediate(op, rd, c, uplo, imm).WellFormed()
    ensures Decode(Encode(Immediate(op, rd, c, uplo, imm))) == Immediate(op, rd, c, uplo, imm)
  {
    EnumCodesRoundTrip(NoShift, SizeWord, c);
    var raw := Encode(Immediate(op, rd, c, uplo, imm));
    assert Decode(raw) == Decode2(raw);
  }

  lemma DecodeEncodeBranch(op: bv32, rs: nat, sh: Shift, sz: OpSize, c: Cond, push: bool, a: ShiftAmount)
    requires Branch(op, rs, sh, sz, c, push, a).WellFormed()
    ensures Decode(Encode(Branch(op, rs, sh, sz, c, push, a))) == Branch(op, rs, sh, sz, c, push, a)
  {
    EnumCodesRoundTrip(sh, sz, c);
    var raw := Encode(Branch(op, rs, sh, sz, c, push, a));
    assert Decode(raw) == Decode3(raw);
  }

  lemma DecodeEncodeImmediateBranch(op: bv32, rp: nat, c: Cond, push: bool, imm: bv32)
    requires ImmediateBranch(op, rp, c, push, imm).WellFormed()
    ensures Decode(Encode(ImmediateBranch(op, rp, c, push, imm))) == ImmediateBranch(op, rp, c, push, imm)
  {
    EnumCodesRoundTrip(NoShift, SizeWord, c);
    var raw := Encode(ImmediateBranch(op, rp, c, push, imm));
    assert Decode(raw) == Decode4(raw);
  }

  /** Every four-bit field is the code of the register index it is read
      as. */
  lemma NibbleOfField(x: bv32)
    requires x < 16
    ensures Nibble(RegisterIndex(x)) == x
  {
  }

  /** Encoding a decoded word gives back exactly the bits the decoder reads:
      two words decode alike if and only if they agree on those bits. */
  lemma EncodeDecode(raw: bv32)
    ensures Encode(Decode(raw)) == raw & UsedBits(raw)
  {
    var cl := raw & 0x3;
    if cl == 0 {
      EncodeDecode1(raw);
    } else if cl == 1 {
      EncodeDecode2(raw);
    } else if cl == 2 {
      EncodeDecode3(raw);
    } else {
      EncodeDecode4(raw);
    }
  }

  lemma EncodeDecode1(raw: bv32)
    requires raw & 0x3 == 0
    ensures Encode(Decode(raw)) == raw & UsedBits(raw)
  {
    var i := Decode(raw);
    assert i == Decode1(raw);
    var si := (raw & 0x80_0000) >> 23;
    var amt := if si == 1 then (raw & 0x1F00_0000) >> 24 else (raw & 0x0F00_0000) >> 24;
    assert Flag(i.amount.ShiftByImm?) == si;
    NibbleOfField((raw & 0x0F00_0000) >> 24);
    assert AmountBits(i.amount) == amt;
    NibbleOfField((raw & 0xF00) >> 8);
    NibbleOfField((raw & 0xF_0000) >> 16);
    assert Encode(i) == Encode1((raw & 0xFC) >> 2, (raw & 0xF00) >> 8, (raw & 0x3000) >> 12,
      (raw & 0xC000) >> 14, (raw & 0xF_0000) >> 16, (raw & 0x70_0000) >> 20, si, amt);
    Reassemble1(raw);
  }

  lemma EncodeDecode2(raw: bv32)
    requires raw & 0x3 == 1
    ensures Encode(Decode(raw)) == raw & UsedBits(raw)
  {
    NibbleOfField((raw & 0xF00) >> 8);
    assert Encode(Decode(raw)) == Encode2((raw & 0xFC) >> 2, (raw & 0xF00) >> 8, (raw & 0x7000) >> 12,
      (raw & 0x8000) >> 15, ImmField(raw));
    Reassemble2(raw);
  }

  lemma EncodeDecode3(raw: bv32)
    requires raw & 0x3 == 2
    ensures Encode(Decode(raw)) == raw & UsedBits(raw)
  {
    var i := Decode(raw);
    assert i == Decode3(raw);
    var si := (raw & 0x10_0000) >> 20;
    var amt := if si == 1 then (raw & 0x03E0_0000) >> 21 else (raw & 0x01E0_0000) >> 21;
    assert Flag(i.amount.ShiftByImm?) == si;
    NibbleOfField((raw & 0x01E0_0000) >> 21);
    assert AmountBits(i.amount) == amt;
    NibbleOfField((raw & 0xF00) >> 8);
    assert Encode(i) == Encode3((raw & 0xFC) >> 2, (raw & 0xF00) >> 8, (raw & 0x3000) >> 12,
      (raw & 0xC000) >> 14, (raw & 0x7_0000) >> 16, (raw & 0x8_0000) >> 19, si, amt);
    Reassemble3(raw);
  }

  lemma EncodeDecode4(raw: bv32)
    requires raw & 0x3 == 3
    ensures Encode(Decode(raw)) == raw & UsedBits(raw)
  {
    NibbleOfField((raw & 0xF00) >> 8);
    assert Encode(Decode(raw)) == Encode4((raw & 0xFC) >> 2, (raw & 0xF00) >> 8, (raw & 0x7000) >> 12,
      (raw & 0x8000) >> 15, ImmField(raw));
    Reassemble4(raw);
  }

  lemma Reassemble1(raw: bv32)
    requires raw & 0x3 == 0
    ensures
      var si := (raw & 0x80_0000) >> 23;
      var amt := if si == 1 then (raw & 0x1F00_0000) >> 24 else (raw & 0x0F00_0000) >> 24;
      Encode1((raw & 0xFC) >> 2, (raw & 0xF00) >> 8, (raw & 0x3000) >> 12, (raw & 0xC000) >> 14,
              (raw & 0xF_0000) >> 16, (raw & 0x70_0000) >> 20, si, amt)
      == raw & UsedBits(raw)
  {
  }

  lemma Reassemble2(raw: bv32)
    requires raw & 0x3 == 1
    ensures Encode2((raw & 0xFC) >> 2, (raw & 0xF00) >> 8, (raw & 0x7000) >> 12, (raw & 0x8000) >> 15, ImmField(raw))
            == raw & UsedBits(raw)
  {
  }

  lemma Reassemble3(raw: bv32)
    requires raw & 0x3 == 2
    ensures
      var si := (raw & 0x10_0000) >> 20;
      var amt := if si == 1 then (raw & 0x03E0_0000) >> 21 else (raw & 0x01E0_0000) >> 21;
      Encode3((raw & 0xFC) >> 2, (raw & 0xF00) >> 8, (raw & 0x3000) >> 12, (raw & 0xC000) >> 14,
              (raw & 0x7_0000) >> 16, (raw & 0x8_0000) >> 19, si, amt)
      == raw & UsedBits(raw)
  {
  }

  lemma Reassemble4(raw: bv32)
    requires raw & 0x3 == 3
    ensures Encode4((raw & 0xFC) >> 2, (raw & 0xF00) >> 8, (raw & 0x7000) >> 12, (raw & 0x8000) >> 15, ImmField(raw))
            == raw & UsedBits(raw)
  {
  }
}
