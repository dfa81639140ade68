# Yesod CPU core in Dafny

A model of the execution core of Yesod, a small software CPU written in C.
Each call to `yesod_cycle` does one step:

1. It fetches the little-endian instruction word at PC.
2. It decodes the word into one of four instruction classes.
3. It clears x0 and advances PC by four.
4. It runs the class handler (`cycle1` to `cycle4`).

The handler checks the instruction's condition against the flag byte. It then forms the operand:
- class I: shift, then fit;
- class II: an immediate;
- class III: shift, then fit;
- class IV: an immediate with a register in the upper half.

It then dispatches on the opcode. A cycle returns a 32-bit code: 0 to continue, the operand for HLT, and 1 for an unhandled opcode or a push onto a full stack.

Files, one module each, in dependency order:

| file | module | contents |
|---|---|---|
| words.dfy | Words | 32-bit words as integers in [0, 2^32) with explicit wrap-around; powers of two and the division and modulo facts the shifts need |
| bits.dfy | Bits | bitwise and, or and xor on naturals, defined bit by bit; masks, disjoint or, the sign bit |
| signed.dfy | SignedWords | the int32_t reading of a word, and `overflow_add` / `overflow_sub` |
| vm.dfy | VmState | the machine record of `struct yesod_vm`, the flag masks, byte memory, and little-endian word load and store |
| decoder.dfy | Decoder | the enumerations and instruction layouts of `decoder.h`, `yesod_decode`, an encoder, and both round trips |
| operand.dfy | Operand | `check`, `shift`, `fit` |
| alu.dfy | Alu | `partial_flagset`, `mov`, `add`, `sub`, `and`, `or`, `xor`, `car`, `cdr`, `str`, `cmp` |
| execute.dfy | Execute | operand forming, `push`, the jumps, `cycle1` to `cycle4` |
| cycle.dfy | Cycle | `fetch` plus `yesod_cycle`, and whole-cycle properties |

Modelling choices:
- Registers, addresses and operands are integers in [0, 2^32). Every uint32_t sum, difference and left shift goes through `Wrap` (modulo 2^32).
- The flag byte is a `bv8`, since it is only ever ORed with masks.
- The decoder works on `bv32`, as the source's masks and shifts do.
- Operations are pure functions from a machine to a machine, or to a `Result` when the C behaviour would be undefined.
- Memory is a map whose keys are exactly the indices below the memory size. An index outside memory is a `Fault(OutOfBounds(i))` rather than undefined behaviour.
- A real shift by 32 or more is `Fault(ShiftTooWide(s))`. Such an amount can come from the low byte of a shift register.

Behaviours modelled exactly as the code has them, even where they look unusual:
- **Add's Carry test.** Carry is raised when both operands have the top bit set. So `0xFFFFFFFF + 1` wraps without raising Carry (`Alu.AddCarryMissesWrap`).
- **Sub's Carry test.** Carry is raised when the subtrahend is below the old value.
- **LTS and GES.** They read only the Overflow flag: LTS holds when Overflow is clear, GES when it is set.
- **Condition code 0b101.** It has no name and always holds.
- **Flags are sticky.** Flags are only ever ORed in and never cleared, so a condition sees every flag set since the program started.
- **A push comes before the opcode check.** In classes III and IV the push happens before the opcode is examined. An instruction with the push bit and a non-jump opcode therefore still pushes, then returns 1.
- **x0 is not always zero.** It is zero only at the start of an instruction, because any register operation can write it, and `cmp` uses it as scratch.

## Model

| member | source | states |
|---|---|---|
| VmState.FlagMasks | vm/vm.h:37-40 | Zero, Carry, Sign and Overflow are the single bits 0 to 3, and none of them meets the reserved bits 4 to 7 |
| VmState.Load | vm/cycle.c:209 | reading a byte succeeds exactly when the index is inside memory and then yields the stored byte; otherwise it faults at that index |
| VmState.Store | vm/cycle.c:229 | writing a byte succeeds exactly when the index is inside memory; that byte takes the value, every other byte and both sizes stay as they were |
| VmState.LoadAfterStore | vm/cycle.c:229 | after a byte store, a load of the same index gives the stored byte and a load of any other index gives what it gave before |
| VmState.StoreKeepsValid | vm/cycle.c:229 | a byte store keeps memory's indices exactly those below its size |
| VmState.BytesOfWord | vm/cycle.c:14-17 | every word equals the little-endian assembly of its four bytes |
| VmState.WordOfBytes | vm/cycle.c:14-17 | the bytes of an assembled word are the four bytes it was assembled from |
| VmState.SameBytesSameWord | vm/cycle.c:14-17 | two words whose four bytes agree are equal |
| VmState.LoadWord | vm/cycle.c:4-18 | fetch succeeds exactly when all four indices addr to addr+3 (wrapping at 2^32) are in memory, and then byte k of the result is the byte at index addr+k |
| VmState.WordIndicesDistinct | vm/cycle.c:360-363 | the four indices of a word are pairwise distinct even when they wrap past 2^32 |
| VmState.StoreWord | vm/cycle.c:360-363 | the four-byte store succeeds exactly when the four indices are in memory; loading the word back gives the stored value, and no byte outside the four changes |
| VmState.StoreWordKeepsValid | vm/cycle.c:360-363 | a word store to four bytes inside memory succeeds and keeps memory's indices exactly those below its size |
| SignedWords.Signed | vm/cycle.c:115-116 | the int32_t reading of a word lies in [-2^31, 2^31), wraps back to the word, and is negative exactly when the top bit is set |
| SignedWords.SignedOfWrap | vm/cycle.c:121 | a value in the int32_t range survives the 32-bit wrap and the reading back |
| SignedWords.WrapSigned | vm/cycle.c:121 | the 32-bit sum and difference of the int32_t readings equal the unsigned wrapped sum and difference |
| SignedWords.OverflowAdd | vm/cycle.c:111-124 | overflow_add: the exact sum of the int32_t readings of the operands differs from their 32-bit wrapped sum |
| SignedWords.OverflowSub | vm/cycle.c:142-155 | overflow_sub: the exact difference of the int32_t readings differs from their 32-bit wrapped difference |
| SignedWords.OverflowAddOutOfRange | vm/cycle.c:111-124 | overflow_add holds if and only if the exact sum of the int32_t operands lies outside [-2^31, 2^31) |
| SignedWords.OverflowSubOutOfRange | vm/cycle.c:142-155 | overflow_sub holds if and only if the exact difference lies outside [-2^31, 2^31) |
| SignedWords.OverflowAddSignRule | vm/cycle.c:111-124 | overflow_add holds if and only if both operands have one sign and the wrapped sum the other |
| SignedWords.OverflowSubSignRule | vm/cycle.c:142-155 | overflow_sub holds if and only if the operands differ in sign and the wrapped difference differs in sign from the minuend |
| Decoder.ShiftOf | vm/decoder.h:14-19 | each of the four two-bit codes names a shift kind that encodes back to the same code |
| Decoder.SizeOf | vm/decoder.h:29-34 | each of the four two-bit codes names an operand size that encodes back to the same code |
| Decoder.CondOf | vm/decoder.h:46-54 | each of the eight three-bit codes, the unnamed 0b101 included, decodes to a condition that encodes back to it |
| Decoder.EnumCodesRoundTrip | vm/decoder.h:14-54 | shift kinds, sizes and conditions are in one-to-one correspondence with their codes |
| Decoder.Nibble | vm/decoder.c:4 | every register index below 16 has a four-bit code that reads back as that index |
| Decoder.NibbleOfField | vm/decoder.c:4 | every four-bit field is the code of the register index it is read as |
| Decoder.Decode | vm/decoder.c:102-130 | decoding is total; the class is chosen by bits 0-1 alone, each class by exactly its code; every field is within its bit range (opcode below 64, register fields below 16, 16-bit immediates, shift immediates below 32) |
| Decoder.Decode1 | vm/decoder.c:3-35 | decode1: opcode bits 2-7, rd 8-11, shift 12-13, size 14-15, rs 16-19, cond 20-22, shifti 23; the shift amount is the five-bit immediate at 24-28 when shifti is set, else the register at 24-27 |
| Decoder.Decode2 | vm/decoder.c:37-55 | decode2: opcode, rd, cond bits 12-14, uplo bit 15, imm bits 16-31 |
| Decoder.Decode3 | vm/decoder.c:57-83 | decode3: opcode, rs bits 8-11, shift, size, cond 16-18, push 19, shifti 20; the shift amount is the immediate at 21-25 when shifti is set, else the register at 21-24 |
| Decoder.Decode4 | vm/decoder.c:85-100 | decode4: opcode, rp bits 8-11, cond 12-14, push bit 15, imm bits 16-31 |
| Decoder.Encode1 | vm/decoder.c:3-13 | the class I layout: each field, placed by the encoder, is read back by the decoder's mask and shift, and the unused top bits are clear |
| Decoder.Encode2 | vm/decoder.c:37-40 | the class II layout: opcode, rd, cond (bits 12-14), uplo (bit 15) and imm (bits 16-31) read back |
| Decoder.Encode3 | vm/decoder.c:57-61 | the class III layout: cond bits 16-18, push bit 19, shifti bit 20, amount from bit 21, read back |
| Decoder.Encode4 | vm/decoder.c:85-99 | the class IV layout: rp, cond, push (bit 15) and imm (bits 16-31) read back |
| Decoder.DecodeEncode | vm/decoder.c:104-130 | decoding the encoding of any well-formed instruction gives the instruction back, in every class |
| Decoder.DecodeEncodeGeneral | vm/decoder.c:15-35 | class I: decode after encode is the identity |
| Decoder.DecodeEncodeImmediate | vm/decoder.c:42-55 | class II: decode after encode is the identity |
| Decoder.DecodeEncodeBranch | vm/decoder.c:63-83 | class III: decode after encode is the identity |
| Decoder.DecodeEncodeImmediateBranch | vm/decoder.c:87-100 | class IV: decode after encode is the identity |
| Decoder.EncodeDecode | vm/decoder.c:104-130 | encoding a decoded word gives exactly the bits the decoder reads, so two words decode alike if and only if they agree on those bits |
| Decoder.EncodeDecode1 | vm/decoder.c:15-35 | class I: encode after decode keeps bits 0-27, or 0-28 with an immediate shift amount |
| Decoder.EncodeDecode2 | vm/decoder.c:42-55 | class II: encode after decode keeps every bit |
| Decoder.EncodeDecode3 | vm/decoder.c:63-83 | class III: encode after decode keeps bits 0-24, or 0-25 with an immediate shift amount |
| Decoder.EncodeDecode4 | vm/decoder.c:87-100 | class IV: encode after decode keeps every bit |
| Decoder.Reassemble1 | vm/decoder.c:3-13 | the class I fields, put back in place, are the word restricted to the bits read |
| Decoder.Reassemble2 | vm/decoder.c:37-40 | the class II fields, put back in place, are the whole word |
| Decoder.Reassemble3 | vm/decoder.c:57-61 | the class III fields, put back in place, are the word restricted to the bits read |
| Decoder.Reassemble4 | vm/decoder.c:85 | the class IV fields, put back in place, are the whole word |
| Operand.Check | vm/cycle.c:20-44 | ALW and the unnamed code always hold; NEQ/EEQ hold when Zero is set/clear, LTU/GEU when Carry is set/clear, LTS/GES when Overflow is clear/set |
| Operand.CheckComplements | vm/cycle.c:29-40 | NEQ and EEQ, LTU and GEU, LTS and GES are complements under every flag byte |
| Operand.CheckReadsThreeFlags | vm/cycle.c:25-43 | two flag bytes that agree on Zero, Carry and Overflow satisfy the same conditions: Sign and the reserved bits are never read |
| Operand.ShiftValue | vm/cycle.c:46-65 | shifting by NONE returns the operand whatever the amount |
| Operand.ShiftByZero | vm/cycle.c:52-64 | a shift by zero of any kind is the identity |
| Operand.ShiftLeftFillsZeros | vm/cycle.c:57 | a left shift by s clears the low s bits |
| Operand.ShiftRightFillsZeros | vm/cycle.c:59 | a logical right shift by s leaves a value below 2^(32-s): the top s bits are clear |
| Operand.ShiftLeftThenRight | vm/cycle.c:56-59 | a left shift then a logical right shift by s keeps exactly the low 32-s bits |
| Operand.ArithmeticShiftOfNonNegative | vm/cycle.c:61 | on a word with the top bit clear, ASR equals LSR |
| Operand.ArithmeticShiftOfNegative | vm/cycle.c:61 | on a word with the top bit set, ASR is LSR with the s vacated top bits set (plus 2^32 - 2^(32-s)) |
| Operand.ArithmeticShiftKeepsSign | vm/cycle.c:61 | ASR keeps the top bit |
| Operand.ArithmeticShiftDivides | vm/cycle.c:61 | read as int32_t, ASR by s divides by 2^s rounding toward minus infinity |
| Operand.Fit | vm/cycle.c:67-85 | fit returns the operand modulo 2^32, 2^24, 2^16 or 2^8 for WORD, DAY, HALF and BYTE, so the result is below that bound and WORD is the identity |
| Operand.FitIdempotent | vm/cycle.c:72-84 | fitting twice is fitting once, and a value already in range is unchanged |
| Alu.PartialFlagset | vm/cycle.c:87-97 | partial_flagset raises Zero exactly when the value is zero and Sign exactly when it is 2^31 or more, keeps every flag already set, and leaves Carry, Overflow and the reserved bits alone |
| Alu.PartialFlagsetSignBit | vm/cycle.c:94-95 | Sign is raised exactly when it was set or bit 31 of the value is set, the mask test the source makes |
| Alu.ArithmeticFlags | vm/cycle.c:132-136 | the Overflow and Carry update raises each flag exactly when its test holds and leaves the others alone |
| Alu.AddCarry | vm/cycle.c:135 | add's Carry test: both operands above HALF_UINT32_T = 0x7FFFFFFF, that is, both with bit 31 set |
| Alu.AddFlags | vm/cycle.c:126-140 | after add, Overflow is raised iff overflow_add, Carry iff both operands have the top bit set, Zero and Sign from the wrapped sum; no flag is cleared |
| Alu.SubFlags | vm/cycle.c:157-171 | after sub, Overflow is raised iff overflow_sub, Carry iff the operand is below the old value, Zero and Sign from the wrapped difference; no flag is cleared |
| Alu.Mov | vm/cycle.c:99-107 | mov sets register rd to x, changes no other register and no memory, and sets flags by the value |
| Alu.Add | vm/cycle.c:126-140 | add sets rd to the sum modulo 2^32 with add's flags, and nothing else changes |
| Alu.Sub | vm/cycle.c:157-171 | sub sets rd to the difference modulo 2^32 with sub's flags, and nothing else changes |
| Alu.And | vm/cycle.c:173-181 | each bit of the new rd is set exactly when it was set in both rd and x; nothing else changes but the flags |
| Alu.Or | vm/cycle.c:183-191 | each bit of the new rd is set exactly when it was set in rd or x; nothing else changes but the flags |
| Alu.Xor | vm/cycle.c:193-201 | each bit of the new rd is set exactly when rd and x differ there; nothing else changes but the flags |
| Alu.Car | vm/cycle.c:203-211 | car succeeds exactly when x is inside memory, loading the byte at x into rd; otherwise it faults at x |
| Alu.Cdr | vm/cycle.c:213-221 | cdr succeeds exactly when x + 4 (not wrapped) is inside memory, loading the byte at x + 4 into rd |
| Alu.Str | vm/cycle.c:223-230 | str succeeds exactly when the index in rd is inside memory; it stores the low byte of x there and changes no other byte, no register and no flag |
| Alu.Cmp | vm/cycle.c:232-241 | cmp leaves regs[rx] - y modulo 2^32 in x0 with sub's flags, and changes no other register and no memory |
| Alu.AddOverflowFlag | vm/cycle.c:132-133 | add raises Overflow exactly when two operands of one sign give a sum of the other |
| Alu.SubOverflowFlag | vm/cycle.c:163-164 | sub raises Overflow exactly when operands of opposite signs give a difference whose sign differs from the minuend's |
| Alu.AddCarryMeansWrap | vm/cycle.c:135-136 | whenever add's Carry test fires, the unsigned sum really passes 2^32 |
| Alu.AddCarryMissesWrap | vm/cycle.c:135-138 | the converse fails: 0xFFFFFFFF + 1 wraps to zero without raising Carry |
| Alu.CmpZeroIffEqual | vm/cycle.c:232-241 | cmp leaves Zero set if and only if it was set before or the two operands are equal |
| Alu.AddThenSubRestores | vm/cycle.c:126-171 | adding x and then subtracting x restores every register, and no flag set before is cleared |
| Alu.XorTwiceRestores | vm/cycle.c:193-201 | xor with the same operand twice restores every register |
| Alu.AndIdempotentRegs | vm/cycle.c:173-181 | a second and with the same operand changes no register |
| Alu.OrIdempotentRegs | vm/cycle.c:183-191 | a second or with the same operand changes no register |
| Alu.StrThenCar | vm/cycle.c:203-230 | a car of the index str wrote to reads back the low byte of the stored value |
| Alu.AddTwiceOverflows | vm/cycle.c:126-140 | adding 0x80000000 to a zero register leaves Overflow clear and raises Sign; adding it again gives 0 and raises Overflow, Zero and Carry, with Sign still set |
| Execute.ShiftAmountOf | vm/cycle.c:253 | the shift amount is below 256, as the uint8_t it is held in |
| Execute.ShapeOperand | vm/cycle.c:253-257 | forming the operand faults exactly when a real shift is asked for by 32 or more; otherwise the operand fits the size, and with no shift it is the register modulo the size |
| Execute.ImmediateOperand | vm/cycle.c:305-311 | the class II operand is the immediate, or the immediate times 2^16 when uplo is set |
| Execute.UpperHalf | vm/cycle.c:413 | a word shifted left by 16 is its low half times 2^16 |
| Execute.ImmediateBranchOperand | vm/cycle.c:408-413 | the class IV operand is imm plus the low 16 bits of register rp times 2^16 |
| Execute.RegisterOperand | vm/cycle.c:248-257 | the class I and III operand: register rs shifted by the immediate or the low byte of register rh, then fitted to the size |
| Execute.RegisterOp | vm/cycle.c:259-297 | a non-register opcode returns 1 with the machine unchanged; a register opcode returns 0; only car, cdr and str can fault; no flag is cleared |
| Execute.RegisterOpKeepsOthers | vm/cycle.c:259-297 | a register operation changes no register other than its destination and x0 |
| Execute.StackFull | vm/cycle.c:357-358 | push's full-stack test: sp - STACK, wrapped to 32 bits, exceeds the stack size |
| Execute.Push | vm/cycle.c:350-368 | on a full stack (sp - STACK > s_size, wrapping), push returns 1 and changes nothing; otherwise it succeeds exactly when the four bytes at sp are in memory, stores x there little-endian, and advances SP by 4 |
| Execute.PushWord | vm/cycle.c:360-365 | the store and the SP update: the word at the old SP reads back as x, SP grows by 4, and nothing but SP and those four bytes changes |
| Execute.Jump | vm/cycle.c:390-400 | JA sets PC to the operand; JR adds the operand minus 4 to PC modulo 2^32; both return 0 and change nothing else; any other opcode returns 1 |
| Execute.PushThenJump | vm/cycle.c:386-400 | without push it is the jump; with push on a full stack it returns 1 and nothing changes; with push and room it succeeds exactly when the stack word is in memory, and is then the jump on the machine with the return address stored at the old SP and SP advanced by 4 |
| Execute.Cycle1 | vm/cycle.c:243-298 | a false condition returns 0 with nothing changed; a shift fault is reported; NOP returns 0, HLT returns the shaped operand, the register opcodes run, any other opcode returns 1 |
| Execute.Cycle2 | vm/cycle.c:300-348 | a false condition returns 0 with nothing changed; register opcodes run on the immediate (moved up by 16 when uplo); anything else, NOP and HLT included, returns 1 |
| Execute.Cycle3 | vm/cycle.c:370-401 | a false condition returns 0 with nothing changed; a shift fault is reported; otherwise push then jump on the shaped operand; flags never change |
| Execute.Cycle4 | vm/cycle.c:403-430 | a false condition returns 0 with nothing changed; otherwise push then jump to imm plus the low half of rp times 2^16; flags never change |
| Execute.CallPushesReturnAddress | vm/cycle.c:413-423 | a class IV JA with push stores the return address (PC) at the old SP, advances SP by 4 and jumps to the operand |
| Execute.RegisterCallPushesReturnAddress | vm/cycle.c:370-397 | a class III JA with push stores the return address at the old SP, advances SP by 4 and jumps to the shaped register operand |
| Execute.CallRuns | vm/cycle.c:386-393 | JA with push on a stack with room stores the return address at the old SP, advances SP by 4, sets PC to the operand and returns 0 |
| Execute.RelativeCallPushesReturnAddress | vm/cycle.c:386-397 | JR with push stores the return address at the old SP, advances SP by 4 and moves PC by the operand minus 4 |
| Execute.PushedJumpKeepsReturnAddress | vm/cycle.c:386-397 | any jump with push on a stack with room returns 0 with the return address at the old SP and SP advanced by 4, since the jump changes only PC |
| Execute.RelativeCallMovesPc | vm/cycle.c:386-397 | the push leaves PC alone, so JR with push moves PC by the operand minus 4 from where the prologue left it |
| Execute.JumpFromSamePc | vm/cycle.c:394-396 | a proof step for the relative call: JR on machines with equal PCs lands on the same target, PC plus the operand minus 4 modulo 2^32 |
| Execute.FullStackStopsJump | vm/cycle.c:415-417 | with push on a full stack, a class IV instruction returns 1 and leaves the machine unchanged |
| Execute.PushBeforeOpcodeCheck | vm/cycle.c:415-428 | with push set and a non-jump opcode, the return address is still pushed and SP advanced, PC is left alone, and the code is 1 |
| Cycle.Prologue | vm/cycle.c:442-444 | before dispatch x0 becomes 0 and PC advances by 4 modulo 2^32; nothing else changes |
| Cycle.Step | vm/cycle.c:432-459 | a fetch outside memory faults before anything changes; a completed cycle leaves a well-formed machine and clears no flag |
| Cycle.Dispatch | vm/cycle.c:446-456 | every class handler leaves a well-formed machine and clears no flag |
| Cycle.StepFetches | vm/cycle.c:439-440 | a cycle over the bytes b0..b3 at PC (wrapping) runs the decoding of their little-endian word on the machine after the prologue |
| Cycle.RelativeJumpFromInstruction | vm/cycle.c:424-425 | because PC was already advanced, JR with operand v from the instruction at a leaves PC at a + v modulo 2^32 |
| Cycle.StraightLineAdvancesPc | vm/cycle.c:443-444 | a class I or II instruction not writing PC leaves PC four past itself |
| Cycle.FailedConditionSkips | vm/cycle.c:250-251 | with a false condition the cycle returns 0 and the machine is as the prologue left it |
| Cycle.UndocumentedOpcodeReturnsOne | vm/decoder.h:56-71 | an opcode outside the classes documented for it (JA/JR in class I, NOP/HLT in class II, register opcodes in III/IV) returns 1 and changes nothing, whenever its condition holds, its register operand needs no shift of 32 or more and no push is requested |
| Cycle.ZeroRegisterWritable | vm/vm.h:14 | x0 is zero after the prologue, but mov x0, #5 leaves 5 in it |
| Cycle.DecodeHalt | vm/decoder.c:15-35 | 0x00010030 decodes to hlt with source register x1, no shift, word size, always |
| Cycle.DecodeMove | vm/decoder.c:42-55 | 0x00050105 decodes to mov x1, #5, always, lower half |
| Cycle.DecodeRelativeJump | vm/decoder.c:87-100 | 0x0000002F decodes to a class IV JR with rp x0, immediate 0, always, no push |
| Cycle.HaltRuns | vm/cycle.c:248-264 | after the prologue, hlt x1 returns the value x1 held before the cycle and changes nothing further |
| Cycle.HaltReturnsRegister | vm/cycle.c:263-264 | a cycle fetching 0x00010030 returns the value of x1, with only the prologue applied |
| Cycle.MoveImmediate | vm/cycle.c:315-317 | a cycle fetching 0x00050105 puts 5 in x1, returns 0, advances PC by 4 and leaves memory alone |
| Cycle.MoveStep | vm/cycle.c:432-456 | a cycle fetching 0x00050105 is mov x1, #5 on the machine after the prologue |
| Cycle.MoveThenHalt | vm/cycle.c:432-456 | mov x1, #5 followed by hlt x1: the first cycle returns 0 and the second returns 5 |
| Cycle.DecodeUpperAdd | vm/decoder.c:42-55 | 0x80008109 decodes to class II add x1, #0x8000 with uplo set, always |
| Cycle.UpperAddRuns | vm/cycle.c:305-321 | that instruction adds 0x80000000 to x1 |
| Cycle.UpperAddStep | vm/cycle.c:432-456 | a cycle fetching 0x80008109 is the add of 0x80000000 to x1 after the prologue |
| Cycle.AddTwiceAcrossPrologue | vm/cycle.c:126-140 | the prologue between two adds of 0x80000000 changes neither x1 nor the flags, so the second add overflows |
| Cycle.UpperAddTwiceOverflows | vm/cycle.c:432-456 | two cycles of add x1, #0x80000000 from x1 = 0 with Overflow clear: the first raises Sign but not Overflow, the second raises Overflow and Zero, keeps Sign, and leaves x1 = 0 |
| Cycle.RelativeJumpRuns | vm/cycle.c:403-426 | the class IV JR with operand 0 is the plain jump |
| Cycle.JumpToSelf | vm/cycle.c:425 | JR by 0 after the prologue lands on the instruction itself |
| Cycle.RelativeJumpToSelf | vm/cycle.c:424-426 | a cycle fetching 0x0000002F returns 0 and leaves PC where it was |

## Left out

- The loader (`yesod_init_vm` and `yesod_init_prog` in vm/vm.c), dump and destroy (`yesod_dump_vm` and `yesod_destroy_vm`, declared in vm/vm.h and defined outside the available source), and the host loop that steps until a non-zero code (vm/main.c). These are file and console I/O. The model gives single steps. The section bounds heap, rodata, data and text are plain fields of the machine.
- `STACK` is defined in a header outside the available source (cycle.c includes cycle.h, which is not part of this model). It is the parameter `stackBase` of the memory. Its type is unseen as well: the model assumes it is no wider than `uint32_t`, so `sp - STACK` is computed modulo 2^32. With a signed 64-bit STACK the difference would not wrap: an `sp` below STACK would give a negative distance and never test as a full stack, where the model's wrapped distance is 2^32 minus the gap and exceeds the stack size unless that gap is nearly 2^32. An unsigned 64-bit STACK would wrap modulo 2^64 instead and still test as full.
- The element type of the memory array is declared in mem.h, which is not part of this model. The model takes it to be unsigned bytes, so car and cdr zero-extend the byte they load. With a signed `char` element, car of the byte 0x80 would give 0xFFFFFF80 and raise Sign.
- cdr's index `x + sizeof(uint32_t)` is taken as a 64-bit `size_t` sum that does not wrap. An `x` of 0xFFFFFFFC or more therefore indexes past 2^32 and faults, where a 32-bit sum would wrap to a small index.
- Out-of-range memory indices in fetch, car, cdr, str and push are undefined in C. The model makes each one a `Fault` at the first offending index.
- A shift by 32 or more from a register's low byte is undefined in C. The model makes it a `Fault`.
- `sx + sy` and `sx - sy` in overflow_add and overflow_sub are signed overflows. The model gives them their two's-complement result, so overflow is reported when the exact value leaves the int32_t range.
- The right shift of a negative int32_t is implementation-defined. ASR is modelled as an arithmetic shift.
- The class I shift immediate follows the code (bits 24-28). The comment at vm/decoder.h:77 says bits 25-29.
- Operand.ArithmeticShiftOfNegative: states the copying of bit 31 into the vacated bits arithmetically, as the logical shift plus 2^32 - 2^(32-s). There is no per-bit statement.
- Reserved flag bits: the model proves that bits 4-7 never change, rather than that they are never set. A flag byte that starts with them set keeps them.
- The code of a cycle is returned as a word; what the host loop does with it is not modelled.
