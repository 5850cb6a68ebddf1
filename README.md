# NVC instruction-execution core, modelled in Dafny

This project models the CPU core of a Virtual Boy emulator, an NEC V810 ("NVC"). It covers three parts:

- **The opcode decoder and its tables** (`instruction.dfy`, module `Instruction`). The top six bits of a 16-bit fetch unit select one of seven opcodes: movhi, movea, mov imm5, st.b, jmp, sub and out.w. For each opcode there is an instruction format (I, II, V or VI), whether a second halfword follows, a cycle cost and a mnemonic. Any other bit pattern is a decode failure.
- **The bus read path** (`interconnect.dfy`, module `Interconnect`).
  - Addresses are cut to 27 bits.
  - Only the window at `0x07000000` and above is mapped. It holds the program image (the ROM), mirrored by masking with `size - 1`.
  - Halfwords are read little-endian from the address with bit 0 cleared.
  - A class `Bus` adds the three operations the CPU calls but the interconnect does not define: `write_byte`, `write_word` and `cycles`.
- **The CPU** (`nvc.dfy`, module `Nvc`).
  - The value-level specification:
    - `CpuState`, whose 31 stored registers sit behind a hardwired-zero r0;
    - the program status word (PSW) and its packing `reg_psw`;
    - the operand extractors `format_i`/`ii`/`v`/`vi` and `sign_extend_imm5`;
    - the arithmetic of each opcode arm (`Execute`);
    - one whole `step` (`StepSpec`), split into `StepFetched`, `StepDecoded` and `Complete`.
  - The class `Nvc` is the CPU as the emulator holds it: a PC field, an `array<u32>` of 31 registers and one boolean field per flag. Every method of `Nvc` is proved against the value-level specification.

The properties about these definitions are in `nvc_properties.dfy` (module `NvcProperties`). They cover:

- the PSW layout and its round trip;
- the meaning of the sub flags;
- the movea/movhi pair;
- how a step moves the PC;
- what a failing step leaves behind;
- what stores send to the bus;
- a two-instruction program run from reset, both on the specification and on the `Nvc` object.

Two more files support the rest:

- `bits.dfy` (module `Bits`) models the machine words as integer ranges (`u8`, `u16`, `u32`). It writes 32-bit wrap-around out as `Wrap(x) = x % 2^32`, and defines `&`, `|` and `^` recursively on naturals, and `!` on a u32 as `2^32 - 1 - x`. Lemmas give their bit-level meaning.
- `wrappers.dfy` holds `Option` and `Result`.

Two of the emulator's panics become error values:

- `UnrecognizedOpcodeBits` for a decode failure (`src/instruction.rs:25`);
- `UnrecognizedAddress` for a read outside the window (`src/interconnect.rs:23`).

A third error, `ReadOnlyWrite`, belongs to the abstract `Bus`: it refuses a write into the ROM window. A step that fails returns the state reached at the point of failure.

Two other panics are excluded by preconditions instead (see "Left out"):

- the `rom_size - 1` underflow of an empty image (`src/interconnect.rs:18`);
- a register index of 32 or more (`src/nvc.rs:57,63`).

Two consequences of the code are worth stating:

- **A decode failure leaves the PC 2 on.** `src/nvc.rs:87` advances the PC before `src/nvc.rs:89` decodes. In the emulator the panic makes this unobservable. In the model, `StepDecodeFault` states the advanced PC, and `StepSecondFetchFault` does the same for a failed second fetch.
- **movea then movhi loads `(H << 16) + sext16(L)`** (`src/nvc.rs:122,126`). `MoveaThenMovhi` proves the sum, and `HighLowPairIsOrExactlyWhenLowPositive` shows it equals `(H << 16) | L` exactly when bit 15 of L is clear.

## Model

| member | source | states |
|---|---|---|
| Instruction.OpcodeField | src/instruction.rs:16 | the opcode bits are `h >> 10`, a value below 64 |
| Instruction.Encode | src/instruction.rs:18-24 | a halfword with an opcode's pattern in bits 15-10 carries that pattern and keeps the given low ten bits |
| Instruction.FromHalfword | src/instruction.rs:15-27 | a decoded opcode's pattern equals bits 15-10; decoding fails exactly when no opcode has that pattern, and the error carries the bits |
| Instruction.Format | src/instruction.rs:29-39 | jmp and sub are format I, mov imm5 is II, movhi and movea are V, out.w and st.b are VI (each an if-and-only-if) |
| Instruction.HasSecondHalfword | src/instruction.rs:78-85 | a second halfword follows exactly for formats V and VI |
| Instruction.NumCycles | src/instruction.rs:41-51 | the cost is 3 exactly for jmp, 1 for every other opcode, never 0 |
| Instruction.Mnemonic | src/instruction.rs:54-67 | every opcode has a non-empty mnemonic |
| Instruction.InstructionBytes | src/nvc.rs:86-100 | an instruction is 4 bytes exactly when it has a second halfword, else 2 |
| Instruction.DecodeReadsOpcodeBitsOnly | src/instruction.rs:16 | halfwords with equal bits 15-10 decode alike |
| Instruction.PatternInjective | src/instruction.rs:18-24 | the seven patterns are pairwise distinct |
| Instruction.DecodeEncode | src/instruction.rs:15-27 | an opcode's pattern over any ten low bits decodes back to that opcode |
| Instruction.EncodeDecode | src/instruction.rs:15-27 | every halfword that decodes is the encoding of its opcode and its low ten bits |
| Instruction.RecognisedPatterns | src/instruction.rs:17-26 | decoding succeeds exactly for the seven listed six-bit patterns |
| Instruction.SecondHalfwordOpcodes | src/instruction.rs:78-85 | a second halfword is fetched exactly for movhi, movea, st.b and out.w |
| Instruction.MnemonicInjective | src/instruction.rs:56-64 | distinct opcodes have distinct mnemonics |
| Bits.Wrap | src/nvc.rs:87 | the wrapped value is the input reduced modulo 2^32 (differs from it by a multiple of 2^32 and lies in 0..2^32) |
| Bits.WrapAdd | src/nvc.rs:122 | wrapping the addends first does not change a wrapped sum |
| Bits.Not32 | src/nvc.rs:118 | `!x` on a u32 is `2^32 - 1 - x` |
| Bits.BitAnd | src/nvc.rs:118 | bit k of `a & b` is set exactly when it is set in both |
| Bits.BitXor | src/nvc.rs:118 | bit k of `a ^ b` is set exactly when it differs between them |
| Bits.BitOr | src/nvc.rs:68-82 | bit k of `a \| b` is set exactly when it is set in either |
| Bits.AndLowMask | src/interconnect.rs:13 | masking with `2^k - 1` is the remainder modulo `2^k` |
| Bits.OrShifted | src/interconnect.rs:31 | or-ing a value below `2^k` into a multiple of `2^k` is addition |
| Interconnect.AddressMaskIsRemainder | src/interconnect.rs:13 | `addr & 0x07ffffff` is `addr mod 2^27` |
| Interconnect.HalfwordMaskAligns | src/interconnect.rs:28 | `addr & 0x07fffffe` is `addr mod 2^27` with bit 0 cleared |
| Interconnect.RomIndex | src/interconnect.rs:17-19 | for an image of size 1 or more, `addr & (size - 1)` is a valid index, never above the address |
| Interconnect.ReadByte | src/interconnect.rs:12-25 | a read succeeds exactly when the 27-bit address is at or above `0x07000000`, and then returns the image byte at the masked offset; otherwise the error carries the 27-bit address |
| Interconnect.Aligned | src/interconnect.rs:28 | the aligned address is `addr mod 2^27` minus bit 0; it is even and the byte after it is still below 2^27 |
| Interconnect.AlignedInWindow | src/interconnect.rs:28-30 | the aligned address and the one after it need no further masking and lie in the window exactly when the original address does |
| Interconnect.ReadHalfword | src/interconnect.rs:27-32 | a halfword read succeeds exactly when the address is in the window; it is the byte at the aligned address plus 256 times the next byte; a failure names the aligned address |
| Interconnect.ReadByteIgnoresHighBits | src/interconnect.rs:13 | reading `addr` equals reading `addr mod 2^27` |
| Interconnect.RomIndexOfPow2 | src/interconnect.rs:17-19 | for a power-of-two image the offset read is the address modulo the size |
| Interconnect.ReadByteMirrored | src/interconnect.rs:15-21 | in a power-of-two image a window read returns `rom[addr mod size]` |
| Interconnect.ReadByteMirror | src/interconnect.rs:17-21 | window addresses congruent modulo a power-of-two size read the same byte |
| Interconnect.ReadByteNextMirror | src/interconnect.rs:17-21 | reading `addr + size` gives the same byte as `addr` when both are in the window |
| Interconnect.ReadHalfwordIgnoresAlignment | src/interconnect.rs:28 | reading a halfword at `addr` equals reading it at `addr & 0x07fffffe` |
| Interconnect.ReadHalfwordLittleEndian | src/interconnect.rs:28-31 | in a power-of-two image the halfword is `rom[a mod size] + 256 * rom[(a + 1) mod size]` for the aligned `a` |
| Interconnect.CheckWrite | src/nvc.rs:129-138 | a refused write names its address as the error (where it is refused is `WriteRefusedWhereReadable`) |
| Interconnect.WriteRefusedWhereReadable | src/interconnect.rs:15-24 | writes are refused exactly where byte reads succeed |
| Interconnect.Bus.constructor | src/interconnect.rs:8-10 | a new bus holds the image, an empty write log and zero cycles |
| Interconnect.Bus.WriteByte | src/nvc.rs:132 | the result is the write check; an accepted byte write is appended to the log, a refused one leaves it; cycles unchanged |
| Interconnect.Bus.WriteWord | src/nvc.rs:137 | the same for a word write |
| Interconnect.Bus.Cycles | src/nvc.rs:141 | the cycle count grows by the charge; the log is unchanged |
| Nvc.Reset | src/nvc.rs:26-47 | the reset state has PC `0xfffffff0`, every register 0, NMI-pending set and mask level 0 |
| Nvc.Gpr | src/nvc.rs:53-59 | register 0 reads as 0, register i as stored slot i - 1 |
| Nvc.SetGpr | src/nvc.rs:61-65 | after a write, register `index` reads the value unless it is r0, every other register is unchanged, PC and PSW too |
| Nvc.OrFlagBit | src/nvc.rs:68-81 | or-ing in one flag term sets bit k when the flag holds and leaves every other bit as it was |
| Nvc.OrFlagsBit | src/nvc.rs:68-81 | bit k of the or of the flag terms is set exactly when some term has its flag set at k |
| Nvc.LevelWord | src/nvc.rs:82 | `(level as u32) << 16` is the level modulo 2^16 times 2^16 |
| Nvc.PackPsw | src/nvc.rs:67-83 | the PSW word is the level modulo 2^16 in bits 16-31 above the sixteen-bit flags word |
| Nvc.WithZeroSign | src/nvc.rs:144-147 | Z is set exactly for a zero value and S exactly when bit 31 is set; every other flag is unchanged |
| Nvc.LowField | src/nvc.rs:151 | `h & 0x1f` is `h mod 32`, below 32 |
| Nvc.Reg2Field | src/nvc.rs:152 | `(h >> 5) & 0x1f` is bits 5-9, below 32 |
| Nvc.AsI16 | src/nvc.rs:172 | `as i16` gives a value in -2^15..2^15 congruent to the halfword modulo 2^16 |
| Nvc.FieldsReassemble | src/nvc.rs:150-154 | opcode bits, reg2 and reg1 together make up the whole halfword |
| Nvc.FormatI | src/nvc.rs:150-154 | reg1 and reg2 are below 32 and, with the opcode bits, reassemble the halfword |
| Nvc.FormatII | src/nvc.rs:156-160 | imm5 and reg2 are below 32 and reassemble the halfword |
| Nvc.FormatV | src/nvc.rs:162-167 | reg1 and reg2 reassemble the halfword, and imm16 is the second halfword unchanged |
| Nvc.FormatVI | src/nvc.rs:169-174 | reg1 and reg2 reassemble the halfword, and disp16 is the second halfword read as signed |
| Nvc.Imm5AsI8 | src/nvc.rs:177-178 | for a five-bit immediate, the signed byte is the immediate when bit 4 is clear, else the immediate minus 32 |
| Nvc.SignExtendImm5 | src/nvc.rs:176-179 | for a five-bit immediate the word is imm5 if bit 4 is clear, else imm5 - 32 + 2^32, so its signed value is the five-bit two's-complement value |
| Nvc.Imm5Bits | src/nvc.rs:177 | for imm5 below 32, `imm5 & 0x10` is zero exactly when imm5 < 16, and or-ing 0xe0 adds 0xe0 |
| Nvc.OverflowingSub | src/nvc.rs:114 | the borrow is set exactly when lhs < rhs, and the result is lhs - rhs plus 2^32 on a borrow |
| Nvc.Execute | src/nvc.rs:102-139 | only st.b and out.w issue a write; only jmp moves the PC; only sub changes the PSW; jmp, st.b and out.w change no register (each arm's result is its own lemma: `CompleteJmp`, `ExecuteMovImmMeaning`, `ExecuteSubMeaning`, `ExecuteMoveaMeaning`, `ExecuteMovhiMeaning`, `ExecuteStoreMeaning`) |
| Nvc.Complete | src/nvc.rs:102-141 | the CPU becomes what the opcode arm makes it; on success the outcome is the opcode and its cycles are charged; a refused write charges nothing and logs nothing |
| Nvc.StepDecoded | src/nvc.rs:89-141 | on success the outcome is the decoded opcode and its cycles are charged; on failure no cycle is charged and nothing is logged; a format V/VI instruction whose second fetch fails stops with that fetch error and the machine unchanged |
| Nvc.StepSpec | src/nvc.rs:85-142 | a successful step charges exactly the cycles of the opcode it reports; a failed one charges nothing and logs nothing |
| Nvc.StepFetched | src/nvc.rs:86-100 | a failed first fetch stops the step with nothing changed; a successful step charges exactly the cycles of its opcode, a failed one charges nothing and logs nothing |
| Nvc.StepFetchDecode | src/nvc.rs:86-89 | after a good fetch and decode, a step is the decoded step from the PC advanced by 2 |
| Nvc.StepSecondFetch | src/nvc.rs:92-96 | for formats V and VI a good second fetch advances the PC by 2 again before the arm runs |
| Nvc.Nvc.constructor | src/nvc.rs:26-47 | a new CPU is in the reset state with a fresh register array |
| Nvc.Nvc.RegGpr | src/nvc.rs:53-59 | reading a register of the object is `Gpr` of its state |
| Nvc.Nvc.SetRegGpr | src/nvc.rs:61-65 | the new state is `SetGpr` of the old one |
| Nvc.Nvc.RegPsw | src/nvc.rs:67-83 | the object's PSW is its mask level modulo 2^16 in bits 16-31 above the sixteen-bit flags word (bit layout in `PackPswLayout`) |
| Nvc.Nvc.SetZeroSignFlags | src/nvc.rs:144-147 | the new state is the old one with Z and S derived from the value |
| Nvc.Nvc.ExecuteJmp | src/nvc.rs:103-105 | the new state is the jmp arm of `Execute` |
| Nvc.Nvc.ExecuteMovImm | src/nvc.rs:106-109 | the new state is the mov imm5 arm of `Execute` |
| Nvc.Nvc.ExecuteSub | src/nvc.rs:110-120 | the new state is the sub arm of `Execute` |
| Nvc.Nvc.ExecuteMovea | src/nvc.rs:121-124 | the new state is the movea arm of `Execute` |
| Nvc.Nvc.ExecuteMovhi | src/nvc.rs:125-128 | the new state is the movhi arm of `Execute` |
| Nvc.Nvc.ExecuteStore | src/nvc.rs:129-138 | the bus is offered the write `Execute` issues; the result is the write check of its address, the log gains the write exactly when accepted, and no cycles are charged |
| Nvc.Nvc.Dispatch | src/nvc.rs:102-139 | the CPU becomes what `Execute` makes it, and the bus log gains that arm's write if the bus accepts it |
| Nvc.Nvc.Run | src/nvc.rs:102-141 | CPU and bus end as `Complete` says, and the result is its outcome |
| Nvc.Nvc.AdvancePc | src/nvc.rs:87 | the PC moves on by 2, modulo 2^32, and nothing else changes |
| Nvc.Nvc.Step | src/nvc.rs:85-142 | CPU and bus end as `StepSpec` says, and the result is its outcome |
| Nvc.Nvc.StepAfterDecode | src/nvc.rs:92-141 | CPU and bus end as `StepDecoded` says |
| NvcProperties.UnpackPsw | src/nvc.rs:67-83 | reading a PSW back gives a mask level below 2^16 |
| NvcProperties.PackPswLowBits | src/nvc.rs:67-82 | bits 0-15 of the PSW are those of the flags word |
| NvcProperties.FlagsWordBit | src/nvc.rs:68-81 | bit k of the flags word is the flag packed at k |
| NvcProperties.PackPswLayout | src/nvc.rs:67-83 | Z, S, OV, CY at bits 0-3, the FP flags at 4-9, bits 10-11 clear, ID, AE, EP, NP at 12-15, and the level from bit 16 |
| NvcProperties.PackPswRoundTrip | src/nvc.rs:67-83 | unpacking the PSW gives back every flag and a level below 2^16 |
| NvcProperties.PackPswInjective | src/nvc.rs:67-83 | distinct flag sets with levels below 2^16 pack to distinct words |
| NvcProperties.ResetPsw | src/nvc.rs:26-47 | a fresh CPU's PSW is `0x00008000` |
| NvcProperties.FlagsWordValue | src/nvc.rs:31-44 | the reset flags, only NMI-pending set, make the flags word `0x8000`, bit 15 alone |
| NvcProperties.SignExtendImm5Examples | src/nvc.rs:176-179 | 15 extends to 15, 16 to `0xfffffff0`, 31 to `0xffffffff` |
| NvcProperties.SignExtend16Value | src/nvc.rs:122 | `(imm16 as i16) as u32` keeps the signed value of the immediate |
| NvcProperties.SubOverflowIsSignedOverflow | src/nvc.rs:118 | the bit-31 overflow formula holds exactly when the signed difference leaves -2^31..2^31 |
| NvcProperties.SubOverflowSigns | src/nvc.rs:118 | bit 31 of `(lhs ^ rhs) & !(rhs ^ res)` is set exactly when the operands' signs differ and the result has the sign of rhs |
| NvcProperties.SignedOverflowSigns | src/nvc.rs:114-118 | for the wrapped difference, that sign rule holds exactly when the signed difference leaves -2^31..2^31 |
| NvcProperties.CompletePc | src/nvc.rs:103-105 | jmp sets the PC to reg1; every other arm leaves it |
| NvcProperties.CompleteJmp | src/nvc.rs:103-105 | jmp changes only the PC, writes nothing and costs 3 cycles |
| NvcProperties.ExecuteSubMeaning | src/nvc.rs:110-120 | reg2 gets reg2 - reg1 mod 2^32; Z iff equal, S iff bit 31, CY iff unsigned borrow, OV iff signed overflow; nothing else changes |
| NvcProperties.ExecuteMovImmMeaning | src/nvc.rs:106-109 | reg2 gets the sign-extended five-bit immediate (r0 stays 0); no other register, the PSW and the PC change |
| NvcProperties.ExecuteMoveaMeaning | src/nvc.rs:121-124 | reg2 gets reg1 + sext16(imm16) mod 2^32; nothing else changes |
| NvcProperties.ExecuteMovhiMeaning | src/nvc.rs:125-128 | reg2 gets reg1 + imm16 * 2^16 mod 2^32; nothing else changes |
| NvcProperties.EncodedFields | src/nvc.rs:150-154 | the register fields of an encoded halfword are the ones encoded |
| NvcProperties.MoveaThenMovhi | src/nvc.rs:121-128 | `movea r, r0, L` then `movhi r, r, H` leaves sext16(L) + H * 2^16 mod 2^32 in r |
| NvcProperties.MovhiAfterLoad | src/nvc.rs:125-128 | movhi on a register holding sext16(L) leaves sext16(L) + H * 2^16 mod 2^32 |
| NvcProperties.MoveaFromZero | src/nvc.rs:121-124 | `movea r, r0, L` loads sext16(L) |
| NvcProperties.MovhiSameRegister | src/nvc.rs:125-128 | `movhi r, r, H` adds H * 2^16 to r mod 2^32 |
| NvcProperties.HighLowPairIsOrExactlyWhenLowPositive | src/nvc.rs:121-128 | the loaded word equals `(H << 16) \| L` exactly when bit 15 of L is clear |
| NvcProperties.FirstHalfword | src/nvc.rs:86 | the halfword a step decodes is the one read at the PC |
| NvcProperties.PcAdvancesTwice | src/nvc.rs:87-95 | two wrapping advances by 2 are one advance by 4 |
| NvcProperties.StepAdvancesPc | src/nvc.rs:85-105 | after good fetches a step moves the PC by the instruction length mod 2^32, or to reg1 for jmp, whether or not its write is refused |
| NvcProperties.StepAdvancesPcShort | src/nvc.rs:86-100 | a one-halfword instruction leaves the PC 2 on, or at reg1 for jmp |
| NvcProperties.StepAdvancesPcLong | src/nvc.rs:86-96 | a two-halfword instruction leaves the PC 4 on |
| NvcProperties.CompleteAfterTwoAdvances | src/nvc.rs:87-95 | a non-jump arm after two advances leaves the PC 4 on |
| NvcProperties.StepFetchFault | src/nvc.rs:86 | a fetch outside the window stops the step with nothing changed |
| NvcProperties.StepDecodeFault | src/nvc.rs:86-89 | an unrecognised opcode stops the step after the PC moved by 2, with the opcode bits in the error |
| NvcProperties.StepSecondFetchFault | src/nvc.rs:86-96 | a format V/VI instruction whose second halfword is outside the window stops the step with the PC 2 on, nothing else changed, and the fetch error naming the aligned address |
| NvcProperties.StepFlagsAndRegisters | src/nvc.rs:102-139 | only sub changes the PSW; jmp, st.b, out.w and failures change no register |
| NvcProperties.StepBusEffects | src/nvc.rs:129-141 | a step only extends the write log, by at most one write and only for a successful st.b or out.w, and charges cycles exactly when it succeeds |
| NvcProperties.StoreAddress | src/nvc.rs:130 | the store address is reg1 + sext16(disp16) mod 2^32 |
| NvcProperties.ExecuteStoreMeaning | src/nvc.rs:129-138 | st.b logs the low byte and out.w the whole of reg2 at the store address, one cycle; into the ROM window the write is refused; the CPU is unchanged |
| NvcProperties.StepShortInstruction | src/nvc.rs:86-100 | a format I/II step is the arm run after one advance by 2 |
| NvcProperties.StepLongInstruction | src/nvc.rs:86-96 | a format V/VI step is the arm run after two advances by 2 |
| NvcProperties.ScenarioFetch | src/interconnect.rs:27-32 | in the four-byte image a window read at aligned offset o returns bytes o and o + 1 |
| NvcProperties.ScenarioFetches | src/interconnect.rs:27-32 | the image reads `0x4025` at `0xfffffff0` and `0x1801` at `0xfffffff2` |
| NvcProperties.ScenarioDecodes | src/instruction.rs:15-27 | `0x4025` decodes as mov imm5 and `0x1801` as jmp |
| NvcProperties.ScenarioFirstStep | src/nvc.rs:85-109 | from reset, the first step runs `mov 5, r1`: r1 = 5, PC `0xfffffff2`, one cycle, no write |
| NvcProperties.ScenarioSecondStep | src/nvc.rs:85-105 | the second step runs `jmp [r1]`: PC 5, registers unchanged, three more cycles |
| NvcProperties.ScenarioJump | src/nvc.rs:103-105 | `jmp [r1]` with r1 = 5 sets the PC to 5 |
| NvcProperties.ScenarioRuns | src/nvc.rs:85-109 | from reset the program sets r1 to 5 and jumps to 5, in four cycles with no write |
| NvcProperties.RunScenario | src/nvc.rs:85-142 | the same program on the `Nvc` object and a `Bus` ends with PC 5 and r1 = 5 |

## Left out

- The interactive front end (`src/main.rs`) is terminal I/O and a command parser, outside the core.
- Image loading (`src/rom.rs`) is left out: file I/O, and the header title decoded through an external encoding crate. The image is a `seq<u8>`. The loader's size limit (`src/rom.rs:14,29`) becomes the `ValidRom` bound.
- Interconnect.ValidRom: requires the image to have at least one byte. For an empty image the emulator computes `rom_size - 1` and panics. That case is not modelled.
- Interconnect.ReadByteMirrored, ReadByteMirror, ReadByteNextMirror and ReadHalfwordLittleEndian assume a power-of-two image. For other sizes `ReadByte` still masks with `size - 1` as the code does, but no lemma describes the resulting aliasing.
- `write_byte`, `write_word` and `cycles` are called by `step` but defined nowhere in the interconnect. `Interconnect.Bus` models them abstractly:
  - a write into the ROM window is refused;
  - any other write is appended to a log, with no memory behind it;
  - the cycle counter only grows.
- The `print!` that `step` issues for one-halfword instructions (`src/nvc.rs:98`) is output only and is not modelled.
- The `reg_pc` getter (`src/nvc.rs:49-51`) is the field `Nvc.Nvc.pc` read directly.
- Nvc.Gpr, Nvc.SetGpr, Nvc.Nvc.RegGpr and Nvc.Nvc.SetRegGpr require an index below 32. The emulator would panic on a larger index, but every caller passes a five-bit field.
- Panics are error results, not aborts. The emulator's state after a panic cannot be observed; the model returns the state reached at the point of failure.
- The floating-point flags, interrupt-disable, address-trap and exception-pending are only set by `new` and read by `reg_psw`. No code in the core writes them, and interrupts and traps are not part of it.
- `interrupt_mask_level` is a `usize` in the emulator and a `nat` here. Only its conversion `as u32` followed by `<< 16` is modelled (`Nvc.LevelWord`), which keeps it modulo 2^16.
