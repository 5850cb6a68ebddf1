/**
 * The NVC (NEC V810) CPU core: the register file with its hardwired-zero
 * register, the program status word (PSW) and the fetch-decode-execute
 * `step`.
 *
 * The first half is a value-level specification: `CpuState`, the operand
 * extractors, the arithmetic of each opcode arm (`Execute`) and one whole
 * step (`StepSpec`). The class `Nvc` is the CPU as the emulator holds it,
 * with the stored registers in an array and the flags in fields. Each of
 * its methods is proved against the specification.
 */
module Nvc {
  import opened Bits
  import opened Wrappers
  import opened Instruction
  import opened Interconnect

  /** The PC a freshly constructed CPU starts from. */
  const ResetPc: u32 := 0xffff_fff0

  /** Registers r1-r31 are stored; r0 is not. */
  const StoredRegisters: nat := 31

  datatype Psw = Psw(
    zero: bool,
    sign: bool,
    overflow: bool,
    carry: bool,
    fpPrecisionDegradation: bool,
    fpUnderflow: bool,
    fpOverflow: bool,
    fpZeroDivision: bool,
    fpInvalidOperation: bool,
    fpReservedOperand: bool,
    interruptDisable: bool,
    addressTrapEnable: bool,
    exceptionPending: bool,
    nmiPending: bool,
    interruptMaskLevel: nat)

  /** `gpr[i]` holds register `i + 1`. */
  datatype CpuState = CpuState(pc: u32, gpr: seq<u32>, psw: Psw)

  predicate WellFormed(s: CpuState)
  {
    |s.gpr| == StoredRegisters
  }

  /** The state `Nvc::new` builds. */
  function Reset(): (s: CpuState)
    ensures WellFormed(s) && s.pc == ResetPc
    ensures forall i :: 0 <= i < 32 ==> Gpr(s, i) == 0
    ensures s.psw.nmiPending && s.psw.interruptMaskLevel == 0
  {
    CpuState(ResetPc, seq(StoredRegisters, _ => 0),
      Psw(false, false, false, false, false, false, false, false, false, false,
          false, false, false, true, 0))
  }

  // ---------------------------------------------------------------------------
  // Register file

  /** `reg_gpr`: register 0 reads as 0, register `i` as stored slot `i - 1`. */
  function Gpr(s: CpuState, index: nat): (v: u32)
    requires WellFormed(s) && index < 32
    ensures index == 0 ==> v == 0
    ensures index != 0 ==> v == s.gpr[index - 1]
  {
    if index == 0 then 0 else s.gpr[index - 1]
  }

  /** `set_reg_gpr`: writes to register 0 are dropped. */
  function SetGpr(s: CpuState, index: nat, value: u32): (t: CpuState)
    requires WellFormed(s) && index < 32
    ensures WellFormed(t) && t.pc == s.pc && t.psw == s.psw
    ensures forall j :: 0 <= j < 32 ==> Gpr(t, j) == if j == index && j != 0 then value else Gpr(s, j)
  {
    if index != 0 then s.(gpr := s.gpr[index - 1 := value]) else s
  }

  // ---------------------------------------------------------------------------
  // Program status word

  /** Bit `k` set exactly when `flag` holds. */
  function FlagBit(flag: bool, k: nat): (w: nat)
    ensures Bit(w, k) <==> flag
  {
    BitPow2(k, k);
    BitOfZero(k);
    if flag then Pow2(k) else 0
  }

  /** `word | (if flag { 1 << k } else { 0 })` on a word of sixteen bits. */
  function OrFlag(word: nat, flag: bool, k: nat): (w: nat)
    requires word < TwoTo16 && k < 16
    ensures w < TwoTo16
  {
    Pow2Values();
    Pow2Monotone(k + 1, 16);
    OrBelow(word, FlagBit(flag, k), 16);
    Or(word, FlagBit(flag, k))
  }

  /** Or-ing in a flag sets bit `k` when the flag holds and leaves every other bit alone. */
  lemma OrFlagBit(word: nat, flag: bool, k: nat, j: nat)
    requires word < TwoTo16 && k < 16
    ensures Bit(OrFlag(word, flag, k), j) <==> Bit(word, j) || (flag && j == k)
  {
    BitOr(word, FlagBit(flag, k), j);
    BitPow2(k, j);
    BitOfZero(j);
  }

  /** The flags `reg_psw` ors together, each with the bit it is shifted to, in source order. */
  function FlagTerms(p: Psw): (terms: seq<(bool, nat)>)
    ensures |terms| == 14
    ensures forall i :: 0 <= i < |terms| ==> terms[i].1 < 16
  {
    [(p.zero, 0), (p.sign, 1), (p.overflow, 2), (p.carry, 3),
     (p.fpPrecisionDegradation, 4), (p.fpUnderflow, 5), (p.fpOverflow, 6),
     (p.fpZeroDivision, 7), (p.fpInvalidOperation, 8), (p.fpReservedOperand, 9),
     (p.interruptDisable, 12), (p.addressTrapEnable, 13), (p.exceptionPending, 14),
     (p.nmiPending, 15)]
  }

  /** The or of `if flag { 1 << k } else { 0 }` over a list of terms, left to right. */
  function OrFlags(terms: seq<(bool, nat)>): (w: nat)
    requires forall i :: 0 <= i < |terms| ==> terms[i].1 < 16
    ensures w < TwoTo16
  {
    if terms == [] then 0
    else
      var last := terms[|terms| - 1];
      OrFlag(OrFlags(terms[..|terms| - 1]), last.0, last.1)
  }

  /** Bit `k` of an or of flag terms is set exactly when some term sets a flag at `k`. */
  lemma {:induction false} OrFlagsBit(terms: seq<(bool, nat)>, k: nat)
    requires forall i :: 0 <= i < |terms| ==> terms[i].1 < 16
    ensures Bit(OrFlags(terms), k) <==> exists i :: 0 <= i < |terms| && terms[i] == (true, k)
  {
    if terms == [] {
      BitOfZero(k);
    } else {
      var n := |terms| - 1;
      var init := terms[..n];
      OrFlagsBit(init, k);
      OrFlagBit(OrFlags(init), terms[n].0, terms[n].1, k);
      if exists i :: 0 <= i < |terms| && terms[i] == (true, k) {
        var i :| 0 <= i < |terms| && terms[i] == (true, k);
        if i < n {
          assert init[i] == (true, k);
        }
      }
      if exists i :: 0 <= i < |init| && init[i] == (true, k) {
        var i :| 0 <= i < |init| && init[i] == (true, k);
        assert terms[i] == (true, k);
      }
    }
  }

  /** The sixteen low PSW bits: condition and FP flags at 0-9, control flags at 12-15. */
  function FlagsWord(p: Psw): (w: nat)
    ensures w < TwoTo16
  {
    OrFlags(FlagTerms(p))
  }

  /** `(interrupt_mask_level as u32) << 16`: the level modulo 2^16 in bits 16-31. */
  function LevelWord(level: nat): (w: u32)
    ensures w == (level % TwoTo16) * TwoTo16
  {
    var x := Wrap(level);
    Pow2Values();
    ModPow2Mod(level, 16, 32);
    DivModUnique(x * TwoTo16, TwoTo32, x / TwoTo16, (x % TwoTo16) * TwoTo16);
    Wrap(x * TwoTo16)
  }

  /** `reg_psw`: the flags and the interrupt mask level packed into one word. */
  function PackPsw(p: Psw): (w: u32)
    ensures w == (p.interruptMaskLevel % TwoTo16) * TwoTo16 + FlagsWord(p)
  {
    var flags := FlagsWord(p);
    var level := LevelWord(p.interruptMaskLevel);
    Pow2Values();
    OrCommutes(flags, level);
    OrShifted(p.interruptMaskLevel % TwoTo16, flags, 16);
    Or(flags, level)
  }

  /** The flags `set_zero_sign_flags` derives from a result. */
  function WithZeroSign(p: Psw, value: u32): (q: Psw)
    ensures q.zero <==> value == 0
    ensures q.sign <==> value >= TwoTo31
    ensures q == p.(zero := q.zero, sign := q.sign)
  {
    Pow2Values();
    AndPow2(value, 31);
    BitTop(value, 31);
    p.(zero := value == 0, sign := And(value, TwoTo31) != 0)
  }

  // ---------------------------------------------------------------------------
  // Operand fields

  /** Bits 0-4 of the first halfword: reg1, or imm5 in format II. */
  function LowField(h: u16): (f: nat)
    ensures f < 32 && f == h % 32
  {
    Pow2Values();
    AndLowMask(h, 5);
    And(h, 0x1f)
  }

  /** Bits 5-9 of the first halfword: reg2. */
  function Reg2Field(h: u16): (f: nat)
    ensures f < 32 && f == (h / 32) % 32
  {
    Pow2Values();
    AndLowMask(h / 32, 5);
    And(h / 32, 0x1f)
  }

  /** A halfword reinterpreted as a signed 16-bit value (`as i16`). */
  function AsI16(h: u16): (v: int)
    ensures -0x8000 <= v < 0x8000
    ensures v % TwoTo16 == h
  {
    if h < 0x8000 then h else h - TwoTo16
  }

  /** The opcode, reg2 and low fields together make up the whole first halfword. */
  lemma FieldsReassemble(h: u16)
    ensures h == OpcodeField(h) * 1024 + Reg2Field(h) * 32 + LowField(h)
  {
    var q := h / 32;
    var low, mid := h % 32, q % 32;
    assert h == 1024 * (q / 32) + (32 * mid + low);
    DivModUnique(h, 1024, q / 32, 32 * mid + low);
  }

  /** `format_i`: (reg1, reg2). */
  function FormatI(first: u16): (r: (nat, nat))
    ensures r.0 < 32 && r.1 < 32
    ensures first == OpcodeField(first) * 1024 + r.1 * 32 + r.0
  {
    FieldsReassemble(first);
    (LowField(first), Reg2Field(first))
  }

  /** `format_ii`: (imm5, reg2), the same bits as format I. */
  function FormatII(first: u16): (r: (nat, nat))
    ensures r.0 < 32 && r.1 < 32
    ensures first == OpcodeField(first) * 1024 + r.1 * 32 + r.0
  {
    FieldsReassemble(first);
    (LowField(first), Reg2Field(first))
  }

  /** `format_v`: (reg1, reg2, imm16), the immediate being the whole second halfword. */
  function FormatV(first: u16, second: u16): (r: (nat, nat, u16))
    ensures r.0 < 32 && r.1 < 32 && r.2 == second
    ensures first == OpcodeField(first) * 1024 + r.1 * 32 + r.0
  {
    FieldsReassemble(first);
    (LowField(first), Reg2Field(first), second)
  }

  /** `format_vi`: (reg1, reg2, disp16), the displacement being the second halfword read as signed. */
  function FormatVI(first: u16, second: u16): (r: (nat, nat, int))
    ensures r.0 < 32 && r.1 < 32
    ensures first == OpcodeField(first) * 1024 + r.1 * 32 + r.0
    ensures -0x8000 <= r.2 < 0x8000 && r.2 % TwoTo16 == second
  {
    FieldsReassemble(first);
    (LowField(first), Reg2Field(first), AsI16(second))
  }

  // ---------------------------------------------------------------------------
  // Arithmetic of the opcode arms

  /** The first line of `sign_extend_imm5` and the cast `as i8`: bits 5-7 copied from bit 4, read as a signed byte. */
  function Imm5AsI8(imm5: nat): (b: int)
    ensures -0x80 <= b < 0x80
    ensures imm5 < 32 ==> b == if imm5 < 16 then imm5 else imm5 - 32
  {
    var extended := Or(imm5, if And(imm5, 0x10) == 0 then 0x00 else 0xe0);
    Imm5Bits(imm5);
    assert imm5 < 32 ==> extended == if imm5 < 16 then imm5 else imm5 + 0xe0;
    var byte := extended % TwoTo8;
    assert imm5 < 32 ==> byte == extended by {
      if imm5 < 32 {
        DivModUnique(extended, TwoTo8, 0, extended);
      }
    }
    if byte < 0x80 then byte else byte - TwoTo8
  }

  /** `sign_extend_imm5`: a five-bit immediate read as two's complement, widened to 32 bits. */
  function SignExtendImm5(imm5: nat): (v: u32)
    ensures imm5 < 32 ==> v == if imm5 < 16 then imm5 else imm5 - 32 + TwoTo32
    ensures imm5 < 32 ==> Signed(v) == if imm5 < 16 then imm5 else imm5 - 32
  {
    var b := Imm5AsI8(imm5);
    WrapSmall(b);
    Wrap(b)
  }

  lemma Imm5Bits(imm5: nat)
    ensures imm5 < 32 ==> (And(imm5, 0x10) == 0 <==> imm5 < 16)
    ensures Or(imm5, 0) == imm5
    ensures imm5 < 32 ==> Or(imm5, 0xe0) == imm5 + 0xe0
  {
    if imm5 < 32 {
      Pow2Values();
      AndPow2(imm5, 4);
      BitTop(imm5, 4);
      OrCommutes(imm5, 0xe0);
      OrShifted(7, imm5, 5);
    }
  }

  /** `u32::overflowing_sub`: the wrapped difference and whether it borrowed. */
  function OverflowingSub(lhs: u32, rhs: u32): (r: (u32, bool))
    ensures r.1 <==> lhs < rhs
    ensures r.0 == lhs - rhs + (if r.1 then TwoTo32 else 0)
  {
    WrapSmall(lhs - rhs);
    (Wrap(lhs - rhs), lhs < rhs)
  }

  /** The overflow flag of `sub`: bit 31 of `(lhs ^ rhs) & !(rhs ^ res)`. */
  predicate SubOverflow(lhs: u32, rhs: u32, res: u32)
  {
    Pow2Values();
    XorBelow(rhs, res, 32);
    And(And(Xor(lhs, rhs), Not32(Xor(rhs, res))), TwoTo31) != 0
  }

  /** Effect of one opcode arm: the new CPU state and the bus write it issues, if any. */
  datatype Executed = Executed(cpu: CpuState, write: Option<BusWrite>)

  /** The opcode arms of `step`, applied once the PC points past the instruction. */
  function Execute(s: CpuState, op: Opcode, first: u16, second: u16): (e: Executed)
    requires WellFormed(s)
    ensures WellFormed(e.cpu)
    ensures e.write.Some? <==> op == Stb || op == Outw
    ensures op != Jmp ==> e.cpu.pc == s.pc
    ensures op != Sub ==> e.cpu.psw == s.psw
    ensures op in {Jmp, Stb, Outw} ==> e.cpu.gpr == s.gpr
  {
    match op
    case Jmp =>
      var (reg1, _) := FormatI(first);
      Executed(s.(pc := Gpr(s, reg1)), None)
    case MovImm =>
      var (imm5, reg2) := FormatII(first);
      Executed(SetGpr(s, reg2, SignExtendImm5(imm5)), None)
    case Sub =>
      var (reg1, reg2) := FormatI(first);
      var lhs := Gpr(s, reg2);
      var rhs := Gpr(s, reg1);
      var (res, borrow) := OverflowingSub(lhs, rhs);
      var t := SetGpr(s, reg2, res);
      var psw := WithZeroSign(t.psw, res).(overflow := SubOverflow(lhs, rhs, res), carry := borrow);
      Executed(t.(psw := psw), None)
    case Movea =>
      var (reg1, reg2, imm16) := FormatV(first, second);
      Executed(SetGpr(s, reg2, Wrap(Gpr(s, reg1) + Wrap(AsI16(imm16)))), None)
    case Movhi =>
      var (reg1, reg2, imm16) := FormatV(first, second);
      Executed(SetGpr(s, reg2, Wrap(Gpr(s, reg1) + Wrap(imm16 * TwoTo16))), None)
    case Stb =>
      var (reg1, reg2, disp16) := FormatVI(first, second);
      var addr := Wrap(Gpr(s, reg1) + Wrap(disp16));
      Executed(s, Some(ByteWrite(addr, Gpr(s, reg2) % TwoTo8)))
    case Outw =>
      var (reg1, reg2, disp16) := FormatVI(first, second);
      var addr := Wrap(Gpr(s, reg1) + Wrap(disp16));
      Executed(s, Some(WordWrite(addr, Gpr(s, reg2))))
  }

  // ---------------------------------------------------------------------------
  // One step

  /** The CPU together with what it has done to the bus. */
  datatype Machine = Machine(cpu: CpuState, writes: seq<BusWrite>, cycles: nat)

  /** Why a step stops early; each is a panic in the emulator. */
  datatype StepError =
    | FetchFault(fetchError: BusError)
    | DecodeFault(decodeError: DecodeError)
    | WriteFault(writeError: BusError)

  /** The machine after a step and the opcode it executed, or why it stopped. */
  datatype Stepped = Stepped(m: Machine, outcome: Result<Opcode, StepError>)

  /**
   * The part of `step` after decoding: the opcode arm, the bus write it
   * issues (a refused write stops the step) and the cycle charge.
   */
  function Complete(m: Machine, op: Opcode, first: u16, second: u16): (r: Stepped)
    requires WellFormed(m.cpu)
    ensures WellFormed(r.m.cpu)
    ensures r.m.cpu == Execute(m.cpu, op, first, second).cpu
    ensures r.outcome.Ok? ==> r.outcome.value == op && r.m.cycles == m.cycles + NumCycles(op)
    ensures r.outcome.Err? ==> r.m.cycles == m.cycles && r.m.writes == m.writes
  {
    var e := Execute(m.cpu, op, first, second);
    match e.write
    case None => Stepped(Machine(e.cpu, m.writes, m.cycles + NumCycles(op)), Ok(op))
    case Some(w) =>
      match CheckWrite(w.addr)
      case Err(err) => Stepped(Machine(e.cpu, m.writes, m.cycles), Err(WriteFault(err)))
      case Ok(_) => Stepped(Machine(e.cpu, m.writes + [w], m.cycles + NumCycles(op)), Ok(op))
  }

  /**
   * `step` after the opcode is known, with the PC already past the first
   * halfword: fetch the second halfword and advance again if the format has
   * one, then run the opcode arm and charge its cycles.
   */
  function StepDecoded(m: Machine, rom: seq<u8>, op: Opcode, first: u16): (r: Stepped)
    requires WellFormed(m.cpu) && ValidRom(rom)
    ensures WellFormed(r.m.cpu)
    ensures r.outcome.Ok? ==> r.outcome.value == op && r.m.cycles == m.cycles + NumCycles(op)
    ensures r.outcome.Err? ==> r.m.cycles == m.cycles && r.m.writes == m.writes
    ensures HasSecondHalfword(Format(op)) && ReadHalfword(rom, m.cpu.pc).Err? ==>
      r == Stepped(m, Err(FetchFault(ReadHalfword(rom, m.cpu.pc).error)))
  {
    if !HasSecondHalfword(Format(op)) then
      Complete(m, op, first, 0)
    else
      match ReadHalfword(rom, m.cpu.pc)
      case Err(e) => Stepped(m, Err(FetchFault(e)))
      case Ok(second) => Complete(m.(cpu := m.cpu.(pc := Wrap(m.cpu.pc + 2))), op, first, second)
  }

  /**
   * `step`: fetch at the PC, advance the PC by 2, decode, then go on as
   * `StepDecoded`. A failure keeps whatever was changed before it.
   */
  function StepSpec(m: Machine, rom: seq<u8>): (r: Stepped)
    requires WellFormed(m.cpu) && ValidRom(rom)
    ensures WellFormed(r.m.cpu)
    ensures r.outcome.Ok? ==> r.m.cycles == m.cycles + NumCycles(r.outcome.value)
    ensures r.outcome.Err? ==> r.m.cycles == m.cycles && r.m.writes == m.writes
  {
    StepFetched(m, rom, ReadHalfword(rom, m.cpu.pc))
  }

  /** `step` once the first halfword has been fetched, or its fetch has failed. */
  function StepFetched(m: Machine, rom: seq<u8>, fetch: Result<u16, BusError>): (r: Stepped)
    requires WellFormed(m.cpu) && ValidRom(rom)
    ensures WellFormed(r.m.cpu)
    ensures r.outcome.Ok? ==> r.m.cycles == m.cycles + NumCycles(r.outcome.value)
    ensures r.outcome.Err? ==> r.m.cycles == m.cycles && r.m.writes == m.writes
    ensures fetch.Err? ==> r == Stepped(m, Err(FetchFault(fetch.error)))
  {
    match fetch
    case Err(e) => Stepped(m, Err(FetchFault(e)))
    case Ok(first) =>
      var m := m.(cpu := m.cpu.(pc := Wrap(m.cpu.pc + 2)));
      match FromHalfword(first)
      case Err(e) => Stepped(m, Err(DecodeFault(e)))
      case Ok(op) => StepDecoded(m, rom, op, first)
  }

  /** A fetch and a decode that succeed move the PC past the first halfword and hand over the opcode. */
  lemma StepFetchDecode(m: Machine, rom: seq<u8>, first: u16, op: Opcode)
    requires WellFormed(m.cpu) && ValidRom(rom)
    requires ReadHalfword(rom, m.cpu.pc) == Ok(first) && FromHalfword(first) == Ok(op)
    ensures StepSpec(m, rom) == StepDecoded(m.(cpu := m.cpu.(pc := Wrap(m.cpu.pc + 2))), rom, op, first)
  {
    assert StepSpec(m, rom) == StepFetched(m, rom, Ok(first));
    DecodedStep(m, rom, first, op);
  }

  lemma DecodedStep(m: Machine, rom: seq<u8>, first: u16, op: Opcode)
    requires WellFormed(m.cpu) && ValidRom(rom) && FromHalfword(first) == Ok(op)
    ensures StepFetched(m, rom, Ok(first)) == StepDecoded(m.(cpu := m.cpu.(pc := Wrap(m.cpu.pc + 2))), rom, op, first)
  {
    assert FromHalfword(first).value == op;
  }

  /** A second fetch that succeeds moves the PC by 2 again before the opcode arm runs. */
  lemma StepSecondFetch(m: Machine, rom: seq<u8>, first: u16, op: Opcode, second: u16)
    requires WellFormed(m.cpu) && ValidRom(rom)
    requires HasSecondHalfword(Format(op)) && ReadHalfword(rom, m.cpu.pc) == Ok(second)
    ensures StepDecoded(m, rom, op, first) ==
      Complete(m.(cpu := m.cpu.(pc := Wrap(m.cpu.pc + 2))), op, first, second)
  {
  }

  // ---------------------------------------------------------------------------
  // The CPU object

  class Nvc {
    var pc: u32
    /** Registers r1-r31; r0 is not stored. */
    const gpr: array<u32>

    var zero: bool
    var sign: bool
    var overflow: bool
    var carry: bool
    var fpPrecisionDegradation: bool
    var fpUnderflow: bool
    var fpOverflow: bool
    var fpZeroDivision: bool
    var fpInvalidOperation: bool
    var fpReservedOperand: bool
    var interruptDisable: bool
    var addressTrapEnable: bool
    var exceptionPending: bool
    var nmiPending: bool
    var interruptMaskLevel: nat

    ghost predicate Valid()
      reads this
    {
      gpr.Length == StoredRegisters
    }

    function Flags(): Psw
      reads this
    {
      Psw(zero, sign, overflow, carry, fpPrecisionDegradation, fpUnderflow, fpOverflow,
          fpZeroDivision, fpInvalidOperation, fpReservedOperand, interruptDisable,
          addressTrapEnable, exceptionPending, nmiPending, interruptMaskLevel)
    }

    function State(): (s: CpuState)
      requires Valid()
      reads this, gpr
      ensures WellFormed(s)
    {
      CpuState(pc, gpr[..], Flags())
    }

    /** `Nvc::new`. */
    constructor ()
      ensures Valid() && fresh(gpr)
      ensures State() == Reset()
    {
      pc := ResetPc;
      gpr := new u32[StoredRegisters](_ => 0);
      zero, sign, overflow, carry := false, false, false, false;
      fpPrecisionDegradation, fpUnderflow, fpOverflow := false, false, false;
      fpZeroDivision, fpInvalidOperation, fpReservedOperand := false, false, false;
      interruptDisable, addressTrapEnable, exceptionPending := false, false, false;
      nmiPending := true;
      interruptMaskLevel := 0;
      new;
      assert gpr[..] == seq(StoredRegisters, _ => 0);
    }

    /** `reg_gpr`. */
    function RegGpr(index: nat): (v: u32)
      requires Valid() && index < 32
      reads this, gpr
      ensures v == Gpr(State(), index)
    {
      if index == 0 then 0 else gpr[index - 1]
    }

    /** `set_reg_gpr`. */
    method SetRegGpr(index: nat, value: u32)
      requires Valid() && index < 32
      modifies gpr
      ensures State() == SetGpr(old(State()), index, value)
    {
      if index != 0 {
        gpr[index - 1] := value;
      }
    }

    /** `reg_psw`. */
    function RegPsw(): (w: u32)
      reads this
      ensures w == (interruptMaskLevel % TwoTo16) * TwoTo16 + FlagsWord(Flags())
    {
      PackPsw(Flags())
    }

    /** `set_zero_sign_flags`. */
    method SetZeroSignFlags(value: u32)
      requires Valid()
      modifies this
      ensures Valid()
      ensures State() == old(State()).(psw := WithZeroSign(old(Flags()), value))
    {
      zero := value == 0;
      sign := And(value, TwoTo31) != 0;
    }

    /** The jmp arm: the PC takes the value of reg1. */
    method ExecuteJmp(first: u16, second: u16)
      requires Valid()
      modifies this
      ensures Valid()
      ensures State() == Execute(old(State()), Jmp, first, second).cpu
    {
      var (reg1, _) := FormatI(first);
      pc := RegGpr(reg1);
    }

    /** The mov imm5 arm: reg2 takes the sign-extended immediate. */
    method ExecuteMovImm(first: u16, second: u16)
      requires Valid()
      modifies gpr
      ensures State() == Execute(old(State()), MovImm, first, second).cpu
    {
      var (imm5, reg2) := FormatII(first);
      var value := SignExtendImm5(imm5);
      SetRegGpr(reg2, value);
    }

    /** The sub arm: reg2 takes reg2 - reg1 and the four condition flags are set. */
    method ExecuteSub(first: u16, second: u16)
      requires Valid()
      modifies this, gpr
      ensures Valid()
      ensures State() == Execute(old(State()), Sub, first, second).cpu
    {
      var (reg1, reg2) := FormatI(first);
      var lhs := RegGpr(reg2);
      var rhs := RegGpr(reg1);
      var (res, borrow) := OverflowingSub(lhs, rhs);
      ghost var t := SetGpr(old(State()), reg2, res);
      SetRegGpr(reg2, res);
      SetZeroSignFlags(res);
      assert State() == t.(psw := WithZeroSign(t.psw, res));
      overflow := SubOverflow(lhs, rhs, res);
      carry := borrow;
    }

    /** The movea arm: reg2 takes reg1 plus the sign-extended immediate. */
    method ExecuteMovea(first: u16, second: u16)
      requires Valid()
      modifies gpr
      ensures State() == Execute(old(State()), Movea, first, second).cpu
    {
      var (reg1, reg2, imm16) := FormatV(first, second);
      var res := Wrap(RegGpr(reg1) + Wrap(AsI16(imm16)));
      SetRegGpr(reg2, res);
    }

    /** The movhi arm: reg2 takes reg1 plus the immediate shifted into the high halfword. */
    method ExecuteMovhi(first: u16, second: u16)
      requires Valid()
      modifies gpr
      ensures State() == Execute(old(State()), Movhi, first, second).cpu
    {
      var (reg1, reg2, imm16) := FormatV(first, second);
      var res := Wrap(RegGpr(reg1) + Wrap(imm16 * TwoTo16));
      SetRegGpr(reg2, res);
    }

    /** The st.b and out.w arms: the write goes to the bus, the CPU is unchanged. */
    method ExecuteStore(op: Opcode, first: u16, second: u16, bus: Bus) returns (written: Result<(), BusError>)
      requires Valid() && (op == Stb || op == Outw)
      modifies bus
      ensures bus.cycles == old(bus.cycles)
      ensures var w := Execute(State(), op, first, second).write.value;
        written == CheckWrite(w.addr) &&
        bus.writes == if written.Ok? then old(bus.writes) + [w] else old(bus.writes)
    {
      var (reg1, reg2, disp16) := FormatVI(first, second);
      var addr := Wrap(RegGpr(reg1) + Wrap(disp16));
      if op == Stb {
        var value := RegGpr(reg2) % TwoTo8;
        written := bus.WriteByte(addr, value);
      } else {
        var value := RegGpr(reg2);
        written := bus.WriteWord(addr, value);
      }
    }

    /** The opcode arms of `step`; a store reports whether the bus accepted it. */
    method Dispatch(op: Opcode, first: u16, second: u16, bus: Bus) returns (written: Result<(), BusError>)
      requires Valid()
      modifies this, gpr, bus
      ensures Valid()
      ensures State() == Execute(old(State()), op, first, second).cpu
      ensures bus.cycles == old(bus.cycles)
      ensures Execute(old(State()), op, first, second).write.None? ==>
        written.Ok? && bus.writes == old(bus.writes)
      ensures Execute(old(State()), op, first, second).write.Some? ==>
        var w := Execute(old(State()), op, first, second).write.value;
        written == CheckWrite(w.addr) &&
        bus.writes == if written.Ok? then old(bus.writes) + [w] else old(bus.writes)
    {
      written := Ok(());
      match op {
        case Jmp => ExecuteJmp(first, second);
        case MovImm => ExecuteMovImm(first, second);
        case Sub => ExecuteSub(first, second);
        case Movea => ExecuteMovea(first, second);
        case Movhi => ExecuteMovhi(first, second);
        case Stb => written := ExecuteStore(op, first, second, bus);
        case Outw => written := ExecuteStore(op, first, second, bus);
      }
    }

    /** Runs a decoded instruction: `Complete` on the CPU and the bus. */
    method Run(op: Opcode, first: u16, second: u16, bus: Bus) returns (r: Result<Opcode, StepError>)
      requires Valid()
      modifies this, gpr, bus
      ensures Valid()
      ensures Complete(old(Machine(State(), bus.writes, bus.cycles)), op, first, second)
        == Stepped(Machine(State(), bus.writes, bus.cycles), r)
    {
      var written := Dispatch(op, first, second, bus);
      if written.Err? {
        return Err(WriteFault(written.error));
      }
      bus.Cycles(NumCycles(op));
      r := Ok(op);
    }

    /** `reg_pc = reg_pc.wrapping_add(2)`: the PC moves past a halfword, nothing else changes. */
    method AdvancePc()
      requires Valid()
      modifies this
      ensures Valid()
      ensures State() == old(State()).(pc := Wrap(old(pc) + 2))
    {
      pc := Wrap(pc + 2);
    }

    /** `step`, with the interconnect as the bus it reads, writes and charges cycles to. */
    method Step(bus: Bus) returns (r: Result<Opcode, StepError>)
      requires Valid() && ValidRom(bus.rom)
      modifies this, gpr, bus
      ensures Valid()
      ensures StepSpec(old(Machine(State(), bus.writes, bus.cycles)), bus.rom)
        == Stepped(Machine(State(), bus.writes, bus.cycles), r)
    {
      ghost var m := Machine(State(), bus.writes, bus.cycles);
      var fetched := ReadHalfword(bus.rom, pc);
      if fetched.Err? {
        return Err(FetchFault(fetched.error));
      }
      var first := fetched.value;
      AdvancePc();
      assert Machine(State(), bus.writes, bus.cycles) == m.(cpu := m.cpu.(pc := Wrap(m.cpu.pc + 2)));

      var decoded := FromHalfword(first);
      if decoded.Err? {
        return Err(DecodeFault(decoded.error));
      }
      var op := decoded.value;
      StepFetchDecode(m, bus.rom, first, op);
      r := StepAfterDecode(op, first, bus);
    }

    /** The rest of `step` once the opcode is known: the second fetch, if any, then the opcode arm. */
    method StepAfterDecode(op: Opcode, first: u16, bus: Bus) returns (r: Result<Opcode, StepError>)
      requires Valid() && ValidRom(bus.rom)
      modifies this, gpr, bus
      ensures Valid()
      ensures StepDecoded(old(Machine(State(), bus.writes, bus.cycles)), bus.rom, op, first)
        == Stepped(Machine(State(), bus.writes, bus.cycles), r)
    {
      ghost var m := Machine(State(), bus.writes, bus.cycles);
      if !HasSecondHalfword(Format(op)) {
        r := Run(op, first, 0, bus);
        return;
      }
      var fetched := ReadHalfword(bus.rom, pc);
      if fetched.Err? {
        return Err(FetchFault(fetched.error));
      }
      var second := fetched.value;
      AdvancePc();
      assert Machine(State(), bus.writes, bus.cycles) == m.(cpu := m.cpu.(pc := Wrap(m.cpu.pc + 2)));
      StepSecondFetch(m, bus.rom, first, op, second);
      r := Run(op, first, second, bus);
    }
  }
}
