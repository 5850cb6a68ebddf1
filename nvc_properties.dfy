/**
 * What one step of the CPU does, stated against the specification in
 * module Nvc: the reset PSW, the PSW layout, the meaning of the sub flags,
 * the movea/movhi pair, how the PC advances, what a failure leaves behind,
 * what stores send to the bus, and a two-instruction program.
 */
module NvcProperties {
  import opened Bits
  import opened Wrappers
  import opened Instruction
  import opened Interconnect
  import opened Nvc

  // ---------------------------------------------------------------------------
  // Program status word

  /** Reading the PSW back: bit `k` is the flag packed at `k`, bits 16 and up the level. */
  function UnpackPsw(w: u32): (p: Psw)
    ensures p.interruptMaskLevel < TwoTo16
  {
    Psw(Bit(w, 0), Bit(w, 1), Bit(w, 2), Bit(w, 3), Bit(w, 4), Bit(w, 5), Bit(w, 6),
        Bit(w, 7), Bit(w, 8), Bit(w, 9), Bit(w, 12), Bit(w, 13), Bit(w, 14), Bit(w, 15),
        w / TwoTo16)
  }

  /** Bits 0-15 of the PSW are the flags word. */
  lemma PackPswLowBits(p: Psw, k: nat)
    requires k < 16
    ensures Bit(PackPsw(p), k) <==> Bit(FlagsWord(p), k)
  {
    Pow2Values();
    BitBelow(p.interruptMaskLevel % TwoTo16, FlagsWord(p), 16, k);
  }

  /** The flag `reg_psw` packs at bit `k`; bits 10 and 11 carry none. */
  function FlagAt(p: Psw, k: nat): bool
  {
    if k == 0 then p.zero
    else if k == 1 then p.sign
    else if k == 2 then p.overflow
    else if k == 3 then p.carry
    else if k == 4 then p.fpPrecisionDegradation
    else if k == 5 then p.fpUnderflow
    else if k == 6 then p.fpOverflow
    else if k == 7 then p.fpZeroDivision
    else if k == 8 then p.fpInvalidOperation
    else if k == 9 then p.fpReservedOperand
    else if k == 12 then p.interruptDisable
    else if k == 13 then p.addressTrapEnable
    else if k == 14 then p.exceptionPending
    else if k == 15 then p.nmiPending
    else false
  }

  /** Bit `k` of the flags word is the flag packed at `k`. */
  lemma FlagsWordBit(p: Psw, k: nat)
    ensures Bit(FlagsWord(p), k) == FlagAt(p, k)
  {
    var terms := FlagTerms(p);
    OrFlagsBit(terms, k);
    if FlagAt(p, k) {
      FlagTermAt(p, k);
    }
    if exists i :: 0 <= i < |terms| && terms[i] == (true, k) {
      var i :| 0 <= i < |terms| && terms[i] == (true, k);
      TermFlagAt(p, i);
    }
  }

  lemma FlagTermAt(p: Psw, k: nat)
    requires FlagAt(p, k)
    ensures exists i :: 0 <= i < 14 && FlagTerms(p)[i] == (true, k)
  {
    var i := if k < 10 then k else k - 2;
    assert FlagTerms(p)[i] == (true, k);
  }

  lemma TermFlagAt(p: Psw, i: nat)
    requires i < 14 && FlagTerms(p)[i].0
    ensures FlagAt(p, FlagTerms(p)[i].1)
  {
    var terms := FlagTerms(p);
    var k := if i < 10 then i else i + 2;
    assert terms[i].1 == k;
    assert terms[i].0 == FlagAt(p, k);
  }

  /** `reg_psw` layout: bit `k` below 16 is the flag packed at `k` (bits 10 and 11 clear), the level from bit 16. */
  lemma PackPswLayout(p: Psw)
    ensures forall k: nat :: k < 16 ==> (Bit(PackPsw(p), k) <==> FlagAt(p, k))
    ensures PackPsw(p) / TwoTo16 == p.interruptMaskLevel % TwoTo16
  {
    forall k: nat | k < 16
      ensures Bit(PackPsw(p), k) <==> FlagAt(p, k)
    {
      FlagsWordBit(p, k);
      PackPswLowBits(p, k);
    }
    var level := p.interruptMaskLevel % TwoTo16;
    DivModUnique(PackPsw(p), TwoTo16, level, FlagsWord(p));
  }

  /** Unpacking the PSW gives back every flag, and the level when it fits in sixteen bits. */
  lemma PackPswRoundTrip(p: Psw)
    requires p.interruptMaskLevel < TwoTo16
    ensures UnpackPsw(PackPsw(p)) == p
  {
    PackPswLayout(p);
  }

  /** Two flag sets with levels below 2^16 pack to the same PSW only if they are equal. */
  lemma PackPswInjective(p: Psw, q: Psw)
    requires p.interruptMaskLevel < TwoTo16 && q.interruptMaskLevel < TwoTo16
    requires PackPsw(p) == PackPsw(q)
    ensures p == q
  {
    PackPswRoundTrip(p);
    PackPswRoundTrip(q);
  }

  /** A fresh CPU reports PSW 0x00008000: only NMI-pending is set. */
  lemma ResetPsw()
    ensures PackPsw(Reset().psw) == 0x8000
  {
    FlagsWordValue(Reset().psw);
    Pow2Values();
  }

  /** With only NMI-pending set, the flags word is bit 15 alone. */
  lemma FlagsWordValue(p: Psw)
    requires p == Reset().psw
    ensures FlagsWord(p) == 0x8000
  {
    var terms := FlagTerms(p);
    OrFlagsNone(terms[..13]);
    assert terms[..13][..12] == terms[..12];
    Pow2Values();
  }

  /** Or-ing only clear flags gives zero. */
  lemma {:induction false} OrFlagsNone(terms: seq<(bool, nat)>)
    requires forall i :: 0 <= i < |terms| ==> terms[i].1 < 16 && !terms[i].0
    ensures OrFlags(terms) == 0
  {
    if terms != [] {
      OrFlagsNone(terms[..|terms| - 1]);
    }
  }

  // ---------------------------------------------------------------------------
  // Immediates

  lemma SignExtendImm5Examples()
    ensures SignExtendImm5(15) == 15
    ensures SignExtendImm5(16) == 0xffff_fff0
    ensures SignExtendImm5(31) == 0xffff_ffff
  {
  }

  /** `(imm16 as i16) as u32` keeps the signed value of the immediate. */
  lemma SignExtend16Value(h: u16)
    ensures Signed(Wrap(AsI16(h))) == AsI16(h)
    ensures Wrap(AsI16(h)) == if h < 0x8000 then h else h + TwoTo32 - TwoTo16
  {
  }

  // ---------------------------------------------------------------------------
  // sub

  /** The bit-31 formula of the overflow flag holds exactly when the signed difference does not fit in 32 bits. */
  lemma {:induction false} SubOverflowIsSignedOverflow(lhs: u32, rhs: u32)
    ensures var res := OverflowingSub(lhs, rhs).0;
      SubOverflow(lhs, rhs, res) <==> !(-TwoTo31 <= Signed(lhs) - Signed(rhs) < TwoTo31)
  {
    SubOverflowSigns(lhs, rhs, OverflowingSub(lhs, rhs).0);
    SignedOverflowSigns(lhs, rhs);
  }

  /** Bit 31 of `(lhs ^ rhs) & !(rhs ^ res)`: the operands' signs differ and the result has the sign of `rhs`. */
  lemma SubOverflowSigns(lhs: u32, rhs: u32, res: u32)
    ensures SubOverflow(lhs, rhs, res) <==>
      (lhs >= TwoTo31) != (rhs >= TwoTo31) && (rhs >= TwoTo31) == (res >= TwoTo31)
  {
    Pow2Values();
    XorBelow(rhs, res, 32);
    var x := Xor(lhs, rhs);
    var y := Xor(rhs, res);
    var n := Not32(y);
    AndPow2(And(x, n), 31);
    BitAnd(x, n, 31);
    BitXor(lhs, rhs, 31);
    BitXor(rhs, res, 31);
    BitComplement(y, 32, 31);
    BitTop(lhs, 31);
    BitTop(rhs, 31);
    BitTop(res, 31);
  }

  /** The sign rule of the overflow flag, stated on the wrapped difference, is signed overflow. */
  lemma SignedOverflowSigns(lhs: u32, rhs: u32)
    ensures var res := OverflowingSub(lhs, rhs).0;
      ((lhs >= TwoTo31) != (rhs >= TwoTo31) && (rhs >= TwoTo31) == (res >= TwoTo31))
        <==> !(-TwoTo31 <= Signed(lhs) - Signed(rhs) < TwoTo31)
  {
  }

  /** The jmp arm sends the PC to reg1; every other arm leaves the PC where the fetch put it. */
  lemma CompletePc(m: Machine, op: Opcode, first: u16, second: u16)
    requires WellFormed(m.cpu)
    ensures Complete(m, op, first, second).m.cpu.pc ==
      if op == Jmp then Gpr(m.cpu, LowField(first)) else m.cpu.pc
  {
  }

  /** The jmp arm: the PC becomes reg1, nothing else in the CPU changes, three cycles, no write. */
  lemma CompleteJmp(m: Machine, first: u16, second: u16)
    requires WellFormed(m.cpu)
    ensures Complete(m, Jmp, first, second) ==
      Stepped(Machine(m.cpu.(pc := Gpr(m.cpu, LowField(first))), m.writes, m.cycles + 3), Ok(Jmp))
  {
  }

  /** The sub arm: reg2 := reg2 - reg1 modulo 2^32, with Z, S, CY and OV describing the subtraction. */
  lemma ExecuteSubMeaning(s: CpuState, first: u16, second: u16)
    requires WellFormed(s)
    ensures var reg1, reg2 := LowField(first), Reg2Field(first);
      var lhs, rhs := Gpr(s, reg2), Gpr(s, reg1);
      var t := Execute(s, Sub, first, second).cpu;
      && Gpr(t, reg2) == (if reg2 == 0 then 0 else Wrap(lhs - rhs))
      && (forall j :: 0 <= j < 32 && j != reg2 ==> Gpr(t, j) == Gpr(s, j))
      && (t.psw.zero <==> lhs == rhs)
      && (t.psw.sign <==> Wrap(lhs - rhs) >= TwoTo31)
      && (t.psw.carry <==> lhs < rhs)
      && (t.psw.overflow <==> !(-TwoTo31 <= Signed(lhs) - Signed(rhs) < TwoTo31))
      && t.psw == s.psw.(zero := t.psw.zero, sign := t.psw.sign,
                         overflow := t.psw.overflow, carry := t.psw.carry)
      && t.pc == s.pc
  {
    SubOverflowIsSignedOverflow(Gpr(s, Reg2Field(first)), Gpr(s, LowField(first)));
  }

  /** The mov imm5 arm: reg2 := the sign-extended five-bit immediate; nothing else changes. */
  lemma ExecuteMovImmMeaning(s: CpuState, first: u16, second: u16)
    requires WellFormed(s)
    ensures var imm5, reg2 := LowField(first), Reg2Field(first);
      var t := Execute(s, MovImm, first, second).cpu;
      && Gpr(t, reg2) == (if reg2 == 0 then 0 else SignExtendImm5(imm5))
      && (forall j :: 0 <= j < 32 && j != reg2 ==> Gpr(t, j) == Gpr(s, j))
      && t.psw == s.psw && t.pc == s.pc
  {
  }

  // ---------------------------------------------------------------------------
  // movea and movhi

  /** The movea arm: reg2 := reg1 + sext16(imm16) modulo 2^32; nothing else changes. */
  lemma ExecuteMoveaMeaning(s: CpuState, first: u16, second: u16)
    requires WellFormed(s)
    ensures var reg1, reg2 := LowField(first), Reg2Field(first);
      var t := Execute(s, Movea, first, second).cpu;
      && Gpr(t, reg2) == (if reg2 == 0 then 0 else Wrap(Gpr(s, reg1) + AsI16(second)))
      && (forall j :: 0 <= j < 32 && j != reg2 ==> Gpr(t, j) == Gpr(s, j))
      && t.psw == s.psw && t.pc == s.pc
  {
    WrapAddWord(Gpr(s, LowField(first)), AsI16(second));
  }

  /** The movhi arm: reg2 := reg1 + imm16 * 2^16 modulo 2^32; nothing else changes. */
  lemma ExecuteMovhiMeaning(s: CpuState, first: u16, second: u16)
    requires WellFormed(s)
    ensures var reg1, reg2 := LowField(first), Reg2Field(first);
      var t := Execute(s, Movhi, first, second).cpu;
      && Gpr(t, reg2) == (if reg2 == 0 then 0 else Wrap(Gpr(s, reg1) + second * TwoTo16))
      && (forall j :: 0 <= j < 32 && j != reg2 ==> Gpr(t, j) == Gpr(s, j))
      && t.psw == s.psw && t.pc == s.pc
  {
    WrapAddWord(Gpr(s, LowField(first)), second * TwoTo16);
  }

  /** The register fields of an encoded format I/V halfword are the ones encoded. */
  lemma EncodedFields(op: Opcode, reg2: nat, reg1: nat)
    requires reg2 < 32 && reg1 < 32
    ensures LowField(Encode(op, reg2 * 32 + reg1)) == reg1
    ensures Reg2Field(Encode(op, reg2 * 32 + reg1)) == reg2
  {
    var h := Encode(op, reg2 * 32 + reg1);
    DivModUnique(h, 32, Pattern(op) * 32 + reg2, reg1);
    DivModUnique(h / 32, 32, Pattern(op), reg2);
  }

  /**
   * `movea r, r0, L` followed by `movhi r, r, H` loads (H << 16) + sext16(L)
   * modulo 2^32 into r.
   */
  lemma MoveaThenMovhi(s: CpuState, r: nat, low: u16, high: u16)
    requires WellFormed(s) && 0 < r < 32
    ensures var s1 := Execute(s, Movea, Encode(Movea, r * 32 + 0), low).cpu;
      var s2 := Execute(s1, Movhi, Encode(Movhi, r * 32 + r), high).cpu;
      Gpr(s2, r) == Wrap(AsI16(low) + high * TwoTo16)
  {
    MoveaFromZero(s, r, low);
    MovhiAfterLoad(Execute(s, Movea, Encode(Movea, r * 32 + 0), low).cpu, r, low, high);
  }

  /** `movhi r, r, H` on a register holding sext16(L) leaves sext16(L) + H * 2^16 there, modulo 2^32. */
  lemma MovhiAfterLoad(s: CpuState, r: nat, low: u16, high: u16)
    requires WellFormed(s) && 0 < r < 32 && Gpr(s, r) == Wrap(AsI16(low))
    ensures Gpr(Execute(s, Movhi, Encode(Movhi, r * 32 + r), high).cpu, r) == Wrap(AsI16(low) + high * TwoTo16)
  {
    MovhiSameRegister(s, r, high);
    WrapAddLeft(AsI16(low), high * TwoTo16);
  }

  /** `movea r, r0, L` loads sext16(L) into r. */
  lemma MoveaFromZero(s: CpuState, r: nat, low: u16)
    requires WellFormed(s) && 0 < r < 32
    ensures Gpr(Execute(s, Movea, Encode(Movea, r * 32 + 0), low).cpu, r) == Wrap(AsI16(low))
  {
    EncodedFields(Movea, r, 0);
    ExecuteMoveaMeaning(s, Encode(Movea, r * 32 + 0), low);
  }

  /** `movhi r, r, H` adds H * 2^16 to r, modulo 2^32. */
  lemma MovhiSameRegister(s: CpuState, r: nat, high: u16)
    requires WellFormed(s) && 0 < r < 32
    ensures Gpr(Execute(s, Movhi, Encode(Movhi, r * 32 + r), high).cpu, r) == Wrap(Gpr(s, r) + high * TwoTo16)
  {
    EncodedFields(Movhi, r, r);
    ExecuteMovhiMeaning(s, Encode(Movhi, r * 32 + r), high);
  }

  /** The loaded word is `(H << 16) | L` exactly when bit 15 of L is clear. */
  lemma HighLowPairIsOrExactlyWhenLowPositive(low: u16, high: u16)
    ensures Wrap(AsI16(low) + high * TwoTo16) == high * TwoTo16 + low <==> low < 0x8000
  {
    if low >= 0x8000 {
      var v := AsI16(low) + high * TwoTo16;
      if high == 0 {
        DivModUnique(v, TwoTo32, -1, v + TwoTo32);
      } else {
        DivModUnique(v, TwoTo32, 0, v);
      }
    }
  }

  // ---------------------------------------------------------------------------
  // One step

  /** The first halfword a step decodes: the one fetched at the PC. */
  function FirstHalfword(m: Machine, rom: seq<u8>): (h: u16)
    requires ValidRom(rom) && ReadHalfword(rom, m.cpu.pc).Ok?
    ensures ReadHalfword(rom, m.cpu.pc) == Ok(h)
  {
    ReadHalfword(rom, m.cpu.pc).value
  }

  /** Two wrapping advances by 2 are one by 4. */
  lemma PcAdvancesTwice(pc: u32)
    ensures Wrap(Wrap(pc + 2) + 2) == Wrap(pc + 4)
  {
    WrapAdd(pc + 2, 2);
    WrapSmall(2);
  }

  /**
   * Once both fetches succeed, a step leaves the PC past the instruction, 2 or
   * 4 bytes on, whether or not its write is refused; a jmp sets it to reg1.
   */
  lemma StepAdvancesPc(m: Machine, rom: seq<u8>, first: u16, op: Opcode)
    requires WellFormed(m.cpu) && ValidRom(rom)
    requires ReadHalfword(rom, m.cpu.pc) == Ok(first) && FromHalfword(first) == Ok(op)
    requires HasSecondHalfword(Format(op)) ==> ReadHalfword(rom, Wrap(m.cpu.pc + 2)).Ok?
    ensures var r := StepSpec(m, rom);
      && (r.outcome.Ok? ==> r.outcome.value == op)
      && (op != Jmp ==> r.m.cpu.pc == Wrap(m.cpu.pc + InstructionBytes(op)))
      && (op == Jmp ==> r.m.cpu.pc == Gpr(m.cpu, LowField(first)))
  {
    if HasSecondHalfword(Format(op)) {
      StepAdvancesPcLong(m, rom, first, op);
    } else {
      StepAdvancesPcShort(m, rom, first, op);
    }
  }

  lemma StepAdvancesPcShort(m: Machine, rom: seq<u8>, first: u16, op: Opcode)
    requires WellFormed(m.cpu) && ValidRom(rom)
    requires ReadHalfword(rom, m.cpu.pc) == Ok(first) && FromHalfword(first) == Ok(op)
    requires !HasSecondHalfword(Format(op))
    ensures var r := StepSpec(m, rom);
      && (r.outcome.Ok? ==> r.outcome.value == op)
      && r.m.cpu.pc == if op == Jmp then Gpr(m.cpu, LowField(first)) else Wrap(m.cpu.pc + 2)
  {
    StepShortInstruction(m, rom, first, op);
    CompletePc(m.(cpu := m.cpu.(pc := Wrap(m.cpu.pc + 2))), op, first, 0);
  }

  lemma StepAdvancesPcLong(m: Machine, rom: seq<u8>, first: u16, op: Opcode)
    requires WellFormed(m.cpu) && ValidRom(rom)
    requires ReadHalfword(rom, m.cpu.pc) == Ok(first) && FromHalfword(first) == Ok(op)
    requires HasSecondHalfword(Format(op)) && ReadHalfword(rom, Wrap(m.cpu.pc + 2)).Ok?
    ensures var r := StepSpec(m, rom);
      && (r.outcome.Ok? ==> r.outcome.value == op)
      && op != Jmp && r.m.cpu.pc == Wrap(m.cpu.pc + 4)
  {
    var second := ReadHalfword(rom, Wrap(m.cpu.pc + 2)).value;
    StepLongInstruction(m, rom, first, op, second);
    CompleteAfterTwoAdvances(m, op, first, second);
  }

  /** The PC a non-jump leaves after two advances by 2. */
  lemma CompleteAfterTwoAdvances(m: Machine, op: Opcode, first: u16, second: u16)
    requires WellFormed(m.cpu) && op != Jmp
    ensures var m1 := m.(cpu := m.cpu.(pc := Wrap(m.cpu.pc + 2)));
      Complete(m1.(cpu := m1.cpu.(pc := Wrap(m1.cpu.pc + 2))), op, first, second).m.cpu.pc == Wrap(m.cpu.pc + 4)
  {
    var m1 := m.(cpu := m.cpu.(pc := Wrap(m.cpu.pc + 2)));
    CompletePc(m1.(cpu := m1.cpu.(pc := Wrap(m1.cpu.pc + 2))), op, first, second);
    PcAdvancesTwice(m.cpu.pc);
  }

  /** A fetch outside the ROM window stops the step and changes nothing. */
  lemma StepFetchFault(m: Machine, rom: seq<u8>)
    requires WellFormed(m.cpu) && ValidRom(rom)
    requires m.cpu.pc % TwoTo27 < RomBase
    ensures StepSpec(m, rom) == Stepped(m, Err(FetchFault(UnrecognizedAddress(Aligned(m.cpu.pc)))))
  {
  }

  /** An unrecognised opcode stops the step after the PC has moved past the first halfword. */
  lemma StepDecodeFault(m: Machine, rom: seq<u8>)
    requires WellFormed(m.cpu) && ValidRom(rom)
    requires ReadHalfword(rom, m.cpu.pc).Ok?
    requires FromHalfword(FirstHalfword(m, rom)).Err?
    ensures StepSpec(m, rom) == Stepped(
      m.(cpu := m.cpu.(pc := Wrap(m.cpu.pc + 2))),
      Err(DecodeFault(UnrecognizedOpcodeBits(OpcodeField(FirstHalfword(m, rom))))))
  {
  }

  /**
   * A format V or VI instruction whose second halfword lies outside the ROM
   * window stops the step with the PC 2 on, past the first halfword only.
   */
  lemma StepSecondFetchFault(m: Machine, rom: seq<u8>, first: u16, op: Opcode)
    requires WellFormed(m.cpu) && ValidRom(rom)
    requires ReadHalfword(rom, m.cpu.pc) == Ok(first) && FromHalfword(first) == Ok(op)
    requires HasSecondHalfword(Format(op)) && Wrap(m.cpu.pc + 2) % TwoTo27 < RomBase
    ensures StepSpec(m, rom) == Stepped(
      m.(cpu := m.cpu.(pc := Wrap(m.cpu.pc + 2))),
      Err(FetchFault(UnrecognizedAddress(Aligned(Wrap(m.cpu.pc + 2))))))
  {
    StepFetchDecode(m, rom, first, op);
  }

  /** Only sub changes the PSW; jmp, st.b and out.w change no register. */
  lemma StepFlagsAndRegisters(m: Machine, rom: seq<u8>)
    requires WellFormed(m.cpu) && ValidRom(rom)
    ensures var r := StepSpec(m, rom);
      && (r.outcome != Ok(Sub) ==> r.m.cpu.psw == m.cpu.psw)
      && (r.outcome in {Ok(Jmp), Ok(Stb), Ok(Outw)} || r.outcome.Err? ==> r.m.cpu.gpr == m.cpu.gpr)
  {
  }

  /** A step adds at most one write to the log and charges at least one cycle when it succeeds. */
  lemma StepBusEffects(m: Machine, rom: seq<u8>)
    requires WellFormed(m.cpu) && ValidRom(rom)
    ensures var r := StepSpec(m, rom);
      && m.writes <= r.m.writes && |r.m.writes| <= |m.writes| + 1
      && m.cycles <= r.m.cycles
      && (r.outcome.Ok? <==> r.m.cycles > m.cycles)
      && (|r.m.writes| > |m.writes| ==> r.outcome in {Ok(Stb), Ok(Outw)})
  {
  }

  /** The address st.b and out.w use: reg1 + sext16(disp16) modulo 2^32. */
  function StoreAddress(s: CpuState, first: u16, second: u16): (a: u32)
    requires WellFormed(s)
    ensures a == Wrap(Gpr(s, LowField(first)) + AsI16(second))
  {
    WrapAdd(Gpr(s, LowField(first)), AsI16(second));
    Wrap(Gpr(s, LowField(first)) + Wrap(AsI16(second)))
  }

  /**
   * The store arms: st.b logs the low byte of reg2 and out.w the whole of
   * reg2 at the store address; a store into the ROM window is refused and
   * logs nothing. Neither changes a register or a flag.
   */
  lemma ExecuteStoreMeaning(m: Machine, op: Opcode, first: u16, second: u16)
    requires WellFormed(m.cpu) && (op == Stb || op == Outw)
    ensures var r := Complete(m, op, first, second);
      var addr := StoreAddress(m.cpu, first, second);
      var value := Gpr(m.cpu, Reg2Field(first));
      && r.m.cpu == m.cpu
      && (addr % TwoTo27 >= RomBase ==>
            r == Stepped(m, Err(WriteFault(ReadOnlyWrite(addr)))))
      && (addr % TwoTo27 < RomBase ==>
            r.outcome == Ok(op) && r.m.cycles == m.cycles + 1 &&
            r.m.writes == m.writes + [if op == Stb then ByteWrite(addr, value % TwoTo8) else WordWrite(addr, value)])
  {
  }

  // ---------------------------------------------------------------------------
  // A two-instruction program

  /** `mov 5, r1` (0x4025) then `jmp [r1]` (0x1801), stored little-endian. */
  const ScenarioRom: seq<u8> := [0x25, 0x40, 0x01, 0x18]

  /** A step over a one-halfword instruction: the PC moves by 2, then the opcode arm runs. */
  lemma StepShortInstruction(m: Machine, rom: seq<u8>, first: u16, op: Opcode)
    requires WellFormed(m.cpu) && ValidRom(rom)
    requires ReadHalfword(rom, m.cpu.pc) == Ok(first) && FromHalfword(first) == Ok(op)
    requires !HasSecondHalfword(Format(op))
    ensures StepSpec(m, rom) == Complete(m.(cpu := m.cpu.(pc := Wrap(m.cpu.pc + 2))), op, first, 0)
  {
    StepFetchDecode(m, rom, first, op);
  }

  /** A step over a two-halfword instruction: the PC moves by 2 twice, then the opcode arm runs. */
  lemma StepLongInstruction(m: Machine, rom: seq<u8>, first: u16, op: Opcode, second: u16)
    requires WellFormed(m.cpu) && ValidRom(rom)
    requires ReadHalfword(rom, m.cpu.pc) == Ok(first) && FromHalfword(first) == Ok(op)
    requires HasSecondHalfword(Format(op)) && ReadHalfword(rom, Wrap(m.cpu.pc + 2)) == Ok(second)
    ensures var m1 := m.(cpu := m.cpu.(pc := Wrap(m.cpu.pc + 2)));
      StepSpec(m, rom) == Complete(m1.(cpu := m1.cpu.(pc := Wrap(m1.cpu.pc + 2))), op, first, second)
  {
    var m1 := m.(cpu := m.cpu.(pc := Wrap(m.cpu.pc + 2)));
    StepFetchDecode(m, rom, first, op);
    StepSecondFetch(m1, rom, first, op, second);
  }

  /** Fetching from the four-byte image: the halfword at an aligned offset `o` of the window. */
  lemma ScenarioFetch(addr: u32, o: nat)
    requires o == 0 || o == 2
    requires addr % TwoTo27 >= RomBase && Aligned(addr) % 4 == o
    ensures ReadHalfword(ScenarioRom, addr) == Ok(ScenarioRom[o] + TwoTo8 * ScenarioRom[o + 1])
  {
    Pow2Values();
    assert |ScenarioRom| == Pow2(2);
    ReadHalfwordLittleEndian(ScenarioRom, 2, addr);
    var a := Aligned(addr);
    DivModUnique(a + 1, 4, a / 4, o + 1);
  }

  /** The two halfwords of the image, read at the reset PC and the one after it. */
  lemma ScenarioFetches()
    ensures ReadHalfword(ScenarioRom, ResetPc) == Ok(0x4025)
    ensures ReadHalfword(ScenarioRom, 0xffff_fff2) == Ok(0x1801)
  {
    assert Aligned(ResetPc) == 0x07ff_fff0;
    ScenarioFetch(ResetPc, 0);
    assert Aligned(0xffff_fff2) == 0x07ff_fff2;
    ScenarioFetch(0xffff_fff2, 2);
  }

  /** The two halfwords decode as mov (format II) and jmp (format I). */
  lemma ScenarioDecodes()
    ensures FromHalfword(0x4025) == Ok(MovImm) && FromHalfword(0x1801) == Ok(Jmp)
  {
    assert OpcodeField(0x4025) == 0x10 && OpcodeField(0x1801) == 0x06;
  }

  /** The first step of the program: `mov 5, r1` at the reset PC. */
  lemma ScenarioFirstStep(m: Machine)
    requires m == Machine(Reset(), [], 0)
    ensures ValidRom(ScenarioRom)
    ensures var r := StepSpec(m, ScenarioRom);
      && r.outcome == Ok(MovImm) && r.m.cpu.pc == 0xffff_fff2
      && Gpr(r.m.cpu, 1) == 5 && r.m.cycles == 1 && r.m.writes == []
  {
    ScenarioFetches();
    ScenarioDecodes();
    StepShortInstruction(m, ScenarioRom, 0x4025, MovImm);
    EncodedFields(MovImm, 1, 5);
    assert Encode(MovImm, 1 * 32 + 5) == 0x4025;
    WrapSmall(ResetPc + 2);
  }

  /** The second step: `jmp [r1]` sends the PC to 5. */
  lemma ScenarioSecondStep(m: Machine)
    requires WellFormed(m.cpu) && m.cpu.pc == 0xffff_fff2 && Gpr(m.cpu, 1) == 5
    ensures ValidRom(ScenarioRom)
    ensures var r := StepSpec(m, ScenarioRom);
      && r.outcome == Ok(Jmp) && r.m.cpu.pc == 5 && r.m.cpu.gpr == m.cpu.gpr
      && r.m.cycles == m.cycles + 3 && r.m.writes == m.writes
  {
    ScenarioFetches();
    ScenarioDecodes();
    StepShortInstruction(m, ScenarioRom, 0x1801, Jmp);
    ScenarioJump(m);
  }

  /** `jmp [r1]` with r1 = 5, after the fetch has moved the PC. */
  lemma ScenarioJump(m: Machine)
    requires WellFormed(m.cpu) && Gpr(m.cpu, 1) == 5
    ensures var r := Complete(m.(cpu := m.cpu.(pc := Wrap(m.cpu.pc + 2))), Jmp, 0x1801, 0);
      && r.outcome == Ok(Jmp) && r.m.cpu.pc == 5 && r.m.cpu.gpr == m.cpu.gpr
      && r.m.cycles == m.cycles + 3 && r.m.writes == m.writes
  {
    var m1 := m.(cpu := m.cpu.(pc := Wrap(m.cpu.pc + 2)));
    CompleteJmp(m1, 0x1801, 0);
    EncodedFields(Jmp, 0, 1);
    assert Encode(Jmp, 0 * 32 + 1) == 0x1801;
  }

  /** From reset, the program sets r1 to 5 and then jumps to address 5, in four cycles. */
  lemma ScenarioRuns()
    ensures ValidRom(ScenarioRom)
    ensures var r1 := StepSpec(Machine(Reset(), [], 0), ScenarioRom);
      var r2 := StepSpec(r1.m, ScenarioRom);
      && r1.outcome == Ok(MovImm) && Gpr(r1.m.cpu, 1) == 5 && r1.m.cpu.pc == 0xffff_fff2
      && r2.outcome == Ok(Jmp) && r2.m.cpu.pc == 5 && Gpr(r2.m.cpu, 1) == 5
      && r2.m.cycles == 4 && r2.m.writes == []
  {
    ScenarioFirstStep(Machine(Reset(), [], 0));
    ScenarioSecondStep(StepSpec(Machine(Reset(), [], 0), ScenarioRom).m);
  }

  /** The same program on the CPU object and a bus holding the image. */
  method RunScenario() returns (pc: u32, r1: u32)
    ensures pc == 5 && r1 == 5
  {
    ScenarioRuns();
    var bus := new Bus(ScenarioRom);
    var cpu := new Nvc();
    var first := cpu.Step(bus);
    var second := cpu.Step(bus);
    pc := cpu.pc;
    r1 := cpu.RegGpr(1);
  }
}
