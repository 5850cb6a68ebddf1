/**
 * The opcode decoder and the per-opcode tables of the CPU: which of the seven
 * implemented opcodes a 16-bit fetch unit encodes, its instruction format,
 * whether a second halfword follows, its cycle cost and its mnemonic.
 */
module Instruction {
  import opened Bits
  import opened Wrappers

  datatype Opcode = Movhi | Movea | MovImm | Stb | Jmp | Sub | Outw

  datatype InstructionFormat = I | II | V | VI

  /** Decoding fails on any other pattern; the emulator panics there. */
  datatype DecodeError = UnrecognizedOpcodeBits(bits: nat)

  /** The six opcode bits of a halfword, bits 15-10 (`halfword >> 10`). */
  function OpcodeField(h: u16): (bits: nat)
    ensures bits < 64
    ensures h - bits * 1024 < 1024 && bits * 1024 <= h
  {
    h / 1024
  }

  /** The opcode-bit pattern each opcode is recognised by. */
  function Pattern(op: Opcode): (bits: nat)
    ensures bits < 64
  {
    match op
    case Movhi => 0x2f   // 0b101111
    case Movea => 0x28   // 0b101000
    case MovImm => 0x10  // 0b010000
    case Stb => 0x34     // 0b110100
    case Jmp => 0x06     // 0b000110
    case Sub => 0x02     // 0b000010
    case Outw => 0x3f    // 0b111111
  }

  /** A halfword carrying `op`'s pattern in bits 15-10 and `low` in bits 9-0. */
  function Encode(op: Opcode, low: nat): (h: u16)
    requires low < 1024
    ensures OpcodeField(h) == Pattern(op) && h % 1024 == low
  {
    Pattern(op) * 1024 + low
  }

  /** `Opcode::from_halfword`: the opcode whose pattern equals the top six bits. */
  function FromHalfword(h: u16): (r: Result<Opcode, DecodeError>)
    ensures r.Ok? ==> Pattern(r.value) == OpcodeField(h)
    ensures r.Err? ==> r.error == UnrecognizedOpcodeBits(OpcodeField(h))
    ensures r.Err? <==> forall op: Opcode :: Pattern(op) != OpcodeField(h)
  {
    var bits := OpcodeField(h);
    match bits
    case 0x2f => Ok(Movhi)
    case 0x28 => Ok(Movea)
    case 0x10 => Ok(MovImm)
    case 0x34 => Ok(Stb)
    case 0x06 => Ok(Jmp)
    case 0x02 => Ok(Sub)
    case 0x3f => Ok(Outw)
    case _ =>
      Err(UnrecognizedOpcodeBits(bits))
  }

  /** `Opcode::instruction_format`. */
  function Format(op: Opcode): (f: InstructionFormat)
    ensures f == I <==> op == Jmp || op == Sub
    ensures f == II <==> op == MovImm
    ensures f == V <==> op == Movhi || op == Movea
    ensures f == VI <==> op == Outw || op == Stb
  {
    match op
    case Movhi => V
    case Movea => V
    case Jmp => I
    case Sub => I
    case MovImm => II
    case Outw => VI
    case Stb => VI
  }

  /** `InstructionFormat::has_second_halfword`. */
  function HasSecondHalfword(f: InstructionFormat): (b: bool)
    ensures b <==> f == V || f == VI
  {
    match f
    case I => false
    case II => false
    case V => true
    case VI => true
  }

  /** `Opcode::num_cycles`. */
  function NumCycles(op: Opcode): (c: nat)
    ensures c >= 1
    ensures c == 3 <==> op == Jmp
    ensures op != Jmp ==> c == 1
  {
    match op
    case Jmp => 3
    case MovImm => 1
    case Sub => 1
    case Movea => 1
    case Movhi => 1
    case Stb => 1
    case Outw => 1
  }

  /** The `Display` text of an opcode. */
  function Mnemonic(op: Opcode): (s: string)
    ensures |s| > 0
  {
    match op
    case Sub => "sub"
    case Movhi => "movhi"
    case Movea => "movea"
    case MovImm => "mov"
    case Jmp => "jmp"
    case Outw => "out.w"
    case Stb => "st.b"
  }

  /** Length in bytes of an instruction with opcode `op`. */
  function InstructionBytes(op: Opcode): (n: nat)
    ensures n == 2 || n == 4
    ensures n == 4 <==> HasSecondHalfword(Format(op))
  {
    if HasSecondHalfword(Format(op)) then 4 else 2
  }

  // ---------------------------------------------------------------------------
  // Properties of the decoder and the tables

  /** Decoding looks at bits 15-10 only. */
  lemma DecodeReadsOpcodeBitsOnly(h1: u16, h2: u16)
    requires OpcodeField(h1) == OpcodeField(h2)
    ensures FromHalfword(h1) == FromHalfword(h2)
  {
  }

  /** Distinct opcodes have distinct patterns. */
  lemma PatternInjective(a: Opcode, b: Opcode)
    ensures Pattern(a) == Pattern(b) ==> a == b
  {
  }

  /** Placing an opcode's pattern above any ten low bits decodes back to it. */
  lemma DecodeEncode(op: Opcode, low: nat)
    requires low < 1024
    ensures FromHalfword(Encode(op, low)) == Ok(op)
  {
    PatternInjective(op, FromHalfword(Encode(op, low)).value);
  }

  /** Every halfword that decodes is the encoding of its opcode and its low ten bits. */
  lemma EncodeDecode(h: u16)
    requires FromHalfword(h).Ok?
    ensures Encode(FromHalfword(h).value, h % 1024) == h
  {
  }

  /** Exactly seven of the 64 opcode-bit patterns are recognised. */
  lemma RecognisedPatterns(h: u16)
    ensures FromHalfword(h).Ok? <==>
      OpcodeField(h) in {0x2f, 0x28, 0x10, 0x34, 0x06, 0x02, 0x3f}
  {
  }

  /** A second halfword is fetched exactly for movhi, movea, st.b and out.w. */
  lemma SecondHalfwordOpcodes(op: Opcode)
    ensures HasSecondHalfword(Format(op)) <==> op in {Movhi, Movea, Stb, Outw}
  {
  }

  /** The mnemonic table tells every opcode apart. */
  lemma MnemonicInjective(a: Opcode, b: Opcode)
    ensures Mnemonic(a) == Mnemonic(b) ==> a == b
  {
    if a != b {
      assert Mnemonic(a)[..2] != Mnemonic(b)[..2] || Mnemonic(a) != Mnemonic(b);
    }
  }
}
