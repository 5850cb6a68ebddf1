/**
 * The bus read path: a 27-bit physical address space whose top window,
 * 0x07000000 and above, mirrors the read-only program image (the ROM), plus
 * an abstract record of the writes and cycle charges the CPU issues.
 */
module Interconnect {
  import opened Bits
  import opened Wrappers

  /** Bits 0-26: the physical address space. */
  const AddressMask: nat := 0x07ff_ffff
  /** Bits 1-26: the physical address of the halfword holding a byte. */
  const HalfwordMask: nat := 0x07ff_fffe
  /** First address of the ROM window. */
  const RomBase: nat := 0x0700_0000
  /** Largest image the loader accepts (16 MiB). */
  const MaxRomSize: nat := 0x100_0000

  datatype BusError =
    | UnrecognizedAddress(addr: u32)  // a read outside the ROM window; the emulator panics
    | ReadOnlyWrite(addr: u32)        // a write into the ROM window

  /** An image the loader accepts and the mirroring mask can be formed for. */
  predicate ValidRom(rom: seq<u8>)
  {
    1 <= |rom| <= MaxRomSize
  }

  /** Masking to the 27-bit space drops address bits 27-31. */
  lemma AddressMaskIsRemainder(addr: nat)
    ensures And(addr, AddressMask) == addr % TwoTo27
  {
    Pow2Values();
    AndLowMask(addr, 27);
  }

  /** Masking with `HalfwordMask` drops bits 27-31 and bit 0. */
  lemma HalfwordMaskAligns(addr: nat)
    ensures And(addr, HalfwordMask) == addr % TwoTo27 - addr % 2
  {
    Pow2Values();
    var m := Pow2(26) - 1;
    assert HalfwordMask == 2 * m;
    if addr > 0 {
      calc {
        And(addr, HalfwordMask);
        2 * And(addr / 2, m);
        { AndLowMask(addr / 2, 26); }
        2 * ((addr / 2) % Pow2(26));
        { ModDouble(addr, Pow2(26)); }
        addr % TwoTo27 - addr % 2;
      }
    }
  }

  /** The ROM offset an in-window address reads: `addr & (rom_size - 1)`, always inside the image. */
  function RomIndex(rom: seq<u8>, addr: nat): (i: nat)
    requires ValidRom(rom)
    ensures i < |rom| && i <= addr
  {
    And(addr, |rom| - 1)
  }

  /** `Interconnect::read_byte`. */
  function ReadByte(rom: seq<u8>, addr: u32): (r: Result<u8, BusError>)
    requires ValidRom(rom)
    ensures r.Ok? <==> addr % TwoTo27 >= RomBase
    ensures r.Err? ==> r.error == UnrecognizedAddress(addr % TwoTo27)
    ensures r.Ok? ==> r.value == rom[RomIndex(rom, addr % TwoTo27)]
  {
    AddressMaskIsRemainder(addr);
    var addr := And(addr, AddressMask);
    if addr >= RomBase then
      var romMask := |rom| - 1;
      Ok(rom[And(addr, romMask)])
    else
      Err(UnrecognizedAddress(addr))
  }

  /** The address `read_halfword` fetches from: bit 0 and bits 27-31 cleared. */
  function Aligned(addr: u32): (a: u32)
    ensures a == addr % TwoTo27 - addr % 2
    ensures a % 2 == 0 && a + 1 < TwoTo27
  {
    HalfwordMaskAligns(addr);
    And(addr, HalfwordMask)
  }

  /** The aligned address and the byte after it lie in the window exactly when the address does. */
  lemma AlignedInWindow(addr: u32)
    ensures Aligned(addr) % TwoTo27 == Aligned(addr)
    ensures (Aligned(addr) + 1) % TwoTo27 == Aligned(addr) + 1
    ensures Aligned(addr) >= RomBase <==> addr % TwoTo27 >= RomBase
    ensures Aligned(addr) + 1 >= RomBase <==> addr % TwoTo27 >= RomBase
  {
    Pow2Values();
    ModPow2Mod(addr, 1, 27);
    var a := Aligned(addr);
    DivModUnique(a, TwoTo27, 0, a);
    DivModUnique(a + 1, TwoTo27, 0, a + 1);
  }

  /** `Interconnect::read_halfword`: the two bytes at the aligned address, little-endian. */
  function ReadHalfword(rom: seq<u8>, addr: u32): (r: Result<u16, BusError>)
    requires ValidRom(rom)
    ensures r.Ok? <==> addr % TwoTo27 >= RomBase
    ensures r.Err? ==> r.error == UnrecognizedAddress(Aligned(addr))
    ensures r.Ok? ==> ReadByte(rom, Aligned(addr)).Ok? && ReadByte(rom, Aligned(addr) + 1).Ok?
    ensures r.Ok? ==>
      r.value == ReadByte(rom, Aligned(addr)).value + TwoTo8 * ReadByte(rom, Aligned(addr) + 1).value
  {
    AlignedInWindow(addr);
    var addr := Aligned(addr);
    match ReadByte(rom, addr)
    case Err(e) => Err(e)
    case Ok(low) =>
      // `addr + 1` shares every bit above bit 0 with `addr`, so it is in the window too
      var high := ReadByte(rom, addr + 1).value;
      Pow2Values();
      OrShifted(high, low, 8);
      Ok(Or(high * TwoTo8, low))
  }

  // ---------------------------------------------------------------------------
  // Properties of the read path

  /** Reads ignore address bits 27-31. */
  lemma ReadByteIgnoresHighBits(rom: seq<u8>, addr: u32)
    requires ValidRom(rom)
    ensures ReadByte(rom, addr) == ReadByte(rom, addr % TwoTo27)
  {
    Pow2Values();
    ModPow2Mod(addr, 27, 27);
  }

  /** For an image whose size is a power of two, the offset read is the address modulo the size. */
  lemma RomIndexOfPow2(rom: seq<u8>, k: nat, addr: u32)
    requires ValidRom(rom) && |rom| == Pow2(k)
    ensures RomIndex(rom, addr % TwoTo27) == addr % |rom|
  {
    Pow2Values();
    if k > 24 {
      Pow2Monotone(25, k);
    }
    AndLowMask(addr % TwoTo27, k);
    ModPow2Mod(addr, k, 27);
  }

  /** Mirroring: in a power-of-two image, byte reads repeat with the image size as period. */
  lemma ReadByteMirrored(rom: seq<u8>, k: nat, addr: u32)
    requires ValidRom(rom) && |rom| == Pow2(k)
    requires addr % TwoTo27 >= RomBase
    ensures ReadByte(rom, addr) == Ok(rom[addr % |rom|])
  {
    RomIndexOfPow2(rom, k, addr);
  }

  /** Two window addresses congruent modulo a power-of-two image size read the same byte. */
  lemma ReadByteMirror(rom: seq<u8>, k: nat, a: u32, b: u32)
    requires ValidRom(rom) && |rom| == Pow2(k)
    requires a % TwoTo27 >= RomBase && b % TwoTo27 >= RomBase
    requires a % |rom| == b % |rom|
    ensures ReadByte(rom, a) == ReadByte(rom, b)
  {
    ReadByteMirrored(rom, k, a);
    ReadByteMirrored(rom, k, b);
  }

  /** Reading one image size further on, still inside the window, gives the same byte. */
  lemma ReadByteNextMirror(rom: seq<u8>, k: nat, addr: u32)
    requires ValidRom(rom) && |rom| == Pow2(k)
    requires addr + |rom| < TwoTo32
    requires addr % TwoTo27 >= RomBase && (addr + |rom|) % TwoTo27 >= RomBase
    ensures ReadByte(rom, addr + |rom|) == ReadByte(rom, addr)
  {
    ModAddMultiple(addr, |rom|, 1);
    ReadByteMirror(rom, k, addr + |rom|, addr);
  }

  /** Halfword reads ignore bit 0 and bits 27-31 of the address. */
  lemma ReadHalfwordIgnoresAlignment(rom: seq<u8>, addr: u32)
    requires ValidRom(rom)
    ensures ReadHalfword(rom, addr) == ReadHalfword(rom, Aligned(addr))
  {
    assert Aligned(Aligned(addr)) == Aligned(addr);
  }

  /** In a power-of-two image a halfword is the byte at the aligned offset and the next one, little-endian. */
  lemma ReadHalfwordLittleEndian(rom: seq<u8>, k: nat, addr: u32)
    requires ValidRom(rom) && |rom| == Pow2(k)
    requires addr % TwoTo27 >= RomBase
    ensures ReadHalfword(rom, addr) ==
      Ok(rom[Aligned(addr) % |rom|] + TwoTo8 * rom[(Aligned(addr) + 1) % |rom|])
  {
    var a := Aligned(addr);
    ReadByteMirrored(rom, k, a);
    ReadByteMirrored(rom, k, a + 1);
  }

  // ---------------------------------------------------------------------------
  // Writes and cycle charges

  /** A bus write the CPU issued and the bus accepted. */
  datatype BusWrite =
    | ByteWrite(addr: u32, byte: u8)
    | WordWrite(addr: u32, word: u32)

  /** Whether the bus accepts a write: the ROM window is read-only. */
  function CheckWrite(addr: u32): (r: Result<(), BusError>)
    ensures r.Err? ==> r.error == ReadOnlyWrite(addr)
  {
    if addr % TwoTo27 >= RomBase then Err(ReadOnlyWrite(addr)) else Ok(())
  }

  /** Writes are refused exactly where reads succeed: the only mapped region is read-only. */
  lemma WriteRefusedWhereReadable(rom: seq<u8>, addr: u32)
    requires ValidRom(rom)
    ensures CheckWrite(addr).Err? <==> ReadByte(rom, addr).Ok?
  {
  }

  /**
   * The bus as the CPU sees it: a read-only image, the log of accepted
   * writes and the number of cycles charged so far.
   */
  class Bus {
    const rom: seq<u8>
    var writes: seq<BusWrite>
    var cycles: nat

    constructor (rom: seq<u8>)
      requires ValidRom(rom)
      ensures this.rom == rom && writes == [] && cycles == 0
    {
      this.rom := rom;
      writes := [];
      cycles := 0;
    }

    /** `write_byte`: refused inside the ROM window, logged otherwise. */
    method WriteByte(addr: u32, value: u8) returns (r: Result<(), BusError>)
      modifies this
      ensures r == CheckWrite(addr)
      ensures writes == if r.Ok? then old(writes) + [ByteWrite(addr, value)] else old(writes)
      ensures cycles == old(cycles)
    {
      r := CheckWrite(addr);
      if r.Ok? {
        writes := writes + [ByteWrite(addr, value)];
      }
    }

    /** `write_word`: refused inside the ROM window, logged otherwise. */
    method WriteWord(addr: u32, value: u32) returns (r: Result<(), BusError>)
      modifies this
      ensures r == CheckWrite(addr)
      ensures writes == if r.Ok? then old(writes) + [WordWrite(addr, value)] else old(writes)
      ensures cycles == old(cycles)
    {
      r := CheckWrite(addr);
      if r.Ok? {
        writes := writes + [WordWrite(addr, value)];
      }
    }

    /** `cycles`: charges the cost of an executed instruction. */
    method Cycles(n: nat)
      modifies this
      ensures cycles == old(cycles) + n && writes == old(writes)
    {
      cycles := cycles + n;
    }
  }
}
