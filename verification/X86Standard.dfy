/** Tables 2-1 to 2-3 of the Intel 64 and IA-32 Architectures Software Developer's Manual, Volume 2A: what
    ModR/M and SIB bytes stand for, byte by byte. */
module X86Standard {
  import opened LittleEndians
  import opened Wrappers
  import opened X86Memory

  /** bx, bp, si and di among the 16-bit registers. */
  const BX := Reg(16, 3)
  const BP := Reg(16, 5)
  const SI := Reg(16, 6)
  const DI := Reg(16, 7)

  /** The rows of the table of 16-bit forms. */
  const BASES := [Some(BX), Some(BX), Some(BP), Some(BP), Some(SI), Some(DI), Some(BP), Some(BX)]
  const INDICES := [Some(SI), Some(DI), Some(SI), Some(DI), None, None, None, None]

  /** A displacement, low byte first, with its sign. */
  function Displacement(d: seq<Byte>): int
    requires |d| in {0, 1, 2, 4}
  {
    if |d| == 0 then 0
    else
      var low: int, top: int := d[0], d[|d| - 1];
      var unsigned :=
        if |d| == 1 then low
        else if |d| == 2 then low + 0x100 * top
        else low + 0x100 * (d[1] as int) + 0x1_0000 * (d[2] as int) + 0x100_0000 * top;
      if top < 128 then unsigned else unsigned - (if |d| == 1 then 0x100 else if |d| == 2 then 0x1_0000 else 0x1_0000_0000)
  }

  lemma DisplacementRead(d: seq<Byte>)
    requires |d| in {0, 1, 2, 4}
    ensures Signed(ReadLittleEndian(d), |d|) == Displacement(d)
  {
    if |d| == 1 {
      assert d[1..] == [];
    } else if |d| == 2 {
      assert d[1..][1..] == [];
      assert ReadLittleEndian(d[1..]) == d[1];
    } else if |d| == 4 {
      assert d[1..][1..] == d[2..] && d[2..][1..] == d[3..] && d[3..][1..] == [];
      assert ReadLittleEndian(d[3..]) == d[3];
      assert ReadLittleEndian(d[2..]) == (d[2] as int) + 0x100 * (d[3] as int);
      assert ReadLittleEndian(d[1..]) == (d[1] as int) + 0x100 * ReadLittleEndian(d[2..]);
    }
  }

  /** Addresses of 16 bits: in 16-bit code, and with a prefix in 32-bit code. */
  predicate Sixteen(flag: CodeFlag, p: Prefixes) {
    (flag.Code16? && !p.addressSize) || (flag.Code32? && p.addressSize)
  }

  /** The 16-bit forms. */
  lemma Forms16(flag: CodeFlag, p: Prefixes, b: Byte, d: seq<Byte>)
    requires Sixteen(flag, p) && b / 64 < 3 && !(b / 64 == 0 && b % 8 == 6) && |d| == b / 64
    ensures Decode(flag, p, [b] + d) == Some(Memory(BASES[b % 8], INDICES[b % 8], 0, Displacement(d)))
  {
    DisplacementRead(d);
    assert ([b] + d)[1..] == d;
    hide Signed, ReadLittleEndian, Displacement;
  }

  lemma Absolute16(flag: CodeFlag, p: Prefixes, b: Byte, d: seq<Byte>)
    requires Sixteen(flag, p) && b / 64 == 0 && b % 8 == 6 && |d| == 2
    ensures Decode(flag, p, [b] + d) == Some(Memory(None, None, 0, Displacement(d)))
  {
    DisplacementRead(d);
    assert ([b] + d)[1..] == d;
    hide Signed, ReadLittleEndian, Displacement;
  }

  /** The width of other addresses. */
  function Wide(flag: CodeFlag, p: Prefixes): nat {
    if flag.Code64? && !p.addressSize then 64 else 32
  }

  /** The general register of three bits and an extension bit. */
  function General(flag: CodeFlag, p: Prefixes, low: nat, extension: bool): Reg {
    Reg(Wide(flag, p), if extension then low + 8 else low)
  }

  /** The forms with a base register. */
  lemma FormsBase(flag: CodeFlag, p: Prefixes, b: Byte, d: seq<Byte>)
    requires !Sixteen(flag, p) && b / 64 < 3 && b % 8 != 4 && !(b / 64 == 0 && b % 8 == 5)
    requires |d| == if b / 64 == 2 then 4 else b / 64
    ensures Decode(flag, p, [b] + d) == Some(Memory(Some(General(flag, p, b % 8, p.rexB)), None, 0, Displacement(d)))
  {
    DisplacementRead(d);
    assert ([b] + d)[1..] == d;
    hide Signed, ReadLittleEndian, Displacement;
  }

  /** A displacement alone, which in 64-bit code is relative to the instruction pointer. */
  lemma FormsAlone(flag: CodeFlag, p: Prefixes, b: Byte, d: seq<Byte>)
    requires !Sixteen(flag, p) && b / 64 == 0 && b % 8 == 5 && |d| == 4
    ensures Decode(flag, p, [b] + d)
         == Some(Memory(if flag.Code64? then Some(Rip) else None, None, 0, Displacement(d)))
  {
    DisplacementRead(d);
    assert ([b] + d)[1..] == d;
    hide Signed, ReadLittleEndian, Displacement;
  }

  /** The forms with a SIB byte: two bits of scale, three of an index that is not esp, three of a base,
      which is none beside a displacement of four bytes if they are those of ebp. */
  lemma FormsSib(flag: CodeFlag, p: Prefixes, b: Byte, s: Byte, d: seq<Byte>)
    requires !Sixteen(flag, p) && b / 64 < 3 && b % 8 == 4
    requires |d| == if b / 64 == 2 || (b / 64 == 0 && s % 8 == 5) then 4 else b / 64
    ensures var base := if b / 64 == 0 && s % 8 == 5 then None else Some(General(flag, p, s % 8, p.rexB));
      Decode(flag, p, [b, s] + d) ==
        if s / 8 % 8 == 4 && !p.rexX then Some(Memory(base, None, 0, Displacement(d)))
        else Some(Memory(base, Some(General(flag, p, s / 8 % 8, p.rexX)), s / 64, Displacement(d)))
  {
    DisplacementRead(d);
    assert ([b, s] + d)[2..] == d;
    hide Signed, ReadLittleEndian, Displacement;
  }
}
