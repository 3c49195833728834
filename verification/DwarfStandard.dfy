/** The numbers that the DWARF Debugging Information Format, Version 3, gives to operations and their
    effects: sections 6.2.5 and 7.6. */
module DwarfStandard {
  import opened LittleEndians
  import opened Leb128
  import opened LineMachine

  // ---------------------------------------------------------------------
  // Numbers as bytes, section 7.6
  // ---------------------------------------------------------------------

  /** Seven bits of each byte, the low ones first. */
  function Sevens(s: seq<Byte>): nat {
    if s == [] then 0 else s[0] % 128 + 128 * Sevens(s[1..])
  }

  function Power128(n: nat): nat {
    if n == 0 then 1 else 128 * Power128(n - 1)
  }

  /** All bytes but the last have their highest bit set. */
  predicate Chained(s: seq<Byte>) {
    s != [] && s[|s| - 1] < 128 && forall i :: 0 <= i < |s| - 1 ==> s[i] >= 128
  }

  lemma {:induction false} ChainedMore(b: Byte, s: seq<Byte>)
    requires Chained(s) && b >= 128
    ensures Chained([b] + s) && Sevens([b] + s) == b % 128 + 128 * Sevens(s)
  {
    assert ([b] + s)[1..] == s;
  }

  lemma {:induction false} UlebPlaces(n: nat)
    ensures Chained(Uleb(n)) && Sevens(Uleb(n)) == n
  {
    if n >= 128 {
      UlebPlaces(n / 128);
      ChainedMore(n % 128 + 128, Uleb(n / 128));
    }
  }

  /** What a signed number is worth: it is negative if the second highest bit of its last byte is set. */
  function Signed(s: seq<Byte>): int
    requires s != []
  {
    Sevens(s) - if s[|s| - 1] >= 64 then Power128(|s|) else 0
  }

  lemma SignedMore(b: Byte, s: seq<Byte>)
    requires Chained(s) && b >= 128
    ensures Signed([b] + s) == b % 128 + 128 * Signed(s)
  {
    ChainedMore(b, s);
    assert ([b] + s)[|s|] == s[|s| - 1];
    assert Power128(|s| + 1) == 128 * Power128(|s|);
    hide Sevens, Power128;
  }

  lemma SignedOne(n: int)
    requires SlebLast(n)
    ensures Chained([n % 128]) && Signed([n % 128]) == n
  {
    var s := [n % 128];
    assert s[1..] == [];
    assert Sevens(s) == n % 128;
    assert Power128(|s|) == 128;
    assert s[|s| - 1] >= 64 <==> n < 0;
  }

  lemma {:induction false} SlebPlaces(n: int)
    ensures Chained(Sleb(n)) && Signed(Sleb(n)) == n
    decreases if n < 0 then -n else n
  {
    hide Sleb, Signed, Chained;
    LebParts(n, true);
    assert Leb(n, true) == Sleb(n) && Leb(n / 128, true) == Sleb(n / 128);
    if SlebLast(n) {
      SignedOne(n);
    } else {
      SlebPlaces(n / 128);
      ChainedMore(n % 128 + 128, Sleb(n / 128));
      SignedMore(n % 128 + 128, Sleb(n / 128));
    }
  }

  /** The examples of the standard. */
  lemma StandardNumbers()
    ensures Uleb(2) == [2] && Uleb(127) == [127] && Uleb(128) == [0x80, 1] && Uleb(129) == [0x81, 1]
    ensures Uleb(130) == [0x82, 1] && Uleb(12857) == [0xb9, 100]
    ensures Sleb(2) == [2] && Sleb(-2) == [0x7e] && Sleb(127) == [0xff, 0] && Sleb(-127) == [0x81, 0x7f]
    ensures Sleb(128) == [0x80, 1] && Sleb(-128) == [0x80, 0x7f] && Sleb(129) == [0x81, 1] && Sleb(-129) == [0xff, 0x7e]
  {
  }

  /** An address byte by byte. */
  lemma {:induction false} LittleEndianAt(a: nat, size: nat, i: nat)
    requires i < size
    ensures LittleEndian(a, size)[i] == a / Power256(i) % 256
    decreases size
  {
    if i > 0 {
      LittleEndianAt(a / 256, size - 1, i - 1);
      DivideTwice(a, Power256(i - 1));
    }
  }

  lemma DivideTwice(a: nat, p: nat)
    requires p > 0
    ensures a / (256 * p) == a / 256 / p
  {
    var q, r := a / 256 / p, a / 256 % p;
    assert a == 256 * (a / 256) + a % 256 && a / 256 == p * q + r;
    assert (256 * p) * q == 256 * (p * q);
    Unique(a / (256 * p), a % (256 * p), q, 256 * r + a % 256, 256 * p);
  }

  lemma Unique(q: int, r: int, k: int, s: int, d: int)
    requires d * q + r == d * k + s && 0 <= r < d && 0 <= s < d
    ensures q == k
  {
    assert d * q - d * k == d * (q - k);
    Multiples(d, q - k);
  }

  lemma Multiples(d: int, j: int)
    requires d > 0
    ensures j >= 1 ==> d * j >= d
    ensures j <= -1 ==> d * j <= -d
  {
  }

  // ---------------------------------------------------------------------
  // Operations, sections 6.2.5.1 to 6.2.5.3
  // ---------------------------------------------------------------------

  /** The numbers of the operations without operands. */
  lemma StandardOpcodes(rest: seq<Byte>)
    ensures ReadOp([1] + rest) == Parsed(Copy, rest)
    ensures ReadOp([6] + rest) == Parsed(NegateStmt, rest)
    ensures ReadOp([7] + rest) == Parsed(SetBasicBlock, rest)
    ensures ReadOp([8] + rest) == Parsed(ConstAddPc, rest)
    ensures ReadOp([10] + rest) == Parsed(SetPrologueEnd, rest)
    ensures ReadOp([11] + rest) == Parsed(SetEpilogueBegin, rest)
  {
    hide *;
    ReadOpBytes(Copy, rest) by { OneByte(); }
    ReadOpBytes(NegateStmt, rest) by { OneByte(); }
    ReadOpBytes(SetBasicBlock, rest) by { OneByte(); }
    ReadOpBytes(ConstAddPc, rest) by { OneByte(); }
    ReadOpBytes(SetPrologueEnd, rest) by { OneByte(); }
    ReadOpBytes(SetEpilogueBegin, rest) by { OneByte(); }
    OneByte();
  }

  lemma OneByte()
    ensures WellFormed(Copy) && OpBytes(Copy) == [1]
    ensures WellFormed(NegateStmt) && OpBytes(NegateStmt) == [6]
    ensures WellFormed(SetBasicBlock) && OpBytes(SetBasicBlock) == [7]
    ensures WellFormed(ConstAddPc) && OpBytes(ConstAddPc) == [8]
    ensures WellFormed(SetPrologueEnd) && OpBytes(SetPrologueEnd) == [10]
    ensures WellFormed(SetEpilogueBegin) && OpBytes(SetEpilogueBegin) == [11]
  {
  }

  /** And of those with operands. */
  lemma StandardOperands(n: nat, d: int, rest: seq<Byte>)
    ensures ReadOp([2] + Uleb(n) + rest) == Parsed(AdvancePc(n), rest)
    ensures ReadOp([3] + Sleb(d) + rest) == Parsed(AdvanceLine(d), rest)
    ensures ReadOp([4] + Uleb(n) + rest) == Parsed(SetFile(n), rest)
    ensures ReadOp([5] + Uleb(n) + rest) == Parsed(SetColumn(n), rest)
    ensures ReadOp([12] + Uleb(n) + rest) == Parsed(SetIsa(n), rest)
    ensures n < 0x1_0000 ==> ReadOp([9] + [n % 256, n / 256] + rest) == Parsed(FixedAdvancePc(n), rest)
  {
    OperandBytes(n, d);
    hide OpBytes, ReadOp, Uleb, Sleb;
    ReadOpBytes(AdvancePc(n), rest);
    ReadOpBytes(AdvanceLine(d), rest);
    ReadOpBytes(SetFile(n), rest);
    ReadOpBytes(SetColumn(n), rest);
    ReadOpBytes(SetIsa(n), rest);
    if n < 0x1_0000 {
      ReadOpBytes(FixedAdvancePc(n), rest);
    }
  }

  lemma OperandBytes(n: nat, d: int)
    ensures OpBytes(AdvancePc(n)) == [2] + Uleb(n) && OpBytes(AdvanceLine(d)) == [3] + Sleb(d)
    ensures OpBytes(SetFile(n)) == [4] + Uleb(n) && OpBytes(SetColumn(n)) == [5] + Uleb(n)
    ensures OpBytes(SetIsa(n)) == [12] + Uleb(n)
    ensures n < 0x1_0000 ==> OpBytes(FixedAdvancePc(n)) == [9] + [n % 256, n / 256]
  {
    hide Uleb, Sleb;
    assert LittleEndian(n / 256, 1) == [n / 256 % 256];
  }

  /** The extended operations, which carry their length. */
  lemma ExtendedOpcodes(a: seq<Byte>, rest: seq<Byte>)
    requires |a| == 8
    ensures ReadOp([0, 1, 1] + rest) == Parsed(EndSequence, rest)
    ensures ReadOp([0, 9, 2] + a + rest) == Parsed(SetAddress(ReadLittleEndian(a), 8), rest)
  {
    var s, t := [0, 1, 1] + rest, [0, 9, 2] + a + rest;
    assert s[1..][1..] == [1] + rest && ([1] + rest)[1..] == rest;
    assert t[1..][1..] == [2] + a + rest;
    assert ([2] + a + rest)[1..9] == a && ([2] + a + rest)[9..] == rest;
    hide ReadLittleEndian;
  }

  /** What the operations do to the registers. */
  lemma StandardEffects(m: Machine, n: nat, d: int)
    ensures Step(m, AdvancePc(n)) == m.(regs := m.regs.(address := (m.regs.address + n) % 0x1_0000_0000_0000_0000))
    ensures Step(m, AdvanceLine(d)) == m.(regs := m.regs.(line := (m.regs.line + d) % 0x1_0000_0000))
    ensures Step(m, ConstAddPc) == Step(m, AdvancePc(17))
    ensures Step(m, Copy).rows == m.rows + [m.regs]
    ensures Step(m, EndSequence).rows == m.rows + [m.regs.(endSequence := true)]
    ensures Step(m, EndSequence).regs == Registers(0, 1, 1, 0, 0, true, false, false, false, false)
  {
  }

  /** A special opcode moves address and line by the two parts of its number, and appends a row. */
  lemma SpecialOpcodes(m: Machine, opcode: Byte, rest: seq<Byte>)
    requires opcode >= 13
    ensures ReadOp([opcode] + rest) == Parsed(Special(opcode), rest)
    ensures var r := m.regs.(address := (m.regs.address + (opcode - 13) / 14) % 0x1_0000_0000_0000_0000,
                             line := (m.regs.line - 5 + (opcode - 13) % 14) % 0x1_0000_0000);
      Step(m, Special(opcode))
      == Machine(r.(basicBlock := false, prologueEnd := false, epilogueBegin := false), m.rows + [r])
  {
    assert ([opcode] + rest)[1..] == rest;
  }
}
