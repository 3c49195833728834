/** The line number state machine of section 6.2 of the DWARF Debugging Information Format,
    Version 3, with the parameters that the assembler writes into its headers. */
module LineMachine {
  import opened LittleEndians
  import opened Leb128

  const OPCODE_BASE := 13
  const LINE_BASE := -5
  const LINE_RANGE := 14

  /** What a special opcode with the highest number adds to the address. */
  const MAX_SPECIAL_ADDR_DELTA := (255 - OPCODE_BASE) / LINE_RANGE

  type Word = x: int | 0 <= x < 0x1_0000_0000
  type Address = x: int | 0 <= x < 0x1_0000_0000_0000_0000

  datatype Op =
    | Copy
    | AdvancePc(delta: nat)
    | AdvanceLine(lineDelta: int)
    | SetFile(file: nat)
    | SetColumn(column: nat)
    | NegateStmt
    | SetBasicBlock
    | ConstAddPc
    | FixedAdvancePc(half: nat)
    | SetPrologueEnd
    | SetEpilogueBegin
    | SetIsa(isa: nat)
    | EndSequence
    | SetAddress(address: nat, size: nat)
    | Special(opcode: Byte)

  predicate WellFormed(op: Op) {
    match op
    case FixedAdvancePc(half) => half < 0x1_0000
    case SetAddress(address, size) => size > 0 && address < Power256(size)
    case Special(opcode) => opcode >= OPCODE_BASE
    case _ => true
  }

  // ---------------------------------------------------------------------
  // Operations as bytes
  // ---------------------------------------------------------------------

  function OpBytes(op: Op): (s: seq<Byte>)
    requires WellFormed(op)
    ensures |s| > 0
  {
    match op
    case Copy => [1]
    case AdvancePc(delta) => [2] + Uleb(delta)
    case AdvanceLine(lineDelta) => [3] + Sleb(lineDelta)
    case SetFile(file) => [4] + Uleb(file)
    case SetColumn(column) => [5] + Uleb(column)
    case NegateStmt => [6]
    case SetBasicBlock => [7]
    case ConstAddPc => [8]
    case FixedAdvancePc(half) => [9] + LittleEndian(half, 2)
    case SetPrologueEnd => [10]
    case SetEpilogueBegin => [11]
    case SetIsa(isa) => [12] + Uleb(isa)
    case EndSequence => [0] + Uleb(1) + [1]
    case SetAddress(address, size) => [0] + Uleb(size + 1) + [2] + LittleEndian(address, size)
    case Special(opcode) => [opcode]
  }

  function Bytes(ops: seq<Op>): seq<Byte>
    requires forall i :: 0 <= i < |ops| ==> WellFormed(ops[i])
  {
    if ops == [] then [] else Bytes(ops[..|ops| - 1]) + OpBytes(ops[|ops| - 1])
  }

  /** The operation at the start of a program. */
  function ReadOp(s: seq<Byte>): (r: Parsed<Op>)
    ensures r.Parsed? ==> |r.rest| < |s|
  {
    if s == [] then Truncated
    else if s[0] >= OPCODE_BASE then Parsed(Special(s[0]), s[1..])
    else if s[0] == 0 then ReadExtended(s[1..])
    else if s[0] == 3 then
      var r := ReadSleb(s[1..]);
      if r.Truncated? then Truncated else Parsed(AdvanceLine(r.value), r.rest)
    else if s[0] == 9 then
      if |s| < 3 then Truncated else Parsed(FixedAdvancePc(ReadLittleEndian(s[1..3])), s[3..])
    else if s[0] in {2, 4, 5, 12} then
      var r := ReadUleb(s[1..]);
      if r.Truncated? then Truncated
      else Parsed(if s[0] == 2 then AdvancePc(r.value) else if s[0] == 4 then SetFile(r.value)
                  else if s[0] == 5 then SetColumn(r.value) else SetIsa(r.value), r.rest)
    else
      Parsed(if s[0] == 1 then Copy else if s[0] == 6 then NegateStmt else if s[0] == 7 then SetBasicBlock
             else if s[0] == 8 then ConstAddPc else if s[0] == 10 then SetPrologueEnd else SetEpilogueBegin, s[1..])
  }

  /** Extended operations carry their length; only two of them are known here. */
  function ReadExtended(s: seq<Byte>): (r: Parsed<Op>)
    ensures r.Parsed? ==> |r.rest| < |s|
  {
    var r := ReadUleb(s);
    if r.Truncated? || r.value == 0 || |r.rest| < r.value then Truncated
    else if r.rest[0] == 1 && r.value == 1 then Parsed(EndSequence, r.rest[1..])
    else if r.rest[0] == 2 && r.value > 1 then
      Parsed(SetAddress(ReadLittleEndian(r.rest[1..r.value]), r.value - 1), r.rest[r.value..])
    else Truncated
  }

  /** What is written is what is read. */
  lemma ReadOpBytes(op: Op, rest: seq<Byte>)
    requires WellFormed(op)
    ensures ReadOp(OpBytes(op) + rest) == Parsed(op, rest)
  {
    hide Uleb, Sleb, ReadUleb, ReadSleb, LittleEndian, ReadLittleEndian, ReadExtended;
    match op
    case AdvancePc(delta) => ReadOperand(2, delta, rest);
    case SetFile(file) => ReadOperand(4, file, rest);
    case SetColumn(column) => ReadOperand(5, column, rest);
    case SetIsa(isa) => ReadOperand(12, isa, rest);
    case AdvanceLine(lineDelta) => ReadAdvanceLine(lineDelta, rest);
    case FixedAdvancePc(half) => ReadFixed(half, rest);
    case EndSequence => ReadEndSequence(rest);
    case SetAddress(address, size) => ReadSetAddress(address, size, rest);
    case _ =>
      assert (OpBytes(op) + rest)[1..] == rest;
  }

  lemma ReadOperand(opcode: Byte, n: nat, rest: seq<Byte>)
    requires opcode in {2, 4, 5, 12}
    ensures var s := [opcode] + Uleb(n) + rest;
      s[0] == opcode && ReadUleb(s[1..]) == Parsed(n, rest)
  {
    hide Uleb, ReadUleb;
    UlebRoundTrip(n, rest);
    assert ([opcode] + Uleb(n) + rest)[1..] == Uleb(n) + rest;
  }

  lemma ReadAdvanceLine(lineDelta: int, rest: seq<Byte>)
    ensures ReadOp([3] + Sleb(lineDelta) + rest) == Parsed(AdvanceLine(lineDelta), rest)
  {
    hide Sleb, ReadSleb;
    SlebRoundTrip(lineDelta, rest);
    assert ([3] + Sleb(lineDelta) + rest)[1..] == Sleb(lineDelta) + rest;
  }

  lemma ReadFixed(half: nat, rest: seq<Byte>)
    requires half < 0x1_0000
    ensures ReadOp([9] + LittleEndian(half, 2) + rest) == Parsed(FixedAdvancePc(half), rest)
  {
    assert Power256(2) == 0x1_0000;
    LittleEndianRoundTrip(half, 2);
    hide LittleEndian, ReadLittleEndian;
    var s := [9] + LittleEndian(half, 2) + rest;
    assert s[1..3] == LittleEndian(half, 2) && s[3..] == rest;
  }

  lemma ReadEndSequence(rest: seq<Byte>)
    ensures ReadOp([0] + Uleb(1) + [1] + rest) == Parsed(EndSequence, rest)
  {
    hide Uleb, ReadUleb;
    var s := [0] + Uleb(1) + [1] + rest;
    UlebRoundTrip(1, [1] + rest);
    assert s[1..] == Uleb(1) + ([1] + rest);
    assert ([1] + rest)[1..] == rest;
  }

  lemma ReadSetAddress(address: nat, size: nat, rest: seq<Byte>)
    requires size > 0 && address < Power256(size)
    ensures ReadOp([0] + Uleb(size + 1) + [2] + LittleEndian(address, size) + rest)
         == Parsed(SetAddress(address, size), rest)
  {
    hide Uleb, ReadUleb, LittleEndian, ReadLittleEndian;
    var s := [0] + Uleb(size + 1) + [2] + LittleEndian(address, size) + rest;
    var tail := [2] + LittleEndian(address, size) + rest;
    UlebRoundTrip(size + 1, tail);
    LittleEndianRoundTrip(address, size);
    assert s[1..] == Uleb(size + 1) + tail;
    assert tail[1..size + 1] == LittleEndian(address, size) && tail[size + 1..] == rest;
  }

  // ---------------------------------------------------------------------
  // The machine
  // ---------------------------------------------------------------------

  /** The registers, which are also what a row of the line table consists of. */
  datatype Registers = Registers(address: Address, file: nat, line: Word, column: nat, isa: nat, isStmt: bool,
                                 basicBlock: bool, endSequence: bool, prologueEnd: bool, epilogueBegin: bool)

  const START := Registers(0, 1, 1, 0, 0, true, false, false, false, false)

  function MoveAddress(r: Registers, delta: int): Registers {
    r.(address := (r.address + delta) % 0x1_0000_0000_0000_0000)
  }

  function MoveLine(r: Registers, delta: int): Registers {
    r.(line := (r.line + delta) % 0x1_0000_0000)
  }

  /** The registers after a row has been appended. */
  function Appended(r: Registers): Registers {
    r.(basicBlock := false, prologueEnd := false, epilogueBegin := false)
  }

  /** The machine and the rows of the table so far. */
  datatype Machine = Machine(regs: Registers, rows: seq<Registers>)

  function Step(m: Machine, op: Op): Machine {
    var r := m.regs;
    match op
    case Copy => Machine(Appended(r), m.rows + [r])
    case AdvancePc(delta) => m.(regs := MoveAddress(r, delta))
    case AdvanceLine(lineDelta) => m.(regs := MoveLine(r, lineDelta))
    case SetFile(file) => m.(regs := r.(file := file))
    case SetColumn(column) => m.(regs := r.(column := column))
    case NegateStmt => m.(regs := r.(isStmt := !r.isStmt))
    case SetBasicBlock => m.(regs := r.(basicBlock := true))
    case ConstAddPc => m.(regs := MoveAddress(r, MAX_SPECIAL_ADDR_DELTA))
    case FixedAdvancePc(half) => m.(regs := MoveAddress(r, half))
    case SetPrologueEnd => m.(regs := r.(prologueEnd := true))
    case SetEpilogueBegin => m.(regs := r.(epilogueBegin := true))
    case SetIsa(isa) => m.(regs := r.(isa := isa))
    case EndSequence => Machine(START, m.rows + [r.(endSequence := true)])
    case SetAddress(address, _) => m.(regs := MoveAddress(r.(address := 0), address))
    case Special(opcode) =>
      var adjusted := opcode - OPCODE_BASE;
      var r' := MoveAddress(MoveLine(r, LINE_BASE + adjusted % LINE_RANGE), adjusted / LINE_RANGE);
      Machine(Appended(r'), m.rows + [r'])
  }

  function Execute(m: Machine, ops: seq<Op>): Machine {
    if ops == [] then m else Step(Execute(m, ops[..|ops| - 1]), ops[|ops| - 1])
  }

  lemma {:induction false} ExecuteConcat(m: Machine, a: seq<Op>, b: seq<Op>)
    ensures Execute(m, a + b) == Execute(Execute(m, a), b)
  {
    hide Step;
    if b == [] {
      assert a + b == a;
    } else {
      var n := |b| - 1;
      assert (a + b)[..|a + b| - 1] == a + b[..n];
      ExecuteConcat(m, a, b[..n]);
    }
  }

  /** The rows of a program, or nothing if it cannot be read to its end. */
  datatype Decoded = Rows(machine: Machine) | Malformed

  /** What the consumer of a line program does. */
  function Decode(m: Machine, s: seq<Byte>): Decoded
    decreases |s|
  {
    if s == [] then Rows(m)
    else
      var r := ReadOp(s);
      if r.Truncated? then Malformed else Decode(Step(m, r.value), r.rest)
  }

  lemma {:induction false} BytesConcat(a: seq<Op>, b: seq<Op>)
    requires forall i :: 0 <= i < |a| ==> WellFormed(a[i])
    requires forall i :: 0 <= i < |b| ==> WellFormed(b[i])
    ensures Bytes(a + b) == Bytes(a) + Bytes(b)
  {
    hide OpBytes, WellFormed;
    if b == [] {
      assert a + b == a;
    } else {
      var n := |b| - 1;
      assert (a + b)[..|a + b| - 1] == a + b[..n];
      BytesConcat(a, b[..n]);
    }
  }

  /** Decoding the bytes of some operations executes them. */
  lemma {:induction false} DecodeBytes(m: Machine, ops: seq<Op>, rest: seq<Byte>)
    requires forall i :: 0 <= i < |ops| ==> WellFormed(ops[i])
    ensures Decode(m, Bytes(ops) + rest) == Decode(Execute(m, ops), rest)
  {
    hide OpBytes, WellFormed, Step, ReadOp;
    if ops == [] {
      assert Bytes(ops) + rest == rest;
    } else {
      var n := |ops| - 1;
      DecodeBytes(m, ops[..n], OpBytes(ops[n]) + rest);
      assert Bytes(ops) + rest == Bytes(ops[..n]) + (OpBytes(ops[n]) + rest);
      ReadOpBytes(ops[n], rest);
      assert OpBytes(ops[n]) + rest != [];
    }
  }

  lemma DecodeAll(m: Machine, ops: seq<Op>)
    requires forall i :: 0 <= i < |ops| ==> WellFormed(ops[i])
    ensures Decode(m, Bytes(ops)) == Rows(Execute(m, ops))
  {
    DecodeBytes(m, ops, []);
    assert Bytes(ops) + [] == Bytes(ops);
    assert Decode(Execute(m, ops), []) == Rows(Execute(m, ops));
  }
}
