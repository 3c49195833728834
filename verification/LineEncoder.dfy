/** Line and address increments as line program operations. */
module LineEncoder {
  import opened LittleEndians
  import opened Leb128
  import opened LineMachine

  type SignedWord = x: int | -0x8000_0000 <= x < 0x8000_0000

  /** The line delta that stands for the end of a sequence. */
  const INT_MAX: SignedWord := 0x7fff_ffff

  /** The line delta above the lowest one a special opcode has, in 32 unsigned bits. */
  function Biased(lineDelta: SignedWord): Word {
    (lineDelta - LINE_BASE) % 0x1_0000_0000
  }

  predicate NeedsAdvance(lineDelta: SignedWord) {
    Biased(lineDelta) >= LINE_RANGE
  }

  /** The opcode of address delta 0, for what is left of the line delta. */
  function BaseOpcode(lineDelta: SignedWord): (n: nat)
    ensures OPCODE_BASE <= n < OPCODE_BASE + LINE_RANGE
  {
    OPCODE_BASE + if NeedsAdvance(lineDelta) then -LINE_BASE else Biased(lineDelta)
  }

  /** The opcode for an address delta too, in 32 unsigned bits. */
  function Opcode(lineDelta: SignedWord, addrDelta: int): Word {
    (BaseOpcode(lineDelta) + addrDelta * LINE_RANGE) % 0x1_0000_0000
  }

  /** The operations that append one row further on, or that end the sequence. */
  function IncOps(lineDelta: SignedWord, addrDelta: Address): (ops: seq<Op>)
    ensures forall i :: 0 <= i < |ops| ==> WellFormed(ops[i])
  {
    if lineDelta == INT_MAX then
      [if addrDelta == MAX_SPECIAL_ADDR_DELTA then ConstAddPc else AdvancePc(addrDelta), EndSequence]
    else
      (if NeedsAdvance(lineDelta) then [AdvanceLine(lineDelta)] else []) + RowOps(lineDelta, addrDelta)
  }

  function RowOps(lineDelta: SignedWord, addrDelta: Address): (ops: seq<Op>)
    ensures forall i :: 0 <= i < |ops| ==> WellFormed(ops[i])
  {
    if (NeedsAdvance(lineDelta) || lineDelta == 0) && addrDelta == 0 then [Copy]
    else if addrDelta < 256 + MAX_SPECIAL_ADDR_DELTA && Opcode(lineDelta, addrDelta) <= 255 then
      OpcodeRange(lineDelta, addrDelta);
      [Special(Opcode(lineDelta, addrDelta))]
    else if addrDelta < 256 + MAX_SPECIAL_ADDR_DELTA
            && Opcode(lineDelta, addrDelta - MAX_SPECIAL_ADDR_DELTA) <= 255 then
      NoUnderflow(lineDelta, addrDelta);
      OpcodeRange(lineDelta, addrDelta - MAX_SPECIAL_ADDR_DELTA);
      [ConstAddPc, Special(Opcode(lineDelta, addrDelta - MAX_SPECIAL_ADDR_DELTA))]
    else
      [AdvancePc(addrDelta), if NeedsAdvance(lineDelta) then Copy else Special(BaseOpcode(lineDelta))]
  }

  lemma OpcodeRange(lineDelta: SignedWord, addrDelta: int)
    requires 0 <= addrDelta < 256 + MAX_SPECIAL_ADDR_DELTA
    ensures Opcode(lineDelta, addrDelta) == BaseOpcode(lineDelta) + addrDelta * LINE_RANGE
  {
  }

  /** Where the program takes the largest special address delta off, there is that much. */
  lemma NoUnderflow(lineDelta: SignedWord, addrDelta: Address)
    requires addrDelta < 256 + MAX_SPECIAL_ADDR_DELTA && Opcode(lineDelta, addrDelta) > 255
    ensures addrDelta >= MAX_SPECIAL_ADDR_DELTA
  {
    OpcodeRange(lineDelta, addrDelta);
  }

  /** The machine one row further on. */
  function AddRow(m: Machine, lineDelta: int, addrDelta: int): Machine {
    var r := MoveLine(MoveAddress(m.regs, addrDelta), lineDelta);
    Machine(Appended(r), m.rows + [r])
  }

  /** The machine at the end of a sequence. */
  function End(m: Machine, addrDelta: int): Machine {
    Machine(START, m.rows + [MoveAddress(m.regs, addrDelta).(endSequence := true)])
  }

  lemma ExecuteOne(m: Machine, a: Op)
    ensures Execute(m, [a]) == Step(m, a)
  {
    assert [a][..0] == [];
  }

  lemma ExecuteTwo(m: Machine, a: Op, b: Op)
    ensures Execute(m, [a, b]) == Step(Step(m, a), b)
  {
    hide Step;
    assert [a, b][..1] == [a];
    ExecuteOne(m, a);
  }

  /** A special opcode moves by its line and address deltas at once. */
  lemma SpecialRow(m: Machine, biased: nat, addrDelta: nat)
    requires biased < LINE_RANGE && OPCODE_BASE + biased + addrDelta * LINE_RANGE <= 255
    ensures Step(m, Special(OPCODE_BASE + biased + addrDelta * LINE_RANGE)) == AddRow(m, biased + LINE_BASE, addrDelta)
  {
  }

  lemma MoveTwice(r: Registers, a: int, b: int)
    ensures MoveAddress(MoveAddress(r, a), b) == MoveAddress(r, a + b)
    ensures MoveAddress(r, 0) == r && MoveLine(r, 0) == r
  {
  }

  lemma RowOpsRow(m: Machine, lineDelta: SignedWord, addrDelta: Address)
    ensures Execute(m, RowOps(lineDelta, addrDelta))
         == AddRow(m, if NeedsAdvance(lineDelta) then 0 else lineDelta, addrDelta)
  {
    hide Execute, AddRow, BaseOpcode, Opcode;
    var biased := BaseOpcode(lineDelta) - OPCODE_BASE;
    BiasedBack(lineDelta);
    if (NeedsAdvance(lineDelta) || lineDelta == 0) && addrDelta == 0 {
      ExecuteOne(m, Copy);
      CopyRow(m);
    } else if addrDelta < 256 + MAX_SPECIAL_ADDR_DELTA && Opcode(lineDelta, addrDelta) <= 255 {
      OpcodeRange(lineDelta, addrDelta);
      ExecuteOne(m, Special(Opcode(lineDelta, addrDelta)));
      SpecialRow(m, biased, addrDelta);
    } else if addrDelta < 256 + MAX_SPECIAL_ADDR_DELTA
              && Opcode(lineDelta, addrDelta - MAX_SPECIAL_ADDR_DELTA) <= 255 {
      NoUnderflow(lineDelta, addrDelta);
      OpcodeRange(lineDelta, addrDelta - MAX_SPECIAL_ADDR_DELTA);
      ExecuteTwo(m, ConstAddPc, Special(Opcode(lineDelta, addrDelta - MAX_SPECIAL_ADDR_DELTA)));
      SpecialRow(Step(m, ConstAddPc), biased, addrDelta - MAX_SPECIAL_ADDR_DELTA);
      MovedRow(m, ConstAddPc, biased + LINE_BASE, MAX_SPECIAL_ADDR_DELTA, addrDelta - MAX_SPECIAL_ADDR_DELTA);
    } else {
      var last := if NeedsAdvance(lineDelta) then Copy else Special(BaseOpcode(lineDelta));
      ExecuteTwo(m, AdvancePc(addrDelta), last);
      SpecialRow(Step(m, AdvancePc(addrDelta)), biased, 0);
      CopyRow(Step(m, AdvancePc(addrDelta)));
      MovedRow(m, AdvancePc(addrDelta), biased + LINE_BASE, addrDelta, 0);
    }
  }

  lemma BiasedBack(lineDelta: SignedWord)
    ensures BaseOpcode(lineDelta) - OPCODE_BASE + LINE_BASE == if NeedsAdvance(lineDelta) then 0 else lineDelta
  {
  }

  /** A copy is a row that moves nowhere. */
  lemma CopyRow(m: Machine)
    ensures Step(m, Copy) == AddRow(m, 0, 0)
  {
    MoveTwice(m.regs, 0, 0);
  }

  /** Moving the address in two steps. */
  lemma MovedRow(m: Machine, op: Op, lineDelta: int, first: int, second: int)
    requires (op == ConstAddPc && first == MAX_SPECIAL_ADDR_DELTA) || (first >= 0 && op == AdvancePc(first))
    ensures AddRow(Step(m, op), lineDelta, second) == AddRow(m, lineDelta, first + second)
  {
    MoveTwice(m.regs, first, second);
  }

  /** The operations of an increment append exactly one row, that far on. */
  lemma IncOpsRow(m: Machine, lineDelta: SignedWord, addrDelta: Address)
    requires lineDelta != INT_MAX
    ensures Execute(m, IncOps(lineDelta, addrDelta)) == AddRow(m, lineDelta, addrDelta)
  {
    hide Execute, RowOps;
    if NeedsAdvance(lineDelta) {
      ExecuteConcat(m, [AdvanceLine(lineDelta)], RowOps(lineDelta, addrDelta));
      ExecuteOne(m, AdvanceLine(lineDelta));
      RowOpsRow(Step(m, AdvanceLine(lineDelta)), lineDelta, addrDelta);
      MoveTwice(MoveLine(MoveAddress(m.regs, addrDelta), lineDelta), 0, 0);
    } else {
      assert [] + RowOps(lineDelta, addrDelta) == RowOps(lineDelta, addrDelta);
      RowOpsRow(m, lineDelta, addrDelta);
    }
  }

  lemma IncOpsEnd(m: Machine, addrDelta: Address)
    ensures Execute(m, IncOps(INT_MAX, addrDelta)) == End(m, addrDelta)
  {
    hide Execute;
    ExecuteTwo(m, if addrDelta == MAX_SPECIAL_ADDR_DELTA then ConstAddPc else AdvancePc(addrDelta), EndSequence);
  }

  // ---------------------------------------------------------------------
  // Sizes
  // ---------------------------------------------------------------------

  function IncBytes(lineDelta: SignedWord, addrDelta: Address): seq<Byte> {
    Bytes(IncOps(lineDelta, addrDelta))
  }

  lemma BytesOne(a: Op)
    requires WellFormed(a)
    ensures Bytes([a]) == OpBytes(a)
  {
    hide OpBytes;
    assert [a][..0] == [];
  }

  lemma BytesTwo(a: Op, b: Op)
    requires WellFormed(a) && WellFormed(b)
    ensures Bytes([a, b]) == OpBytes(a) + OpBytes(b)
  {
    hide OpBytes, WellFormed;
    assert [a, b][..1] == [a];
    BytesOne(a);
  }

  /** The bytes of an increment, operation by operation. */
  lemma IncBytesParts(lineDelta: SignedWord, addrDelta: Address)
    ensures IncBytes(lineDelta, addrDelta)
         == if lineDelta == INT_MAX then
              (if addrDelta == MAX_SPECIAL_ADDR_DELTA then [8] else [2] + Uleb(addrDelta)) + [0, 1, 1]
            else
              (if NeedsAdvance(lineDelta) then [3] + Sleb(lineDelta) else []) + RowBytes(lineDelta, addrDelta)
  {
    hide Bytes, Uleb, Sleb;
    if lineDelta == INT_MAX {
      BytesTwo(if addrDelta == MAX_SPECIAL_ADDR_DELTA then ConstAddPc else AdvancePc(addrDelta), EndSequence);
      OneByte(1);
    } else if NeedsAdvance(lineDelta) {
      BytesConcat([AdvanceLine(lineDelta)], RowOps(lineDelta, addrDelta));
      BytesOne(AdvanceLine(lineDelta));
      RowBytesParts(lineDelta, addrDelta);
    } else {
      assert [] + RowOps(lineDelta, addrDelta) == RowOps(lineDelta, addrDelta);
      RowBytesParts(lineDelta, addrDelta);
    }
  }

  lemma OneByte(n: nat)
    requires n < 0x80
    ensures Uleb(n) == [n]
  {
  }

  function RowBytes(lineDelta: SignedWord, addrDelta: Address): seq<Byte> {
    if (NeedsAdvance(lineDelta) || lineDelta == 0) && addrDelta == 0 then [1]
    else if addrDelta < 256 + MAX_SPECIAL_ADDR_DELTA && Opcode(lineDelta, addrDelta) <= 255 then
      [Opcode(lineDelta, addrDelta)]
    else if addrDelta < 256 + MAX_SPECIAL_ADDR_DELTA
            && Opcode(lineDelta, addrDelta - MAX_SPECIAL_ADDR_DELTA) <= 255 then
      [8, Opcode(lineDelta, addrDelta - MAX_SPECIAL_ADDR_DELTA)]
    else
      [2] + Uleb(addrDelta) + [if NeedsAdvance(lineDelta) then 1 else BaseOpcode(lineDelta)]
  }

  lemma RowBytesParts(lineDelta: SignedWord, addrDelta: Address)
    ensures Bytes(RowOps(lineDelta, addrDelta)) == RowBytes(lineDelta, addrDelta)
  {
    hide Bytes, Uleb, Sleb;
    var ops := RowOps(lineDelta, addrDelta);
    if |ops| == 1 {
      BytesOne(ops[0]);
      assert ops == [ops[0]];
    } else {
      BytesTwo(ops[0], ops[1]);
      assert ops == [ops[0], ops[1]];
    }
  }

  /** How many bytes an increment takes. */
  method SizeIncLineAddr(lineDelta: SignedWord, addrDelta: Address) returns (len: nat)
    ensures len == |IncBytes(lineDelta, addrDelta)|
  {
    hide Uleb, Sleb, IncBytes;
    IncBytesParts(lineDelta, addrDelta);
    len := 0;
    if lineDelta == INT_MAX {
      if addrDelta == MAX_SPECIAL_ADDR_DELTA {
        len := 1;
      } else {
        len := SizeofLeb128(addrDelta, false);
        len := len + 1;
      }
      return len + 3;
    }
    var tmp: Word := (lineDelta - LINE_BASE) % 0x1_0000_0000;
    if tmp >= LINE_RANGE {
      len := SizeofLeb128(lineDelta, true);
      len := len + 1;
      tmp := 0 - LINE_BASE;
    }
    tmp := tmp + OPCODE_BASE;
    if addrDelta < 256 + MAX_SPECIAL_ADDR_DELTA {
      var opcode: Word := (tmp + addrDelta * LINE_RANGE) % 0x1_0000_0000;
      if opcode <= 255 {
        return len + 1;
      }
      opcode := (tmp + (addrDelta - MAX_SPECIAL_ADDR_DELTA) * LINE_RANGE) % 0x1_0000_0000;
      if opcode <= 255 {
        return len + 2;
      }
    }
    var size := SizeofLeb128(addrDelta, false);
    len := len + 1 + size;
    len := len + 1;
  }

  /** No address delta takes more than a larger one that no opcode covers. */
  lemma LargerIsLonger(lineDelta: SignedWord, addrDelta: Address, max: Address)
    requires addrDelta <= max && max >= 256 + MAX_SPECIAL_ADDR_DELTA
    ensures |IncBytes(lineDelta, addrDelta)| <= |IncBytes(lineDelta, max)|
  {
    hide Uleb, Sleb, IncBytes, Opcode;
    IncBytesParts(lineDelta, addrDelta);
    IncBytesParts(lineDelta, max);
    UlebMonotone(addrDelta, max);
  }

  /** The size for the largest address delta is reserved for all. */
  lemma ReservedSuffices(lineDelta: SignedWord, addrDelta: Address)
    ensures |IncBytes(lineDelta, addrDelta)| <= |IncBytes(lineDelta, 0xffff_ffff_ffff_ffff)|
  {
    hide IncBytes;
    LargerIsLonger(lineDelta, addrDelta, 0xffff_ffff_ffff_ffff);
  }

  /** Writes one byte through the moving pointer, behind what was written since `before`. */
  method Put(buffer: array<Byte>, p: nat, x: Byte, ghost before: seq<Byte>, ghost done: seq<Byte>) returns (next: nat)
    requires p < buffer.Length && buffer[..p] == before + done
    modifies buffer
    ensures next == p + 1 && buffer[..next] == before + (done + [x])
  {
    buffer[p] := x;
    next := p + 1;
    assert buffer[..next] == before + done + [x];
  }

  /** Writes an opcode and its operand through the moving pointer. */
  method PutOperand(buffer: array<Byte>, start: nat, opcode: Byte, value: int, sign: bool, ghost before: seq<Byte>)
    returns (next: nat)
    requires sign || value >= 0
    requires start + 1 + |Leb(value, sign)| <= buffer.Length && buffer[..start] == before
    modifies buffer
    ensures next == start + 1 + |Leb(value, sign)| && buffer[..next] == before + ([opcode] + Leb(value, sign))
  {
    hide Leb;
    buffer[start] := opcode;
    assert buffer[..start + 1] == before + [opcode];
    var size := OutputLeb128(buffer, start + 1, value, sign);
    next := start + 1 + size;
    assert buffer[..next] == before + ([opcode] + Leb(value, sign));
  }

  function EndBytes(addrDelta: Address): seq<Byte> {
    (if addrDelta == MAX_SPECIAL_ADDR_DELTA then [8] else [2] + Uleb(addrDelta)) + [0, 1, 1]
  }

  /** The part of an increment behind the line advance. */
  method EmitRow(lineDelta: SignedWord, addrDelta: Address, needCopy: bool, buffer: array<Byte>, start: nat)
    returns (p: nat)
    requires needCopy == NeedsAdvance(lineDelta) && start + |RowBytes(lineDelta, addrDelta)| <= buffer.Length
    modifies buffer
    ensures p == start + |RowBytes(lineDelta, addrDelta)|
    ensures buffer[..p] == old(buffer[..start]) + RowBytes(lineDelta, addrDelta)
  {
    hide Uleb, Sleb;
    ghost var before := buffer[..start];
    var lineLeft := if needCopy then 0 else lineDelta;
    var tmp: Word := if needCopy then 0 - LINE_BASE else Biased(lineDelta);
    if lineLeft == 0 && addrDelta == 0 {
      p := Put(buffer, start, 1, before, []);
      return;
    }
    tmp := tmp + OPCODE_BASE;
    if addrDelta < 256 + MAX_SPECIAL_ADDR_DELTA {
      var opcode: Word := (tmp + addrDelta * LINE_RANGE) % 0x1_0000_0000;
      if opcode <= 255 {
        p := Put(buffer, start, opcode, before, []);
        return;
      }
      opcode := (tmp + (addrDelta - MAX_SPECIAL_ADDR_DELTA) * LINE_RANGE) % 0x1_0000_0000;
      if opcode <= 255 {
        p := Put(buffer, start, 8, before, []);
        p := Put(buffer, p, opcode, before, [8]);
        return;
      }
    }
    p := PutOperand(buffer, start, 2, addrDelta, false, before);
    p := Put(buffer, p, if needCopy then 1 else tmp, before, [2] + Uleb(addrDelta));
  }

  method EmitEnd(addrDelta: Address, buffer: array<Byte>, start: nat) returns (p: nat)
    requires start + |EndBytes(addrDelta)| <= buffer.Length
    modifies buffer
    ensures p == start + |EndBytes(addrDelta)|
    ensures buffer[..p] == old(buffer[..start]) + EndBytes(addrDelta)
  {
    hide Uleb;
    ghost var before, done := buffer[..start], [2] + Uleb(addrDelta);
    if addrDelta == MAX_SPECIAL_ADDR_DELTA {
      p := Put(buffer, start, 8, before, []);
      done := [8];
    } else {
      p := PutOperand(buffer, start, 2, addrDelta, false, before);
    }
    p := Put(buffer, p, 0, before, done);
    p := Put(buffer, p, 1, before, done + [0]);
    p := Put(buffer, p, 1, before, done + [0] + [1]);
    assert done + [0] + [1] + [1] == done + [0, 1, 1];
  }

  /** Writes an increment at `start`.  The result says whether it took exactly len bytes, which is
      what the program insists on. */
  method EmitIncLineAddr(lineDelta: SignedWord, addrDelta: Address, buffer: array<Byte>, start: nat, len: nat)
    returns (inSync: bool)
    requires addrDelta < 0x8000_0000_0000_0000
    requires start + |IncBytes(lineDelta, addrDelta)| <= buffer.Length
    modifies buffer
    ensures inSync <==> len == |IncBytes(lineDelta, addrDelta)|
    ensures buffer[..start + |IncBytes(lineDelta, addrDelta)|] == old(buffer[..start]) + IncBytes(lineDelta, addrDelta)
  {
    hide Uleb, Sleb, IncBytes, RowBytes;
    IncBytesParts(lineDelta, addrDelta);
    var p := start;
    ghost var before := buffer[..start];
    if lineDelta == INT_MAX {
      p := EmitEnd(addrDelta, buffer, p);
    } else {
      var needCopy := NeedsAdvance(lineDelta);
      if needCopy {
        p := PutOperand(buffer, p, 3, lineDelta, true, before);
      }
      p := EmitRow(lineDelta, addrDelta, needCopy, buffer, p);
    }
    inSync := p == start + len;
  }
}
