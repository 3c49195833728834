/** The line program of one section: from a list of source locations to bytes that the DWARF line
    machine reads back as those locations. */
module LineProgram {
  import opened LittleEndians
  import opened Leb128
  import opened LineMachine
  import opened LineEncoder

  datatype Flags = Flags(isStmt: bool, basicBlock: bool, prologueEnd: bool, epilogueBegin: bool)

  datatype Loc = Loc(filenum: Word, line: Word, column: Word, isa: Word, flags: Flags)

  /** A place in the code: where it is in its fragment, and its address once all is laid out. */
  datatype Label = Label(frag: nat, offset: Address, address: Address)

  datatype Entry = Entry(place: Label, loc: Loc)

  /** A piece of the section: bytes, or an increment whose address delta is not known yet, with the
      room that is reserved for it and the size it has at the moment. */
  datatype Frag = Fill(bytes: seq<Byte>)
    | Variant(lineDelta: SignedWord, to: Label, from: Label, maxChars: nat, subtype: nat)

  const FIRST_LOC := Loc(1, 1, 0, 0, Flags(true, false, false, false))

  /** A difference of lines in 32 signed bits. */
  function LineDelta(to: Word, from: Word): SignedWord {
    var d := (to - from) % 0x1_0000_0000;
    if d >= 0x8000_0000 then d - 0x1_0000_0000 else d
  }

  /** A difference in 64 unsigned bits. */
  function Difference(to: Address, from: Address): Address {
    (to - from) % 0x1_0000_0000_0000_0000
  }

  function Delta(to: Label, from: Label): Address {
    Difference(to.address, from.address)
  }

  /** Going from one label to the next does not go back, and labels of one fragment stay as far
      apart as they are in it. */
  predicate Follows(to: Label, from: Label) {
    && Delta(to, from) < 0x8000_0000_0000_0000
    && (to.frag == from.frag ==> Difference(to.offset, from.offset) == Delta(to, from))
  }

  predicate InOrder(entries: seq<Entry>) {
    forall i :: 1 <= i < |entries| ==> Follows(entries[i].place, entries[i - 1].place)
  }

  function LastLoc(entries: seq<Entry>): Loc {
    if entries == [] then FIRST_LOC else entries[|entries| - 1].loc
  }

  // ---------------------------------------------------------------------
  // The program as operations
  // ---------------------------------------------------------------------

  function If(c: bool, op: Op): seq<Op> {
    if c then [op] else []
  }

  /** The registers that have to change between two locations. */
  function HeaderOps(from: Loc, to: Loc): (ops: seq<Op>)
    ensures forall i :: 0 <= i < |ops| ==> WellFormed(ops[i])
  {
    NumberOps(from, to) + FlagOps(from.flags.isStmt, to.flags)
  }

  function NumberOps(from: Loc, to: Loc): (ops: seq<Op>)
    ensures forall i :: 0 <= i < |ops| ==> WellFormed(ops[i])
  {
    If(from.filenum != to.filenum, SetFile(to.filenum)) + If(from.column != to.column, SetColumn(to.column))
    + If(from.isa != to.isa, SetIsa(to.isa))
  }

  function FlagOps(isStmt: bool, to: Flags): (ops: seq<Op>)
    ensures forall i :: 0 <= i < |ops| ==> WellFormed(ops[i])
  {
    If(isStmt != to.isStmt, NegateStmt) + If(to.basicBlock, SetBasicBlock)
    + If(to.prologueEnd, SetPrologueEnd) + If(to.epilogueBegin, SetEpilogueBegin)
  }

  predicate Fits(entry: Entry, size: nat) {
    size > 0 && entry.place.address < Power256(size)
  }

  /** What is written for one more entry. */
  function EntryOps(before: seq<Entry>, entry: Entry, size: nat): (ops: seq<Op>)
    requires Fits(entry, size)
    ensures forall i :: 0 <= i < |ops| ==> WellFormed(ops[i])
  {
    var lineDelta := LineDelta(entry.loc.line, LastLoc(before).line);
    HeaderOps(LastLoc(before), entry.loc)
    + if before == [] then [SetAddress(entry.place.address, size)] + IncOps(lineDelta, 0)
      else IncOps(lineDelta, Delta(entry.place, before[|before| - 1].place))
  }

  function EntriesOps(entries: seq<Entry>, size: nat): (ops: seq<Op>)
    requires forall i :: 0 <= i < |entries| ==> Fits(entries[i], size)
    ensures forall i :: 0 <= i < |ops| ==> WellFormed(ops[i])
  {
    if entries == [] then [] else
      var n := |entries| - 1;
      EntriesOps(entries[..n], size) + EntryOps(entries[..n], entries[n], size)
  }

  function ProgramOps(entries: seq<Entry>, end: Label, size: nat): (ops: seq<Op>)
    requires entries != [] && forall i :: 0 <= i < |entries| ==> Fits(entries[i], size)
    ensures forall i :: 0 <= i < |ops| ==> WellFormed(ops[i])
  {
    EntriesOps(entries, size) + IncOps(INT_MAX, Delta(end, entries[|entries| - 1].place))
  }

  // ---------------------------------------------------------------------
  // What the machine makes of it
  // ---------------------------------------------------------------------

  function RowOf(e: Entry): Registers {
    Registers(e.place.address, e.loc.filenum, e.loc.line, e.loc.column, e.loc.isa, e.loc.flags.isStmt,
              e.loc.flags.basicBlock, false, e.loc.flags.prologueEnd, e.loc.flags.epilogueBegin)
  }

  /** One row for each entry. */
  function RowsOf(entries: seq<Entry>): (rows: seq<Registers>)
    ensures |rows| == |entries| && forall i :: 0 <= i < |rows| ==> rows[i] == RowOf(entries[i])
  {
    seq(|entries|, i requires 0 <= i < |entries| => RowOf(entries[i]))
  }

  /** And one row for the end. */
  function TableOf(entries: seq<Entry>, end: Label): seq<Registers>
    requires entries != []
  {
    RowsOf(entries) + [Appended(RowOf(entries[|entries| - 1])).(address := end.address, endSequence := true)]
  }

  /** What the table shows of each entry, and of the end. */
  lemma TableShows(entries: seq<Entry>, end: Label, i: nat)
    requires i < |entries|
    ensures var t, loc := TableOf(entries, end), entries[i].loc;
      && |t| == |entries| + 1
      && t[i].address == entries[i].place.address && t[i].file == loc.filenum && t[i].line == loc.line
      && t[i].column == loc.column && t[i].isa == loc.isa && t[i].isStmt == loc.flags.isStmt
      && t[i].basicBlock == loc.flags.basicBlock && t[i].prologueEnd == loc.flags.prologueEnd
      && t[i].epilogueBegin == loc.flags.epilogueBegin && !t[i].endSequence
    ensures var t, loc := TableOf(entries, end)[|entries|], entries[|entries| - 1].loc;
      && t.endSequence && t.address == end.address && t.line == loc.line && t.file == loc.filenum
      && t.column == loc.column && t.isa == loc.isa && t.isStmt == loc.flags.isStmt
      && !t.basicBlock && !t.prologueEnd && !t.epilogueBegin
  {
    assert TableOf(entries, end)[i] == RowOf(entries[i]);
  }

  /** A line delta that the encoder takes for the end of the sequence. */
  predicate Confused(entries: seq<Entry>, i: nat)
    requires i < |entries|
  {
    LineDelta(entries[i].loc.line, if i == 0 then FIRST_LOC.line else entries[i - 1].loc.line) == INT_MAX
  }

  predicate SomeConfused(entries: seq<Entry>) {
    exists i :: 0 <= i < |entries| && Confused(entries, i)
  }

  lemma ExecuteIf(m: Machine, ops: seq<Op>, c: bool, op: Op)
    ensures Execute(m, ops + If(c, op)) == if c then Step(Execute(m, ops), op) else Execute(m, ops)
  {
    hide Step;
    ExecuteConcat(m, ops, If(c, op));
    if c {
      ExecuteOne(Execute(m, ops), op);
    }
  }

  /** The registers once the header of an entry has been read. */
  function Headed(r: Registers, to: Loc): Registers {
    r.(file := to.filenum, column := to.column, isa := to.isa, isStmt := to.flags.isStmt,
       basicBlock := to.flags.basicBlock, prologueEnd := to.flags.prologueEnd, epilogueBegin := to.flags.epilogueBegin)
  }

  predicate Holds(r: Registers, from: Loc) {
    && r.file == from.filenum && r.line == from.line && r.column == from.column && r.isa == from.isa
    && r.isStmt == from.flags.isStmt
    && !r.basicBlock && !r.prologueEnd && !r.epilogueBegin && !r.endSequence
  }

  lemma ExecuteNumbers(m: Machine, from: Loc, to: Loc)
    requires m.regs.file == from.filenum && m.regs.column == from.column && m.regs.isa == from.isa
    ensures Execute(m, NumberOps(from, to))
         == m.(regs := m.regs.(file := to.filenum, column := to.column, isa := to.isa))
  {
    hide Execute;
    var a, b := If(from.filenum != to.filenum, SetFile(to.filenum)), If(from.column != to.column, SetColumn(to.column));
    ExecuteNothing(m);
    ExecuteIf(m, [], from.filenum != to.filenum, SetFile(to.filenum));
    assert [] + a == a;
    ExecuteIf(m, a, from.column != to.column, SetColumn(to.column));
    ExecuteIf(m, a + b, from.isa != to.isa, SetIsa(to.isa));
  }

  lemma ExecuteFlags(m: Machine, to: Flags)
    requires !m.regs.basicBlock && !m.regs.prologueEnd && !m.regs.epilogueBegin
    ensures Execute(m, FlagOps(m.regs.isStmt, to))
         == m.(regs := m.regs.(isStmt := to.isStmt, basicBlock := to.basicBlock, prologueEnd := to.prologueEnd,
                               epilogueBegin := to.epilogueBegin))
  {
    hide Execute;
    var a, b, c := If(m.regs.isStmt != to.isStmt, NegateStmt), If(to.basicBlock, SetBasicBlock),
                   If(to.prologueEnd, SetPrologueEnd);
    ExecuteNothing(m);
    ExecuteIf(m, [], m.regs.isStmt != to.isStmt, NegateStmt);
    assert [] + a == a;
    ExecuteIf(m, a, to.basicBlock, SetBasicBlock);
    ExecuteIf(m, a + b, to.prologueEnd, SetPrologueEnd);
    ExecuteIf(m, a + b + c, to.epilogueBegin, SetEpilogueBegin);
  }

  lemma ExecuteHeader(m: Machine, from: Loc, to: Loc)
    requires Holds(m.regs, from)
    ensures Execute(m, HeaderOps(from, to)) == m.(regs := Headed(m.regs, to))
  {
    hide Execute, NumberOps, FlagOps;
    ExecuteNumbers(m, from, to);
    ExecuteFlags(Execute(m, NumberOps(from, to)), to.flags);
    ExecuteConcat(m, NumberOps(from, to), FlagOps(from.flags.isStmt, to.flags));
  }

  lemma MovedLine(r: Registers, to: Word)
    ensures MoveLine(r, LineDelta(to, r.line)) == r.(line := to)
  {
  }

  lemma MovedAddress(r: Registers, to: Address)
    ensures MoveAddress(r, Difference(to, r.address)) == r.(address := to)
    ensures MoveAddress(r.(address := 0), to) == r.(address := to)
  {
  }

  /** The registers between two entries. */
  predicate Between(m: Machine, before: seq<Entry>) {
    && Holds(m.regs, LastLoc(before)) && m.rows == RowsOf(before)
    && (before != [] ==> m.regs.address == before[|before| - 1].place.address)
  }

  /** The machine just before the increment of an entry, and the increment. */
  lemma ExecuteEntry(m: Machine, before: seq<Entry>, entry: Entry, size: nat)
    requires Fits(entry, size) && Between(m, before)
    ensures var lineDelta := LineDelta(entry.loc.line, LastLoc(before).line);
      var m' := Execute(m, EntryOps(before, entry, size));
      if lineDelta == INT_MAX then
        |m'.rows| == |before| + 1 && m'.rows[|before|].endSequence && RowsOf(before) <= m'.rows
      else
        m' == Machine(Appended(RowOf(entry)), RowsOf(before) + [RowOf(entry)])
  {
    hide Execute, Step, IncOps, HeaderOps, MoveLine, MoveAddress, LineDelta, Difference;
    var lineDelta := LineDelta(entry.loc.line, LastLoc(before).line);
    var headed := m.(regs := Headed(m.regs, entry.loc));
    ExecuteHeader(m, LastLoc(before), entry.loc);
    var tail, m1, d;
    if before == [] {
      d := 0;
      tail := [SetAddress(entry.place.address, size)] + IncOps(lineDelta, 0);
      ExecuteConcat(headed, [SetAddress(entry.place.address, size)], IncOps(lineDelta, 0));
      ExecuteOne(headed, SetAddress(entry.place.address, size));
      AddressSet(headed, entry.place.address, size);
      m1 := headed.(regs := headed.regs.(address := entry.place.address));
      MoveTwice(m1.regs, 0, 0);
    } else {
      d := Delta(entry.place, before[|before| - 1].place);
      tail := IncOps(lineDelta, d);
      m1 := headed;
      MovedAddress(m1.regs, entry.place.address);
    }
    ExecuteConcat(m, HeaderOps(LastLoc(before), entry.loc), tail);
    assert Execute(m, EntryOps(before, entry, size)) == Execute(m1, IncOps(lineDelta, d));
    if lineDelta == INT_MAX {
      IncOpsEnd(m1, d);
    } else {
      IncOpsRow(m1, lineDelta, d);
      MovedLine(MoveAddress(m1.regs, d), entry.loc.line);
    }
  }

  lemma AddressSet(m: Machine, address: Address, size: nat)
    ensures Step(m, SetAddress(address, size)) == m.(regs := m.regs.(address := address))
  {
  }

  lemma {:induction false} ExecuteEntries(entries: seq<Entry>, size: nat)
    requires forall i :: 0 <= i < |entries| ==> Fits(entries[i], size)
    requires !SomeConfused(entries)
    ensures Between(Execute(Machine(START, []), EntriesOps(entries, size)), entries)
  {
    hide Execute, EntryOps, Fits, LineDelta;
    if entries == [] {
      ExecuteNothing(Machine(START, []));
    } else {
      var n := |entries| - 1;
      NotConfused(entries);
      ExecuteEntries(entries[..n], size);
      ExecuteConcat(Machine(START, []), EntriesOps(entries[..n], size), EntryOps(entries[..n], entries[n], size));
      ExecuteEntry(Execute(Machine(START, []), EntriesOps(entries[..n], size)), entries[..n], entries[n], size);
      assert RowsOf(entries) == RowsOf(entries[..n]) + [RowOf(entries[n])];
    }
  }

  lemma ExecuteNothing(m: Machine)
    ensures Execute(m, []) == m
  {
  }

  lemma NotConfused(entries: seq<Entry>)
    requires entries != []
    ensures var n := |entries| - 1;
      && (SomeConfused(entries) <==> SomeConfused(entries[..n]) || Confused(entries, n))
      && (Confused(entries, n) <==> LineDelta(entries[n].loc.line, LastLoc(entries[..n]).line) == INT_MAX)
  {
    hide LineDelta;
    var n := |entries| - 1;
    assert forall i :: 0 <= i < n ==> (Confused(entries, i) <==> Confused(entries[..n], i));
    if SomeConfused(entries[..n]) {
      var i :| 0 <= i < n && Confused(entries[..n], i);
      assert Confused(entries, i);
    }
  }

  lemma {:induction false} RowsGrow(m: Machine, ops: seq<Op>)
    ensures m.rows <= Execute(m, ops).rows
  {
    if ops != [] {
      RowsGrow(m, ops[..|ops| - 1]);
    }
  }

  /** The first delta that is taken for an end gives a row that ends the sequence too soon. */
  lemma {:induction false} ConfusedShows(entries: seq<Entry>, size: nat) returns (i: nat)
    requires forall i :: 0 <= i < |entries| ==> Fits(entries[i], size)
    requires SomeConfused(entries)
    ensures i < |entries| && var rows := Execute(Machine(START, []), EntriesOps(entries, size)).rows;
      i < |rows| && rows[i].endSequence
  {
    hide Execute, EntryOps, Fits, LineDelta;
    var n, start := |entries| - 1, Machine(START, []);
    NotConfused(entries);
    var m := Execute(start, EntriesOps(entries[..n], size));
    ExecuteConcat(start, EntriesOps(entries[..n], size), EntryOps(entries[..n], entries[n], size));
    if SomeConfused(entries[..n]) {
      i := ConfusedShows(entries[..n], size);
      RowsGrow(m, EntryOps(entries[..n], entries[n], size));
    } else {
      ExecuteEntries(entries[..n], size);
      ExecuteEntry(m, entries[..n], entries[n], size);
      i := n;
    }
  }

  /** Decoding gives back the entries and the end exactly when no line delta is taken for the end. */
  lemma DecodesToTable(entries: seq<Entry>, end: Label, size: nat)
    requires entries != [] && forall i :: 0 <= i < |entries| ==> Fits(entries[i], size)
    ensures Decode(Machine(START, []), Bytes(ProgramOps(entries, end, size)))
         == Rows(Machine(START, TableOf(entries, end)))
         <==> !SomeConfused(entries)
  {
    hide Execute, IncOps, EntriesOps, Fits, Decode, Bytes, Difference, SomeConfused;
    var start, last := Machine(START, []), entries[|entries| - 1];
    var m, tail := Execute(start, EntriesOps(entries, size)), IncOps(INT_MAX, Delta(end, last.place));
    DecodeAll(start, ProgramOps(entries, end, size));
    ExecuteConcat(start, EntriesOps(entries, size), tail);
    if SomeConfused(entries) {
      var i := ConfusedShows(entries, size);
      RowsGrow(m, tail);
      assert !TableOf(entries, end)[i].endSequence;
    } else {
      ExecuteEntries(entries, size);
      IncOpsEnd(m, Delta(end, last.place));
      MovedAddress(m.regs, end.address);
    }
  }

  /** Line numbers up to 2^31 - 1 are never confused, unless one goes from 0 to the largest. */
  lemma OrdinaryLines(entries: seq<Entry>)
    requires forall i :: 0 <= i < |entries| ==> entries[i].loc.line <= INT_MAX
    ensures SomeConfused(entries)
            <==> exists i :: 1 <= i < |entries| && entries[i - 1].loc.line == 0 && entries[i].loc.line == INT_MAX
  {
    forall i | 0 <= i < |entries|
      ensures Confused(entries, i) <==> i > 0 && entries[i - 1].loc.line == 0 && entries[i].loc.line == INT_MAX
    {
      LargestDelta(entries[i].loc.line, if i == 0 then 1 else entries[i - 1].loc.line);
    }
    if i :| 1 <= i < |entries| && entries[i - 1].loc.line == 0 && entries[i].loc.line == INT_MAX {
      assert Confused(entries, i);
    }
  }

  /** Lines that are recorded are not 0, so up to 2^31 - 1 they are never confused. */
  lemma RecordedLines(entries: seq<Entry>)
    requires forall i :: 0 <= i < |entries| ==> 1 <= entries[i].loc.line <= INT_MAX
    ensures !SomeConfused(entries)
  {
    hide SomeConfused;
    OrdinaryLines(entries);
  }

  /** But a first line of 2^31 is. */
  lemma ConfusedExample(e: Entry)
    requires e.loc.line == 0x8000_0000
    ensures SomeConfused([e])
  {
    assert Confused([e], 0);
  }

  lemma LargestDelta(to: Word, from: Word)
    requires to <= INT_MAX && from <= INT_MAX
    ensures LineDelta(to, from) == INT_MAX <==> from == 0 && to == INT_MAX
  {
  }

  // ---------------------------------------------------------------------
  // The section
  // ---------------------------------------------------------------------

  function FragBytes(f: Frag): seq<Byte> {
    match f
    case Fill(bytes) => bytes
    case Variant(lineDelta, to, from, _, _) => IncBytes(lineDelta, Delta(to, from))
  }

  /** The bytes of a section once its code is laid out. */
  function Flat(frags: seq<Frag>): seq<Byte> {
    if frags == [] then [] else Flat(frags[..|frags| - 1]) + FragBytes(frags[|frags| - 1])
  }

  /** Every variant has room for the largest address delta, and will not go back. */
  predicate Reserved(frags: seq<Frag>) {
    forall i :: 0 <= i < |frags| && frags[i].Variant? ==>
      && frags[i].maxChars == |IncBytes(frags[i].lineDelta, 0xffff_ffff_ffff_ffff)|
      && Delta(frags[i].to, frags[i].from) < 0x8000_0000_0000_0000
  }

  /** Every variant has the size of its increment. */
  predicate Settled(frags: seq<Frag>) {
    forall i :: 0 <= i < |frags| && frags[i].Variant? ==> frags[i].subtype == |FragBytes(frags[i])|
  }

  /** While sizes are chosen, addresses are still relative to the start of their section. */
  function Relative(l: Label, slide: Address): Address {
    Difference(l.address, slide)
  }

  lemma RelativeDelta(to: Label, from: Label, slide: Address)
    ensures Difference(Relative(to, slide), Relative(from, slide)) == Delta(to, from)
  {
    var k, l := (to.address - slide) / 0x1_0000_0000_0000_0000, (from.address - slide) / 0x1_0000_0000_0000_0000;
    assert Relative(to, slide) == to.address - slide - 0x1_0000_0000_0000_0000 * k;
    assert Relative(from, slide) == from.address - slide - 0x1_0000_0000_0000_0000 * l;
    hide Relative, Difference;
    DifferenceMod(Relative(to, slide), Relative(from, slide), to.address, from.address, k - l);
  }

  lemma DifferenceMod(x: Address, y: Address, a: Address, b: Address, n: int)
    requires x - y == a - b - 0x1_0000_0000_0000_0000 * n
    ensures Difference(x, y) == Difference(a, b)
  {
  }

  function WithSize(f: Frag): Frag {
    if f.Variant? then f.(subtype := |FragBytes(f)|) else f
  }

  /** Gives a variant the size of its increment at the addresses of the moment. */
  method EstimateSize(f: Frag, slide: Address) returns (f': Frag)
    requires f.Variant? && Delta(f.to, f.from) < 0x8000_0000_0000_0000
    ensures f' == WithSize(f)
  {
    hide IncBytes, Difference;
    RelativeDelta(f.to, f.from, slide);
    var size := SizeIncLineAddr(f.lineDelta, Difference(Relative(f.to, slide), Relative(f.from, slide)));
    f' := f.(subtype := size);
  }

  /** The same, with the change in its size. */
  method RelaxFrag(f: Frag, slide: Address) returns (f': Frag, growth: int)
    requires f.Variant? && Delta(f.to, f.from) < 0x8000_0000_0000_0000
    ensures f' == WithSize(f) && growth == |FragBytes(f)| - f.subtype
  {
    hide FragBytes;
    f' := EstimateSize(f, slide);
    growth := f'.subtype - f.subtype;
  }

  /** At the end a variant gets its bytes, in the size that was chosen last. */
  method ConvertFrag(f: Frag) returns (bytes: seq<Byte>, inSync: bool)
    requires f.Variant? && f.maxChars == |IncBytes(f.lineDelta, 0xffff_ffff_ffff_ffff)|
    requires Delta(f.to, f.from) < 0x8000_0000_0000_0000 && f.subtype == |FragBytes(f)|
    ensures bytes == FragBytes(f) && f.subtype <= f.maxChars && inSync
  {
    hide IncBytes, Difference;
    var addrDelta := Delta(f.to, f.from);
    ReservedSuffices(f.lineDelta, addrDelta);
    var literal := new Byte[f.maxChars];
    inSync := EmitIncLineAddr(f.lineDelta, addrDelta, literal, 0, f.subtype);
    bytes := literal[..f.subtype];
  }

  /** The frags of one section while its line program is written. */
  class Section {
    const addressSize: nat
    var frags: seq<Frag>

    constructor (addressSize: nat)
      ensures this.addressSize == addressSize && frags == []
    {
      this.addressSize := addressSize;
      frags := [];
    }

    /** Room for some bytes, with these in it. */
    method FragMore(bytes: seq<Byte>)
      requires Reserved(frags)
      modifies this
      ensures Reserved(frags) && Flat(frags) == old(Flat(frags)) + bytes
    {
      hide IncBytes, Difference;
      var n := |frags| - 1;
      if n >= 0 && frags[n].Fill? {
        ghost var before := frags[..n];
        frags := frags[..n] + [Fill(frags[n].bytes + bytes)];
        assert frags[..n] == before;
      } else {
        ghost var before := frags;
        frags := frags + [Fill(bytes)];
        assert frags[..n + 1] == before;
      }
    }

    method OutByte(x: Byte)
      requires Reserved(frags)
      modifies this
      ensures Reserved(frags) && Flat(frags) == old(Flat(frags)) + [x]
    {
      FragMore([x]);
    }

    method OutUleb128(value: nat)
      requires Reserved(frags)
      modifies this
      ensures Reserved(frags) && Flat(frags) == old(Flat(frags)) + Uleb(value)
    {
      hide Uleb, Flat, IncBytes, Difference;
      var size := SizeofLeb128(value, false);
      var buffer := new Byte[size];
      var written := OutputLeb128(buffer, 0, value, false);
      assert buffer[..0] == [];
      FragMore(buffer[..]);
    }

    method OutOpcode(opcode: Byte, ghost op: Op)
      requires WellFormed(op) && OpBytes(op) == [opcode] && Reserved(frags)
      modifies this
      ensures Reserved(frags) && Flat(frags) == old(Flat(frags)) + OpBytes(op)
    {
      OutByte(opcode);
    }

    /** A standard opcode with its operand. */
    method OutOperand(opcode: Byte, value: nat, ghost op: Op)
      requires WellFormed(op) && OpBytes(op) == [opcode] + Uleb(value) && Reserved(frags)
      modifies this
      ensures Reserved(frags) && Flat(frags) == old(Flat(frags)) + OpBytes(op)
    {
      hide Uleb, OpBytes, Flat, WellFormed, IncBytes, Difference;
      OutByte(opcode);
      OutUleb128(value);
    }

    method OutSetAddr(place: Label)
      requires addressSize > 0 && place.address < Power256(addressSize) && Reserved(frags)
      modifies this
      ensures Reserved(frags)
      ensures Flat(frags) == old(Flat(frags)) + OpBytes(SetAddress(place.address, addressSize))
    {
      hide Uleb, Flat, IncBytes, Difference, LittleEndian, Power256;
      ghost var before := Flat(frags);
      OutByte(0);
      OutUleb128(addressSize + 1);
      OutByte(2);
      FragMore(LittleEndian(place.address, addressSize));
      Grouped(before, [0], Uleb(addressSize + 1), [2], LittleEndian(place.address, addressSize));
    }

    method OutIncLineAddr(lineDelta: SignedWord, addrDelta: Address)
      requires addrDelta < 0x8000_0000_0000_0000 && Reserved(frags)
      modifies this
      ensures Reserved(frags) && Flat(frags) == old(Flat(frags)) + IncBytes(lineDelta, addrDelta)
    {
      hide Flat, IncBytes, Difference;
      var len := SizeIncLineAddr(lineDelta, addrDelta);
      var buffer := new Byte[len];
      var inSync := EmitIncLineAddr(lineDelta, addrDelta, buffer, 0, len);
      assert inSync && buffer[..0] == [];
      assert buffer[..len] == buffer[..];
      FragMore(buffer[..]);
    }

    method RelaxIncLineAddr(lineDelta: SignedWord, to: Label, from: Label)
      requires Delta(to, from) < 0x8000_0000_0000_0000 && Reserved(frags)
      modifies this
      ensures Reserved(frags) && Flat(frags) == old(Flat(frags)) + IncBytes(lineDelta, Delta(to, from))
    {
      hide IncBytes, Difference;
      var maxChars := SizeIncLineAddr(lineDelta, 0xffff_ffff_ffff_ffff);
      ghost var before := frags;
      frags := frags + [Variant(lineDelta, to, from, maxChars, 1)];
      assert frags[..|frags| - 1] == before;
    }

    /** File, column and isa, where they have to change for the next entry. */
    method OutNumbers(from: Loc, to: Loc)
      requires Reserved(frags)
      modifies this
      ensures Reserved(frags) && Flat(frags) == old(Flat(frags)) + Bytes(NumberOps(from, to))
    {
      hide Flat, IncBytes, Difference, Bytes, Reserved, OpBytes, WellFormed, Uleb, If;
      ghost var before := Flat(frags);
      BytesNothing();
      NumberBytes(to);
      if from.filenum != to.filenum {
        OutOperand(4, to.filenum, SetFile(to.filenum));
      }
      ghost var ops := Snoc([], from.filenum != to.filenum, SetFile(to.filenum));
      assert Flat(frags) == before + Bytes(ops);
      if from.column != to.column {
        OutOperand(5, to.column, SetColumn(to.column));
      }
      ops := Snoc(ops, from.column != to.column, SetColumn(to.column));
      assert Flat(frags) == before + Bytes(ops);
      if from.isa != to.isa {
        OutOperand(12, to.isa, SetIsa(to.isa));
      }
      ops := Snoc(ops, from.isa != to.isa, SetIsa(to.isa));
      NoFront(If(from.filenum != to.filenum, SetFile(to.filenum)));
    }

    /** The flags: a toggle for is_stmt, and the marks that the next row clears. */
    method OutFlags(isStmt: bool, to: Flags)
      requires Reserved(frags)
      modifies this
      ensures Reserved(frags) && Flat(frags) == old(Flat(frags)) + Bytes(FlagOps(isStmt, to))
    {
      hide Flat, IncBytes, Difference, Bytes, Reserved, OpBytes, WellFormed, If;
      ghost var before := Flat(frags);
      BytesNothing();
      FlagBytes();
      if to.isStmt != isStmt {
        OutOpcode(6, NegateStmt);
      }
      ghost var ops := Snoc([], isStmt != to.isStmt, NegateStmt);
      assert Flat(frags) == before + Bytes(ops);
      if to.basicBlock {
        OutOpcode(7, SetBasicBlock);
      }
      ops := Snoc(ops, to.basicBlock, SetBasicBlock);
      assert Flat(frags) == before + Bytes(ops);
      if to.prologueEnd {
        OutOpcode(10, SetPrologueEnd);
      }
      ops := Snoc(ops, to.prologueEnd, SetPrologueEnd);
      assert Flat(frags) == before + Bytes(ops);
      if to.epilogueBegin {
        OutOpcode(11, SetEpilogueBegin);
      }
      ops := Snoc(ops, to.epilogueBegin, SetEpilogueBegin);
      NoFront(If(isStmt != to.isStmt, NegateStmt));
    }

    /** The registers that have to change for the next entry.  `from` is what the program remembers
        of the entry before. */
    method OutHeader(from: Loc, to: Loc) returns (now: Loc)
      requires Reserved(frags)
      modifies this
      ensures Reserved(frags) && Flat(frags) == old(Flat(frags)) + Bytes(HeaderOps(from, to))
      ensures SameHeader(now, to) && now.line == from.line
    {
      hide Flat, IncBytes, Difference, Bytes, Reserved, NumberOps, FlagOps;
      BytesConcat(NumberOps(from, to), FlagOps(from.flags.isStmt, to.flags));
      OutNumbers(from, to);
      OutFlags(from.flags.isStmt, to.flags);
      now := from.(filenum := to.filenum, column := to.column, isa := to.isa);
      if to.flags.isStmt != from.flags.isStmt {
        now := now.(flags := to.flags);
      }
    }

    /** The line program of a chain of entries, up to the end of the section. */
    method ProcessEntries(entries: seq<Entry>, end: Label)
      requires entries != [] && Reserved(frags) && InOrder(entries)
      requires Follows(end, entries[|entries| - 1].place)
      requires forall i :: 0 <= i < |entries| ==> Fits(entries[i], addressSize)
      modifies this
      ensures Reserved(frags)
      ensures Flat(frags) == old(Flat(frags)) + Bytes(ProgramOps(entries, end, addressSize))
    {
      hide Flat, IncBytes, Difference, Bytes, EntriesOps, EntryOps, LineDelta, Reserved, HeaderOps, OpBytes;
      var from, last := FIRST_LOC, entries[0].place;
      ghost var before := Flat(frags);
      BytesNothing();
      EntriesNothing(addressSize);
      assert entries[..0] == [];
      var i := 0;
      while i < |entries|
        invariant 0 <= i <= |entries| && Reserved(frags)
        invariant SameHeader(from, LastLoc(entries[..i])) && from.line == LastLoc(entries[..i]).line
        invariant last == entries[if i > 0 then i - 1 else 0].place
        invariant Flat(frags) == before + Bytes(EntriesOps(entries[..i], addressSize))
      {
        var e := entries[i];
        EntryBytes(entries, i, addressSize);
        SameHeaderOps(from, LastLoc(entries[..i]), e.loc);
        from := OutHeader(from, e.loc);
        var lineDelta := LineDelta(e.loc.line, from.line);
        if i == 0 {
          OutSetAddr(e.place);
          OutIncLineAddr(lineDelta, 0);
        } else if e.place.frag == last.frag {
          OutIncLineAddr(lineDelta, Difference(e.place.offset, last.offset));
        } else {
          RelaxIncLineAddr(lineDelta, e.place, last);
        }
        from := from.(line := e.loc.line);
        last := e.place;
        i := i + 1;
      }
      assert entries[..|entries|] == entries;
      ProgramBytes(entries, end, addressSize);
      if end.frag == last.frag {
        OutIncLineAddr(INT_MAX, Difference(end.offset, last.offset));
      } else {
        RelaxIncLineAddr(INT_MAX, end, last);
      }
    }

    /** Chooses the sizes, once the code has been laid out: each variant gets its size, then passes over
        all of them are made until none has grown. */
    method Relax(slide: Address)
      requires Reserved(frags)
      modifies this
      ensures Reserved(frags) && Settled(frags) && |frags| == |old(frags)|
      ensures forall i :: 0 <= i < |frags| ==> frags[i] == WithSize(old(frags)[i])
      ensures Flat(frags) == old(Flat(frags))
    {
      hide FragBytes, IncBytes, Difference, Flat;
      ghost var before := frags;
      var i := 0;
      while i < |frags|
        invariant 0 <= i <= |frags| == |before| && Reserved(frags)
        invariant forall k :: 0 <= k < i ==> frags[k] == WithSize(before[k])
        invariant forall k :: i <= k < |frags| ==> frags[k] == before[k]
      {
        if frags[i].Variant? {
          var f := EstimateSize(frags[i], slide);
          frags := frags[i := f];
        }
        i := i + 1;
      }
      SizesSettle(before, frags);
      var stretched := 1;
      while stretched != 0
        invariant Reserved(frags) && Settled(frags) && |frags| == |before| && 0 <= stretched <= 1
        invariant forall k :: 0 <= k < |frags| ==> frags[k] == WithSize(before[k])
        decreases stretched
      {
        stretched, i := 0, 0;
        while i < |frags|
          invariant 0 <= i <= |frags| == |before| && Reserved(frags) && Settled(frags) && stretched == 0
          invariant forall k :: 0 <= k < |frags| ==> frags[k] == WithSize(before[k])
        {
          if frags[i].Variant? {
            var f, growth := RelaxFrag(frags[i], slide);
            frags := frags[i := f];
            SizesSettle(before, frags);
            if growth != 0 {
              stretched := stretched + 1;
            }
          }
          i := i + 1;
        }
      }
      FlatSized(before, frags);
    }

    /** All variants are converted, and none is out of step with its size. */
    method Convert() returns (bytes: seq<Byte>, inSync: bool)
      requires Reserved(frags) && Settled(frags)
      ensures bytes == Flat(frags) && inSync
    {
      hide IncBytes, Difference, FragBytes;
      bytes, inSync := [], true;
      var i := 0;
      while i < |frags|
        invariant 0 <= i <= |frags| && bytes == Flat(frags[..i]) && inSync
      {
        var piece;
        if frags[i].Fill? {
          piece := frags[i].bytes;
          FillBytes(frags[i]);
        } else {
          var ok;
          piece, ok := ConvertFrag(frags[i]);
          inSync := inSync && ok;
        }
        assert frags[..i + 1][..i] == frags[..i];
        bytes := bytes + piece;
        i := i + 1;
      }
      assert frags[..i] == frags;
    }
  }

  /** From entries to rows: the bytes written for a chain of entries, with all increments relaxed and
      converted, decode to one row for each entry and one for the end, if and only if no line delta is taken for
      the end. */
  method LineTable(entries: seq<Entry>, end: Label, addressSize: nat, slide: Address) returns (bytes: seq<Byte>, inSync: bool)
    requires entries != [] && InOrder(entries) && Follows(end, entries[|entries| - 1].place)
    requires forall i :: 0 <= i < |entries| ==> Fits(entries[i], addressSize)
    ensures inSync
    ensures Decode(Machine(START, []), bytes) == Rows(Machine(START, TableOf(entries, end))) <==> !SomeConfused(entries)
  {
    hide Decode, Bytes, ProgramOps, TableOf, SomeConfused, InOrder, Fits;
    var section := new Section(addressSize);
    section.ProcessEntries(entries, end);
    section.Relax(slide);
    bytes, inSync := section.Convert();
    DecodesToTable(entries, end, addressSize);
    NoFrontBytes(Bytes(ProgramOps(entries, end, addressSize)));
  }

  lemma SizesSettle(before: seq<Frag>, after: seq<Frag>)
    requires |after| == |before| && forall k :: 0 <= k < |after| ==> after[k] == WithSize(before[k])
    ensures Settled(after)
    ensures forall k :: 0 <= k < |after| ==> WithSize(after[k]) == after[k]
  {
    hide IncBytes;
  }

  /** The bytes do not depend on the sizes. */
  lemma {:induction false} FlatSized(before: seq<Frag>, after: seq<Frag>)
    requires |after| == |before| && forall k :: 0 <= k < |after| ==> after[k] == WithSize(before[k])
    ensures Flat(after) == Flat(before)
  {
    hide IncBytes;
    if after != [] {
      var n := |after| - 1;
      FlatSized(before[..n], after[..n]);
      assert FragBytes(after[n]) == FragBytes(before[n]);
    }
  }

  lemma NoFrontBytes(s: seq<Byte>)
    ensures [] + s == s
  {
  }

  lemma FillBytes(f: Frag)
    requires f.Fill?
    ensures FragBytes(f) == f.bytes
  {
  }

  lemma NumberBytes(to: Loc)
    ensures var a, b, c := SetFile(to.filenum), SetColumn(to.column), SetIsa(to.isa);
      && WellFormed(a) && WellFormed(b) && WellFormed(c)
      && OpBytes(a) == [4] + Uleb(to.filenum) && OpBytes(b) == [5] + Uleb(to.column) && OpBytes(c) == [12] + Uleb(to.isa)
  {
  }

  lemma FlagBytes()
    ensures WellFormed(NegateStmt) && OpBytes(NegateStmt) == [6]
    ensures WellFormed(SetBasicBlock) && OpBytes(SetBasicBlock) == [7]
    ensures WellFormed(SetPrologueEnd) && OpBytes(SetPrologueEnd) == [10]
    ensures WellFormed(SetEpilogueBegin) && OpBytes(SetEpilogueBegin) == [11]
  {
  }

  lemma NoFront(ops: seq<Op>)
    ensures [] + ops == ops
  {
  }

  lemma BytesNothing()
    ensures Bytes([]) == []
  {
  }

  lemma EntriesNothing(size: nat)
    ensures EntriesOps([], size) == []
  {
  }

  ghost function Snoc(ops: seq<Op>, c: bool, op: Op): (r: seq<Op>)
    requires WellFormed(op) && forall i :: 0 <= i < |ops| ==> WellFormed(ops[i])
    ensures r == ops + If(c, op) && forall i :: 0 <= i < |r| ==> WellFormed(r[i])
    ensures Bytes(r) == Bytes(ops) + if c then OpBytes(op) else []
  {
    BytesConcat(ops, If(c, op));
    BytesOne(op);
    BytesNothing();
    ops + If(c, op)
  }

  /** Two locations that the header operations do not tell apart. */
  predicate SameHeader(a: Loc, b: Loc) {
    a.filenum == b.filenum && a.column == b.column && a.isa == b.isa && a.flags.isStmt == b.flags.isStmt
  }

  lemma SameHeaderOps(a: Loc, b: Loc, to: Loc)
    requires SameHeader(a, b)
    ensures HeaderOps(a, to) == HeaderOps(b, to)
  {
  }

  /** The bytes of one more entry. */
  lemma EntryBytes(entries: seq<Entry>, i: nat, size: nat)
    requires i < |entries| && forall k :: 0 <= k < |entries| ==> Fits(entries[k], size)
    ensures var e, before := entries[i], LastLoc(entries[..i]);
      var lineDelta := LineDelta(e.loc.line, before.line);
      && LastLoc(entries[..i + 1]) == e.loc
      && Bytes(EntriesOps(entries[..i + 1], size))
         == Bytes(EntriesOps(entries[..i], size)) + Bytes(HeaderOps(before, e.loc))
            + (if i == 0 then OpBytes(SetAddress(e.place.address, size)) + IncBytes(lineDelta, 0)
               else IncBytes(lineDelta, Delta(e.place, entries[i - 1].place)))
  {
    hide Bytes, Difference, LineDelta, IncOps, HeaderOps, OpBytes, WellFormed;
    var e, before := entries[i], LastLoc(entries[..i]);
    var lineDelta := LineDelta(e.loc.line, before.line);
    assert entries[..i + 1][..i] == entries[..i];
    BytesConcat(EntriesOps(entries[..i], size), EntryOps(entries[..i], e, size));
    if i == 0 {
      AddressFits(e, size);
      BytesConcat(HeaderOps(before, e.loc), [SetAddress(e.place.address, size)] + IncOps(lineDelta, 0));
      BytesConcat([SetAddress(e.place.address, size)], IncOps(lineDelta, 0));
      BytesOne(SetAddress(e.place.address, size));
    } else {
      BytesConcat(HeaderOps(before, e.loc), IncOps(lineDelta, Delta(e.place, entries[i - 1].place)));
    }
  }

  lemma AddressFits(e: Entry, size: nat)
    requires Fits(e, size)
    ensures WellFormed(SetAddress(e.place.address, size))
  {
  }

  lemma ProgramBytes(entries: seq<Entry>, end: Label, size: nat)
    requires entries != [] && forall i :: 0 <= i < |entries| ==> Fits(entries[i], size)
    ensures Bytes(ProgramOps(entries, end, size))
         == Bytes(EntriesOps(entries, size)) + IncBytes(INT_MAX, Delta(end, entries[|entries| - 1].place))
  {
    hide Bytes, Difference, EntriesOps, IncOps;
    BytesConcat(EntriesOps(entries, size), IncOps(INT_MAX, Delta(end, entries[|entries| - 1].place)));
  }

  lemma Grouped(before: seq<Byte>, a: seq<Byte>, b: seq<Byte>, c: seq<Byte>, d: seq<Byte>)
    ensures before + a + b + c + d == before + (a + b + c + d)
  {
  }
}
