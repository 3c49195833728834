/** x86 memory operands: how the assembler encodes them, and how a processor decodes them. */
module X86Memory {
  import opened LittleEndians
  import opened Wrappers

  datatype CodeFlag = Code16 | Code32 | Code64

  /** A general register of 16, 32 or 64 bits, or the instruction pointer. */
  datatype Reg = Reg(width: nat, num: nat) | Rip

  predicate ValidReg(r: Reg) {
    r.Reg? ==> (r.width == 16 || r.width == 32 || r.width == 64) && r.num < 16
  }

  /** What stands in front of the code: the size of addresses and the extension bits. */
  datatype Prefixes = Prefixes(addressSize: bool, rexB: bool, rexX: bool)

  /** base + index * 2^scale + displacement. */
  datatype Memory = Memory(base: Option<Reg>, index: Option<Reg>, scale: nat, disp: int)

  // ---------------------------------------------------------------------
  // Decoding, as sections 2.1.5 and 2.2.1 of the Intel 64 and IA-32 Architectures Software
  // Developer's Manual, Volume 2A, tabulate it
  // ---------------------------------------------------------------------

  function AddressWidth(flag: CodeFlag, prefix: bool): nat {
    match flag
    case Code64 => if prefix then 32 else 64
    case Code32 => if prefix then 16 else 32
    case Code16 => if prefix then 32 else 16
  }

  function Limit(size: nat): (r: int)
    ensures r > 0
  {
    if size == 0 then 1 else if size == 1 then 0x100 else if size == 2 then 0x1_0000 else 0x1_0000_0000
  }

  /** A displacement of size bytes, with its sign. */
  function Signed(x: int, size: nat): int {
    if size > 0 && x >= Limit(size) / 2 then x - Limit(size) else x
  }

  /** The registers of the 16-bit forms. */
  function Base16(rm: nat): Option<Reg> {
    if rm == 0 || rm == 1 || rm == 7 then Some(Reg(16, 3))
    else if rm == 2 || rm == 3 || rm == 6 then Some(Reg(16, 5))
    else if rm == 4 then Some(Reg(16, 6))
    else Some(Reg(16, 7))
  }

  function Index16(rm: nat): Option<Reg> {
    if rm == 0 || rm == 2 then Some(Reg(16, 6)) else if rm == 1 || rm == 3 then Some(Reg(16, 7)) else None
  }

  /** An address without its displacement, and how many bytes that has and where they start. */
  datatype Form = Form(memory: Memory, size: nat, start: nat)

  /** What the fields of the ModR/M byte, and of the SIB byte if there is one, say. */
  function FormFrom(flag: CodeFlag, p: Prefixes, mode: nat, rm: nat, sib: bool, scale: nat, index: nat, base: nat): Option<Form> {
    var width := AddressWidth(flag, p.addressSize);
    var b, x := if p.rexB then 8 else 0, if p.rexX then 8 else 0;
    if width == 16 then
      if mode == 0 && rm == 6 then Some(Form(Memory(None, None, 0, 0), 2, 1))
      else Some(Form(Memory(Base16(rm), Index16(rm), 0, 0), mode, 1))
    else if rm == 4 then
      if !sib then None
      else
        var none := base == 5 && mode == 0;
        Some(Form(Memory(if none then None else Some(Reg(width, base + b)),
                         if index + x == 4 then None else Some(Reg(width, index + x)),
                         if index + x == 4 then 0 else scale, 0),
                  if none || mode == 2 then 4 else mode, 2))
    else if mode == 0 && rm == 5 then
      Some(Form(Memory(if flag.Code64? then Some(Rip) else None, None, 0, 0), 4, 1))
    else
      Some(Form(Memory(Some(Reg(width, rm + b)), None, 0, 0), if mode == 2 then 4 else mode, 1))
  }

  function FormOf(flag: CodeFlag, p: Prefixes, s: seq<Byte>): Option<Form> {
    if s == [] || s[0] / 64 == 3 then None
    else
      var sib := if |s| >= 2 then s[1] else 0;
      FormFrom(flag, p, s[0] / 64, s[0] % 8, |s| >= 2, sib / 64, sib / 8 % 8, sib % 8)
  }

  /** The address that the bytes behind an opcode stand for, if they are exactly enough. */
  function Decode(flag: CodeFlag, p: Prefixes, s: seq<Byte>): Option<Memory> {
    var f := FormOf(flag, p, s);
    if f.None? || |s| != f.value.start + f.value.size then None
    else Some(f.value.memory.(disp := Signed(ReadLittleEndian(s[f.value.start..]), f.value.size)))
  }

  // ---------------------------------------------------------------------
  // The check of base and index
  // ---------------------------------------------------------------------

  /** Displacement types, as the program collects them for an operand. */
  datatype Types = Types(disp8: bool, disp16: bool, disp32: bool, disp32s: bool, disp64: bool, baseIndex: bool)

  const NO_TYPES := Types(false, false, false, false, false, false)

  function Without(t: Types): Types {
    t.(disp8 := false, disp16 := false, disp32 := false, disp32s := false, disp64 := false)
  }

  predicate HasDisp(t: Types) {
    t.disp8 || t.disp16 || t.disp32 || t.disp32s || t.disp64
  }

  /** Registers that the register table marks for use in addresses. */
  predicate IsBaseIndex(r: Reg) {
    r.Rip? || (if r.width == 16 then r.num in {3, 5, 6, 7} else r.num != 4)
  }

  predicate HasWidth(r: Reg, width: nat) {
    r.Reg? && r.width == width
  }

  /** One round of the check, for one choice of the prefix. */
  predicate Accepted(flag: CodeFlag, prefix: bool, base: Option<Reg>, index: Option<Reg>, scale: nat) {
    var width := AddressWidth(flag, prefix);
    if flag.Code64? then
      && (base.Some? && !HasWidth(base.value, width) ==> base.value.Rip? && index.None?)
      && (index.Some? ==> HasWidth(index.value, width) && IsBaseIndex(index.value))
    else if width == 16 then
      && (base.Some? ==> HasWidth(base.value, 16) && IsBaseIndex(base.value))
      && (index.Some? ==>
            && HasWidth(index.value, 16) && IsBaseIndex(index.value)
            && base.Some? && base.value.num < 6 && index.value.num >= 6 && scale == 0)
    else
      && (base.Some? ==> HasWidth(base.value, 32))
      && (index.Some? ==> HasWidth(index.value, 32) && IsBaseIndex(index.value))
  }

  /** Checks base and index, and if they only fit the other address size, adds the prefix for it. */
  method IndexCheck(flag: CodeFlag, prefix: bool, base: Option<Reg>, index: Option<Reg>, scale: nat, types: Types)
    returns (ok: bool, prefix': bool, types': Types)
    ensures ok == (Accepted(flag, prefix, base, index, scale)
                   || (!prefix && Accepted(flag, true, base, index, scale)))
    ensures ok ==> Accepted(flag, prefix', base, index, scale)
    ensures prefix' == (prefix || !Accepted(flag, prefix, base, index, scale))
    ensures types' == if prefix' && !prefix && !flag.Code64? && (types.disp16 || types.disp32)
                      then types.(disp16 := !types.disp16, disp32 := !types.disp32) else types
  {
    ok, prefix', types' := Accepted(flag, prefix, base, index, scale), prefix, types;
    if !ok && !prefix' {
      prefix' := true;
      if !flag.Code64? && (types'.disp16 || types'.disp32) {
        types' := types'.(disp16 := !types'.disp16, disp32 := !types'.disp32);
      }
      ok := Accepted(flag, prefix', base, index, scale);
    }
  }

  // ---------------------------------------------------------------------
  // Displacements
  // ---------------------------------------------------------------------

  /** The types a displacement gets where it is read. */
  function DisplacementTypes(flag: CodeFlag, prefix: bool, baseIndex: bool): Types {
    var t := NO_TYPES.(baseIndex := baseIndex);
    match flag
    case Code64 => t.(disp64 := !prefix, disp32 := true, disp32s := true)
    case Code32 => t.(disp16 := prefix, disp32 := !prefix)
    case Code16 => t.(disp16 := !prefix, disp32 := prefix)
  }

  predicate FitsSignedByte(x: int) {
    -128 <= x <= 127
  }

  predicate FitsSignedLong(x: int) {
    -0x8000_0000 <= x < 0x8000_0000
  }

  predicate FitsUnsignedLong(x: int) {
    0 <= x < 0x1_0000_0000
  }

  /** The displacement that decides about sizes: short unsigned ones count as signed. */
  function Narrowed(t: Types, disp: int): int {
    var d := if t.disp16 && 0 <= disp < 0x1_0000 then Signed(disp, 2) else disp;
    if t.disp32 && 0 <= d < 0x1_0000_0000 then Signed(d, 4) else d
  }

  /** Takes a displacement that fits the width of addresses for a signed number of that width. */
  method Narrow(types: Types, disp: int) returns (t: Types, d: int)
    ensures d == Narrowed(types, disp)
    ensures t == types || (t == types.(disp64 := false) && (types.disp16 || types.disp32))
  {
    t, d := types, disp;
    if t.disp16 && 0 <= d < 0x1_0000 {
      d := Signed(d, 2);
      t := t.(disp64 := false);
    }
    if t.disp32 && 0 <= d < 0x1_0000_0000 {
      d := Signed(d, 4);
      t := t.(disp64 := false);
    }
  }

  /** Chooses the smallest type for a constant displacement; none at all for zero next to a register. */
  method OptimizeDisp(flag: CodeFlag, types: Types, present: bool, disp: int) returns (t: Types, kept: bool)
    requires present == HasDisp(types)
    ensures var d := Narrowed(types, disp);
      && kept == (present && !(d == 0 && types.baseIndex))
      && t.baseIndex == types.baseIndex
      && (present && !kept ==> t == Without(types))
      && (!present ==> t == types)
      && (kept ==>
            && t.disp8 == (((t.disp16 || t.disp32 || t.disp32s) && FitsSignedByte(d)) || types.disp8)
            && t.disp16 == types.disp16 && HasDisp(t) && (t.disp64 ==> types.disp64)
            && (types.disp16 || types.disp32 ==> t.disp8 == (FitsSignedByte(d) || types.disp8))
            && (!flag.Code64? ==> t.disp32 == types.disp32 && t.disp32s == types.disp32s))
  {
    hide Narrowed;
    t, kept := types, present;
    if present {
      var d;
      t, d := Narrow(types, disp);
      if d == 0 && t.baseIndex {
        t, kept := Without(t), false;
      } else if flag.Code64? {
        if FitsSignedLong(d) {
          t := t.(disp32s := true);
        }
        if FitsUnsignedLong(d) {
          t := t.(disp32 := true);
        }
      }
      if (t.disp32 || t.disp32s || t.disp16) && FitsSignedByte(d) {
        t := t.(disp8 := true);
      }
    }
  }

  // ---------------------------------------------------------------------
  // ModR/M and SIB
  // ---------------------------------------------------------------------

  /** The fields of the two bytes, the extension bits, and the displacement type left over. */
  datatype Fields = Fields(mode: nat, regmem: nat, scale: nat, index: nat, base: nat, rexB: bool, rexX: bool,
                           types: Types, fake: bool)

  const ESP := 4
  const EBP := 5

  function ModeFromDispSize(t: Types): nat {
    if t.disp8 then 1 else if t.disp16 || t.disp32 || t.disp32s then 2 else 0
  }

  /** How many bytes a displacement of these types is written with. */
  function DispSize(t: Types): nat {
    if t.disp8 then 1 else if t.disp16 then 2 else if t.disp64 then 8 else 4
  }

  /** Operands as the parser leaves them: an address has registers the mode knows, and a scale only
      with an index. */
  predicate Parsed(flag: CodeFlag, base: Option<Reg>, index: Option<Reg>, scale: nat) {
    && (base.Some? ==> ValidReg(base.value)) && (index.Some? ==> ValidReg(index.value))
    && (!flag.Code64? ==>
          && (base.Some? ==> base.value.Reg? && base.value.num < 8)
          && (index.Some? ==> index.value.Reg? && index.value.num < 8))
    && scale <= 3 && (index.None? ==> scale == 0)
  }

  /** What the displacement types are once they have been optimized. */
  predicate Prepared(flag: CodeFlag, prefix: bool, t: Types, kept: bool) {
    && kept == HasDisp(t)
    && (!flag.Code64? ==>
          && !t.disp32s && !t.disp64
          && (kept ==> t.disp16 == (AddressWidth(flag, prefix) == 16) && t.disp32 == (AddressWidth(flag, prefix) == 32)))
    && (flag.Code64? ==> !t.disp16)
  }

  predicate FieldsFit(f: Fields) {
    f.mode <= 2 && f.regmem < 8 && f.scale <= 3 && f.index < 8 && f.base < 8
  }

  /** A SIB byte follows. */
  predicate HasSib(f: Fields, base: Option<Reg>) {
    f.regmem == ESP && !(base.Some? && HasWidth(base.value, 16))
  }

  /** A base that is a general register; beside other operands there are no short displacements. */
  predicate HasGeneral(base: Option<Reg>) {
    base.Some? && base.value.Reg?
  }

  /** The fields mean this base and index, and a displacement of the size that is written. */
  predicate Encodes(flag: CodeFlag, prefix: bool, base: Option<Reg>, index: Option<Reg>, scale: nat, t: Types, kept: bool,
                    f: Fields)
  {
    && FieldsFit(f) && (f.fake ==> !kept)
    && !f.types.disp64 && (kept || f.fake) == HasDisp(f.types)
    && FormFrom(flag, Prefixes(prefix, f.rexB, f.rexX), f.mode, f.regmem, HasSib(f, base), f.scale, f.index, f.base)
       == Some(Form(Memory(base, index, scale, 0), if kept || f.fake then DispSize(f.types) else 0,
                    if HasSib(f, base) then 2 else 1))
    && (kept ==> f.types.disp8 == (t.disp8 && HasGeneral(base)))
    && (kept ==> DispSize(f.types) == if f.types.disp8 then 1 else if AddressWidth(flag, prefix) == 16 then 2 else 4)
  }

  const NO_FIELDS := Fields(0, 0, 0, 0, 0, false, false, NO_TYPES, false)

  /** The fields of an operand without a base. */
  method BuildWithoutBase(flag: CodeFlag, prefix: bool, index: Option<Reg>, scale: nat, t: Types, kept: bool)
    returns (f: Fields)
    requires Parsed(flag, None, index, scale) && Accepted(flag, prefix, None, index, scale)
    requires Prepared(flag, prefix, t, kept)
    ensures Encodes(flag, prefix, None, index, scale, t, kept, f)
  {
    f := NO_FIELDS.(types := t, fake := !kept);
    if index.None? {
      if flag.Code64? {
        f := f.(regmem := ESP, base := EBP, index := ESP,
                types := if prefix then NO_TYPES.(disp32 := true) else NO_TYPES.(disp32s := true));
      } else if AddressWidth(flag, prefix) == 16 {
        f := f.(regmem := 6, types := NO_TYPES.(disp16 := true));
      } else {
        f := f.(regmem := EBP, types := NO_TYPES.(disp32 := true));
      }
    } else {
      f := f.(index := index.value.num % 8, base := EBP, scale := scale, regmem := ESP, rexX := index.value.num >= 8);
      f := f.(types := if flag.Code64? then Without(t).(disp32s := true) else Without(t).(disp32 := true));
    }
  }

  /** The fields of the 16-bit forms. */
  method Build16(flag: CodeFlag, prefix: bool, base: Reg, index: Option<Reg>, scale: nat, t: Types, kept: bool)
    returns (f: Fields)
    requires Parsed(flag, Some(base), index, scale) && Accepted(flag, prefix, Some(base), index, scale)
    requires Prepared(flag, prefix, t, kept) && HasWidth(base, 16)
    ensures Encodes(flag, prefix, Some(base), index, scale, t, kept, f)
  {
    f := NO_FIELDS.(types := t);
    if base.num == 3 {
      f := f.(regmem := if index.None? then 7 else index.value.num - 6);
    } else if base.num == 5 {
      if index.None? {
        f := f.(regmem := 6);
        if !HasDisp(t) {
          f := f.(types := t.(disp8 := true), fake := true);
        }
      } else {
        f := f.(regmem := index.value.num - 6 + 2);
      }
    } else {
      f := f.(regmem := base.num - 6 + 4);
    }
    f := f.(mode := ModeFromDispSize(f.types));
  }

  /** The displacement types of an operand with a 32- or 64-bit base; a base whose low bits are those
      of ebp cannot do without a displacement. */
  method BaseTypes(flag: CodeFlag, prefix: bool, num: nat, t: Types, kept: bool) returns (types: Types, fake: bool)
    requires Prepared(flag, prefix, t, kept) && AddressWidth(flag, prefix) != 16
    ensures fake == (num == EBP && !kept) && !types.disp64 && !types.disp16 && (kept || fake) == HasDisp(types)
    ensures kept ==> types.disp8 == t.disp8 && (types.disp8 || types.disp32 || types.disp32s)
    ensures fake ==> types.disp8
    ensures var mode := ModeFromDispSize(types);
      && mode <= 2 && (mode == 0 <==> !HasDisp(types)) && (mode == 1 <==> types.disp8)
      && (mode == 1 ==> DispSize(types) == 1) && (mode == 2 ==> DispSize(types) == 4)
  {
    types, fake := t, false;
    if flag.Code64? && HasDisp(t) {
      types := if prefix then NO_TYPES.(disp8 := t.disp8, disp32 := true)
               else NO_TYPES.(disp8 := t.disp8, disp32s := true);
    }
    if num == EBP && !kept {
      types, fake := types.(disp8 := true), true;
    }
  }

  /** The fields of an operand with a 32- or 64-bit base. */
  method BuildWithBase(flag: CodeFlag, prefix: bool, base: Reg, index: Option<Reg>, scale: nat, t: Types, kept: bool)
    returns (f: Fields)
    requires Parsed(flag, Some(base), index, scale) && Accepted(flag, prefix, Some(base), index, scale)
    requires Prepared(flag, prefix, t, kept) && base.Reg? && base.width != 16
    ensures Encodes(flag, prefix, Some(base), index, scale, t, kept, f)
  {
    var types, fake := BaseTypes(flag, prefix, base.num % 8, t, kept);
    hide Prepared, ModeFromDispSize, DispSize, HasDisp;
    f := NO_FIELDS.(types := types, fake := fake, mode := ModeFromDispSize(types));
    f := f.(regmem := base.num % 8, rexB := base.num >= 8, base := base.num % 8, scale := scale);
    if index.None? {
      f := f.(index := ESP);
    } else {
      f := f.(index := index.value.num % 8, regmem := ESP, rexX := index.value.num >= 8);
    }
  }

  /** The fields for a base, an index, and a displacement if it was kept. */
  method BuildModrm(flag: CodeFlag, prefix: bool, base: Option<Reg>, index: Option<Reg>, scale: nat, t: Types, kept: bool)
    returns (f: Fields)
    requires Parsed(flag, base, index, scale) && Accepted(flag, prefix, base, index, scale)
    requires Prepared(flag, prefix, t, kept)
    ensures Encodes(flag, prefix, base, index, scale, t, kept, f)
  {
    if base.None? {
      f := BuildWithoutBase(flag, prefix, index, scale, t, kept);
    } else if base.value.Rip? {
      f := NO_FIELDS.(regmem := EBP, types := Without(t).(disp32s := true), fake := !kept);
    } else if base.value.width == 16 {
      f := Build16(flag, prefix, base.value, index, scale, t, kept);
    } else {
      f := BuildWithBase(flag, prefix, base.value, index, scale, t, kept);
    }
  }

  // ---------------------------------------------------------------------
  // The bytes
  // ---------------------------------------------------------------------

  lemma LittleEndianBack(x: nat, size: nat)
    requires x < Limit(size) && size in {1, 2, 4}
    ensures ReadLittleEndian(LittleEndian(x, size)) == x
  {
    assert Power256(1) == 0x100 && Power256(2) == 0x1_0000 && Power256(4) == 0x1_0000_0000;
    LittleEndianRoundTrip(x, size);
  }

  /** The ModR/M byte, and the SIB byte where the first one calls for it. */
  function Header(f: Fields, reg: nat, base: Option<Reg>): (s: seq<Byte>)
    requires FieldsFit(f) && reg < 8
    ensures |s| == if HasSib(f, base) then 2 else 1
  {
    [f.regmem + 8 * reg + 64 * f.mode]
    + if HasSib(f, base) then [f.base + 8 * f.index + 64 * f.scale] else []
  }

  /** The two bytes give their fields back. */
  lemma HeaderFields(flag: CodeFlag, p: Prefixes, f: Fields, reg: nat, base: Option<Reg>, more: seq<Byte>)
    requires FieldsFit(f) && reg < 8
    requires HasSib(f, base) || f.regmem != ESP || AddressWidth(flag, p.addressSize) == 16
    ensures FormOf(flag, p, Header(f, reg, base) + more)
         == FormFrom(flag, p, f.mode, f.regmem, HasSib(f, base), f.scale, f.index, f.base)
  {
    hide FormFrom;
    var s := Header(f, reg, base) + more;
    assert s[0] == f.regmem + 8 * reg + 64 * f.mode;
    ThreeFields(f.regmem, reg, f.mode);
    if HasSib(f, base) {
      assert s[1] == f.base + 8 * f.index + 64 * f.scale;
      ThreeFields(f.base, f.index, f.scale);
    } else {
      NoSibNeeded(flag, p, f, more);
    }
  }

  /** Without need of a SIB byte, what would be its fields does not matter. */
  lemma NoSibNeeded(flag: CodeFlag, p: Prefixes, f: Fields, more: seq<Byte>)
    requires f.regmem != ESP || AddressWidth(flag, p.addressSize) == 16
    ensures forall sib, scale, index, base ::
      FormFrom(flag, p, f.mode, f.regmem, sib, scale, index, base)
      == FormFrom(flag, p, f.mode, f.regmem, false, f.scale, f.index, f.base)
  {
  }

  lemma ThreeFields(low: nat, middle: nat, high: nat)
    requires low < 8 && middle < 8
    ensures var b := low + 8 * middle + 64 * high;
      b / 64 == high && b / 8 % 8 == middle && b % 8 == low
  {
  }

  /** In 32-bit code values of 32 bits are taken for signed ones. */
  function Extended(rela: bool, val: int): int {
    if !rela && 0 <= val < 0x1_0000_0000 then Signed(val, 4) else val
  }

  /** A value that does not fit so many bytes, with a sign or without: the bits above them are neither
      all zeros nor all ones. */
  predicate Shortened(rela: bool, val: int, size: nat) {
    !(-Limit(size) <= Extended(rela, val) < Limit(size))
  }

  /** The low bytes of a value, and whether a warning says that it was shortened. */
  method OffsetInRange(val: int, size: nat, rela: bool) returns (low: int, warned: bool)
    requires size in {1, 2, 4}
    ensures low == val % Limit(size) && warned == Shortened(rela, val, size)
  {
    var v := val;
    if !rela && 0 <= v < 0x1_0000_0000 {
      v := Signed(v, 4);
      SignedSame(val, size);
    }
    var above := v / Limit(size);
    AboveIs(v, size);
    low, warned := v % Limit(size), above != 0 && above != -1;
  }

  lemma SignedSame(v: int, size: nat)
    requires size in {1, 2, 4}
    ensures Signed(v, 4) % Limit(size) == v % Limit(size)
  {
    if v >= 0x8000_0000 {
      assert Signed(v, 4) == v - 0x1_0000_0000;
      LessLimit(v, size);
    }
  }

  lemma LessLimit(v: int, size: nat)
    requires size in {1, 2, 4}
    ensures (v - 0x1_0000_0000) % Limit(size) == v % Limit(size)
  {
    if size == 1 {
      Less8(v);
    } else if size == 2 {
      Less16(v);
    } else {
      Less32(v);
    }
  }

  lemma Less8(v: int)
    ensures (v - 0x1_0000_0000) % 0x100 == v % 0x100
  {
    var q, r := v / 0x100, v % 0x100;
    assert v - 0x1_0000_0000 == 0x100 * (q - 0x100_0000) + r;
  }

  lemma Less16(v: int)
    ensures (v - 0x1_0000_0000) % 0x1_0000 == v % 0x1_0000
  {
    var q, r := v / 0x1_0000, v % 0x1_0000;
    assert v - 0x1_0000_0000 == 0x1_0000 * (q - 0x1_0000) + r;
  }

  lemma Less32(v: int)
    ensures (v - 0x1_0000_0000) % 0x1_0000_0000 == v % 0x1_0000_0000
  {
    var q, r := v / 0x1_0000_0000, v % 0x1_0000_0000;
    assert v - 0x1_0000_0000 == 0x1_0000_0000 * (q - 1) + r;
  }

  lemma AboveIs(v: int, size: nat)
    ensures (v / Limit(size) == 0 || v / Limit(size) == -1) <==> -Limit(size) <= v < Limit(size)
  {
  }

  /** The value that is written for a displacement, and the size it has. */
  function DispWritten(kept: bool, d: int): int {
    if kept then d else 0
  }

  function SizeWritten(f: Fields, kept: bool): nat {
    if kept || f.fake then DispSize(f.types) else 0
  }

  /** Writes the bytes, which decode to the operand and to the displacement that was written. */
  method OutputBytes(flag: CodeFlag, prefix: bool, base: Option<Reg>, index: Option<Reg>, scale: nat, f: Fields,
                     ghost t: Types, kept: bool, d: int, reg: nat, rela: bool)
    returns (bytes: seq<Byte>, warned: bool)
    requires Encodes(flag, prefix, base, index, scale, t, kept, f) && reg < 8
    ensures var size := SizeWritten(f, kept);
      Decode(flag, Prefixes(prefix, f.rexB, f.rexX), bytes)
      == Some(Memory(base, index, scale, Signed(DispWritten(kept, d) % Limit(size), size)))
    ensures bytes != [] && bytes[0] / 8 % 8 == reg
    ensures warned == (kept && Shortened(rela, d, SizeWritten(f, kept)))
  {
    hide Shortened;
    hide LittleEndian, ReadLittleEndian, FormFrom, FormOf, DispSize, Header, HasSib, Limit, Signed, HasDisp;
    var header := Header(f, reg, base);
    var written := [];
    warned := false;
    if HasDisp(f.types) {
      SizeSmall(f.types);
      NotShortened(rela, DispSize(f.types));
      var low;
      low, warned := OffsetInRange(DispWritten(kept, d), DispSize(f.types), rela);
      written := LittleEndian(low, DispSize(f.types));
      LittleEndianBack(DispWritten(kept, d) % Limit(DispSize(f.types)), DispSize(f.types));
    } else {
      ReadNothing();
    }
    bytes := header + written;
    FormHasSib(flag, prefix, base, f);
    HeaderFields(flag, Prefixes(prefix, f.rexB, f.rexX), f, reg, base, written);
    assert bytes[|header|..] == written;
    RegField(f, reg, base);
  }

  lemma RegField(f: Fields, reg: nat, base: Option<Reg>)
    requires FieldsFit(f) && reg < 8
    ensures Header(f, reg, base)[0] / 8 % 8 == reg
  {
    ThreeFields(f.regmem, reg, f.mode);
  }

  lemma ReadNothing()
    ensures ReadLittleEndian([]) == 0 && Signed(0, 0) == 0 && forall x {:trigger x % Limit(0)} :: x % Limit(0) == 0
  {
  }

  lemma NotShortened(rela: bool, size: nat)
    ensures !Shortened(rela, 0, size)
  {
  }

  lemma SizeSmall(t: Types)
    requires !t.disp64
    ensures DispSize(t) in {1, 2, 4}
  {
  }

  lemma FormHasSib(flag: CodeFlag, prefix: bool, base: Option<Reg>, f: Fields)
    requires FieldsFit(f)
    requires FormFrom(flag, Prefixes(prefix, f.rexB, f.rexX), f.mode, f.regmem, HasSib(f, base), f.scale, f.index, f.base).Some?
    ensures HasSib(f, base) || f.regmem != ESP || AddressWidth(flag, prefix) == 16
  {
  }

  /** What the processor makes of these bytes is this base, index and scale. */
  predicate Addresses(flag: CodeFlag, p: Prefixes, s: seq<Byte>, base: Option<Reg>, index: Option<Reg>, scale: nat) {
    var m := Decode(flag, p, s);
    m.Some? && m.value.base == base && m.value.index == index && m.value.scale == scale
  }

  /** Whatever bytes can stand for is accepted with their address size. */
  lemma AddressAccepted(flag: CodeFlag, p: Prefixes, s: seq<Byte>, base: Option<Reg>, index: Option<Reg>, scale: nat)
    requires Addresses(flag, p, s, base, index, scale)
    ensures Accepted(flag, p.addressSize, base, index, scale)
  {
    hide Signed, ReadLittleEndian;
  }

  lemma OnlyAddresses(flag: CodeFlag, explicitPrefix: bool, base: Option<Reg>, index: Option<Reg>, scale: nat)
    ensures (exists q: Prefixes, s: seq<Byte> {:trigger Addresses(flag, q, s, base, index, scale)} ::
              (explicitPrefix ==> q.addressSize) && Addresses(flag, q, s, base, index, scale))
      ==> Accepted(flag, explicitPrefix, base, index, scale)
          || (!explicitPrefix && Accepted(flag, true, base, index, scale))
  {
    hide Accepted, Addresses;
    forall q: Prefixes, s: seq<Byte> {:trigger Addresses(flag, q, s, base, index, scale)} | Addresses(flag, q, s, base, index, scale)
      ensures Accepted(flag, q.addressSize, base, index, scale)
    {
      AddressAccepted(flag, q, s, base, index, scale);
    }
  }

  /** A displacement that fits the width of addresses, as a signed number; in 64-bit code 32 bits count. */
  function Short(width: nat, d: int): int {
    if width == 16 then (if 0 <= d < 0x1_0000 then Signed(d, 2) else d)
    else if 0 <= d < 0x1_0000_0000 then Signed(d, 4) else d
  }

  /** How many bytes a displacement takes, and none if it is zero beside a register. */
  function DispBytes(width: nat, base: Option<Reg>, index: Option<Reg>, disp: Option<int>): nat {
    if disp.None? || (Short(width, disp.value) == 0 && (base.Some? || index.Some?)) then 0
    else if FitsSignedByte(Short(width, disp.value)) && HasGeneral(base) then 1
    else if width == 16 then 2
    else 4
  }

  /** Whether there is a warning about the displacement. */
  predicate DispReported(rela: bool, width: nat, base: Option<Reg>, index: Option<Reg>, disp: Option<int>) {
    var size := DispBytes(width, base, index, disp);
    size > 0 && Shortened(rela, disp.value, size)
  }

  /** The bytes of a memory operand, or a refusal, if and only if no bytes with the prefix asked for
      stand for it.  They decode to the same address; in 64-bit mode only if the displacement fits 32
      signed bits.  The relocations of 64-bit code stay in use once it has been chosen. */
  method EncodeMemory(flag: CodeFlag, explicitPrefix: bool, base: Option<Reg>, index: Option<Reg>, scale: nat,
                      disp: Option<int>, reg: nat, rela: bool)
    returns (ok: bool, p: Prefixes, bytes: seq<Byte>, warned: bool)
    requires Parsed(flag, base, index, scale) && reg < 8 && (flag.Code64? ==> rela)
    ensures ok == (Accepted(flag, explicitPrefix, base, index, scale)
                   || (!explicitPrefix && Accepted(flag, true, base, index, scale)))
    ensures ok <==> exists q: Prefixes, s: seq<Byte> {:trigger Addresses(flag, q, s, base, index, scale)} ::
                      (explicitPrefix ==> q.addressSize) && Addresses(flag, q, s, base, index, scale)
    ensures ok ==> bytes != [] && bytes[0] / 8 % 8 == reg && (explicitPrefix ==> p.addressSize)
    ensures ok ==>
      var m := Decode(flag, p, bytes);
      && Addresses(flag, p, bytes, base, index, scale)
      && SameDisplacement(AddressWidth(flag, p.addressSize), m.value.disp, if disp.Some? then disp.value else 0)
    ensures warned == (ok && DispReported(rela, AddressWidth(flag, p.addressSize), base, index, disp))
  {
    hide Accepted, Encodes, Parsed, Decode, Narrowed, SameDisplacement, FormOf, FormFrom, Shortened, HasGeneral, DispReported,
         SizeWritten, DispWritten, Signed, Limit;
    ok, p, bytes, warned := false, Prefixes(false, false, false), [], false;
    OnlyAddresses(flag, explicitPrefix, base, index, scale);
    var types := if disp.Some? then DisplacementTypes(flag, explicitPrefix, base.Some? || index.Some?)
                 else NO_TYPES.(baseIndex := base.Some? || index.Some?);
    var d := if disp.Some? then disp.value else 0;
    var prefix;
    ok, prefix, types := IndexCheck(flag, explicitPrefix, base, index, scale, types);
    if ok {
      var t, kept := OptimizeDisp(flag, types, disp.Some?, d);
      var f := BuildModrm(flag, prefix, base, index, scale, t, kept);
      p := Prefixes(prefix, f.rexB, f.rexX);
      bytes, warned := OutputBytes(flag, prefix, base, index, scale, f, t, kept, d, reg, rela);
      EncodedSize(flag, prefix, base, index, scale, t, kept, f);
      ReportedIs(rela, flag, prefix, base, index, disp, types, t.disp8, kept);
      DisplacementBack(flag, prefix, types, disp.Some?, d, kept, SizeWritten(f, kept));
      assert Addresses(flag, p, bytes, base, index, scale);
    }
  }

  /** What was chosen for a displacement is what its width says. */
  lemma ReportedIs(rela: bool, flag: CodeFlag, prefix: bool, base: Option<Reg>, index: Option<Reg>, disp: Option<int>,
                   types: Types, disp8: bool, kept: bool)
    requires disp.Some? == HasDisp(types) && types.baseIndex == (base.Some? || index.Some?)
    requires flag.Code64? && disp.Some? ==> types.disp32 && !types.disp16
    requires !flag.Code64? && disp.Some? ==>
      types.disp16 == (AddressWidth(flag, prefix) == 16) && types.disp32 == (AddressWidth(flag, prefix) == 32)
    requires var d := if disp.Some? then disp.value else 0;
      && kept == (disp.Some? && !(Narrowed(types, d) == 0 && types.baseIndex))
      && (kept ==> disp8 == FitsSignedByte(Narrowed(types, d)))
    ensures var size := if disp8 && HasGeneral(base) then 1 else if AddressWidth(flag, prefix) == 16 then 2 else 4;
      DispReported(rela, AddressWidth(flag, prefix), base, index, disp)
      == (kept && Shortened(rela, if disp.Some? then disp.value else 0, size))
  {
    hide Narrowed, Short, Shortened, HasGeneral;
    if disp.Some? {
      ShortIs(flag, prefix, types, disp.value);
    }
  }

  lemma ShortIs(flag: CodeFlag, prefix: bool, types: Types, d: int)
    requires flag.Code64? && HasDisp(types) ==> types.disp32 && !types.disp16
    requires !flag.Code64? && HasDisp(types) ==>
      types.disp16 == (AddressWidth(flag, prefix) == 16) && types.disp32 == (AddressWidth(flag, prefix) == 32)
    ensures HasDisp(types) ==> Narrowed(types, d) == Short(AddressWidth(flag, prefix), d)
  {
    hide Signed;
  }

  /** A displacement read back for the one that was asked for, in the width of addresses, but not more
      than 32 bits with a sign. */
  predicate SameDisplacement(width: nat, x: int, d: int) {
    && (width == 16 ==> (x - d) % 0x1_0000 == 0) && (width == 32 ==> (x - d) % 0x1_0000_0000 == 0)
    && (width == 64 ==> (x - d) % 0x1_0000_0000 == 0 && FitsSignedLong(x) && (x == d <==> FitsSignedLong(d)))
  }

  lemma EncodedSize(flag: CodeFlag, prefix: bool, base: Option<Reg>, index: Option<Reg>, scale: nat, t: Types, kept: bool,
                    f: Fields)
    requires Encodes(flag, prefix, base, index, scale, t, kept, f)
    ensures var size := SizeWritten(f, kept);
      && size in {0, 1, 2, 4}
      && (kept ==> size == if t.disp8 && HasGeneral(base) then 1 else if AddressWidth(flag, prefix) == 16 then 2 else 4)
  {
    hide FormFrom;
  }

  /** Reading a displacement back, with its sign, gives one that differs by a multiple of what its
      size can hold. */
  lemma SignedBack(d: int, size: nat)
    requires size in {1, 2, 4}
    ensures var x := Signed(d % Limit(size), size);
      (x - d) % Limit(size) == 0 && -Limit(size) / 2 <= x < Limit(size) / 2
  {
    if size == 1 {
      SignedBack8(d);
    } else if size == 2 {
      SignedBack16(d);
    } else {
      SignedBack32(d);
    }
    hide Signed;
  }

  lemma SignedBack8(d: int)
    ensures var x := Signed(d % 0x100, 1); (x - d) % 0x100 == 0 && -0x80 <= x < 0x80
  {
  }

  lemma SignedBack16(d: int)
    ensures var x := Signed(d % 0x1_0000, 2); (x - d) % 0x1_0000 == 0 && -0x8000 <= x < 0x8000
  {
  }

  lemma SignedBack32(d: int)
    ensures var x := Signed(d % 0x1_0000_0000, 4); (x - d) % 0x1_0000_0000 == 0 && -0x8000_0000 <= x < 0x8000_0000
  {
  }

  /** What is read back of a displacement that was written with `size` bytes, or left out. */
  lemma DisplacementBack(flag: CodeFlag, prefix: bool, types: Types, present: bool, d: int, kept: bool, size: nat)
    requires present == HasDisp(types) && (!present ==> d == 0)
    requires kept == (present && !(Narrowed(types, d) == 0 && types.baseIndex))
    requires flag.Code64? && present ==> types.disp32 && !types.disp16
    requires !flag.Code64? && present ==>
      types.disp16 == (AddressWidth(flag, prefix) == 16) && types.disp32 == (AddressWidth(flag, prefix) == 32)
    requires size in {0, 1, 2, 4} && (kept ==> size > 0)
    requires kept && size == 1 ==> FitsSignedByte(Narrowed(types, d))
    requires kept && size == 2 ==> AddressWidth(flag, prefix) == 16
    requires kept && size == 4 ==> AddressWidth(flag, prefix) != 16
    ensures SameDisplacement(AddressWidth(flag, prefix), Signed(DispWritten(kept, d) % Limit(size), size), d)
  {
    NarrowedSame(types, d);
    if !kept {
      assert 0 % Limit(size) == 0 && Signed(0, size) == 0;
    } else {
      SignedBack(d, size);
      if size == 1 {
        ByteBack(types, d);
      }
    }
    hide Narrowed, Signed, Limit;
  }

  /** Where addresses have 64 bits, a displacement is changed without a warning exactly if it has 32 bits
      without a sign and more than one byte is written for it, or just misses 32 bits with a sign. */
  predicate SilentlyChanged(base: Option<Reg>, d: int) {
    || (0x8000_0000 <= d < 0x1_0000_0000 && !(HasGeneral(base) && d >= 0xffff_ff80))
    || -0x1_0000_0000 <= d < -0x8000_0000
  }

  lemma SilentIff(base: Option<Reg>, index: Option<Reg>, d: int)
    ensures SilentlyChanged(base, d) <==> !FitsSignedLong(d) && !DispReported(true, 64, base, index, Some(d))
    ensures FitsSignedLong(d) ==> !DispReported(true, 64, base, index, Some(d))
  {
  }

  /** 0x80000000(%rax) addresses 0x80000000 below the register, and nothing is reported. */
  method SilentExample() returns (ok: bool, p: Prefixes, bytes: seq<Byte>, warned: bool)
    ensures ok && !warned
    ensures Decode(Code64, p, bytes) == Some(Memory(Some(Reg(64, 0)), None, 0, -0x8000_0000))
  {
    hide Decode, DispReported;
    SilentIff(Some(Reg(64, 0)), None, 0x8000_0000);
    ok, p, bytes, warned := EncodeMemory(Code64, false, Some(Reg(64, 0)), None, 0, Some(0x8000_0000), 0, true);
    AddressAccepted(Code64, p, bytes, Some(Reg(64, 0)), None, 0);
  }

  /** Narrowing changes a displacement by what addresses of its width do not notice. */
  lemma NarrowedSame(types: Types, d: int)
    ensures var n := Narrowed(types, d);
      && (types.disp16 && !types.disp32 ==> (n - d) % 0x1_0000 == 0)
      && (types.disp32 && !types.disp16 ==> (n - d) % 0x1_0000_0000 == 0 && (n == d || n < 0)
                                            && (n == d <==> !(0x8000_0000 <= d < 0x1_0000_0000)))
      && (!types.disp16 && !types.disp32 ==> n == d)
      && n % 0x100 == d % 0x100
  {
  }

  lemma ByteBack(types: Types, d: int)
    requires FitsSignedByte(Narrowed(types, d))
    ensures Signed(d % Limit(1), 1) == Narrowed(types, d)
  {
    NarrowedSame(types, d);
    hide Narrowed;
  }
}
