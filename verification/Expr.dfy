/** Expressions of the assembler: what operators do to symbols and numbers. */
module Expressions {
  import opened Wrappers

  /** A symbol, defined in a section or not at all. */
  datatype Symbol = Symbol(name: string, defined: bool)

  datatype Seg = Absent | Absolute | Sect | Unknown | DiffSect | Big

  /** addSymbol - subtractSymbol + number. */
  datatype Expression = Expression(seg: Seg, addSymbol: Option<Symbol>, subtractSymbol: Option<Symbol>, number: int,
                                   divideByTwo: bool)

  /** The operators that the scanner can find.  The or-not operator has no spelling. */
  datatype Op = Multiply | Divide | Modulus | Add | Subtract | LeftShift | RightShift
    | Less | Greater | LessOrEqual | GreaterOrEqual | Equal | NotEqual
    | BitAnd | BitXor | BitOr | LogicalAnd | LogicalOr

  function Rank(op: Op): (r: nat)
    ensures 1 <= r <= 10
  {
    match op
    case Multiply => 10 case Divide => 10 case Modulus => 10
    case Add => 9 case Subtract => 9
    case LeftShift => 8 case RightShift => 8
    case Less => 7 case Greater => 7 case LessOrEqual => 7 case GreaterOrEqual => 7
    case Equal => 6 case NotEqual => 6
    case BitAnd => 5
    case BitXor => 4
    case BitOr => 3
    case LogicalAnd => 2
    case LogicalOr => 1
  }

  // ---------------------------------------------------------------------
  // 64-bit arithmetic
  // ---------------------------------------------------------------------

  function Wrap(x: int): (r: int)
    ensures -0x8000_0000_0000_0000 <= r < 0x8000_0000_0000_0000
  {
    var m := x % 0x1_0000_0000_0000_0000;
    if m >= 0x8000_0000_0000_0000 then m - 0x1_0000_0000_0000_0000 else m
  }

  /** Equal in 64 bits. */
  predicate Same(x: int, y: int) {
    (x - y) % 0x1_0000_0000_0000_0000 == 0
  }

  function TwoTo(k: nat): (p: nat)
    ensures p > 0
  {
    if k == 0 then 1 else 2 * TwoTo(k - 1)
  }

  /** What `&`, `^` and `|` make of one bit of each operand. */
  function OneBit(op: Op, a: nat, b: nat): nat {
    if op.BitAnd? then a * b else if op.BitXor? then (a + b) % 2 else (a + b + 1) / 2
  }

  /** The lowest n bits of two numbers in two's complement, joined one by one. */
  function Bitwise(op: Op, x: int, y: int, n: nat): nat
    decreases n
  {
    if n == 0 then 0 else OneBit(op, x % 2, y % 2) + 2 * Bitwise(op, x / 2, y / 2, n - 1)
  }

  /** C's quotient, which is rounded towards zero. */
  function Quotient(x: int, y: int): int
    requires y != 0
  {
    var q := (if x < 0 then -x else x) / (if y < 0 then -y else y);
    if (x < 0) == (y < 0) then q else -q
  }

  function Truth(b: bool): int {
    if b then 1 else 0
  }

  /** An operation on two constants; shift counts are meant to be below 64. */
  function Arithmetic(op: Op, x: int, y: int): int {
    match op
    case Multiply => Wrap(x * y)
    case Divide => if y == 0 then 0 else Wrap(Quotient(x, y))
    case Modulus => if y == 0 then 0 else Wrap(x - y * Quotient(x, y))
    case Add => Wrap(x + y)
    case Subtract => Wrap(x - y)
    case LeftShift => Wrap(x * TwoTo(y % 64))
    case RightShift => x / TwoTo(y % 64)
    case Less => Truth(x < y)
    case Greater => Truth(x > y)
    case LessOrEqual => Truth(x <= y)
    case GreaterOrEqual => Truth(x >= y)
    case Equal => Truth(x == y)
    case NotEqual => Truth(x != y)
    case BitAnd => Wrap(Bitwise(op, x, y, 64))
    case BitXor => Wrap(Bitwise(op, x, y, 64))
    case BitOr => Wrap(Bitwise(op, x, y, 64))
    case LogicalAnd => Truth(x != 0 && y != 0)
    case LogicalOr => Truth(x != 0 || y != 0)
  }

  // ---------------------------------------------------------------------
  // Cleaning up and combining
  // ---------------------------------------------------------------------

  const ZERO := Expression(Absolute, None, None, 0, false)

  /** Unused fields are emptied, and a symbol that is added and subtracted is cancelled. */
  function CleanUp(e: Expression): Expression {
    match e.seg
    case Absent => e.(addSymbol := None, subtractSymbol := None, number := 0)
    case Big => e.(addSymbol := None, subtractSymbol := None)
    case Absolute => e.(addSymbol := None, subtractSymbol := None)
    case Sect => e.(subtractSymbol := None)
    case Unknown => e.(subtractSymbol := None)
    case DiffSect =>
      if e.subtractSymbol == e.addSymbol then e.(seg := Absolute, addSymbol := None, subtractSymbol := None) else e
  }

  /** What combining two optional symbols gives. */
  datatype Part = Part(symbol: Option<Symbol>, seg: Option<Seg>, warned: bool)

  function SegOf(s: Symbol): Seg {
    if s.defined then Sect else Unknown
  }

  /** Two symbols never combine; no segment means that one of two was undefined. */
  function ExprPart(a: Option<Symbol>, b: Option<Symbol>): Part {
    if a.Some? && b.Some? then
      if a.value.defined && b.value.defined then Part(None, Some(Absolute), true) else Part(None, None, false)
    else if a.Some? then Part(a, Some(SegOf(a.value)), false)
    else if b.Some? then Part(b, Some(SegOf(b.value)), false)
    else Part(None, Some(Absolute), false)
  }

  /** The exchange that turns a subtraction into an addition. */
  function Exchanged(e: Expression): Expression {
    e.(number := Wrap(-e.number), addSymbol := e.subtractSymbol, subtractSymbol := e.addSymbol,
       seg := if e.addSymbol.Some? then DiffSect else e.seg)
  }

  /** An expression, and whether there was a warning. */
  datatype Outcome = Outcome(e: Expression, warned: bool)

  function AddTo(left: Expression, right: Expression): Outcome {
    var r, l := CleanUp(right), CleanUp(left);
    var p1, p2 := ExprPart(l.addSymbol, r.addSymbol), ExprPart(l.subtractSymbol, r.subtractSymbol);
    var warned := p1.warned || p2.warned || p1.seg.None? || p2.seg.None?;
    var joined := l.(addSymbol := p1.symbol, subtractSymbol := p2.symbol);
    var placed :=
      if p1.seg.None? || p2.seg.None? then joined.(seg := Absolute, number := 0)
      else if p2.seg == Some(Absolute) then (if l.seg != DiffSect then joined.(seg := p1.seg.value) else joined)
      else joined.(seg := DiffSect);
    Outcome(CleanUp(placed.(number := Wrap(placed.number + r.number))), warned)
  }

  function WithoutBig(e: Expression): Outcome {
    if e.seg.Big? then Outcome(e.(seg := Absolute, addSymbol := None, subtractSymbol := None, number := 0), true)
    else Outcome(e, false)
  }

  /** Any other operator wants two constants, or half of a difference. */
  function Compute(op: Op, l: Expression, r: Expression): Outcome {
    if l.seg.Unknown? || r.seg.Unknown? then Outcome(l.(seg := Absolute, number := 0), true)
    else if l.seg.DiffSect? && r.seg.Absolute? && op.Divide? && r.number == 2 then
      Outcome(l.(divideByTwo := true), false)
    else
      var e := l.(addSymbol := None, subtractSymbol := None);
      if !l.seg.Absolute? || !r.seg.Absolute? then Outcome(e.(seg := Absolute, number := 0), true)
      else Outcome(e.(number := Arithmetic(op, l.number, r.number)),
                   (op.Divide? || op.Modulus?) && r.number == 0)
  }

  /** What a binary operator makes of its operands, with position independent code in mind. */
  function Combine(op: Op, left: Expression, right: Expression): Outcome {
    var l0 := if right.seg.Absent? then Outcome(ZERO.(divideByTwo := left.divideByTwo), true) else Outcome(left, false);
    var l, r := WithoutBig(l0.e), WithoutBig(right);
    var o := if op.Subtract? then AddTo(l.e, Exchanged(r.e))
             else if op.Add? then AddTo(l.e, r.e)
             else Compute(op, l.e, r.e);
    Outcome(o.e, o.warned || l0.warned || l.warned || r.warned)
  }

  datatype Unary = Negate | Not | Complement

  /** What a unary operator makes of its operand. */
  function ApplyUnary(u: Unary, e: Expression): Outcome {
    if e.seg.Absolute? then
      Outcome(e.(number := match u case Negate => Wrap(-e.number) case Not => Truth(e.number == 0)
                           case Complement => -e.number - 1), false)
    else if (e.seg.Sect? || e.seg.Unknown?) && u.Negate? then
      Outcome(e.(subtractSymbol := e.addSymbol, addSymbol := None, seg := DiffSect), false)
    else Outcome(e, true)
  }

  // ---------------------------------------------------------------------
  // What an expression is worth
  // ---------------------------------------------------------------------

  /** The addresses of symbols. */
  type Addresses = string -> int

  function SymbolValue(s: Option<Symbol>, at: Addresses): int {
    if s.None? then 0 else at(s.value.name)
  }

  function ValueOf(e: Expression, at: Addresses): int {
    SymbolValue(e.addSymbol, at) - SymbolValue(e.subtractSymbol, at) + e.number
  }

  /** The fields that a segment does not use are empty, and a symbol knows its segment. */
  predicate Tidy(e: Expression) {
    match e.seg
    case Absent => e.addSymbol.None? && e.subtractSymbol.None? && e.number == 0
    case Big => e.addSymbol.None? && e.subtractSymbol.None?
    case Absolute => e.addSymbol.None? && e.subtractSymbol.None?
    case Sect => e.addSymbol.Some? && e.addSymbol.value.defined && e.subtractSymbol.None?
    case Unknown => e.addSymbol.Some? && !e.addSymbol.value.defined && e.subtractSymbol.None?
    case DiffSect => e.subtractSymbol.Some? && e.subtractSymbol != e.addSymbol
  }

  /** Neither missing nor too big. */
  predicate Plain(e: Expression) {
    Tidy(e) && !e.seg.Absent? && !e.seg.Big?
  }

  lemma WrapSame(x: int)
    ensures Same(Wrap(x), x)
  {
  }

  lemma SameSum(a: int, b: int, c: int, d: int)
    requires Same(a, b) && Same(c, d)
    ensures Same(a + c, b + d) && Same(a - c, b - d)
  {
  }

  /** Adding without a warning adds the values. */
  lemma AddValue(l: Expression, r: Expression, at: Addresses)
    requires Plain(l) && Plain(r) && !Combine(Add, l, r).warned
    ensures Plain(Combine(Add, l, r).e)
    ensures Same(ValueOf(Combine(Add, l, r).e, at), ValueOf(l, at) + ValueOf(r, at))
  {
    WrapSame(l.number + r.number);
    hide Wrap;
  }

  /** Subtracting without a warning subtracts them. */
  lemma SubtractValue(l: Expression, r: Expression, at: Addresses)
    requires Plain(l) && Plain(r) && !Combine(Subtract, l, r).warned
    ensures Plain(Combine(Subtract, l, r).e)
    ensures Same(ValueOf(Combine(Subtract, l, r).e, at), ValueOf(l, at) - ValueOf(r, at))
  {
    hide *;
    SubtractPlain(l, r);
    SubtractParts(l, r, at);
    ValueParts(Combine(Subtract, l, r).e, at);
    ValueParts(l, at);
    ValueParts(r, at);
    DifferenceSame(SymbolValue(l.addSymbol, at) - SymbolValue(l.subtractSymbol, at), l.number,
                   SymbolValue(r.addSymbol, at) - SymbolValue(r.subtractSymbol, at), r.number);
  }

  lemma ValueParts(e: Expression, at: Addresses)
    ensures ValueOf(e, at) == SymbolValue(e.addSymbol, at) - SymbolValue(e.subtractSymbol, at) + e.number
  {
  }

  lemma DifferenceSame(x: int, n: int, y: int, k: int)
    ensures Same(x - y + Wrap(n + Wrap(-k)), (x + n) - (y + k))
  {
    WrapSame(-k);
    WrapSame(n + Wrap(-k));
    hide Wrap;
  }

  lemma SubtractPlain(l: Expression, r: Expression)
    requires Plain(l) && Plain(r) && !Combine(Subtract, l, r).warned
    ensures Plain(Combine(Subtract, l, r).e)
  {
    hide Wrap;
  }

  lemma SubtractParts(l: Expression, r: Expression, at: Addresses)
    requires Plain(l) && Plain(r) && !Combine(Subtract, l, r).warned
    ensures var e := Combine(Subtract, l, r).e;
      && e.number == Wrap(l.number + Wrap(-r.number))
      && SymbolValue(e.addSymbol, at) - SymbolValue(e.subtractSymbol, at)
         == (SymbolValue(l.addSymbol, at) - SymbolValue(l.subtractSymbol, at))
            - (SymbolValue(r.addSymbol, at) - SymbolValue(r.subtractSymbol, at))
  {
    hide Wrap;
  }

  /** Adding warns exactly where two symbols are added, or two are subtracted. */
  lemma AddWarnsIff(l: Expression, r: Expression)
    requires Plain(l) && Plain(r)
    ensures Combine(Add, l, r).warned <==>
      (l.addSymbol.Some? && r.addSymbol.Some?) || (l.subtractSymbol.Some? && r.subtractSymbol.Some?)
  {
    hide Wrap;
  }

  /** Subtracting warns exactly where that is so with the symbols of the right operand exchanged. */
  lemma SubtractWarnsIff(l: Expression, r: Expression)
    requires Plain(l) && Plain(r)
    ensures Combine(Subtract, l, r).warned <==>
      (l.addSymbol.Some? && r.subtractSymbol.Some?) || (l.subtractSymbol.Some? && r.addSymbol.Some?)
  {
    hide Wrap;
  }

  /** Half of a difference of symbols. */
  predicate IsHalf(op: Op, l: Expression, r: Expression) {
    op.Divide? && l.seg.DiffSect? && r.seg.Absolute? && r.number == 2
  }

  /** The other operators warn exactly where an operand is no constant, but for half of a difference, and
      where they divide by zero; what is left then is the number 0. */
  lemma OtherWarnsIff(op: Op, l: Expression, r: Expression)
    requires Plain(l) && Plain(r) && !op.Add? && !op.Subtract?
    ensures var constants, o := l.seg.Absolute? && r.seg.Absolute?, Combine(op, l, r);
      && (o.warned <==> !IsHalf(op, l, r) && (!constants || ((op.Divide? || op.Modulus?) && r.number == 0)))
      && (o.warned ==> o.e.seg.Absolute? && o.e.number == 0)
      && (IsHalf(op, l, r) ==> o.e == l.(divideByTwo := true))
  {
    hide Wrap, Quotient, TwoTo, Bitwise;
  }

  /** A minus sign in front of a symbol leaves the number next to it alone, so it negates the value
      exactly if there is none: if twice the number is nothing in 64 bits. */
  lemma NegateValue(e: Expression, at: Addresses)
    requires Plain(e) && !ApplyUnary(Negate, e).warned
    ensures Plain(CleanUp(ApplyUnary(Negate, e).e))
    ensures Same(ValueOf(CleanUp(ApplyUnary(Negate, e).e), at), -ValueOf(e, at))
            <==> e.seg.Absolute? || Same(2 * e.number, 0)
  {
    WrapSame(-e.number);
    hide Wrap;
  }
}
