/** The precedence climbing parser that evaluates as it reads. */
module ExprParser {
  import opened Characters
  import opened Wrappers
  import opened Expressions

  // ---------------------------------------------------------------------
  // Characters
  // ---------------------------------------------------------------------

  predicate BeginsName(c: char) {
    'a' <= c <= 'z' || 'A' <= c <= 'Z' || c == '_' || c == '.' || c == '$' || c as int >= 128
  }

  predicate InName(c: char) {
    BeginsName(c) || IsDigit(c)
  }

  function HexValue(c: char): nat {
    if IsDigit(c) then c as int - '0' as int
    else if 'a' <= c <= 'f' then c as int - 'a' as int + 10
    else if 'A' <= c <= 'F' then c as int - 'A' as int + 10
    else 99
  }

  function SkipSpace(s: string, p: nat): (q: nat)
    ensures p <= q <= p + 1 && (q > p ==> p < |s|)
  {
    if At(s, p) == ' ' then p + 1 else p
  }

  function NameEnd(s: string, p: nat): (q: nat)
    ensures p <= q && (p <= |s| ==> q <= |s|)
    decreases |s| - p
  {
    if p < |s| && InName(s[p]) then NameEnd(s, p + 1) else p
  }

  // ---------------------------------------------------------------------
  // Operators
  // ---------------------------------------------------------------------

  /** The operator at p, found by one character or by two.  A single '=' is none, and a single '!'
      is taken for "!=". */
  function OpAt(s: string, p: nat): Option<Op> {
    var d := At(s, p + 1);
    match At(s, p)
    case '*' => Some(Multiply)
    case '/' => Some(Divide)
    case '%' => Some(Modulus)
    case '+' => Some(Add)
    case '-' => Some(Subtract)
    case '^' => Some(BitXor)
    case '<' => Some(if d == '<' then LeftShift else if d == '=' then LessOrEqual else if d == '>' then NotEqual else Less)
    case '>' => Some(if d == '>' then RightShift else if d == '=' then GreaterOrEqual else Greater)
    case '=' => if d == '=' then Some(Equal) else None
    case '!' => Some(NotEqual)
    case '&' => Some(if d == '&' then LogicalAnd else BitAnd)
    case '|' => Some(if d == '|' then LogicalOr else BitOr)
    case _ => None
  }

  function OpSize(op: Op): nat {
    if op.LeftShift? || op.RightShift? || op.LessOrEqual? || op.GreaterOrEqual? || op.Equal? || op.NotEqual?
       || op.LogicalAnd? || op.LogicalOr? then 2 else 1
  }

  // ---------------------------------------------------------------------
  // Operands without operands
  // ---------------------------------------------------------------------

  /** How many digits of a radix there are from p on. */
  function DigitRun(s: string, p: nat, maxDigit: nat): (n: nat)
    requires maxDigit <= 16
    ensures p + n <= |s| || n == 0
    decreases |s| - p
  {
    if p < |s| && HexValue(s[p]) < maxDigit then 1 + DigitRun(s, p + 1, maxDigit) else 0
  }

  /** The value of n digits, in 64 bits. */
  function DigitsValue(s: string, p: nat, n: nat, radix: nat, acc: int): int
    decreases n
  {
    if n == 0 then acc else DigitsValue(s, p + 1, n - 1, radix, Wrap(acc * radix + HexValue(At(s, p))))
  }

  /** The suffixes LL and ULL are passed over. */
  function SuffixEnd(s: string, p: nat): (q: nat)
    ensures p <= q && (p <= |s| ==> q <= |s|)
  {
    if At(s, p) == 'U' && At(s, p + 1) == 'L' && At(s, p + 2) == 'L' then p + 3
    else if At(s, p) == 'L' && At(s, p + 1) == 'L' then p + 2
    else p
  }

  /** An operand and where it ends. */
  datatype Read = Read(e: Expression, end: nat, warned: bool)

  /** Big stands for all the operands that this model does not read: bignums, floats, local labels,
      quotes and the current location. */
  const UNMODELLED := Expression(Big, None, None, 1, false)

  /** A number whose digits start at p. */
  function NumberOf(s: string, p: nat, radix: nat, maxDigit: nat, limit: nat): (r: Read)
    requires maxDigit <= 16 && p <= |s|
    ensures p <= r.end <= |s|
  {
    var n := DigitRun(s, p, maxDigit);
    var after := At(s, p + n);
    if n >= limit || after == 'b' || after == 'f' then Read(UNMODELLED, p + n, false)
    else Read(Expression(Absolute, None, None, DigitsValue(s, p, n, radix, 0), false), SuffixEnd(s, p + n), false)
  }

  function NumberAt(s: string, p: nat): (r: Read)
    requires p < |s| && IsDigit(s[p])
    ensures p < r.end <= |s|
  {
    var c := At(s, p + 1);
    if s[p] != '0' then
      assert HexValue(s[p]) < 10;
      assert DigitRun(s, p, 10) >= 1;
      NumberOf(s, p, 10, 10, 22)
    else if c == 'x' || c == 'X' then NumberOf(s, p + 2, 16, 16, 18)
    else if c in {'b', 'B', 'f', 'F', 'd', 'D'} then Read(UNMODELLED, p + 1, false)
    else NumberOf(s, p + 1, 8, 10, 22)
  }

  /** What is known about a name. */
  datatype Kind = Defined | Undefined | Constant(value: int)

  type Symbols = map<string, Kind>

  function NameExpression(symbols: Symbols, name: string): Expression {
    var kind := if name in symbols then symbols[name] else Undefined;
    match kind
    case Constant(v) => Expression(Absolute, None, None, v, false)
    case Defined => Expression(Sect, Some(Symbol(name, true)), None, 0, false)
    case Undefined => Expression(Unknown, Some(Symbol(name, false)), None, 0, false)
  }

  // ---------------------------------------------------------------------
  // The parser
  // ---------------------------------------------------------------------

  function UnaryOf(c: char): Option<Unary> {
    if c == '-' then Some(Negate) else if c == '!' then Some(Not) else if c == '~' then Some(Complement) else None
  }

  /** Subtracting a defined symbol from nothing is complained about. */
  predicate LoneSubtraction(e: Expression) {
    e.seg.DiffSect? && e.addSymbol.None? && e.subtractSymbol.Some? && e.subtractSymbol.value.defined
  }

  /** Cleans an operand up and goes over a space behind it. */
  function Finish(s: string, r: Read): (q: Read)
    ensures r.end <= q.end <= r.end + 1 && (q.end > r.end ==> r.end < |s|)
  {
    Read(CleanUp(r.e), SkipSpace(s, r.end), r.warned)
  }

  function ParseOperand(s: string, symbols: Symbols, pos: nat): (r: Read)
    requires pos <= |s| + 1
    ensures pos <= r.end <= |s| + 1
    decreases |s| + 1 - pos, 0
  {
    var p := SkipSpace(s, pos);
    var c := At(s, p);
    if p >= |s| then Finish(s, Read(Expression(Absent, None, None, 0, false), p, false))
    else if IsDigit(c) then Finish(s, NumberAt(s, p))
    else if (c == '.' && !InName(At(s, p + 1))) || c == '"' || c == '\'' then Finish(s, Read(UNMODELLED, p + 1, false))
    else if BeginsName(c) then
      assert NameEnd(s, p) > p;
      Finish(s, Read(NameExpression(symbols, s[p..NameEnd(s, p)]), NameEnd(s, p), false))
    else if c == '(' then
      var r := ParseExpr(s, symbols, 0, p + 1);
      var closed := At(s, r.end) == ')';
      Finish(s, Read(r.e, if closed then r.end + 1 else r.end, r.warned || LoneSubtraction(r.e) || !closed))
    else if UnaryOf(c).Some? then
      var r := ParseOperand(s, symbols, p + 1);
      var o := ApplyUnary(UnaryOf(c).value, r.e);
      Finish(s, Read(o.e, r.end, r.warned || o.warned))
    else Finish(s, Read(Expression(Absent, None, None, 0, false), p, false))
  }

  function ParseExpr(s: string, symbols: Symbols, rank: nat, pos: nat): (r: Read)
    requires pos <= |s| + 1
    ensures pos <= r.end <= |s| + 1
    decreases |s| + 1 - pos, 2
  {
    var left := ParseOperand(s, symbols, pos);
    ParseRest(s, symbols, rank, left)
  }

  /** The operators of higher rank behind an operand. */
  function ParseRest(s: string, symbols: Symbols, rank: nat, left: Read): (r: Read)
    requires left.end <= |s| + 1
    ensures left.end <= r.end <= |s| + 1
    decreases |s| + 1 - left.end, 1
  {
    var op := OpAt(s, left.end);
    if op.None? || Rank(op.value) <= rank then left
    else
      var right := ParseExpr(s, symbols, Rank(op.value), left.end + OpSize(op.value));
      var o := Combine(op.value, left.e, right.e);
      ParseRest(s, symbols, rank, Read(o.e, right.end, left.warned || right.warned || o.warned))
  }

  // ---------------------------------------------------------------------
  // Whole expressions
  // ---------------------------------------------------------------------

  /** What is read where an expression is wanted, and the segment that the caller is told. */
  datatype Whole = Whole(segment: Seg, read: Read)

  /** Subtracting a defined symbol from nothing is complained about here, too, and then the segment is
      given out as absolute, but the expression is left as it is. */
  function ParseWhole(s: string, symbols: Symbols, pos: nat): (w: Whole)
    requires pos <= |s| + 1
    ensures pos <= w.read.end <= |s| + 1
  {
    var r := ParseExpr(s, symbols, 0, pos);
    if LoneSubtraction(r.e) then Whole(Absolute, r.(warned := true)) else Whole(r.e.seg, r)
  }
}
