/** The parser as the program has it: a line, a pointer into it, and a loop over the operators. */
module ExprReader {
  import opened Characters
  import opened Wrappers
  import opened Expressions
  import opened ExprParser

  class Reader {
    const line: string
    const symbols: Symbols
    var pos: nat
    var warned: bool

    constructor (line: string, symbols: Symbols)
      ensures this.line == line && this.symbols == symbols && pos == 0 && !warned
    {
      this.line, this.symbols := line, symbols;
      pos, warned := 0, false;
    }

    /** What is read from a position is r, and the pointer is behind it. */
    twostate predicate HasRead(e: Expression, r: Read)
      reads this
    {
      e == r.e && pos == r.end && warned == (old(warned) || r.warned)
    }

    method SkipWhitespace()
      modifies this
      ensures pos == SkipSpace(line, old(pos)) && warned == old(warned)
    {
      if At(line, pos) == ' ' {
        pos := pos + 1;
      }
    }

    /** Reads digits of a radix, in 64 bits. */
    method Digits(radix: nat, maxDigit: nat) returns (number: int, count: nat)
      requires maxDigit <= 16 && pos <= |line|
      modifies this
      ensures count == DigitRun(line, old(pos), maxDigit) && pos == old(pos) + count <= |line|
      ensures number == DigitsValue(line, old(pos), count, radix, 0) && warned == old(warned)
    {
      hide Wrap, HexValue;
      ghost var start := pos;
      number, count := 0, 0;
      while pos < |line| && HexValue(line[pos]) < maxDigit
        invariant start <= pos <= |line| && count == pos - start && warned == old(warned)
        invariant count + DigitRun(line, pos, maxDigit) == DigitRun(line, start, maxDigit)
        invariant DigitsValue(line, pos, DigitRun(line, pos, maxDigit), radix, number)
               == DigitsValue(line, start, DigitRun(line, start, maxDigit), radix, 0)
      {
        number := Wrap(number * radix + HexValue(line[pos]));
        pos := pos + 1;
        count := count + 1;
      }
    }

    /** A number whose digits start here. */
    method NumberFrom(radix: nat, maxDigit: nat, limit: nat) returns (e: Expression)
      requires maxDigit <= 16 && pos <= |line|
      modifies this
      ensures HasRead(e, NumberOf(line, old(pos), radix, maxDigit, limit))
    {
      var number, count := Digits(radix, maxDigit);
      var c := At(line, pos);
      if count >= limit || c == 'b' || c == 'f' {
        e := UNMODELLED;
      } else {
        e := Expression(Absolute, None, None, number, false);
        pos := SuffixEnd(line, pos);
      }
    }

    method Number() returns (e: Expression)
      requires pos < |line| && IsDigit(line[pos])
      modifies this
      ensures HasRead(e, NumberAt(line, old(pos)))
    {
      if line[pos] != '0' {
        e := NumberFrom(10, 10, 22);
        return;
      }
      var c := At(line, pos + 1);
      if c == 'x' || c == 'X' {
        pos := pos + 2;
        e := NumberFrom(16, 16, 18);
      } else if c in {'b', 'B', 'f', 'F', 'd', 'D'} {
        pos := pos + 1;
        e := UNMODELLED;
      } else {
        pos := pos + 1;
        e := NumberFrom(8, 10, 22);
      }
    }

    /** Reads up to the end of a name. */
    method SymbolEnd()
      requires pos <= |line|
      modifies this
      ensures pos == NameEnd(line, old(pos)) && warned == old(warned)
    {
      while pos < |line| && InName(line[pos])
        invariant old(pos) <= pos <= |line| && NameEnd(line, pos) == NameEnd(line, old(pos)) && warned == old(warned)
      {
        pos := pos + 1;
      }
    }

    /** An operand: a number, a name, something in parentheses or behind a unary operator, or nothing. */
    method Operand() returns (e: Expression)
      requires pos <= |line| + 1
      modifies this
      ensures HasRead(e, ParseOperand(line, symbols, old(pos)))
      decreases |line| + 1 - pos, 0
    {
      hide ParseExpr, NumberAt, CleanUp, ApplyUnary, NameExpression, LoneSubtraction;
      SkipWhitespace();
      var start := pos;
      var c := At(line, pos);
      if pos >= |line| {
        e := Expression(Absent, None, None, 0, false);
      } else if IsDigit(c) {
        e := Number();
      } else if (c == '.' && !InName(At(line, pos + 1))) || c == '"' || c == '\'' {
        e, pos := UNMODELLED, pos + 1;
      } else if BeginsName(c) {
        SymbolEnd();
        e := NameExpression(symbols, line[start..pos]);
      } else if c == '(' {
        pos := pos + 1;
        e := Expr(0);
        if LoneSubtraction(e) {
          warned := true;
        }
        if At(line, pos) == ')' {
          pos := pos + 1;
        } else {
          warned := true;
        }
      } else if c == '~' || c == '-' || c == '!' {
        pos := pos + 1;
        e := Operand();
        var o := ApplyUnary(UnaryOf(c).value, e);
        e, warned := o.e, warned || o.warned;
      } else {
        e := Expression(Absent, None, None, 0, false);
      }
      e := CleanUp(e);
      SkipWhitespace();
    }

    /** An operand and the operators behind it that bind tighter than rank. */
    method Expr(rank: nat) returns (e: Expression)
      requires pos <= |line| + 1
      modifies this
      ensures HasRead(e, ParseExpr(line, symbols, rank, old(pos)))
      decreases |line| + 1 - pos, 2
    {
      hide ParseOperand, Combine, Rank, OpAt, OpSize;
      ghost var goal := ParseExpr(line, symbols, rank, pos);
      ghost var start := pos;
      e := Operand();
      var op := OpAt(line, pos);
      ghost var w := ParseOperand(line, symbols, start).warned;
      while op.Some? && Rank(op.value) > rank
        invariant start <= pos <= |line| + 1 && op == OpAt(line, pos)
        invariant ParseRest(line, symbols, rank, Read(e, pos, w)) == goal
        invariant warned == (old(warned) || w)
        decreases |line| + 1 - pos
      {
        NextOperator(pos, rank);
        ghost var right := ParseExpr(line, symbols, Rank(op.value), pos + OpSize(op.value));
        pos := pos + OpSize(op.value);
        var r := Expr(Rank(op.value));
        var o := Combine(op.value, e, r);
        e, warned := o.e, warned || o.warned;
        w := w || right.warned || o.warned;
        op := OpAt(line, pos);
      }
    }

    /** A whole expression, and the segment it is said to be in. */
    method Whole() returns (segment: Seg, e: Expression)
      requires pos <= |line| + 1
      modifies this
      ensures var w := ParseWhole(line, symbols, old(pos));
        segment == w.segment && HasRead(e, w.read)
    {
      hide ParseExpr;
      e := Expr(0);
      segment := e.seg;
      if e.seg.DiffSect? && e.addSymbol.None? && e.subtractSymbol.Some? && e.subtractSymbol.value.defined {
        warned, segment := true, Absolute;
      }
    }

    /** An operator takes room. */
    lemma NextOperator(p: nat, rank: nat)
      requires p <= |line| + 1 && OpAt(line, p).Some?
      ensures p < |line| && 1 <= OpSize(OpAt(line, p).value) && p + OpSize(OpAt(line, p).value) <= |line| + 1
    {
    }
  }
}
