/** What is read from the texts of numbers and operators, by their spellings alone. */
module ExprTexts {
  import opened Characters
  import opened Wrappers
  import opened Expressions
  import opened ExprParser
  import opened ExprPrinter
  import opened ExprMeaning
  import opened ExprOperators
  import Numerals

  function Plainly(x: int): Expression {
    Expression(Absolute, None, None, x, false)
  }

  /** The operand at p is the number x, and the pointer is at q behind it. */
  predicate ConstantAt(s: string, symbols: Symbols, p: nat, x: int, q: nat) {
    p <= |s| + 1 && Word(x) && ParseOperand(s, symbols, p) == Read(Plainly(x), q, false)
  }

  /** No operator stands here. */
  predicate NoOperator(s: string, p: nat) {
    At(s, p) !in "*/%+-^<>=!&|"
  }

  predicate ZeroDivision(op: string, y: int) {
    (op == "/" || op == "%") && y == 0
  }

  /** An operator, and nothing behind it that would make a longer one. */
  predicate OperatorAt(s: string, p: nat, op: string) {
    Spelling(op).Some? && Stands(s, p, op) && At(s, p + |op|) !in "<>=&|"
  }

  lemma RankRow(op: string, row: nat)
    requires InRow(op, row)
    ensures Spelling(op).Some? && Rank(Spelling(op).value) == 10 - row
  {
    var ops := ROWS[row];
    hide Rank;
    RankOf(op);
  }

  lemma RankOf(op: string)
    requires Spelling(op).Some?
    ensures Rank(Spelling(op).value) ==
      if op in ["*", "/", "%"] then 10 else if op in ["+", "-"] then 9 else if op in ["<<", ">>"] then 8
      else if op in ["<", ">", "<=", ">="] then 7 else if op in ["==", "!=", "<>"] then 6
      else if op == "&" then 5 else if op == "^" then 4 else if op == "|" then 3 else if op == "&&" then 2 else 1
  {
  }

  lemma OperatorFound(s: string, p: nat, op: string)
    requires OperatorAt(s, p, op)
    ensures OpAt(s, p) == Spelling(op) && OpSize(Spelling(op).value) == |op|
  {
    StandsAt(s, p, op, 0);
    if |op| == 2 {
      StandsAt(s, p, op, 1);
    }
    hide Stands;
  }

  lemma NoneFound(s: string, p: nat)
    requires NoOperator(s, p)
    ensures OpAt(s, p).None?
  {
  }

  // ---------------------------------------------------------------------
  // Operators between numbers
  // ---------------------------------------------------------------------

  /** A number, an operator and the number that the right operand amounts to make one number. */
  lemma OneStep(s: string, symbols: Symbols, rank: nat, x: int, p: nat, warned: bool, op: string, right: Read, y: int)
    returns (z: int)
    requires p <= |s| + 1 && OperatorAt(s, p, op) && Rank(Spelling(op).value) > rank && Word(x) && Word(y)
    requires p + |op| <= |s| + 1 && right == ParseExpr(s, symbols, Rank(Spelling(op).value), p + |op|)
    requires right.e == Plainly(y)
    ensures Yields(op, x, y, z) && Word(z) && right.end <= |s| + 1
    ensures ParseRest(s, symbols, rank, Read(Plainly(x), p, warned))
         == ParseRest(s, symbols, rank, Read(Plainly(z), right.end, warned || right.warned || ZeroDivision(op, y)))
  {
    hide *;
    OperatorSpelled(s, p, op);
    var o := Spelling(op).value;
    OperatorFound(s, p, op);
    ReadOn(s, symbols, rank, Read(Plainly(x), p, warned), o);
    ZeroDivisionIs(op, y);
    z := Arithmetic(o, x, y);
    CombinePlainly(o, x, y);
    ArithmeticYields(op, x, y);
    YieldsWord(op, x, y, z);
  }

  lemma OperatorSpelled(s: string, p: nat, op: string)
    requires OperatorAt(s, p, op)
    ensures Spelling(op).Some? && p + |op| <= |s|
  {
    hide Spelling;
  }

  lemma CombinePlainly(op: Op, x: int, y: int)
    ensures Combine(op, Plainly(x), Plainly(y))
         == Outcome(Plainly(Arithmetic(op, x, y)), (op.Divide? || op.Modulus?) && y == 0)
  {
    hide Combine, Arithmetic;
    CombineConstants(op, x, y);
  }

  lemma YieldsWord(op: string, x: int, y: int, z: int)
    requires Yields(op, x, y, z)
    ensures Word(z)
  {
  }

  lemma ZeroDivisionIs(op: string, y: int)
    requires Spelling(op).Some?
    ensures var o := Spelling(op).value;
      ZeroDivision(op, y) == ((o.Divide? || o.Modulus?) && y == 0)
  {
  }

  /** The last operand. */
  lemma LastReads(s: string, symbols: Symbols, rank: nat, p: nat, x: int, q: nat)
    requires ConstantAt(s, symbols, p, x, q)
    requires OpAt(s, q).None? || Rank(OpAt(s, q).value) <= rank
    ensures ParseExpr(s, symbols, rank, p) == Read(Plainly(x), q, false)
  {
    hide ParseOperand, ParseRest, ParseExpr, OpAt;
    ReadExpr(s, symbols, rank, p);
    ReadStop(s, symbols, rank, Read(Plainly(x), q, false));
  }

  /** What a text is read as that stands for one number. */
  ghost predicate ReadsAs(r: Read, z: int, end: nat, warned: bool) {
    r == Read(Plainly(z), end, warned)
  }

  /** The last operator and its right operand. */
  lemma LastStep(s: string, symbols: Symbols, rank: nat, x: int, q: nat, warned: bool, op: string, row: nat, y: int,
                 end: nat) returns (z: int)
    requires q <= |s| + 1 && Word(x) && InRow(op, row) && rank < 10 - row && OperatorAt(s, q, op)
    requires ConstantAt(s, symbols, q + |op|, y, end) && NoOperator(s, end)
    ensures Yields(op, x, y, z) && Word(z)
    ensures ReadsAs(ParseRest(s, symbols, rank, Read(Plainly(x), q, warned)), z, end, warned || ZeroDivision(op, y))
  {
    hide *;
    RankRow(op, row);
    NoneFound(s, end);
    OperatorSpelled(s, q, op);
    OperandEnd(s, symbols, q + |op|, y, end);
    LastReads(s, symbols, Rank(Spelling(op).value), q + |op|, y, end);
    z := OneStep(s, symbols, rank, x, q, warned, op, Read(Plainly(y), end, false), y);
    EndsReading(s, symbols, rank, z, end, warned || ZeroDivision(op, y));
    ReadsAsIs(ParseRest(s, symbols, rank, Read(Plainly(x), q, warned)), z, end, warned || ZeroDivision(op, y));
  }

  lemma EndsReading(s: string, symbols: Symbols, rank: nat, z: int, end: nat, warned: bool)
    requires end <= |s| + 1 && OpAt(s, end).None?
    ensures ParseRest(s, symbols, rank, Read(Plainly(z), end, warned)) == Read(Plainly(z), end, warned)
  {
    hide Plainly, OpAt, ParseRest;
    ReadStop(s, symbols, rank, Read(Plainly(z), end, warned));
  }

  lemma ReadsAsIs(r: Read, z: int, end: nat, warned: bool)
    ensures ReadsAs(r, z, end, warned) <==> r == Read(Plainly(z), end, warned)
  {
  }

  /** In every text, two numbers with an operator between them are read as what the operator yields,
      with a warning exactly for a division by zero. */
  lemma BinaryReads(s: string, symbols: Symbols, p: nat, x: int, q: nat, op: string, row: nat, y: int, end: nat)
    requires ConstantAt(s, symbols, p, x, q) && InRow(op, row) && OperatorAt(s, q, op)
    requires ConstantAt(s, symbols, q + |op|, y, end) && NoOperator(s, end)
    ensures exists z ::
      Yields(op, x, y, z) && ReadsAs(ParseExpr(s, symbols, 0, p), z, end, ZeroDivision(op, y))
  {
    hide *;
    RowBound(op, row);
    OperandEnd(s, symbols, p, x, q);
    ReadExpr(s, symbols, 0, p);
    var z := LastStep(s, symbols, 0, x, q, false, op, row, y, end);
  }

  lemma RowBound(op: string, row: nat)
    requires InRow(op, row)
    ensures row < 10
  {
  }

  lemma OperandEnd(s: string, symbols: Symbols, p: nat, x: int, q: nat)
    requires ConstantAt(s, symbols, p, x, q)
    ensures p <= |s| + 1 && q <= |s| + 1 && Word(x) && ParseOperand(s, symbols, p) == Read(Plainly(x), q, false)
  {
    hide ParseOperand;
  }

  /** In every text of three numbers and two operators, the operators of one row are applied from the
      left, and those of an upper row before those of a lower one. */
  lemma GroupReads(s: string, symbols: Symbols, p: nat, x: int, q: nat, op: string, row: nat, y: int, q2: nat,
                   op2: string, row2: nat, z: int, end: nat)
    requires ConstantAt(s, symbols, p, x, q) && InRow(op, row) && OperatorAt(s, q, op)
    requires ConstantAt(s, symbols, q + |op|, y, q2) && InRow(op2, row2) && OperatorAt(s, q2, op2)
    requires ConstantAt(s, symbols, q2 + |op2|, z, end) && NoOperator(s, end)
    ensures row <= row2 ==> exists m, v ::
      && Yields(op, x, y, m) && Yields(op2, m, z, v)
      && ReadsAs(ParseExpr(s, symbols, 0, p), v, end, ZeroDivision(op, y) || ZeroDivision(op2, z))
    ensures row2 < row ==> exists m, v ::
      && Yields(op2, y, z, m) && Yields(op, x, m, v)
      && ReadsAs(ParseExpr(s, symbols, 0, p), v, end, ZeroDivision(op2, z) || ZeroDivision(op, m))
  {
    hide *;
    if row <= row2 {
      LeftGroup(s, symbols, p, x, q, op, row, y, q2, op2, row2, z, end);
    } else {
      RightGroup(s, symbols, p, x, q, op, row, y, q2, op2, row2, z, end);
    }
  }

  lemma LeftGroup(s: string, symbols: Symbols, p: nat, x: int, q: nat, op: string, row: nat, y: int, q2: nat,
                  op2: string, row2: nat, z: int, end: nat)
    requires ConstantAt(s, symbols, p, x, q) && InRow(op, row) && OperatorAt(s, q, op)
    requires ConstantAt(s, symbols, q + |op|, y, q2) && InRow(op2, row2) && OperatorAt(s, q2, op2)
    requires ConstantAt(s, symbols, q2 + |op2|, z, end) && NoOperator(s, end) && row <= row2
    ensures exists m, v ::
      && Yields(op, x, y, m) && Yields(op2, m, z, v)
      && ReadsAs(ParseExpr(s, symbols, 0, p), v, end, ZeroDivision(op, y) || ZeroDivision(op2, z))
  {
    hide *;
    RankRow(op, row);
    RankRow(op2, row2);
    RowBound(op2, row2);
    OperatorFound(s, q2, op2);
    OperandEnd(s, symbols, p, x, q);
    OperandEnd(s, symbols, q + |op|, y, q2);
    ReadExpr(s, symbols, 0, p);
    LastReads(s, symbols, Rank(Spelling(op).value), q + |op|, y, q2);
    var m := OneStep(s, symbols, 0, x, q, false, op, Read(Plainly(y), q2, false), y);
    var v := LastStep(s, symbols, 0, m, q2, ZeroDivision(op, y), op2, row2, z, end);
  }

  lemma RightGroup(s: string, symbols: Symbols, p: nat, x: int, q: nat, op: string, row: nat, y: int, q2: nat,
                   op2: string, row2: nat, z: int, end: nat)
    requires ConstantAt(s, symbols, p, x, q) && InRow(op, row) && OperatorAt(s, q, op)
    requires ConstantAt(s, symbols, q + |op|, y, q2) && InRow(op2, row2) && OperatorAt(s, q2, op2)
    requires ConstantAt(s, symbols, q2 + |op2|, z, end) && NoOperator(s, end) && row2 < row
    ensures exists m, v ::
      && Yields(op2, y, z, m) && Yields(op, x, m, v)
      && ReadsAs(ParseExpr(s, symbols, 0, p), v, end, ZeroDivision(op2, z) || ZeroDivision(op, m))
  {
    hide *;
    RankRow(op, row);
    RowBound(op, row);
    RowBound(op2, row2);
    NoneFound(s, end);
    var rank := Rank(Spelling(op).value);
    OperandEnd(s, symbols, p, x, q);
    OperandEnd(s, symbols, q + |op|, y, q2);
    ReadExpr(s, symbols, 0, p);
    ReadExpr(s, symbols, rank, q + |op|);
    var m := LastStep(s, symbols, rank, y, q2, false, op2, row2, z, end);
    ReadsAsIs(ParseExpr(s, symbols, rank, q + |op|), m, end, ZeroDivision(op2, z));
    var v := OneStep(s, symbols, 0, x, q, false, op, Read(Plainly(m), end, ZeroDivision(op2, z)), m);
    EndsReading(s, symbols, 0, v, end, ZeroDivision(op2, z) || ZeroDivision(op, m));
    ReadsAsIs(ParseExpr(s, symbols, 0, p), v, end, ZeroDivision(op2, z) || ZeroDivision(op, m));
  }

  // ---------------------------------------------------------------------
  // Numbers
  // ---------------------------------------------------------------------

  /** A number as it is written: a prefix by its radix, figures, and perhaps a suffix. */
  predicate NumberText(prefix: string, ds: seq<nat>, suffix: string, radix: nat) {
    && suffix in ["", "LL", "ULL"]
    && (radix == 10 ==> prefix == "" && ds != [] && ds[0] != 0 && |ds| < 22 && forall i :: 0 <= i < |ds| ==> ds[i] < 10)
    && (radix == 16 ==> prefix in ["0x", "0X"] && |ds| < 18 && forall i :: 0 <= i < |ds| ==> ds[i] < 16)
    && (radix == 8 ==> prefix == "0" && |ds| < 22 && forall i :: 0 <= i < |ds| ==> ds[i] < 10)
    && radix in {8, 10, 16}
  }

  lemma FigureHex(d: nat, c: char)
    requires d < 16 && (c == Numerals.FIGURES[d] || c == Numerals.CAPITALS[d])
    ensures HexValue(c) == d && (d < 10 ==> IsDigit(c))
  {
  }

  /** Figures stand from p on. */
  predicate FiguresAt(s: string, p: nat, ds: seq<nat>) {
    p + |ds| <= |s| && forall i :: 0 <= i < |ds| ==>
      ds[i] < 16 && (s[p + i] == Numerals.FIGURES[ds[i]] || s[p + i] == Numerals.CAPITALS[ds[i]])
  }

  lemma {:induction false} FigureRun(s: string, p: nat, ds: seq<nat>, most: nat)
    requires FiguresAt(s, p, ds) && most <= 16 && (forall i :: 0 <= i < |ds| ==> ds[i] < most)
    requires HexValue(At(s, p + |ds|)) >= most || p + |ds| == |s|
    ensures DigitRun(s, p, most) == |ds|
    decreases |ds|
  {
    if ds != [] {
      FigureHex(ds[0], s[p + 0]);
      forall i | 0 <= i < |ds[1..]|
        ensures ds[1..][i] < 16 && (s[p + 1 + i] == Numerals.FIGURES[ds[1..][i]]
                                    || s[p + 1 + i] == Numerals.CAPITALS[ds[1..][i]])
      {
        assert s[p + (1 + i)] == s[p + 1 + i] && ds[1..][i] == ds[1 + i];
      }
      hide HexValue;
      FigureRun(s, p + 1, ds[1..], most);
    }
  }

  lemma SameTimes(a: int, w: int, r: int, d: int)
    requires Same(a, w)
    ensures Same(Wrap(a * r + d), w * r + d)
  {
    var k := (a - w) / 0x1_0000_0000_0000_0000;
    assert a - w == 0x1_0000_0000_0000_0000 * k;
    assert a * r - w * r == 0x1_0000_0000_0000_0000 * (k * r) by {
      Distributed(a, w, r, k);
    }
    WordWrap(a * r + d);
    hide Wrap;
    SameStep(Wrap(a * r + d), a * r + d, w * r + d, k * r);
  }

  lemma Distributed(a: int, w: int, r: int, k: int)
    requires a - w == 0x1_0000_0000_0000_0000 * k
    ensures a * r - w * r == 0x1_0000_0000_0000_0000 * (k * r)
  {
    assert a * r - w * r == (a - w) * r;
    assert (0x1_0000_0000_0000_0000 * k) * r == 0x1_0000_0000_0000_0000 * (k * r);
  }

  lemma SameStep(x: int, y: int, z: int, k: int)
    requires Same(x, y) && y - z == 0x1_0000_0000_0000_0000 * k
    ensures Same(x, z)
  {
  }

  lemma {:induction false} FigureValue(s: string, p: nat, ds: seq<nat>, radix: nat)
    requires FiguresAt(s, p, ds)
    ensures Same(DigitsValue(s, p, |ds|, radix, 0), Numerals.Worth(ds, radix))
    ensures Word(DigitsValue(s, p, |ds|, radix, 0))
    decreases |ds|
  {
    if ds != [] {
      var n := |ds| - 1;
      FigureHex(ds[n], s[p + n]);
      hide HexValue, Wrap, Same;
      FigureValue(s, p, ds[..n], radix);
      ValueAppend(s, p, n, radix, 0);
      SameTimes(DigitsValue(s, p, n, radix, 0), Numerals.Worth(ds[..n], radix), radix, ds[n]);
      WordWrap(DigitsValue(s, p, n, radix, 0) * radix + ds[n]);
    } else {
      assert DigitsValue(s, p, 0, radix, 0) == 0;
    }
  }

  /** A suffix is passed over, and what follows is neither a figure nor a local label. */
  lemma SuffixPassed(s: string, p: nat, suffix: string)
    requires suffix in ["", "LL", "ULL"] && Stands(s, p, suffix) && !InName(At(s, p + |suffix|))
    ensures SuffixEnd(s, p) == p + |suffix| && HexValue(At(s, p)) == 99 && !IsDigit(At(s, p))
    ensures At(s, p) !in {'b', 'B', 'f', 'F', 'd', 'D', 'x', 'X'}
  {
    if suffix != "" {
      StandsAt(s, p, suffix, 0);
      StandsAt(s, p, suffix, 1);
    }
    if |suffix| == 3 {
      StandsAt(s, p, suffix, 2);
    }
    hide Stands;
  }

  lemma FiguresRead(s: string, p: nat, ds: seq<nat>, suffix: string, radix: nat, most: nat, limit: nat)
    requires FiguresAt(s, p, ds) && most <= 16 && (forall i :: 0 <= i < |ds| ==> ds[i] < most) && |ds| < limit
    requires suffix in ["", "LL", "ULL"] && Stands(s, p + |ds|, suffix) && !InName(At(s, p + |ds| + |suffix|))
    ensures NumberOf(s, p, radix, most, limit)
         == Read(Plainly(DigitsValue(s, p, |ds|, radix, 0)), p + |ds| + |suffix|, false)
  {
    hide DigitRun, DigitsValue, FiguresAt, HexValue, SuffixEnd, Stands, InName;
    SuffixPassed(s, p + |ds|, suffix);
    FigureRun(s, p, ds, most);
  }

  /** How the first characters tell the radix. */
  lemma RadixTold(s: string, p: nat, prefix: string, ds: seq<nat>, suffix: string, radix: nat)
    requires NumberText(prefix, ds, suffix, radix)
    requires Stands(s, p, prefix) && FiguresAt(s, p + |prefix|, ds) && Stands(s, p + |prefix| + |ds|, suffix)
    requires !InName(At(s, p + |prefix| + |ds| + |suffix|))
    ensures p < |s| && IsDigit(s[p])
    ensures NumberAt(s, p) == NumberOf(s, p + |prefix|, radix, if radix == 16 then 16 else 10, if radix == 16 then 18 else 22)
  {
    var q := p + |prefix|;
    hide NumberOf, HexValue, InName;
    if radix == 10 {
      assert s[q + 0] == s[p];
      FigureTold(ds[0], s[p]);
    } else {
      StandsAt(s, p, prefix, 0);
      if radix == 16 {
        StandsAt(s, p, prefix, 1);
      } else if ds == [] {
        SuffixPassed(s, q, suffix);
      } else {
        assert s[q + 0] == s[q];
        FigureTold(ds[0], s[q]);
      }
    }
  }

  lemma FigureTold(d: nat, c: char)
    requires d < 10 && (c == Numerals.FIGURES[d] || c == Numerals.CAPITALS[d])
    ensures IsDigit(c) && (d != 0 ==> c != '0')
  {
  }

  lemma OperandOf(s: string, symbols: Symbols, p: nat, x: int, q: nat)
    requires p < |s| && IsDigit(s[p]) && NumberAt(s, p) == Read(Plainly(x), q, false)
    ensures ParseOperand(s, symbols, p) == Read(Plainly(x), SkipSpace(s, q), false)
  {
    hide NumberAt;
  }

  /** Every number that is written out in decimal, in octal or in small or capital hexadecimal figures is
      read as what its figures are worth by their places, in 64 bits; the octal figures may be 8 and 9. */
  lemma NumberReads(s: string, symbols: Symbols, p: nat, prefix: string, ds: seq<nat>, suffix: string, radix: nat)
    requires NumberText(prefix, ds, suffix, radix)
    requires Stands(s, p, prefix) && FiguresAt(s, p + |prefix|, ds) && Stands(s, p + |prefix| + |ds|, suffix)
    requires !InName(At(s, p + |prefix| + |ds| + |suffix|))
    ensures exists x ::
      && Same(x, Numerals.Worth(ds, radix))
      && ConstantAt(s, symbols, p, x, SkipSpace(s, p + |prefix| + |ds| + |suffix|))
  {
    hide *;
    var q, most, limit := p + |prefix|, if radix == 16 then 16 else 10, if radix == 16 then 18 else 22;
    TextParts(prefix, ds, suffix, radix);
    RadixTold(s, p, prefix, ds, suffix, radix);
    FiguresRead(s, q, ds, suffix, radix, most, limit);
    FigureValue(s, q, ds, radix);
    NumberOperand(s, symbols, p, DigitsValue(s, q, |ds|, radix, 0), q + |ds| + |suffix|);
  }

  lemma NumberOperand(s: string, symbols: Symbols, p: nat, x: int, q: nat)
    requires p < |s| && IsDigit(s[p]) && NumberAt(s, p) == Read(Plainly(x), q, false) && Word(x)
    ensures ConstantAt(s, symbols, p, x, SkipSpace(s, q))
  {
    hide *;
    OperandOf(s, symbols, p, x, q);
    AtConstant(s, symbols, p, x, SkipSpace(s, q));
  }

  lemma TextParts(prefix: string, ds: seq<nat>, suffix: string, radix: nat)
    requires NumberText(prefix, ds, suffix, radix)
    ensures suffix in ["", "LL", "ULL"] && |ds| < if radix == 16 then 18 else 22
    ensures forall i :: 0 <= i < |ds| ==> ds[i] < if radix == 16 then 16 else 10
  {
  }

  lemma AtConstant(s: string, symbols: Symbols, p: nat, x: int, q: nat)
    requires p <= |s| + 1 && Word(x) && ParseOperand(s, symbols, p) == Read(Plainly(x), q, false)
    ensures ConstantAt(s, symbols, p, x, q)
  {
    hide ParseOperand;
  }

  // ---------------------------------------------------------------------
  // Operators in front of numbers
  // ---------------------------------------------------------------------

  /** What a sign in front of a number makes of it. */
  predicate YieldsUnary(sign: char, x: int, z: int) {
    && Word(z)
    && (sign == '-' ==> Same(z, -x))
    && (sign == '~' ==> z + x == -1)
    && (sign == '!' ==> z == if x == 0 then 1 else 0)
  }

  /** In every text a minus sign negates in 64 bits, a tilde complements and an exclamation mark tells zero. */
  lemma UnaryReads(s: string, symbols: Symbols, p: nat, x: int, q: nat)
    requires p < |s| && s[p] in "-~!" && ConstantAt(s, symbols, p + 1, x, q) && At(s, q) != ' '
    ensures exists z :: YieldsUnary(s[p], x, z) && ConstantAt(s, symbols, p, z, q)
  {
    var u := UnaryOf(s[p]).value;
    var z := ApplyUnary(u, Plainly(x)).e.number;
    UnaryYields(s[p], x);
    hide ParseOperand, Wrap, ApplyUnary, Word, YieldsUnary;
    ReadPrefix(s, symbols, u, p);
  }

  lemma UnaryYields(sign: char, x: int)
    requires sign in "-~!" && Word(x)
    ensures UnaryOf(sign).Some? && sign == UnaryText(UnaryOf(sign).value)
    ensures var o := ApplyUnary(UnaryOf(sign).value, Plainly(x));
      o.e == Plainly(o.e.number) && !o.warned && YieldsUnary(sign, x, o.e.number)
  {
    WordWrap(-x);
    hide Wrap;
  }

  // ---------------------------------------------------------------------
  // Names
  // ---------------------------------------------------------------------

  /** Letters, digits, underscores, points, dollars, and all characters beyond ASCII make names. */
  predicate MakesName(c: char) {
    'a' <= c <= 'z' || 'A' <= c <= 'Z' || '0' <= c <= '9' || c == '_' || c == '.' || c == '$' || 0x80 as char <= c
  }

  /** A name that does not begin with a digit is read as what is known about it. */
  lemma NameReads(s: string, symbols: Symbols, p: nat, name: string)
    requires Stands(s, p, name) && name != "" && name != "." && !('0' <= name[0] <= '9')
    requires forall i :: 0 <= i < |name| ==> MakesName(name[i])
    requires !MakesName(At(s, p + |name|)) && At(s, p + |name| + 1) != ' '
    ensures ParseOperand(s, symbols, p) == Read(
      if name !in symbols || symbols[name].Undefined? then
        Expression(Unknown, Some(Symbol(name, false)), None, 0, false)
      else if symbols[name].Defined? then Expression(Sect, Some(Symbol(name, true)), None, 0, false)
      else Expression(Absolute, None, None, symbols[name].value, false),
      if At(s, p + |name|) == ' ' then p + |name| + 1 else p + |name|, false)
  {
    StandsEnd(s, p, name);
    hide ParseOperand, Stands;
    assert ValidName(name);
    assert Follows(s, p + |name|, 10);
    OperandName(s, symbols, name, p);
  }

  // ---------------------------------------------------------------------
  // Whole texts
  // ---------------------------------------------------------------------

  lemma FollowedPlainly(s: string, q: nat)
    requires At(s, q) in "*/%+-^<>=!&|" || q >= |s|
    ensures Follows(s, q, 10) && SkipSpace(s, q) == q
  {
  }

  lemma PrintedOperand(s: string, symbols: Symbols, n: nat, p: nat)
    requires n < 0x8000_0000_0000_0000 && Stands(s, p, Numerals.Digits(n, 10))
    requires var q := p + |Numerals.Digits(n, 10)|; At(s, q) in "*/%+-^<>=!&|" || q >= |s|
    ensures ConstantAt(s, symbols, p, n, p + |Numerals.Digits(n, 10)|)
  {
    hide Numerals.Digits, ParseOperand, Follows, Stands;
    FollowedPlainly(s, p + |Numerals.Digits(n, 10)|);
    OperandNumber(s, symbols, n, p);
  }

  lemma SpellingFirst(op: string, row: nat)
    requires InRow(op, row)
    ensures op != "" && op[0] in "*/%+-^<>=!&|"
  {
    assert |ROWS[row]| <= 4;
  }

  lemma DigitNext(s: string, p: nat, n: nat)
    requires Stands(s, p, Numerals.Digits(n, 10))
    ensures IsDigit(At(s, p))
  {
    StandsAt(s, p, Numerals.Digits(n, 10), 0);
    hide Stands;
  }

  /** Two printed numbers with an operator between them, as a whole expression. */
  lemma PrintedReads(symbols: Symbols, x: nat, op: string, row: nat, y: nat)
    requires x < 0x8000_0000_0000_0000 && y < 0x8000_0000_0000_0000 && InRow(op, row)
    ensures var s := Numerals.Digits(x, 10) + op + Numerals.Digits(y, 10);
      exists z ::
        Yields(op, x, y, z) && ParseWhole(s, symbols, 0) == Whole(Absolute, Read(Plainly(z), |s|, ZeroDivision(op, y)))
  {
    hide *;
    var a, b := Numerals.Digits(x, 10), Numerals.Digits(y, 10);
    var s, q := a + op + b, |a|;
    WholeStands(s);
    RankRow(op, row);
    StandsParts(s, 0, a + op, b);
    StandsParts(s, 0, a, op);
    SpellingFirst(op, row);
    StandsAt(s, q, op, 0);
    DigitNext(s, q + |op|, y);
    OperatorThere(s, q, op);
    PrintedOperand(s, symbols, x, 0);
    PrintedOperand(s, symbols, y, q + |op|);
    EndsThere(s);
    BinaryReads(s, symbols, 0, x, q, op, row, y, |s|);
    var z :| Yields(op, x, y, z) && ReadsAs(ParseExpr(s, symbols, 0, 0), z, |s|, ZeroDivision(op, y));
    ReadsAsIs(ParseExpr(s, symbols, 0, 0), z, |s|, ZeroDivision(op, y));
    WholePlainly(s, symbols, z, |s|, ZeroDivision(op, y));
  }

  lemma WholeStands(s: string)
    ensures Stands(s, 0, s)
  {
    assert s[0..|s|] == s;
  }

  lemma EndsThere(s: string)
    ensures NoOperator(s, |s|)
  {
  }

  lemma OperatorThere(s: string, p: nat, op: string)
    requires Spelling(op).Some? && Stands(s, p, op) && IsDigit(At(s, p + |op|))
    ensures OperatorAt(s, p, op)
  {
    hide Spelling, Stands;
  }

  lemma WholePlainly(s: string, symbols: Symbols, z: int, end: nat, warned: bool)
    requires ParseExpr(s, symbols, 0, 0) == Read(Plainly(z), end, warned)
    ensures ParseWhole(s, symbols, 0) == Whole(Absolute, Read(Plainly(z), end, warned))
  {
    hide ParseExpr;
  }

  // ---------------------------------------------------------------------
  // Trees
  // ---------------------------------------------------------------------

  /** What a tree of constants amounts to, by the spellings of its operators. */
  ghost predicate Amounts(t: Tree, symbols: Symbols, v: int) {
    match t
    case Num(n) => v == n
    case Name(name) => IsConstant(symbols, name) && v == symbols[name].value
    case Prefix(u, operand) => exists x :: Amounts(operand, symbols, x) && YieldsUnary(UnaryText(u), x, v)
    case Infix(op, left, right) =>
      exists x, y :: Amounts(left, symbols, x) && Amounts(right, symbols, y) && Yields(OpText(op), x, y, v)
  }

  /** Constants are 64-bit numbers. */
  ghost predicate Words(symbols: Symbols) {
    forall name :: IsConstant(symbols, name) ==> Word(symbols[name].value)
  }

  lemma {:induction false} ComputedAmounts(t: Tree, symbols: Symbols)
    requires Valid(t) && Computable(t, symbols) && Words(symbols)
    ensures Amounts(t, symbols, Computed(t, symbols)) && Word(Computed(t, symbols))
  {
    hide Yields, YieldsUnary, Arithmetic, Word, ApplyUnary, Wrap;
    match t
    case Num(n) => SmallWord(n);
    case Name(name) => assert IsConstant(symbols, name);
    case Prefix(u, operand) =>
      ComputedAmounts(operand, symbols);
      PrefixAmounts(u, Computed(operand, symbols));
    case Infix(op, left, right) =>
      ComputedAmounts(left, symbols);
      ComputedAmounts(right, symbols);
      var x, y := Computed(left, symbols), Computed(right, symbols);
      OpSpelled(op);
      ArithmeticYields(OpText(op), x, y);
      YieldsWord(OpText(op), x, y, Arithmetic(op, x, y));
  }

  lemma SmallWord(n: nat)
    requires n < 0x8000_0000_0000_0000
    ensures Word(n)
  {
  }

  lemma PrefixAmounts(u: Unary, x: int)
    requires Word(x)
    ensures var z := match u case Negate => Wrap(-x) case Not => Truth(x == 0) case Complement => -x - 1;
      YieldsUnary(UnaryText(u), x, z) && Word(z)
  {
    WordWrap(-x);
    hide Wrap;
  }

  lemma OpSpelled(op: Op)
    ensures Spelling(OpText(op)) == Some(op)
  {
  }

  /** The text of such a tree, printed with no more parentheses than it needs, is read as that. */
  lemma ReadsAmount(s: string, symbols: Symbols, t: Tree, rank: nat, pos: nat)
    requires Valid(t) && Computable(t, symbols) && Words(symbols) && rank <= 10
    requires Stands(s, pos, Show(t, rank)) && Follows(s, pos + |Show(t, rank)|, rank)
    ensures exists v ::
      Amounts(t, symbols, v) && ReadsAs(ParseExpr(s, symbols, rank, pos), v, SkipSpace(s, pos + |Show(t, rank)|), false)
  {
    hide *;
    ReadsConstants(s, symbols, t, rank, pos);
    ComputedAmounts(t, symbols);
    PlainlyIs(Computed(t, symbols));
    ReadsAsIs(ParseExpr(s, symbols, rank, pos), Computed(t, symbols), SkipSpace(s, pos + |Show(t, rank)|), false);
  }

  lemma PlainlyIs(x: int)
    ensures Plainly(x) == Expression(Absolute, None, None, x, false)
  {
  }
}
