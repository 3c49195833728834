/** What expression trees amount to, in arithmetic and with symbols at any addresses. */
module ExprMeaning {
  import opened Characters
  import opened Wrappers
  import opened Expressions
  import opened ExprParser
  import opened ExprPrinter
  import opened Numerals

  // ---------------------------------------------------------------------
  // Constants
  // ---------------------------------------------------------------------

  /** Only numbers and constants, and nothing is divided by zero. */
  predicate Computable(t: Tree, symbols: Symbols) {
    match t
    case Num(n) => true
    case Name(name) => name in symbols && symbols[name].Constant?
    case Prefix(_, operand) => Computable(operand, symbols)
    case Infix(op, left, right) =>
      && Computable(left, symbols) && Computable(right, symbols)
      && ((op.Divide? || op.Modulus?) ==> Computed(right, symbols) != 0)
  }

  /** The arithmetic of a tree, in 64 bits. */
  function Computed(t: Tree, symbols: Symbols): int {
    match t
    case Num(n) => n
    case Name(name) => if name in symbols && symbols[name].Constant? then symbols[name].value else 0
    case Prefix(u, operand) =>
      var x := Computed(operand, symbols);
      (match u case Negate => Wrap(-x) case Not => Truth(x == 0) case Complement => -x - 1)
    case Infix(op, left, right) => Arithmetic(op, Computed(left, symbols), Computed(right, symbols))
  }

  lemma CombineConstants(op: Op, x: int, y: int)
    ensures var a, b := Expression(Absolute, None, None, x, false), Expression(Absolute, None, None, y, false);
      Combine(op, a, b) == Outcome(Expression(Absolute, None, None, Arithmetic(op, x, y), false),
                                   (op.Divide? || op.Modulus?) && y == 0)
  {
    WrapTwice(x, y);
    hide Wrap;
  }

  lemma WrapTwice(x: int, y: int)
    ensures Wrap(x + Wrap(-y)) == Wrap(x - y)
  {
  }

  /** Such a tree amounts to its arithmetic, whatever parentheses it was printed with. */
  lemma {:induction false} EvalConstants(t: Tree, symbols: Symbols, context: nat)
    requires Computable(t, symbols)
    ensures Eval(t, symbols, context) == Outcome(Expression(Absolute, None, None, Computed(t, symbols), false), false)
    decreases t, context
  {
    hide Combine, Arithmetic, Wrap;
    match t
    case Num(n) =>
    case Name(name) =>
    case Prefix(u, operand) => EvalConstants(operand, symbols, 10);
    case Infix(op, left, right) =>
      if Rank(op) <= context {
        EvalConstants(t, symbols, 0);
      } else {
        EvalConstants(left, symbols, Rank(op) - 1);
        EvalConstants(right, symbols, Rank(op));
        CombineConstants(op, Computed(left, symbols), Computed(right, symbols));
      }
  }

  /** So the text of such a tree is read as its arithmetic. */
  lemma ReadsConstants(s: string, symbols: Symbols, t: Tree, rank: nat, pos: nat)
    requires Valid(t) && Computable(t, symbols) && rank <= 10
    requires Stands(s, pos, Show(t, rank)) && Follows(s, pos + |Show(t, rank)|, rank)
    ensures ParseExpr(s, symbols, rank, pos)
         == Read(Expression(Absolute, None, None, Computed(t, symbols), false), SkipSpace(s, pos + |Show(t, rank)|), false)
  {
    hide ParseExpr, Show, Eval, Computed, Follows;
    ReadsBack(s, symbols, t, rank, pos);
    EvalConstants(t, symbols, rank);
  }

  // ---------------------------------------------------------------------
  // Sums and differences
  // ---------------------------------------------------------------------

  /** Only numbers, symbols, sums, differences and minus signs. */
  predicate IsSum(t: Tree) {
    match t
    case Num(n) => true
    case Name(name) => true
    case Prefix(u, operand) => u.Negate? && IsSum(operand)
    case Infix(op, left, right) => (op.Add? || op.Subtract?) && IsSum(left) && IsSum(right)
  }

  /** The sum, with symbols at these addresses. */
  function SumOf(t: Tree, at: Addresses): int {
    match t
    case Num(n) => n
    case Name(name) => at(name)
    case Prefix(u, operand) => -SumOf(operand, at)
    case Infix(op, left, right) =>
      if op.Subtract? then SumOf(left, at) - SumOf(right, at) else SumOf(left, at) + SumOf(right, at)
  }

  /** Constants are at their values. */
  ghost predicate Agrees(symbols: Symbols, at: Addresses) {
    forall name :: name in symbols && symbols[name].Constant? ==> at(name) == symbols[name].value
  }

  lemma PlainClean(e: Expression)
    requires Plain(e)
    ensures CleanUp(e) == e
  {
  }

  lemma SameTrans(a: int, b: int, c: int)
    requires Same(a, b) && Same(b, c)
    ensures Same(a, c) && Same(-a, -b) && Same(a, a)
  {
  }

  lemma SameSelf(a: int)
    ensures Same(a, a)
  {
  }

  predicate IsConstant(symbols: Symbols, name: string) {
    name in symbols && symbols[name].Constant?
  }

  /** What a tree amounts to without its symbols. */
  function Literal(t: Tree, symbols: Symbols): int {
    match t
    case Num(n) => n
    case Name(name) => if IsConstant(symbols, name) then symbols[name].value else 0
    case Prefix(u, operand) => -Literal(operand, symbols)
    case Infix(op, left, right) =>
      if op.Subtract? then Literal(left, symbols) - Literal(right, symbols)
      else Literal(left, symbols) + Literal(right, symbols)
  }

  /** What its symbols amount to without its numbers. */
  function Weight(t: Tree, symbols: Symbols, at: Addresses): int {
    match t
    case Num(n) => 0
    case Name(name) => if IsConstant(symbols, name) then 0 else at(name)
    case Prefix(u, operand) => -Weight(operand, symbols, at)
    case Infix(op, left, right) =>
      if op.Subtract? then Weight(left, symbols, at) - Weight(right, symbols, at)
      else Weight(left, symbols, at) + Weight(right, symbols, at)
  }

  lemma {:induction false} SumParts(t: Tree, symbols: Symbols, at: Addresses)
    requires IsSum(t) && Agrees(symbols, at)
    ensures SumOf(t, at) == Weight(t, symbols, at) + Literal(t, symbols)
  {
    match t
    case Num(n) =>
    case Name(name) =>
    case Prefix(u, operand) => SumParts(operand, symbols, at);
    case Infix(op, left, right) =>
      SumParts(left, symbols, at);
      SumParts(right, symbols, at);
  }

  function NamesOf(t: Tree): set<string> {
    match t
    case Num(n) => {}
    case Name(name) => {name}
    case Prefix(u, operand) => NamesOf(operand)
    case Infix(op, left, right) => NamesOf(left) + NamesOf(right)
  }

  function Only(name: string): Addresses {
    x => if x == name then 1 else 0
  }

  /** How often a symbol is added, less how often it is subtracted. */
  function Count(t: Tree, symbols: Symbols, name: string): int {
    Weight(t, symbols, Only(name))
  }

  /** Every symbol is subtracted as often as it is added. */
  predicate Cancelled(t: Tree, symbols: Symbols) {
    forall name <- NamesOf(t) :: Count(t, symbols, name) == 0
  }

  /** The number that is left beside the symbols: a minus sign only changes it where the symbols behind
      the sign cancel. */
  function Kept(t: Tree, symbols: Symbols): int {
    match t
    case Num(n) => n
    case Name(name) => Literal(t, symbols)
    case Prefix(u, operand) => if Cancelled(operand, symbols) then -Kept(operand, symbols) else Kept(operand, symbols)
    case Infix(op, left, right) =>
      if op.Subtract? then Kept(left, symbols) - Kept(right, symbols) else Kept(left, symbols) + Kept(right, symbols)
  }

  lemma {:induction false} NotNamed(t: Tree, symbols: Symbols, name: string)
    requires name !in NamesOf(t)
    ensures Count(t, symbols, name) == 0
  {
    match t
    case Num(n) =>
    case Name(n) =>
    case Prefix(u, operand) => NotNamed(operand, symbols, name);
    case Infix(op, left, right) =>
      NotNamed(left, symbols, name);
      NotNamed(right, symbols, name);
  }

  // ---------------------------------------------------------------------
  // What the operators do to symbols and to the numbers beside them
  // ---------------------------------------------------------------------

  function SymbolPart(e: Expression, at: Addresses): int {
    SymbolValue(e.addSymbol, at) - SymbolValue(e.subtractSymbol, at)
  }

  predicate KnownSymbol(s: Option<Symbol>, symbols: Symbols) {
    s.Some? ==> s.value.defined == (s.value.name in symbols && symbols[s.value.name].Defined?)
  }

  /** Two symbols of the same name are the same. */
  predicate Known(e: Expression, symbols: Symbols) {
    KnownSymbol(e.addSymbol, symbols) && KnownSymbol(e.subtractSymbol, symbols)
  }

  lemma AddParts(l: Expression, r: Expression, symbols: Symbols, at: Addresses)
    requires Plain(l) && Plain(r) && !Combine(Add, l, r).warned && Known(l, symbols) && Known(r, symbols)
    ensures var e := Combine(Add, l, r).e;
      && Plain(e) && Known(e, symbols) && Same(e.number, l.number + r.number)
      && SymbolPart(e, at) == SymbolPart(l, at) + SymbolPart(r, at)
  {
    WrapSame(l.number + r.number);
    hide Wrap, Same;
  }

  lemma LessParts(l: Expression, r: Expression, symbols: Symbols, at: Addresses)
    requires Plain(l) && Plain(r) && !Combine(Subtract, l, r).warned && Known(l, symbols) && Known(r, symbols)
    ensures var e := Combine(Subtract, l, r).e;
      && Plain(e) && Known(e, symbols) && Same(e.number, l.number - r.number)
      && SymbolPart(e, at) == SymbolPart(l, at) - SymbolPart(r, at)
  {
    SubtractPlain(l, r);
    SubtractParts(l, r, at);
    DifferenceSame(0, l.number, 0, r.number);
    hide Wrap, Same;
  }

  lemma NegateParts(e: Expression, symbols: Symbols, at: Addresses)
    requires Plain(e) && !ApplyUnary(Negate, e).warned && Known(e, symbols)
    ensures var o := CleanUp(ApplyUnary(Negate, e).e);
      && Plain(o) && Known(o, symbols) && SymbolPart(o, at) == -SymbolPart(e, at)
      && Same(o.number, if e.seg.Absolute? then -e.number else e.number)
  {
    WrapSame(-e.number);
    SameSelf(e.number);
    hide Wrap, Same;
  }

  lemma NameParts(name: string, symbols: Symbols, at: Addresses)
    ensures var e := CleanUp(NameExpression(symbols, name));
      && Plain(e) && Known(e, symbols) && e.number == Literal(Name(name), symbols)
      && SymbolPart(e, at) == Weight(Name(name), symbols, at)
  {
  }

  /** Without a warning, the symbols of an expression are those of the tree that do not cancel. */
  lemma {:induction false} EvalSymbols(t: Tree, symbols: Symbols, context: nat, at: Addresses)
    requires IsSum(t) && !Eval(t, symbols, context).warned
    ensures var e := Eval(t, symbols, context).e;
      Plain(e) && Known(e, symbols) && SymbolPart(e, at) == Weight(t, symbols, at)
    decreases t, context
  {
    hide Combine, ApplyUnary, CleanUp, SymbolPart, Plain, Known, Same, NameExpression;
    match t
    case Num(n) => NumberParts(n, symbols, at);
    case Name(name) => NameParts(name, symbols, at);
    case Prefix(u, operand) =>
      EvalSymbols(operand, symbols, 10, at);
      NegateParts(Eval(operand, symbols, 10).e, symbols, at);
    case Infix(op, left, right) =>
      if Rank(op) <= context {
        EvalSymbols(t, symbols, 0, at);
        PlainClean(Eval(t, symbols, 0).e);
      } else {
        EvalSymbols(left, symbols, Rank(op) - 1, at);
        EvalSymbols(right, symbols, Rank(op), at);
        var a, b := Eval(left, symbols, Rank(op) - 1).e, Eval(right, symbols, Rank(op)).e;
        if op.Add? {
          AddParts(a, b, symbols, at);
        } else {
          LessParts(a, b, symbols, at);
        }
      }
  }

  lemma NumberParts(n: nat, symbols: Symbols, at: Addresses)
    ensures var e := Expression(Absolute, None, None, n, false);
      Plain(e) && Known(e, symbols) && SymbolPart(e, at) == 0
  {
  }

  /** So nothing but a number is left exactly if all the symbols of the tree cancel. */
  lemma AbsoluteIff(t: Tree, symbols: Symbols, context: nat)
    requires IsSum(t) && !Eval(t, symbols, context).warned
    ensures Eval(t, symbols, context).e.seg.Absolute? <==> Cancelled(t, symbols)
  {
    hide Eval, Weight, IsSum, NamesOf;
    var e := Eval(t, symbols, context).e;
    forall name ensures Count(t, symbols, name) == SymbolPart(e, Only(name)) {
      EvalSymbols(t, symbols, context, Only(name));
    }
    EvalSymbols(t, symbols, context, Only(""));
    if !e.seg.Absolute? {
      var name := if e.addSymbol.Some? then e.addSymbol.value.name else e.subtractSymbol.value.name;
      assert Count(t, symbols, name) != 0;
      if name !in NamesOf(t) {
        NotNamed(t, symbols, name);
      }
    }
  }

  /** And the number beside the symbols is the one that the minus signs leave. */
  lemma {:induction false} EvalKept(t: Tree, symbols: Symbols, context: nat)
    requires IsSum(t) && !Eval(t, symbols, context).warned
    ensures Same(Eval(t, symbols, context).e.number, Kept(t, symbols))
    decreases t, context
  {
    hide Combine, ApplyUnary, CleanUp, Plain, Known, Same, NameExpression, Cancelled;
    match t
    case Num(n) => SameSelf(n);
    case Name(name) =>
      NameParts(name, symbols, Only(""));
      SameSelf(Literal(t, symbols));
    case Prefix(u, operand) =>
      EvalKept(operand, symbols, 10);
      EvalSymbols(operand, symbols, 10, Only(""));
      AbsoluteIff(operand, symbols, 10);
      var e := Eval(operand, symbols, 10).e;
      NegateParts(e, symbols, Only(""));
      KeptSame(CleanUp(ApplyUnary(Negate, e).e).number, e.number, Kept(operand, symbols), e.seg.Absolute?);
    case Infix(op, left, right) =>
      if Rank(op) <= context {
        EvalKept(t, symbols, 0);
        EvalSymbols(t, symbols, 0, Only(""));
        PlainClean(Eval(t, symbols, 0).e);
      } else {
        EvalKept(left, symbols, Rank(op) - 1);
        EvalKept(right, symbols, Rank(op));
        EvalSymbols(left, symbols, Rank(op) - 1, Only(""));
        EvalSymbols(right, symbols, Rank(op), Only(""));
        var a, b := Eval(left, symbols, Rank(op) - 1).e, Eval(right, symbols, Rank(op)).e;
        SameSum(a.number, Kept(left, symbols), b.number, Kept(right, symbols));
        if op.Add? {
          AddParts(a, b, symbols, Only(""));
          SameTrans(Combine(Add, a, b).e.number, a.number + b.number, Kept(t, symbols));
        } else {
          LessParts(a, b, symbols, Only(""));
          SameTrans(Combine(Subtract, a, b).e.number, a.number - b.number, Kept(t, symbols));
        }
      }
  }

  lemma KeptSame(x: int, y: int, z: int, negated: bool)
    requires Same(x, if negated then -y else y) && Same(y, z)
    ensures Same(x, if negated then -z else z)
  {
  }

  // ---------------------------------------------------------------------
  // When a sum is right
  // ---------------------------------------------------------------------

  /** Without a warning, a tree amounts to its sum, wherever the symbols end up, if and only if the
      number that its minus signs leave is the right one. */
  lemma EvalSum(t: Tree, symbols: Symbols, context: nat, at: Addresses)
    requires IsSum(t) && Agrees(symbols, at) && !Eval(t, symbols, context).warned
    ensures Plain(Eval(t, symbols, context).e)
    ensures Same(ValueOf(Eval(t, symbols, context).e, at), SumOf(t, at)) <==> Same(Kept(t, symbols), Literal(t, symbols))
  {
    hide Eval, Weight, SumOf, Kept, Literal, IsSum, Agrees, Plain, Known;
    var e := Eval(t, symbols, context).e;
    EvalSymbols(t, symbols, context, at);
    EvalKept(t, symbols, context);
    SumParts(t, symbols, at);
    assert ValueOf(e, at) == SymbolPart(e, at) + e.number;
    SameBeside(SymbolPart(e, at), e.number, Kept(t, symbols), Literal(t, symbols));
  }

  lemma SameBeside(w: int, x: int, y: int, z: int)
    requires Same(x, y)
    ensures Same(w + x, w + z) <==> Same(y, z)
  {
  }

  /** The same from the text: what `expression` reads of a sum without a warning is its sum if and only
      if that number is right. */
  lemma SumReads(s: string, symbols: Symbols, t: Tree, pos: nat, at: Addresses)
    requires Valid(t) && IsSum(t) && Agrees(symbols, at)
    requires Stands(s, pos, Show(t, 0)) && Follows(s, pos + |Show(t, 0)|, 0)
    ensures var w := ParseWhole(s, symbols, pos);
      && w.read.end == SkipSpace(s, pos + |Show(t, 0)|)
      && (!w.read.warned ==>
            (Same(ValueOf(w.read.e, at), SumOf(t, at)) <==> Same(Kept(t, symbols), Literal(t, symbols))))
  {
    hide ParseExpr, Show, Eval, Follows, SumOf, Kept, Literal, Same, ValueOf, Stands, IsSum, Valid, Agrees, LoneSubtraction;
    ReadsBack(s, symbols, t, 0, pos);
    if !Eval(t, symbols, 0).warned {
      EvalSum(t, symbols, 0, at);
    }
  }

  predicate Symbolic(t: Tree, symbols: Symbols) {
    match t
    case Num(n) => false
    case Name(name) => !IsConstant(symbols, name)
    case Prefix(u, operand) => Symbolic(operand, symbols)
    case Infix(op, left, right) => Symbolic(left, symbols) || Symbolic(right, symbols)
  }

  /** Behind every minus sign there is no symbol, or no number that matters. */
  predicate SignsWell(t: Tree, symbols: Symbols) {
    match t
    case Num(n) => true
    case Name(name) => true
    case Prefix(u, operand) =>
      SignsWell(operand, symbols) && (!Symbolic(operand, symbols) || Same(2 * Literal(operand, symbols), 0))
    case Infix(op, left, right) => SignsWell(left, symbols) && SignsWell(right, symbols)
  }

  lemma {:induction false} NoSymbols(t: Tree, symbols: Symbols, at: Addresses)
    requires !Symbolic(t, symbols)
    ensures Weight(t, symbols, at) == 0
  {
    match t
    case Num(n) =>
    case Name(name) =>
    case Prefix(u, operand) => NoSymbols(operand, symbols, at);
    case Infix(op, left, right) =>
      NoSymbols(left, symbols, at);
      NoSymbols(right, symbols, at);
  }

  /** Then the number that is left is the right one. */
  lemma {:induction false} SignsSuffice(t: Tree, symbols: Symbols)
    requires IsSum(t) && SignsWell(t, symbols)
    ensures Same(Kept(t, symbols), Literal(t, symbols))
  {
    hide Same, Cancelled;
    match t
    case Num(n) => SameSelf(n);
    case Name(name) => SameSelf(Literal(t, symbols));
    case Prefix(u, operand) =>
      SignsSuffice(operand, symbols);
      if Symbolic(operand, symbols) {
        HalvedSame(Kept(operand, symbols), Literal(operand, symbols));
      } else {
        NothingCounted(operand, symbols);
      }
      SameTrans(Kept(operand, symbols), Literal(operand, symbols), Literal(operand, symbols)) by {
        SameSelf(Literal(operand, symbols));
      }
    case Infix(op, left, right) =>
      SignsSuffice(left, symbols);
      SignsSuffice(right, symbols);
      SameSum(Kept(left, symbols), Literal(left, symbols), Kept(right, symbols), Literal(right, symbols));
  }

  lemma NothingCounted(t: Tree, symbols: Symbols)
    requires !Symbolic(t, symbols)
    ensures Cancelled(t, symbols)
  {
    hide Weight;
    forall name <- NamesOf(t) ensures Count(t, symbols, name) == 0 {
      NoSymbols(t, symbols, Only(name));
    }
  }

  lemma HalvedSame(x: int, y: int)
    requires Same(x, y) && Same(2 * y, 0)
    ensures Same(x, -y) && Same(-x, -y)
  {
  }

  /** So a tree keeps its sum without a warning when behind each of its minus signs there are no symbols,
      or no number. */
  lemma EvalSigned(t: Tree, symbols: Symbols, context: nat, at: Addresses)
    requires IsSum(t) && Agrees(symbols, at) && SignsWell(t, symbols) && !Eval(t, symbols, context).warned
    ensures Same(ValueOf(Eval(t, symbols, context).e, at), SumOf(t, at))
  {
    hide *;
    SignsSuffice(t, symbols);
    EvalSum(t, symbols, context, at);
  }

  /** A symbol and itself cancel to a constant. */
  lemma Cancels(name: string, symbols: Symbols, context: nat)
    requires context < 9 && name in symbols && symbols[name].Defined?
    ensures Eval(Infix(Subtract, Name(name), Name(name)), symbols, context)
         == Outcome(Expression(Absolute, None, None, 0, false), false)
  {
  }

  lemma HalfEval(symbols: Symbols, a: string, b: string)
    requires a in symbols && symbols[a].Defined? && b in symbols && symbols[b].Defined? && a != b
    ensures var e := Expression(DiffSect, Some(Symbol(a, true)), Some(Symbol(b, true)), 0, true);
      Eval(Infix(Divide, Infix(Subtract, Name(a), Name(b)), Num(2)), symbols, 0) == Outcome(e, false)
  {
    var t := Infix(Subtract, Name(a), Name(b));
    var e := Expression(DiffSect, Some(Symbol(a, true)), Some(Symbol(b, true)), 0, false);
    assert Wrap(0 + Wrap(-0)) == 0;
    hide Wrap;
    assert Eval(t, symbols, 0) == Outcome(e, false);
    assert Eval(t, symbols, 9) == Outcome(e, false);
  }

  lemma HalfShown(a: string, b: string)
    ensures Show(Infix(Divide, Infix(Subtract, Name(a), Name(b)), Num(2)), 0) == "(" + (a + "-" + b) + ")" + "/" + "2"
  {
    assert Digits(2, 10) == "2";
    hide Show, Digits;
    var inner := Infix(Subtract, Name(a), Name(b));
    ShowParts(Name(a), 8);
    ShowParts(Name(b), 9);
    ShowParts(Num(2), 10);
    ShowParts(inner, 0);
    ShowParts(inner, 9);
    ShowParts(Infix(Divide, inner, Num(2)), 0);
  }

  /** Half of the difference of two different symbols, written (a-b)/2, is marked as such, and the number
      2 is no part of it. */
  lemma HalfReads(s: string, symbols: Symbols, a: string, b: string, pos: nat)
    requires a in symbols && symbols[a].Defined? && b in symbols && symbols[b].Defined? && a != b
    requires ValidName(a) && ValidName(b)
    requires var text := "(" + (a + "-" + b) + ")" + "/" + "2"; Stands(s, pos, text) && Follows(s, pos + |text|, 0)
    ensures var e := Expression(DiffSect, Some(Symbol(a, true)), Some(Symbol(b, true)), 0, true);
      ParseExpr(s, symbols, 0, pos) == Read(e, SkipSpace(s, pos + |a| + |b| + 5), false)
  {
    var t := Infix(Divide, Infix(Subtract, Name(a), Name(b)), Num(2));
    HalfShown(a, b);
    assert Valid(Name(a)) && Valid(Name(b)) && Valid(Num(2));
    assert Valid(t.left);
    hide ParseExpr, Show, Eval, Follows, Stands;
    HalfEval(symbols, a, b);
    ReadsBack(s, symbols, t, 0, pos);
  }

  lemma ShowExample()
    ensures var inner := Infix(Add, Name("a"), Num(5));
      Show(Infix(Add, Name("b"), Prefix(Negate, inner)), 0) == "b+-(a+5)"
  {
    var inner := Infix(Add, Name("a"), Num(5));
    assert Digits(5, 10) == "5";
    assert Show(inner, 0) == "a+5";
    assert Show(inner, 10) == "(a+5)";
    assert Show(Prefix(Negate, inner), 9) == "-(a+5)";
  }

  lemma EvalExample(symbols: Symbols)
    requires "a" in symbols && symbols["a"].Defined? && "b" in symbols && symbols["b"].Defined?
    ensures var t := Infix(Add, Name("b"), Prefix(Negate, Infix(Add, Name("a"), Num(5))));
      var e := Expression(DiffSect, Some(Symbol("b", true)), Some(Symbol("a", true)), 5, false);
      Eval(t, symbols, 0) == Outcome(e, false) && !LoneSubtraction(e)
  {
    var inner := Infix(Add, Name("a"), Num(5));
    assert Wrap(0 + 5) == 5;
    hide Wrap;
    assert Eval(inner, symbols, 0) == Outcome(Expression(Sect, Some(Symbol("a", true)), None, 5, false), false);
    assert Eval(inner, symbols, 10) == Eval(inner, symbols, 0);
    var signed := Prefix(Negate, inner);
    assert Eval(signed, symbols, 9) == Outcome(Expression(DiffSect, None, Some(Symbol("a", true)), 5, false), false);
  }

  /** A minus sign in front of a symbol and a number: b + -(a + 5) is read as b - a + 5, and there is no
      warning from any part of the reader. */
  lemma NegatedSumExample(symbols: Symbols, at: Addresses)
    requires "a" in symbols && symbols["a"].Defined? && "b" in symbols && symbols["b"].Defined?
    ensures var t := Infix(Add, Name("b"), Prefix(Negate, Infix(Add, Name("a"), Num(5))));
      var e := Expression(DiffSect, Some(Symbol("b", true)), Some(Symbol("a", true)), 5, false);
      && Show(t, 0) == "b+-(a+5)" && ParseWhole("b+-(a+5)", symbols, 0) == Whole(DiffSect, Read(e, 8, false))
      && ValueOf(e, at) == at("b") - at("a") + 5 && SumOf(t, at) == at("b") - at("a") - 5
  {
    hide *;
    var t := Infix(Add, Name("b"), Prefix(Negate, Infix(Add, Name("a"), Num(5))));
    ShowExample();
    EvalExample(symbols);
    ExampleStands(t);
    ExampleSum(symbols, at);
    ReadsBack("b+-(a+5)", symbols, t, 0, 0);
    WholeOf("b+-(a+5)", symbols, t);
  }

  lemma ExampleStands(t: Tree)
    requires t == Infix(Add, Name("b"), Prefix(Negate, Infix(Add, Name("a"), Num(5))))
    ensures Valid(t) && Stands("b+-(a+5)", 0, "b+-(a+5)") && Follows("b+-(a+5)", 8, 0) && |"b+-(a+5)"| == 8
  {
    var s := "b+-(a+5)";
    assert s[0..8] == s;
    assert ValidName("a") && ValidName("b");
  }

  lemma ExampleSum(symbols: Symbols, at: Addresses)
    ensures var t := Infix(Add, Name("b"), Prefix(Negate, Infix(Add, Name("a"), Num(5))));
      var e := Expression(DiffSect, Some(Symbol("b", true)), Some(Symbol("a", true)), 5, false);
      ValueOf(e, at) == at("b") - at("a") + 5 && SumOf(t, at) == at("b") - at("a") - 5
  {
  }

  /** A text that is read whole. */
  lemma WholeOf(s: string, symbols: Symbols, t: Tree)
    requires ParseExpr(s, symbols, 0, 0) == Reading(s, symbols, t, 0, |s|)
    requires !LoneSubtraction(Eval(t, symbols, 0).e)
    ensures var o := Eval(t, symbols, 0);
      ParseWhole(s, symbols, 0) == Whole(o.e.seg, Read(o.e, |s|, o.warned))
  {
    hide ParseExpr, Eval;
  }
}
