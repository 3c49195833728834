/** Expression trees, printed with no more parentheses than ranks and left associativity need, and
    read back. */
module ExprPrinter {
  import opened Characters
  import opened Wrappers
  import opened Expressions
  import opened ExprParser
  import opened Numerals

  datatype Tree = Num(n: nat) | Name(name: string) | Prefix(u: Unary, operand: Tree) | Infix(op: Op, left: Tree, right: Tree)

  predicate ValidName(name: string) {
    && name != "" && BeginsName(name[0]) && name != "." && (forall i :: 0 <= i < |name| ==> InName(name[i]))
  }

  predicate Valid(t: Tree) {
    match t
    case Num(n) => n < 0x8000_0000_0000_0000
    case Name(name) => ValidName(name)
    case Prefix(_, operand) => Valid(operand)
    case Infix(_, left, right) => Valid(left) && Valid(right)
  }

  function UnaryText(u: Unary): char {
    match u case Negate => '-' case Not => '!' case Complement => '~'
  }

  function OpText(op: Op): (s: string)
    ensures |s| == OpSize(op)
  {
    match op
    case Multiply => "*" case Divide => "/" case Modulus => "%" case Add => "+" case Subtract => "-"
    case LeftShift => "<<" case RightShift => ">>" case Less => "<" case Greater => ">"
    case LessOrEqual => "<=" case GreaterOrEqual => ">=" case Equal => "==" case NotEqual => "!="
    case BitAnd => "&" case BitXor => "^" case BitOr => "|" case LogicalAnd => "&&" case LogicalOr => "||"
  }

  /** The text of a tree where operators up to rank `context` need parentheses. */
  function Show(t: Tree, context: nat): (s: string)
    ensures Valid(t) ==> s != ""
    decreases t, context
  {
    match t
    case Num(n) => Digits(n, 10)
    case Name(name) => name
    case Prefix(u, operand) => [UnaryText(u)] + Show(operand, 10)
    case Infix(op, left, right) =>
      if Rank(op) <= context then "(" + Show(t, 0) + ")"
      else Show(left, Rank(op) - 1) + OpText(op) + Show(right, Rank(op))
  }

  /** What a tree amounts to, and whether there is a warning. */
  function Eval(t: Tree, symbols: Symbols, context: nat): Outcome
    decreases t, context
  {
    match t
    case Num(n) => Outcome(Expression(Absolute, None, None, n, false), false)
    case Name(name) => Outcome(CleanUp(NameExpression(symbols, name)), false)
    case Prefix(u, operand) =>
      var a := Eval(operand, symbols, 10);
      var o := ApplyUnary(u, a.e);
      Outcome(CleanUp(o.e), a.warned || o.warned)
    case Infix(op, left, right) =>
      if Rank(op) <= context then
        var a := Eval(t, symbols, 0);
        Outcome(CleanUp(a.e), a.warned || LoneSubtraction(a.e))
      else
        var a, b := Eval(left, symbols, Rank(op) - 1), Eval(right, symbols, Rank(op));
        var o := Combine(op, a.e, b.e);
        Outcome(o.e, a.warned || b.warned || o.warned)
  }

  /** This text stands at p. */
  predicate Stands(s: string, p: nat, text: string) {
    p + |text| <= |s| && s[p..p + |text|] == text
  }

  lemma StandsParts(s: string, p: nat, a: string, b: string)
    requires Stands(s, p, a + b)
    ensures Stands(s, p, a) && Stands(s, p + |a|, b)
  {
    var t := a + b;
    assert s[p..p + |a|] == t[..|a|];
    assert s[p + |a|..p + |a| + |b|] == t[|a|..];
  }

  lemma StandsEnd(s: string, p: nat, text: string)
    requires Stands(s, p, text)
    ensures p + |text| <= |s| && SkipSpace(s, p + |text|) <= |s|
  {
  }

  lemma StandsAt(s: string, p: nat, text: string, i: nat)
    requires Stands(s, p, text) && i < |text|
    ensures At(s, p + i) == text[i]
  {
    assert s[p..p + |text|][i] == s[p + i];
  }

  predicate StartsOperand(c: char) {
    IsDigit(c) || BeginsName(c) || c in {'(', '-', '!', '~'}
  }

  lemma {:induction false} FirstChar(t: Tree, context: nat)
    requires Valid(t)
    ensures StartsOperand(Show(t, context)[0])
    decreases t, context
  {
    match t
    case Infix(op, left, right) =>
      if Rank(op) <= context {
        assert Show(t, context)[0] == '(';
      } else {
        FirstChar(left, Rank(op) - 1);
        assert Show(t, context)[0] == Show(left, Rank(op) - 1)[0];
      }
    case _ =>
  }

  /** What follows an operand: not more of it, at most one space, and no operator that binds tighter
      than rank allows. */
  predicate Follows(s: string, p: nat, rank: nat) {
    var q := SkipSpace(s, p);
    && !InName(At(s, p)) && At(s, q) != ' '
    && (OpAt(s, q).None? || Rank(OpAt(s, q).value) <= rank)
  }

  lemma OpStands(s: string, p: nat, op: Op)
    requires Stands(s, p, OpText(op)) && StartsOperand(At(s, p + OpSize(op)))
    ensures OpAt(s, p) == Some(op) && !InName(At(s, p)) && At(s, p) != ' '
  {
    StandsAt(s, p, OpText(op), 0);
    if OpSize(op) == 2 {
      StandsAt(s, p, OpText(op), 1);
    }
  }

  // ---------------------------------------------------------------------
  // Numbers and names
  // ---------------------------------------------------------------------

  lemma {:induction false} RunOf(s: string, p: nat, n: nat)
    requires p + n <= |s| && (forall i :: p <= i < p + n ==> IsDigit(s[i])) && !InName(At(s, p + n))
    ensures DigitRun(s, p, 10) == n
    decreases n
  {
    if n > 0 {
      RunOf(s, p + 1, n - 1);
    }
  }

  lemma {:induction false} ValueAppend(s: string, p: nat, n: nat, radix: nat, acc: int)
    ensures DigitsValue(s, p, n + 1, radix, acc)
         == Wrap(DigitsValue(s, p, n, radix, acc) * radix + HexValue(At(s, p + n)))
    decreases n
  {
    hide Wrap, HexValue, At;
    if n > 0 {
      ValueAppend(s, p + 1, n - 1, radix, Wrap(acc * radix + HexValue(At(s, p))));
      assert p + 1 + (n - 1) == p + n;
    }
  }

  lemma {:induction false} DigitsStand(s: string, p: nat, n: nat)
    requires Stands(s, p, Digits(n, 10)) && n < 0x8000_0000_0000_0000
    ensures DigitsValue(s, p, |Digits(n, 10)|, 10, 0) == n
    ensures forall i :: p <= i < p + |Digits(n, 10)| ==> IsDigit(s[i])
    ensures n > 0 ==> s[p] != '0'
    decreases n
  {
    hide Wrap, DigitsValue, Stands;
    var k := |Digits(n, 10)| - 1;
    StandsEnd(s, p, Digits(n, 10));
    Recomposed(n);
    if n < 10 {
      StandsAt(s, p, Digits(n, 10), 0);
      OneDigit(s, p);
    } else {
      StandsParts(s, p, Digits(n / 10, 10), [DigitChar(n % 10)]);
      StandsAt(s, p + k, [DigitChar(n % 10)], 0);
      DigitsStand(s, p, n / 10);
      ValueAppend(s, p, k, 10, 0);
    }
  }

  lemma OneDigit(s: string, p: nat)
    ensures DigitsValue(s, p, 1, 10, 0) == Wrap(HexValue(At(s, p)))
  {
    hide Wrap;
    assert DigitsValue(s, p + 1, 0, 10, Wrap(HexValue(At(s, p)))) == Wrap(HexValue(At(s, p)));
  }

  lemma Recomposed(n: nat)
    requires n < 0x8000_0000_0000_0000
    ensures n / 10 * 10 + n % 10 == n && Wrap(n) == n
  {
  }

  lemma ShortNumber(n: nat)
    requires n < 0x8000_0000_0000_0000
    ensures |Digits(n, 10)| < 22
  {
    assert PowerOf(10, 5) == 100_000;
    assert PowerOf(10, 9) == 10_000 * PowerOf(10, 5);
    assert PowerOf(10, 13) == 10_000 * PowerOf(10, 9);
    assert PowerOf(10, 17) == 10_000 * PowerOf(10, 13);
    assert PowerOf(10, 21) == 10_000 * PowerOf(10, 17);
    DigitsBound(n, 10, 21, 0x8000_0000_0000_0000);
  }

  lemma NumberStands(s: string, p: nat, n: nat)
    requires Stands(s, p, Digits(n, 10)) && n < 0x8000_0000_0000_0000 && !InName(At(s, p + |Digits(n, 10)|))
    ensures IsDigit(At(s, p)) && p < |s|
    ensures NumberAt(s, p) == Read(Expression(Absolute, None, None, n, false), p + |Digits(n, 10)|, false)
  {
    ShortNumber(n);
    DigitsStand(s, p, n);
    hide Digits;
    var k := |Digits(n, 10)|;
    if n > 0 {
      RunOf(s, p, k);
    } else {
      ZeroDigits();
      StandsAt(s, p, "0", 0);
      RunOf(s, p + 1, 0);
    }
  }

  lemma ZeroDigits()
    ensures Digits(0, 10) == "0"
  {
  }

  lemma {:induction false} NameEndOf(s: string, p: nat, n: nat)
    requires p + n <= |s| && (forall i :: p <= i < p + n ==> InName(s[i])) && !InName(At(s, p + n))
    ensures NameEnd(s, p) == p + n
    decreases n
  {
    if n > 0 {
      NameEndOf(s, p + 1, n - 1);
    }
  }

  // ---------------------------------------------------------------------
  // Reading a tree back
  // ---------------------------------------------------------------------

  /** What reading a tree that ends at p gives. */
  function Reading(s: string, symbols: Symbols, t: Tree, context: nat, p: nat): Read {
    var o := Eval(t, symbols, context);
    Read(o.e, SkipSpace(s, p), o.warned)
  }

  /** Whether a tree is read as one operand. */
  predicate IsOperand(t: Tree, context: nat) {
    !t.Infix? || Rank(t.op) <= context
  }

  lemma OperandNumber(s: string, symbols: Symbols, n: nat, pos: nat)
    requires n < 0x8000_0000_0000_0000 && Stands(s, pos, Digits(n, 10)) && Follows(s, pos + |Digits(n, 10)|, 10)
    ensures ParseOperand(s, symbols, pos) == Reading(s, symbols, Num(n), 10, pos + |Digits(n, 10)|)
  {
    NumberStands(s, pos, n);
    hide Digits, NumberAt;
  }

  lemma OperandName(s: string, symbols: Symbols, name: string, pos: nat)
    requires ValidName(name) && Stands(s, pos, name) && Follows(s, pos + |name|, 10)
    ensures ParseOperand(s, symbols, pos) == Reading(s, symbols, Name(name), 10, pos + |name|)
  {
    StandsAt(s, pos, name, 0);
    if |name| > 1 {
      StandsAt(s, pos, name, 1);
    }
    forall i | pos <= i < pos + |name| ensures InName(s[i]) {
      StandsAt(s, pos, name, i - pos);
    }
    NameEndOf(s, pos, |name|);
    hide NameEnd;
  }

  lemma ReadPrefix(s: string, symbols: Symbols, u: Unary, pos: nat)
    requires pos < |s| && s[pos] == UnaryText(u)
    ensures var r := ParseOperand(s, symbols, pos + 1);
      var o := ApplyUnary(u, r.e);
      ParseOperand(s, symbols, pos) == Finish(s, Read(o.e, r.end, r.warned || o.warned))
  {
    hide ApplyUnary;
  }

  lemma ReadParen(s: string, symbols: Symbols, pos: nat)
    requires pos < |s| && s[pos] == '('
    ensures var r := ParseExpr(s, symbols, 0, pos + 1);
      At(s, r.end) == ')' ==>
        ParseOperand(s, symbols, pos) == Finish(s, Read(r.e, r.end + 1, r.warned || LoneSubtraction(r.e)))
  {
    hide ParseExpr;
  }

  lemma ReadExpr(s: string, symbols: Symbols, rank: nat, pos: nat)
    requires pos <= |s| + 1
    ensures ParseExpr(s, symbols, rank, pos) == ParseRest(s, symbols, rank, ParseOperand(s, symbols, pos))
  {
    hide ParseRest, ParseOperand;
  }

  lemma ReadStop(s: string, symbols: Symbols, rank: nat, left: Read)
    requires left.end <= |s| + 1
    requires OpAt(s, left.end).None? || Rank(OpAt(s, left.end).value) <= rank
    ensures ParseRest(s, symbols, rank, left) == left
  {
  }

  lemma ReadOn(s: string, symbols: Symbols, rank: nat, left: Read, op: Op)
    requires left.end <= |s| + 1 && OpAt(s, left.end) == Some(op) && Rank(op) > rank
    ensures left.end + OpSize(op) <= |s| + 1
    ensures var right := ParseExpr(s, symbols, Rank(op), left.end + OpSize(op));
      var o := Combine(op, left.e, right.e);
      ParseRest(s, symbols, rank, left)
      == ParseRest(s, symbols, rank, Read(o.e, right.end, left.warned || right.warned || o.warned))
  {
    hide Combine, ParseExpr;
  }

  lemma ShowParts(t: Tree, context: nat)
    ensures t.Num? ==> Show(t, context) == Digits(t.n, 10)
    ensures t.Name? ==> Show(t, context) == t.name
    ensures t.Prefix? ==> Show(t, context) == [UnaryText(t.u)] + Show(t.operand, 10)
    ensures t.Infix? && Rank(t.op) <= context ==> Show(t, context) == "(" + Show(t, 0) + ")"
    ensures t.Infix? && Rank(t.op) > context ==>
      Show(t, context) == Show(t.left, Rank(t.op) - 1) + OpText(t.op) + Show(t.right, Rank(t.op))
  {
    hide OpText, Digits;
  }

  lemma PrefixStep(s: string, symbols: Symbols, u: Unary, operand: Tree, context: nat, pos: nat, p: nat)
    requires pos < |s| && s[pos] == UnaryText(u) && Follows(s, p, 10)
    requires ParseOperand(s, symbols, pos + 1) == Reading(s, symbols, operand, 10, p)
    ensures ParseOperand(s, symbols, pos) == Reading(s, symbols, Prefix(u, operand), context, p)
  {
    hide ParseOperand, ApplyUnary, CleanUp, OpAt;
    ReadPrefix(s, symbols, u, pos);
  }

  lemma ParenStep(s: string, symbols: Symbols, t: Tree, context: nat, pos: nat, p: nat)
    requires t.Infix? && Rank(t.op) <= context
    requires pos < |s| && s[pos] == '(' && At(s, p) == ')' && p < |s|
    requires ParseExpr(s, symbols, 0, pos + 1) == Reading(s, symbols, t, 0, p)
    ensures ParseOperand(s, symbols, pos) == Reading(s, symbols, t, context, p + 1)
  {
    hide ParseOperand, ParseExpr, CleanUp, Combine, Rank;
    ReadParen(s, symbols, pos);
  }

  lemma InfixStep(s: string, symbols: Symbols, t: Tree, context: nat, rank: nat, pos: nat, p: nat, end: nat)
    requires t.Infix? && Rank(t.op) > context && rank <= context && pos <= |s| + 1
    requires p <= |s| && OpAt(s, p) == Some(t.op) && SkipSpace(s, p) == p && p + OpSize(t.op) <= |s| + 1
    requires end <= |s| && SkipSpace(s, end) <= |s| + 1
    requires ParseExpr(s, symbols, rank, pos)
          == ParseRest(s, symbols, rank, Reading(s, symbols, t.left, Rank(t.op) - 1, p))
    requires ParseExpr(s, symbols, Rank(t.op), p + OpSize(t.op)) == Reading(s, symbols, t.right, Rank(t.op), end)
    ensures ParseExpr(s, symbols, rank, pos) == ParseRest(s, symbols, rank, Reading(s, symbols, t, context, end))
  {
    hide ParseExpr, ParseRest, Combine, CleanUp, OpAt, OpSize, Rank;
    ReadOn(s, symbols, rank, Reading(s, symbols, t.left, Rank(t.op) - 1, p), t.op);
  }

  /** One operand is read as one operand. */
  lemma {:induction false} OperandReads(s: string, symbols: Symbols, t: Tree, context: nat, pos: nat)
    requires Valid(t) && IsOperand(t, context) && Stands(s, pos, Show(t, context))
    requires Follows(s, pos + |Show(t, context)|, 10)
    ensures ParseOperand(s, symbols, pos) == Reading(s, symbols, t, context, pos + |Show(t, context)|)
    decreases t, context, 0
  {
    hide ParseOperand, ParseExpr, ParseRest, Digits, OpAt, Eval, Follows, Reading, Rank, ValidName, SkipSpace, Show,
         Stands, At, InName;
    ShowParts(t, context);
    var end := pos + |Show(t, context)|;
    StandsEnd(s, pos, Show(t, context));
    match t
    case Num(n) =>
      OperandNumber(s, symbols, n, pos);
      SameReading(s, symbols, t, 10, context, end);
    case Name(name) =>
      OperandName(s, symbols, name, pos);
      SameReading(s, symbols, t, 10, context, end);
    case Prefix(u, operand) =>
      StandsParts(s, pos, [UnaryText(u)], Show(operand, 10));
      StandsCharAt(s, pos, UnaryText(u));
      RankAtMost(operand);
      OperandReads(s, symbols, operand, 10, pos + 1);
      PrefixStep(s, symbols, u, operand, context, pos, end);
    case Infix(op, left, right) =>
      var inner := Show(t, 0);
      StandsParts(s, pos, "(" + inner, ")");
      StandsParts(s, pos, "(", inner);
      StandsCharAt(s, pos, '(');
      StandsCharAt(s, end - 1, ')');
      ParenFollows(s, end - 1, 1);
      TreeReads(s, symbols, t, 0, 0, pos + 1);
      ReadingEnd(s, symbols, t, 0, end - 1);
      ReadStop(s, symbols, 0, Reading(s, symbols, t, 0, end - 1));
      ParenStep(s, symbols, t, context, pos, end - 1);
  }

  lemma StandsCharAt(s: string, p: nat, c: char)
    requires Stands(s, p, [c])
    ensures p < |s| && s[p] == c && At(s, p) == c
  {
    StandsAt(s, p, [c], 0);
  }

  lemma SameReading(s: string, symbols: Symbols, t: Tree, a: nat, b: nat, p: nat)
    requires t.Num? || t.Name?
    ensures Reading(s, symbols, t, a, p) == Reading(s, symbols, t, b, p)
  {
  }

  lemma ReadingEnd(s: string, symbols: Symbols, t: Tree, context: nat, p: nat)
    ensures Reading(s, symbols, t, context, p).end == SkipSpace(s, p)
  {
    hide Eval;
  }

  lemma RankAtMost(t: Tree)
    ensures IsOperand(t, 10)
  {
  }

  lemma ParenFollows(s: string, p: nat, rank: nat)
    requires At(s, p) == ')'
    ensures Follows(s, p, rank) && SkipSpace(s, p) == p && OpAt(s, p).None? && p < |s|
  {
  }

  /** A tree is read as its operators group it. */
  lemma {:induction false} TreeReads(s: string, symbols: Symbols, t: Tree, context: nat, rank: nat, pos: nat)
    requires Valid(t) && rank <= context <= 10 && Stands(s, pos, Show(t, context))
    requires Follows(s, pos + |Show(t, context)|, context + 1)
    ensures ParseExpr(s, symbols, rank, pos)
         == ParseRest(s, symbols, rank, Reading(s, symbols, t, context, pos + |Show(t, context)|))
    decreases t, context, 1
  {
    hide ParseOperand, ParseExpr, ParseRest, OpAt, Eval, Follows, Reading, Show, Rank, OpText, OpSize, Stands,
         StartsOperand, InName, SkipSpace, At;
    var end := pos + |Show(t, context)|;
    StandsEnd(s, pos, Show(t, context));
    if IsOperand(t, context) {
      AnyRank(s, end, context + 1);
      OperandReads(s, symbols, t, context, pos);
      ReadExpr(s, symbols, rank, pos);
    } else {
      ShowParts(t, context);
      var op := t.op;
      var l, o, r := Show(t.left, Rank(op) - 1), OpText(op), Show(t.right, Rank(op));
      StandsParts(s, pos, l + o, r);
      StandsParts(s, pos, l, o);
      FirstChar(t.right, Rank(op));
      StandsAt(s, pos + |l| + |o|, r, 0);
      OpStands(s, pos + |l|, op);
      OpFollows(s, pos + |l|, op);
      assert l + o + r == Show(t, context) && pos + |l| + |o| + |r| == end;
      TreeReads(s, symbols, t.left, Rank(op) - 1, rank, pos);
      FollowsMore(s, end, context + 1, Rank(op));
      TreeReads(s, symbols, t.right, Rank(op), Rank(op), pos + |l| + |o|);
      ReadingEnd(s, symbols, t.right, Rank(op), end);
      ReadStop(s, symbols, Rank(op), Reading(s, symbols, t.right, Rank(op), end));
      InfixStep(s, symbols, t, context, rank, pos, pos + |l|, end);
    }
  }

  lemma OpFollows(s: string, p: nat, op: Op)
    requires OpAt(s, p) == Some(op) && !InName(At(s, p)) && At(s, p) != ' '
    ensures Follows(s, p, Rank(op)) && SkipSpace(s, p) == p
  {
    hide OpAt;
  }

  lemma AnyRank(s: string, p: nat, rank: nat)
    requires Follows(s, p, rank)
    ensures Follows(s, p, 10)
  {
    hide OpAt;
  }

  lemma FollowsMore(s: string, p: nat, rank: nat, more: nat)
    requires Follows(s, p, rank) && rank <= more
    ensures Follows(s, p, more) && Follows(s, p, more + 1)
    ensures var op := OpAt(s, SkipSpace(s, p)); op.None? || Rank(op.value) <= more
  {
    hide OpAt;
  }

  /** Reading what was printed gives what the tree amounts to, and stops behind it. */
  lemma ReadsBack(s: string, symbols: Symbols, t: Tree, rank: nat, pos: nat)
    requires Valid(t) && rank <= 10 && Stands(s, pos, Show(t, rank)) && Follows(s, pos + |Show(t, rank)|, rank)
    ensures ParseExpr(s, symbols, rank, pos) == Reading(s, symbols, t, rank, pos + |Show(t, rank)|)
  {
    hide ParseExpr, ParseRest, Show, OpAt, Eval, Follows, Reading;
    var end := pos + |Show(t, rank)|;
    FollowsMore(s, end, rank, rank);
    TreeReads(s, symbols, t, rank, rank, pos);
    ReadingEnd(s, symbols, t, rank, end);
    ReadStop(s, symbols, rank, Reading(s, symbols, t, rank, end));
  }

  /** Whatever is read, the operator behind it has at most the rank asked for. */
  lemma {:induction false} ReadStops(s: string, symbols: Symbols, rank: nat, left: Read)
    requires left.end <= |s| + 1
    ensures var r := ParseRest(s, symbols, rank, left);
      OpAt(s, r.end).None? || Rank(OpAt(s, r.end).value) <= rank
    decreases |s| + 1 - left.end
  {
    hide ParseExpr, Combine;
    var op := OpAt(s, left.end);
    if op.Some? && Rank(op.value) > rank {
      var right := ParseExpr(s, symbols, Rank(op.value), left.end + OpSize(op.value));
      var o := Combine(op.value, left.e, right.e);
      ReadStops(s, symbols, rank, Read(o.e, right.end, left.warned || right.warned || o.warned));
    }
  }

  // ---------------------------------------------------------------------
  // Texts that no tree is printed as
  // ---------------------------------------------------------------------

  /** An operator in one of its spellings. */
  predicate Spelled(s: string, p: nat, op: Op) {
    Stands(s, p, OpText(op)) || (op.NotEqual? && Stands(s, p, "<>"))
  }

  /** In any text, an operator that is found stands there unless it is a lone exclamation mark, and that
      is the only one that takes the pointer beyond the end, when nothing is behind it. */
  lemma SpelledIff(s: string, p: nat, op: Op)
    requires OpAt(s, p) == Some(op)
    ensures Spelled(s, p, op) <==> !(At(s, p) == '!' && At(s, p + 1) != '=')
    ensures p + OpSize(op) > |s| <==> At(s, p) == '!' && p + 1 == |s|
  {
    assert p < |s|;
    if OpSize(op) == 1 {
      OneStands(s, p, OpText(op)[0]);
    } else {
      TwoStand(s, p, OpText(op)[0], OpText(op)[1]);
      assert OpText(op) == [OpText(op)[0], OpText(op)[1]];
    }
    TwoStand(s, p, '<', '>');
    hide Stands;
  }

  lemma OneStands(s: string, p: nat, c: char)
    requires p < |s|
    ensures Stands(s, p, [c]) <==> s[p] == c
  {
    assert s[p..p + 1] == [s[p]];
  }

  lemma TwoStand(s: string, p: nat, c: char, d: char)
    ensures Stands(s, p, [c, d]) <==> p + 2 <= |s| && s[p] == c && s[p + 1] == d
  {
    if p + 2 <= |s| {
      assert s[p..p + 2] == [s[p], s[p + 1]];
    }
  }

  /** Whatever stands behind an exclamation mark, it is gone over, and the rest is the right operand
      of "!=". */
  lemma LoneExclamation(s: string, symbols: Symbols, rank: nat, left: Read)
    requires left.end < |s| && s[left.end] == '!' && rank < 6
    ensures var right := ParseExpr(s, symbols, 6, left.end + 2);
      var o := Combine(NotEqual, left.e, right.e);
      ParseRest(s, symbols, rank, left)
      == ParseRest(s, symbols, rank, Read(o.e, right.end, left.warned || right.warned || o.warned))
  {
    hide Combine, ParseExpr;
  }

  lemma DigitOperand(s: string, symbols: Symbols, n: nat, p: nat)
    requires n < 10 && Stands(s, p, [DigitChar(n)]) && Follows(s, p + 1, 10) && At(s, p + 1) != ' '
    ensures ParseOperand(s, symbols, p) == Read(Expression(Absolute, None, None, n, false), p + 1, false)
  {
    hide ParseOperand, Follows;
    assert Digits(n, 10) == [DigitChar(n)];
    OperandNumber(s, symbols, n, p);
  }

  /** The text 5!34 is read as 5 != 4, which is true, and without a warning. */
  lemma LoneExample(symbols: Symbols)
    ensures ParseExpr("5!34", symbols, 0, 0) == Read(Expression(Absolute, None, None, 1, false), 4, false)
  {
    hide ParseOperand, ParseExpr, ParseRest, Digits;
    var s := "5!34";
    assert s[0..1] == [DigitChar(5)] && s[3..4] == [DigitChar(4)];
    DigitOperand(s, symbols, 5, 0);
    DigitOperand(s, symbols, 4, 3);
    ReadExpr(s, symbols, 0, 0);
    ReadExpr(s, symbols, 6, 3);
    ReadStop(s, symbols, 6, ParseOperand(s, symbols, 3));
    var left := ParseOperand(s, symbols, 0);
    LoneExclamation(s, symbols, 0, left);
    var all := Read(Expression(Absolute, None, None, 1, false), 4, false);
    ReadStop(s, symbols, 0, all);
  }
}
