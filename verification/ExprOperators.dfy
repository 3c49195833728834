/** The operators by their spellings: what each makes of two numbers, and how they are grouped. */
module ExprOperators {
  import opened Characters
  import opened Wrappers
  import opened Expressions
  import opened ExprParser
  import opened ExprPrinter
  import opened ExprMeaning
  import Numerals

  /** The spellings, those that bind tighter first. */
  const ROWS: seq<seq<string>> := [
    ["*", "/", "%"],
    ["+", "-"],
    ["<<", ">>"],
    ["<", ">", "<=", ">="],
    ["==", "!=", "<>"],
    ["&"],
    ["^"],
    ["|"],
    ["&&"],
    ["||"]]

  predicate InRow(op: string, row: nat) {
    row < 10 && op in ROWS[row]
  }

  /** A 64-bit number with a sign. */
  predicate Word(x: int) {
    -0x8000_0000_0000_0000 <= x < 0x8000_0000_0000_0000
  }

  function TwoPower(k: nat): nat {
    Numerals.PowerOf(2, k)
  }

  lemma TwoPowerIs(k: nat)
    ensures TwoPower(k) == TwoTo(k) > 0
  {
    if k > 0 {
      TwoPowerIs(k - 1);
    }
  }

  /** Bit i of a number in two's complement. */
  function BitOf(x: int, i: nat): (b: nat)
    ensures b == 0 || b == 1
  {
    TwoPowerIs(i);
    x / TwoPower(i) % 2
  }

  /** q and r are quotient and remainder, rounded towards zero. */
  predicate Divides(x: int, y: int, q: int, r: int) {
    && x == q * y + r
    && (if y < 0 then y < r < -y else -y < r < y)
    && (r != 0 ==> (r < 0 <==> x < 0))
  }

  /** What an operator makes of two numbers, in 64 bits. */
  ghost predicate Yields(op: string, x: int, y: int, z: int) {
    && Word(z)
    && (op == "*" ==> Same(z, x * y))
    && (op == "/" ==> if y == 0 then z == 0 else exists q, r :: Divides(x, y, q, r) && Same(z, q))
    && (op == "%" ==> if y == 0 then z == 0 else exists q, r :: Divides(x, y, q, r) && z == r)
    && (op == "+" ==> Same(z, x + y))
    && (op == "-" ==> Same(z, x - y))
    && (op == "<<" ==> 0 <= y < 64 ==> Same(z, x * TwoPower(y)))
    && (op == ">>" ==> 0 <= y < 64 ==> z * TwoPower(y) <= x < (z + 1) * TwoPower(y))
    && (op == "<" ==> z == if x < y then 1 else 0)
    && (op == ">" ==> z == if x > y then 1 else 0)
    && (op == "<=" ==> z == if x <= y then 1 else 0)
    && (op == ">=" ==> z == if x >= y then 1 else 0)
    && (op == "==" ==> z == if x == y then 1 else 0)
    && (op == "!=" || op == "<>" ==> z == if x == y then 0 else 1)
    && (op == "&" ==> forall i :: 0 <= i < 64 ==> BitOf(z, i) == if BitOf(x, i) == 1 && BitOf(y, i) == 1 then 1 else 0)
    && (op == "^" ==> forall i :: 0 <= i < 64 ==> BitOf(z, i) == if BitOf(x, i) != BitOf(y, i) then 1 else 0)
    && (op == "|" ==> forall i :: 0 <= i < 64 ==> BitOf(z, i) == if BitOf(x, i) == 1 || BitOf(y, i) == 1 then 1 else 0)
    && (op == "&&" ==> z == if x != 0 && y != 0 then 1 else 0)
    && (op == "||" ==> z == if x != 0 || y != 0 then 1 else 0)
  }

  // ---------------------------------------------------------------------
  // The operators of the model do that
  // ---------------------------------------------------------------------

  function Spelling(op: string): Option<Op> {
    if op == "*" then Some(Multiply) else if op == "/" then Some(Divide) else if op == "%" then Some(Modulus)
    else if op == "+" then Some(Add) else if op == "-" then Some(Subtract)
    else if op == "<<" then Some(LeftShift) else if op == ">>" then Some(RightShift)
    else if op == "<" then Some(Less) else if op == ">" then Some(Greater)
    else if op == "<=" then Some(LessOrEqual) else if op == ">=" then Some(GreaterOrEqual)
    else if op == "==" then Some(Equal) else if op == "!=" || op == "<>" then Some(NotEqual)
    else if op == "&" then Some(BitAnd) else if op == "^" then Some(BitXor) else if op == "|" then Some(BitOr)
    else if op == "&&" then Some(LogicalAnd) else if op == "||" then Some(LogicalOr) else None
  }

  lemma Halved(x: int, i: nat)
    requires i > 0
    ensures BitOf(x, i) == BitOf(x / 2, i - 1)
  {
    TwoPowerIs(i - 1);
    DivTwice(x, TwoPower(i - 1));
  }

  lemma DivTwice(x: int, p: int)
    requires p > 0
    ensures x / (2 * p) == x / 2 / p
  {
    var q := x / 2 / p;
    var r, b := x / 2 % p, x % 2;
    assert x / 2 == p * q + r;
    assert x == 2 * (x / 2) + b;
    Regrouped(p, q, r);
    assert x == (2 * p) * q + (2 * r + b);
    QuotientIs(x, 2 * p, q, 2 * r + b);
  }

  lemma Regrouped(p: int, q: int, r: int)
    ensures 2 * (p * q + r) == (2 * p) * q + 2 * r
  {
    assert 2 * (p * q) == (2 * p) * q;
  }

  lemma QuotientIs(x: int, y: int, q: int, r: int)
    requires y > 0 && x == y * q + r && 0 <= r < y
    ensures x / y == q
  {
    Between(y, x / y - q, r - x % y, x / y, q);
  }

  lemma Between(y: int, k: int, d: int, q: int, p: int)
    requires y > 0 && -y < d < y && k == q - p && y * q - y * p == d
    ensures k == 0
  {
    assert y * k == d;
    AtLeast(y, k);
  }

  lemma AtLeast(y: int, k: int)
    requires y > 0
    ensures k >= 1 ==> y * k >= y
    ensures k <= -1 ==> y * k <= -y
  {
  }

  lemma {:induction false} BitwiseBit(op: Op, x: int, y: int, n: nat, i: nat)
    requires i < n
    ensures BitOf(Bitwise(op, x, y, n), i) == OneBit(op, BitOf(x, i), BitOf(y, i))
    decreases n
  {
    var low, high := OneBit(op, x % 2, y % 2), Bitwise(op, x / 2, y / 2, n - 1);
    BitSmall(op, x % 2, y % 2);
    assert Bitwise(op, x, y, n) == low + 2 * high;
    hide Bitwise, OneBit, BitOf;
    LowHigh(low, high);
    if i == 0 {
      LowestBit(x);
      LowestBit(y);
      LowestBit(low + 2 * high);
    } else {
      Halved(x, i);
      Halved(y, i);
      Halved(low + 2 * high, i);
      BitwiseBit(op, x / 2, y / 2, n - 1, i - 1);
    }
  }

  lemma BitSmall(op: Op, a: nat, b: nat)
    requires a < 2 && b < 2
    ensures OneBit(op, a, b) < 2
  {
  }

  lemma LowHigh(low: nat, high: nat)
    requires low < 2
    ensures (low + 2 * high) % 2 == low && (low + 2 * high) / 2 == high
  {
  }

  lemma LowestBit(x: int)
    ensures BitOf(x, 0) == x % 2
  {
  }

  lemma {:induction false} WordBits(x: int, m: int, k: int, n: nat, i: nat)
    requires i < n && m == k * TwoPower(n)
    ensures BitOf(x + m, i) == BitOf(x, i)
    decreases n
  {
    hide BitOf, TwoPower;
    var y := k * TwoPower(n - 1);
    DoubledPower(k, n);
    MoreHalved(x, y);
    if i == 0 {
      LowestBit(x);
      LowestBit(x + 2 * y);
    } else {
      Halved(x, i);
      Halved(x + 2 * y, i);
      WordBits(x / 2, y, k, n - 1, i - 1);
    }
  }

  lemma DoubledPower(k: int, n: nat)
    requires n > 0
    ensures k * TwoPower(n) == 2 * (k * TwoPower(n - 1))
  {
    assert TwoPower(n) == 2 * TwoPower(n - 1);
    hide TwoPower;
  }

  lemma MoreHalved(x: int, y: int)
    ensures (x + 2 * y) % 2 == x % 2 && (x + 2 * y) / 2 == x / 2 + y
  {
  }

  lemma WrapBits(x: int, i: nat)
    requires i < 64
    ensures BitOf(Wrap(x), i) == BitOf(x, i)
  {
    SixtyFour();
    var k := (Wrap(x) - x) / 0x1_0000_0000_0000_0000;
    var m := k * 0x1_0000_0000_0000_0000;
    assert Wrap(x) == x + m;
    WordBits(x, m, k, 64, i);
  }

  lemma {:induction false} TwoPowerAdd(a: nat, b: nat)
    ensures TwoPower(a + b) == TwoPower(a) * TwoPower(b)
  {
    if a > 0 {
      TwoPowerAdd(a - 1, b);
    }
  }

  lemma SixtyFour()
    ensures TwoPower(64) == 0x1_0000_0000_0000_0000
  {
    assert TwoPower(4) == 16;
    TwoPowerAdd(4, 4);
    TwoPowerAdd(8, 8);
    TwoPowerAdd(16, 16);
    TwoPowerAdd(32, 32);
    hide TwoPower;
  }

  // ---------------------------------------------------------------------

  lemma Division(x: int, y: int)
    requires y != 0
    ensures Divides(x, y, Quotient(x, y), x - y * Quotient(x, y))
  {
    var a, b := if x < 0 then -x else x, if y < 0 then -y else y;
    var q := a / b;
    assert a == b * q + a % b;
    Signs(b, q);
    assert y * Quotient(x, y) == if x < 0 then -(b * q) else b * q;
  }

  lemma Signs(b: int, q: int)
    ensures (-b) * q == -(b * q) && b * (-q) == -(b * q) && (-b) * (-q) == b * q
  {
  }

  lemma WordWrap(x: int)
    ensures Word(Wrap(x)) && Same(Wrap(x), x) && (Word(x) ==> Wrap(x) == x)
  {
  }

  lemma RemainderSmall(x: int, y: int)
    requires y != 0 && Word(x) && Word(y)
    ensures Word(x - y * Quotient(x, y))
  {
    Division(x, y);
    hide Quotient;
  }

  lemma DivideYields(x: int, y: int)
    requires Word(x) && Word(y)
    ensures Yields("/", x, y, Arithmetic(Divide, x, y)) && Yields("%", x, y, Arithmetic(Modulus, x, y))
  {
    if y != 0 {
      var q := Quotient(x, y);
      Division(x, y);
      RemainderSmall(x, y);
      WordWrap(q);
      WordWrap(x - y * q);
      hide Quotient, Wrap, Same, Word, Divides;
    }
  }

  lemma ShiftYields(x: int, y: int)
    requires Word(x) && Word(y)
    ensures Yields("<<", x, y, Arithmetic(LeftShift, x, y)) && Yields(">>", x, y, Arithmetic(RightShift, x, y))
  {
    LeftYields(x, y, TwoTo(y % 64));
    RightYields(x, y, TwoTo(y % 64));
  }

  lemma LeftYields(x: int, y: int, p: nat)
    requires p == TwoTo(y % 64)
    ensures Yields("<<", x, y, Arithmetic(LeftShift, x, y))
  {
    TwoPowerIs(y % 64);
    hide TwoTo, TwoPower, Wrap, Same, Word;
    WordWrap(x * p);
  }

  lemma RightYields(x: int, y: int, p: nat)
    requires p == TwoTo(y % 64) && Word(x)
    ensures Yields(">>", x, y, Arithmetic(RightShift, x, y))
  {
    TwoPowerIs(y % 64);
    hide TwoTo, TwoPower, Wrap, Same, Word;
    Floored(x, p);
  }

  lemma Floored(x: int, p: int)
    requires p > 0
    ensures x / p * p <= x < (x / p + 1) * p
    ensures Word(x) ==> Word(x / p)
  {
    FloorParts(x, p, x / p, x % p);
  }

  lemma FloorParts(x: int, p: int, q: int, r: int)
    requires p > 0 && x == p * q + r && 0 <= r < p
    ensures q * p <= x < (q + 1) * p
    ensures Word(x) ==> Word(q)
  {
    Away(p, q);
    Away(p, q + 1);
  }

  lemma Away(p: int, q: int)
    requires p > 0
    ensures q * p == p * q && p * (q + 1) == p * q + p
    ensures q >= 0 ==> p * q >= q
    ensures q <= 0 ==> p * q <= q
  {
  }

  lemma BitsJoined(op: Op, x: int, y: int)
    requires op.BitAnd? || op.BitXor? || op.BitOr?
    ensures Word(Arithmetic(op, x, y))
    ensures forall i :: 0 <= i < 64 ==> BitOf(Arithmetic(op, x, y), i) == OneBit(op, BitOf(x, i), BitOf(y, i))
  {
    var v := Bitwise(op, x, y, 64);
    WordWrap(v);
    assert Arithmetic(op, x, y) == Wrap(v);
    hide Wrap, Bitwise, BitOf, Arithmetic, OneBit;
    forall i | 0 <= i < 64 ensures BitOf(Wrap(v), i) == OneBit(op, BitOf(x, i), BitOf(y, i)) {
      WrapBits(v, i);
      BitwiseBit(op, x, y, 64, i);
    }
  }

  lemma BothBits(a: nat, b: nat)
    requires a < 2 && b < 2
    ensures OneBit(BitAnd, a, b) == if a == 1 && b == 1 then 1 else 0
    ensures OneBit(BitXor, a, b) == if a != b then 1 else 0
    ensures OneBit(BitOr, a, b) == if a == 1 || b == 1 then 1 else 0
  {
  }

  lemma AndYields(x: int, y: int)
    ensures Yields("&", x, y, Arithmetic(BitAnd, x, y))
  {
    BitsJoined(BitAnd, x, y);
    hide BitOf, Arithmetic, Word, OneBit;
    forall i | 0 <= i < 64
      ensures BitOf(Arithmetic(BitAnd, x, y), i) == if BitOf(x, i) == 1 && BitOf(y, i) == 1 then 1 else 0
    {
      BothBits(BitOf(x, i), BitOf(y, i));
    }
  }

  lemma XorYields(x: int, y: int)
    ensures Yields("^", x, y, Arithmetic(BitXor, x, y))
  {
    BitsJoined(BitXor, x, y);
    hide BitOf, Arithmetic, Word, OneBit;
    forall i | 0 <= i < 64
      ensures BitOf(Arithmetic(BitXor, x, y), i) == if BitOf(x, i) != BitOf(y, i) then 1 else 0
    {
      BothBits(BitOf(x, i), BitOf(y, i));
    }
  }

  lemma OrYields(x: int, y: int)
    ensures Yields("|", x, y, Arithmetic(BitOr, x, y))
  {
    BitsJoined(BitOr, x, y);
    hide BitOf, Arithmetic, Word, OneBit;
    forall i | 0 <= i < 64
      ensures BitOf(Arithmetic(BitOr, x, y), i) == if BitOf(x, i) == 1 || BitOf(y, i) == 1 then 1 else 0
    {
      BothBits(BitOf(x, i), BitOf(y, i));
    }
  }

  /** Comparisons and logical operators. */
  lemma TruthYields(op: string, x: int, y: int)
    requires op in ["<", ">", "<=", ">=", "==", "!=", "<>", "&&", "||"]
    ensures Yields(op, x, y, Arithmetic(Spelling(op).value, x, y))
  {
  }

  lemma SumYields(op: string, x: int, y: int)
    requires op in ["*", "+", "-"]
    ensures Yields(op, x, y, Arithmetic(Spelling(op).value, x, y))
  {
    WordWrap(x * y);
    WordWrap(x + y);
    WordWrap(x - y);
    hide Wrap, Same, Word;
  }

  /** The operator of every spelling yields what it should. */
  lemma ArithmeticYields(op: string, x: int, y: int)
    requires Spelling(op).Some? && Word(x) && Word(y)
    ensures Yields(op, x, y, Arithmetic(Spelling(op).value, x, y))
  {
    hide Yields, Arithmetic, Word;
    DivideYields(x, y);
    ShiftYields(x, y);
    AndYields(x, y);
    XorYields(x, y);
    OrYields(x, y);
    if op in ["<", ">", "<=", ">=", "==", "!=", "<>", "&&", "||"] {
      TruthYields(op, x, y);
    } else if op in ["*", "+", "-"] {
      SumYields(op, x, y);
    }
  }
}
