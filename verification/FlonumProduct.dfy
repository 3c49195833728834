/** The product of two digit strings: exactly, column by column, and as a column loop computes
    it with 32-bit words into a destination that may be too short. */
module FlonumProduct {
  import opened Littlenums

  const WORD := 0x1_0000_0000

  // ---------------------------------------------------------------------
  // The exact product, column by column
  // ---------------------------------------------------------------------

  function Mul(x: Littlenum, y: Littlenum): (p: nat)
    ensures p <= 0xFFFF * 0xFFFF
  {
    MulMono(x, y, 0xFFFF);
    MulMono(0xFFFF, x, 0xFFFF);
    x as int * y
  }

  /** The partial product a[i] * b[N-i], where both digits exist. */
  function Term(a: seq<Littlenum>, b: seq<Littlenum>, N: nat, i: nat): nat {
    if i < |a| && i <= N && N - i < |b| then Mul(a[i], b[N - i]) else 0
  }

  function ColSum(a: seq<Littlenum>, b: seq<Littlenum>, N: nat, A: nat): nat {
    if A == 0 then 0 else ColSum(a, b, N, A - 1) + Term(a, b, N, A - 1)
  }

  /** Column N of the schoolbook product: the sum of a[i] * b[j] over i + j == N. */
  function Col(a: seq<Littlenum>, b: seq<Littlenum>, N: nat): nat {
    ColSum(a, b, N, N + 1)
  }

  function ColsVal(a: seq<Littlenum>, b: seq<Littlenum>, n: nat): nat {
    if n == 0 then 0 else ColsVal(a, b, n - 1) + Pow(n - 1) * Col(a, b, n - 1)
  }

  /** How many columns the product of two digit strings has. */
  function Columns(a: seq<Littlenum>, b: seq<Littlenum>): nat {
    if |a| + |b| == 0 then 0 else |a| + |b| - 1
  }

  lemma {:induction false} ColSumPeel(a: seq<Littlenum>, b: seq<Littlenum>, N: nat, A: nat)
    requires a != []
    ensures ColSum(a, b, N, A + 1)
         == (if N < |b| then Mul(a[0], b[N]) else 0) + (if N == 0 then 0 else ColSum(a[1..], b, N - 1, A))
  {
    if A == 0 {
      assert ColSum(a, b, N, 1) == ColSum(a, b, N, 0) + Term(a, b, N, 0);
    } else {
      ColSumPeel(a, b, N, A - 1);
      if N > 0 {
        assert Term(a, b, N, A) == Term(a[1..], b, N - 1, A - 1);
      } else {
        assert Term(a, b, N, A) == 0;
      }
    }
  }

  lemma {:induction false} ColSumEmpty(a: seq<Littlenum>, b: seq<Littlenum>, N: nat, A: nat)
    requires a == [] || b == []
    ensures ColSum(a, b, N, A) == 0
  {
    if A > 0 {
      ColSumEmpty(a, b, N, A - 1);
    }
  }

  lemma {:induction false} ColsValEmpty(a: seq<Littlenum>, b: seq<Littlenum>, n: nat)
    requires a == [] || b == []
    ensures ColsVal(a, b, n) == 0
  {
    if n > 0 {
      ColsValEmpty(a, b, n - 1);
      ColSumEmpty(a, b, n - 1, n);
    }
  }

  function Prefix(b: seq<Littlenum>, n: nat): seq<Littlenum> {
    if n <= |b| then b[..n] else b
  }

  lemma PrefixGrow(x: Littlenum, b: seq<Littlenum>, n: nat)
    ensures x * Val(Prefix(b, n + 1)) == x * Val(Prefix(b, n)) + Pow(n) * (if n < |b| then Mul(x, b[n]) else 0)
  {
    if n < |b| {
      assert b[..n + 1] == b[..n] + [b[n]];
      ValAppend(b[..n], b[n]);
      Rearrange(x, Val(b[..n]), Pow(n), b[n]);
    } else {
      assert Prefix(b, n + 1) == Prefix(b, n);
    }
  }

  lemma {:induction false} ColsValPeel(a: seq<Littlenum>, b: seq<Littlenum>, n: nat)
    requires a != []
    ensures ColsVal(a, b, n + 1) == a[0] * Val(Prefix(b, n + 1)) + RADIX * ColsVal(a[1..], b, n)
  {
    ColSumPeel(a, b, n, n);
    PrefixGrow(a[0], b, n);
    if n > 0 {
      ColsValPeel(a, b, n - 1);
      PeelArithmetic(Pow(n - 1), if n < |b| then Mul(a[0], b[n]) else 0, Col(a[1..], b, n - 1),
                     a[0] * Val(Prefix(b, n)), ColsVal(a[1..], b, n - 1));
    } else {
      assert Prefix(b, 0) == [];
    }
  }

  lemma PeelArithmetic(p: int, t: int, c: int, x: int, d: int)
    ensures x + RADIX * d + (RADIX * p) * (t + c) == (x + (RADIX * p) * t) + RADIX * (d + p * c)
  {
    assert (RADIX * p) * c == RADIX * (p * c);
  }

  lemma Rearrange(x: int, v: int, p: int, y: int)
    ensures x * (v + p * y) == x * v + p * (x * y)
  {
    assert x * (p * y) == p * (x * y);
  }

  /** Summing the columns at their place values gives the product. */
  lemma {:induction false} ColumnsAreProduct(a: seq<Littlenum>, b: seq<Littlenum>, n: nat)
    requires n >= Columns(a, b)
    ensures ColsVal(a, b, n) == Val(a) * Val(b)
  {
    if a == [] || b == [] {
      ColsValEmpty(a, b, n);
    } else {
      ColsValPeel(a, b, n - 1);
      assert Prefix(b, n) == b;
      if |a| == 1 {
        ColsValEmpty(a[1..], b, n - 1);
        assert Val(a[1..]) == 0;
      } else {
        ColumnsAreProduct(a[1..], b, n - 1);
      }
      Factor(a[0], Val(a[1..]), Val(b));
    }
  }

  lemma Factor(x: int, v: int, y: int)
    ensures (x + RADIX * v) * y == x * y + RADIX * (v * y)
  {
    assert (RADIX * v) * y == RADIX * (v * y);
  }

  // ---------------------------------------------------------------------
  // The product as computed with 32-bit words
  // ---------------------------------------------------------------------

  /** `lost` is what 32-bit wrap-around has taken out of the column so far. */
  datatype Column = Column(work: nat, carry: nat, lost: nat)

  function Accumulate(c: Column, term: nat): Column {
    var s := c.work + term;
    var w := s % 0x1_0000_0000;
    var k := c.carry + w / 0x10000;
    Column(w % 0x10000, k % 0x1_0000_0000, c.lost + (s - w) + RADIX * (k - k % 0x1_0000_0000))
  }

  predicate HasTerm(a: seq<Littlenum>, b: seq<Littlenum>, N: nat, i: nat) {
    i < |a| && i <= N && N - i < |b|
  }

  /** Column N after its candidates 0 .. A-1, entered with the given carry. */
  function Scan(a: seq<Littlenum>, b: seq<Littlenum>, N: nat, A: nat, carryIn: nat): Column {
    if A == 0 then Column(carryIn, 0, 0)
    else
      var c := Scan(a, b, N, A - 1, carryIn);
      if HasTerm(a, b, N, A - 1) then Accumulate(c, Mul(a[A - 1], b[N - (A - 1)])) else c
  }

  /** The 32-bit carry that enters column N. */
  function CarryInto(a: seq<Littlenum>, b: seq<Littlenum>, N: nat): nat {
    if N == 0 then 0 else Scan(a, b, N - 1, N, CarryInto(a, b, N - 1)).carry
  }

  function Finished(a: seq<Littlenum>, b: seq<Littlenum>, N: nat): Column {
    Scan(a, b, N, N + 1, CarryInto(a, b, N))
  }

  /** The low n digits the machine computes, before any is dropped. */
  function Works(a: seq<Littlenum>, b: seq<Littlenum>, n: nat): (w: seq<Littlenum>)
    ensures |w| == n
  {
    if n == 0 then [] else Works(a, b, n - 1) + [Finished(a, b, n - 1).work % 0x10000]
  }

  function LostBelow(a: seq<Littlenum>, b: seq<Littlenum>, n: nat): nat {
    if n == 0 then 0 else LostBelow(a, b, n - 1) + Pow(n - 1) * Finished(a, b, n - 1).lost
  }

  function Lost(a: seq<Littlenum>, b: seq<Littlenum>): nat {
    LostBelow(a, b, Columns(a, b))
  }

  /** Digits of a product and the number k of low digits that were left out. */
  datatype Product = Product(mant: seq<Littlenum>, k: nat)

  function LowZeros(w: seq<Littlenum>): (z: nat)
    ensures z <= |w| && (forall i :: 0 <= i < z ==> w[i] == 0) && (z < |w| ==> w[z] != 0)
  {
    if w == [] || w[0] != 0 then 0 else
      var z := LowZeros(w[1..]);
      assert forall i :: 1 <= i < z + 1 ==> w[i] == w[1..][i - 1];
      z + 1
  }

  function Dropped(a: seq<Littlenum>, b: seq<Littlenum>, cap: nat): nat {
    if Columns(a, b) > cap then Columns(a, b) - cap else 0
  }

  /** How many of the columns computed so far are not stored: the first `drop`, then any zeros
      that nothing but zeros precede. */
  function Unstored(w: seq<Littlenum>, drop: nat): (k: nat)
    ensures k <= |w|
  {
    if |w| <= drop then |w| else if LowZeros(w) > drop then LowZeros(w) else drop
  }

  /** Low columns left out before the final carry. */
  function Skipped(a: seq<Littlenum>, b: seq<Littlenum>, cap: nat): (k: nat)
    ensures k <= Columns(a, b)
  {
    Unstored(Works(a, b, Columns(a, b)), Dropped(a, b, cap))
  }

  function FinalCarry(a: seq<Littlenum>, b: seq<Littlenum>): nat {
    CarryInto(a, b, Columns(a, b))
  }

  /** The code's test for whether the final carry has a free position of its own. */
  predicate RoomForCarry(a: seq<Littlenum>, b: seq<Littlenum>, cap: nat) {
    cap - Columns(a, b) + (Skipped(a, b, cap) - Dropped(a, b, cap)) > 0
  }

  function Top(carry: nat): (t: seq<Littlenum>)
    ensures carry == 0 ==> t == []
    ensures 0 < carry < RADIX ==> t == [carry]
  {
    if carry == 0 then [] else [carry % 0x10000]
  }

  /** Every digit the machine computes, with the final carry on top. */
  function Digits(a: seq<Littlenum>, b: seq<Littlenum>): (d: seq<Littlenum>)
    ensures |d| >= Columns(a, b)
  {
    Works(a, b, Columns(a, b)) + Top(FinalCarry(a, b))
  }

  /** How many low digits the code leaves out. */
  function LeftOut(a: seq<Littlenum>, b: seq<Littlenum>, cap: nat): (k: nat)
    ensures k <= |Digits(a, b)|
  {
    Skipped(a, b, cap) + if FinalCarry(a, b) != 0 && !RoomForCarry(a, b, cap) then 1 else 0
  }

  function Multip(a: seq<Littlenum>, b: seq<Littlenum>, cap: nat): Product {
    Product(Digits(a, b)[LeftOut(a, b, cap)..], LeftOut(a, b, cap))
  }

  lemma {:induction false} ScanBalance(a: seq<Littlenum>, b: seq<Littlenum>, N: nat, A: nat, carryIn: nat)
    ensures var c := Scan(a, b, N, A, carryIn);
            carryIn + ColSum(a, b, N, A) == c.work + RADIX * c.carry + c.lost
  {
    if A > 0 {
      ScanBalance(a, b, N, A - 1, carryIn);
      if HasTerm(a, b, N, A - 1) {
        AccumulateBalance(Scan(a, b, N, A - 1, carryIn), Mul(a[A - 1], b[N - (A - 1)]));
      }
    }
  }

  lemma AccumulateBalance(c: Column, term: nat)
    ensures var d := Accumulate(c, term);
            c.work + RADIX * c.carry + c.lost + term == d.work + RADIX * d.carry + d.lost
  {
    var s := c.work + term;
    var w := s % 0x1_0000_0000;
    assert w == RADIX * (w / 0x10000) + w % 0x10000;
  }

  /** After at least one term the working digit fits a littlenum. */
  lemma {:induction false} ScanWork(a: seq<Littlenum>, b: seq<Littlenum>, N: nat, A: nat, carryIn: nat)
    requires carryIn == 0 || exists i: nat :: i < A && HasTerm(a, b, N, i)
    ensures Scan(a, b, N, A, carryIn).work < RADIX
  {
    if A > 0 && !HasTerm(a, b, N, A - 1) {
      ScanWork(a, b, N, A - 1, carryIn);
    }
  }

  lemma {:induction false} ScanWord(a: seq<Littlenum>, b: seq<Littlenum>, N: nat, A: nat, carryIn: nat)
    requires carryIn < WORD
    ensures Scan(a, b, N, A, carryIn).carry < WORD && Scan(a, b, N, A, carryIn).work < WORD
  {
    if A > 0 {
      ScanWord(a, b, N, A - 1, carryIn);
    }
  }

  lemma {:induction false} CarryWord(a: seq<Littlenum>, b: seq<Littlenum>, N: nat)
    ensures CarryInto(a, b, N) < WORD
    ensures a == [] || b == [] ==> CarryInto(a, b, N) == 0
  {
    if N > 0 {
      CarryWord(a, b, N - 1);
      ScanWord(a, b, N - 1, N, CarryInto(a, b, N - 1));
      if a == [] || b == [] {
        ScanEmpty(a, b, N - 1, N);
      }
    }
  }

  lemma {:induction false} ScanEmpty(a: seq<Littlenum>, b: seq<Littlenum>, N: nat, A: nat)
    requires a == [] || b == []
    ensures Scan(a, b, N, A, 0) == Column(0, 0, 0)
  {
    if A > 0 {
      ScanEmpty(a, b, N, A - 1);
    }
  }

  lemma WorkIsDigit(a: seq<Littlenum>, b: seq<Littlenum>, N: nat)
    requires N < Columns(a, b)
    ensures Finished(a, b, N).work < RADIX
  {
    CarryWord(a, b, N);
    if a != [] && b != [] {
      var i := if N < |b| then 0 else N - |b| + 1;
      assert HasTerm(a, b, N, i);
    }
    ScanWork(a, b, N, N + 1, CarryInto(a, b, N));
  }

  /** Nothing disappears except through wrap-around. */
  lemma {:induction false} Balance(a: seq<Littlenum>, b: seq<Littlenum>, n: nat)
    requires n <= Columns(a, b)
    ensures Val(Works(a, b, n)) + Pow(n) * CarryInto(a, b, n) + LostBelow(a, b, n) == ColsVal(a, b, n)
  {
    if n > 0 {
      var m := n - 1;
      Balance(a, b, m);
      var c := Finished(a, b, m);
      WorkIsDigit(a, b, m);
      ScanBalance(a, b, m, n, CarryInto(a, b, m));
      ValAppend(Works(a, b, m), c.work);
      assert Works(a, b, n) == Works(a, b, m) + [c.work];
      Spread(Pow(m), CarryInto(a, b, m), Col(a, b, m), c);
    }
  }

  lemma Spread(p: nat, x: nat, y: nat, c: Column)
    requires x + y == c.work + RADIX * c.carry + c.lost
    ensures p * x + p * y == p * c.work + (RADIX * p) * c.carry + p * c.lost
  {
    assert p * (x + y) == p * (c.work + RADIX * c.carry + c.lost);
    assert p * (RADIX * c.carry) == (RADIX * p) * c.carry;
  }

  // ---------------------------------------------------------------------
  // What the computed product is worth
  // ---------------------------------------------------------------------

  /** The number the machine holds after the last column: the product less what wrapped away. */
  lemma MachineTotal(a: seq<Littlenum>, b: seq<Littlenum>)
    ensures Val(Works(a, b, Columns(a, b))) + Pow(Columns(a, b)) * FinalCarry(a, b)
         == Val(a) * Val(b) - Lost(a, b)
  {
    Balance(a, b, Columns(a, b));
    ColumnsAreProduct(a, b, Columns(a, b));
  }

  lemma ProductBound(a: seq<Littlenum>, b: seq<Littlenum>)
    ensures Val(a) * Val(b) < Pow(Columns(a, b) + 1)
  {
    ValBound(a);
    ValBound(b);
    PowAdd(|a|, |b|);
    if |a| + |b| > 0 {
      MulBelow(Val(a), Val(b), Pow(|a|), Pow(|b|));
    }
  }

  lemma MulBelow(x: nat, y: nat, p: nat, q: nat)
    requires x < p && y < q
    ensures x * y < p * q
  {
    MulMono(x, y, q - 1);
    MulMono(q - 1, x, p - 1);
    assert p * q == (q - 1) * (p - 1) + (p - 1) + (q - 1) + 1;
  }

  /** The carry left after the last column always fits one littlenum. */
  lemma FinalCarryFits(a: seq<Littlenum>, b: seq<Littlenum>)
    ensures FinalCarry(a, b) < RADIX
  {
    MachineTotal(a, b);
    ProductBound(a, b);
    var p := Pow(Columns(a, b));
    if FinalCarry(a, b) >= RADIX {
      MulMono(p, RADIX, FinalCarry(a, b));
    }
  }

  lemma DigitsTotal(a: seq<Littlenum>, b: seq<Littlenum>)
    ensures Val(Digits(a, b)) == Val(a) * Val(b) - Lost(a, b)
  {
    MachineTotal(a, b);
    FinalCarryFits(a, b);
    ValTop(Works(a, b, Columns(a, b)), FinalCarry(a, b));
  }

  lemma ValTop(w: seq<Littlenum>, c: nat)
    requires c < RADIX
    ensures Val(w + Top(c)) == Val(w) + Pow(|w|) * c
  {
    if c == 0 {
      assert w + Top(c) == w;
    } else {
      ValAppend(w, c);
    }
  }

  /** The computed mantissa is the product less what wrapped away, cut to whole digits,
      and it fits the destination. */
  lemma MultipValue(a: seq<Littlenum>, b: seq<Littlenum>, cap: nat)
    ensures var p := Multip(a, b, cap);
            && Lost(a, b) <= Val(a) * Val(b)
            && Val(p.mant) == (Val(a) * Val(b) - Lost(a, b)) / Pow(p.k)
            && |p.mant| <= cap
  {
    DigitsTotal(a, b);
    ValSplit(Digits(a, b), LeftOut(a, b, cap));
  }

  // ---------------------------------------------------------------------
  // When 32 bits are enough
  // ---------------------------------------------------------------------

  /** The carry into column N of exact arithmetic. */
  function ExactCarry(a: seq<Littlenum>, b: seq<Littlenum>, N: nat): nat {
    if N == 0 then 0 else (ExactCarry(a, b, N - 1) + Col(a, b, N - 1)) / 0x10000
  }

  /** The index of the first partial product of column N. */
  function FirstIndex(b: seq<Littlenum>, N: nat): nat {
    if N < |b| then 0 else N - |b| + 1
  }

  /** Every carry leaves room for the first partial product of the column it enters. */
  ghost predicate NoWrap(a: seq<Littlenum>, b: seq<Littlenum>) {
    forall N: nat :: N < Columns(a, b) ==> ExactCarry(a, b, N) + Term(a, b, N, FirstIndex(b, N)) < WORD
  }

  lemma {:induction false} ScanBeforeFirst(a: seq<Littlenum>, b: seq<Littlenum>, N: nat, A: nat, x: nat)
    requires A <= FirstIndex(b, N)
    ensures Scan(a, b, N, A, x) == Column(x, 0, 0) && ColSum(a, b, N, A) == 0
  {
    if A > 0 {
      ScanBeforeFirst(a, b, N, A - 1, x);
    }
  }

  lemma {:induction false} ColSumMonotone(a: seq<Littlenum>, b: seq<Littlenum>, N: nat, A: nat, A': nat)
    requires A <= A'
    ensures ColSum(a, b, N, A) <= ColSum(a, b, N, A')
  {
    if A < A' {
      ColSumMonotone(a, b, N, A, A' - 1);
    }
  }

  /** A column whose first product fits loses nothing as long as its carry fits a word. */
  lemma {:induction false} ScanKeepsAll(a: seq<Littlenum>, b: seq<Littlenum>, N: nat, A: nat, x: nat)
    requires x + Term(a, b, N, FirstIndex(b, N)) < WORD
    requires x + ColSum(a, b, N, A) < RADIX * WORD
    ensures Scan(a, b, N, A, x).lost == 0
    ensures A > FirstIndex(b, N) && HasTerm(a, b, N, FirstIndex(b, N)) ==> Scan(a, b, N, A, x).work < RADIX
  {
    if A <= FirstIndex(b, N) {
      ScanBeforeFirst(a, b, N, A, x);
    } else {
      ColSumMonotone(a, b, N, A - 1, A);
      ScanKeepsAll(a, b, N, A - 1, x);
      var i := A - 1;
      if HasTerm(a, b, N, i) {
        var c := Scan(a, b, N, i, x);
        var t := Mul(a[i], b[N - i]);
        if i == FirstIndex(b, N) {
          ScanBeforeFirst(a, b, N, i, x);
        } else {
          assert HasTerm(a, b, N, FirstIndex(b, N));
        }
        ScanBalance(a, b, N, i, x);
        AccumulateKeeps(c, t);
      }
    }
  }

  lemma AccumulateKeeps(c: Column, t: nat)
    requires c.work + t < WORD && c.work + t + RADIX * c.carry < RADIX * WORD
    ensures Accumulate(c, t).lost == c.lost
  {
    var s := c.work + t;
    assert s == RADIX * (s / 0x10000) + s % 0x10000;
  }

  /** How many of the first A candidates of column N contribute. */
  function Terms(a: seq<Littlenum>, b: seq<Littlenum>, N: nat, A: nat): nat {
    if A == 0 then 0 else Terms(a, b, N, A - 1) + if HasTerm(a, b, N, A - 1) then 1 else 0
  }

  function ColTerms(a: seq<Littlenum>, b: seq<Littlenum>, N: nat): nat {
    Terms(a, b, N, N + 1)
  }

  lemma {:induction false} TermsBound(a: seq<Littlenum>, b: seq<Littlenum>, N: nat, A: nat)
    ensures Terms(a, b, N, A) <= A && Terms(a, b, N, A) <= |a|
    ensures Terms(a, b, N, A) <= if A <= FirstIndex(b, N) then 0 else A - FirstIndex(b, N)
  {
    if A > 0 {
      TermsBound(a, b, N, A - 1);
      if A > |a| {
        assert !HasTerm(a, b, N, A - 1);
      }
    }
  }

  lemma {:induction false} ColBound(a: seq<Littlenum>, b: seq<Littlenum>, N: nat, A: nat)
    ensures ColSum(a, b, N, A) <= 0xFFFF * 0xFFFF * Terms(a, b, N, A)
  {
    if A > 0 {
      ColBound(a, b, N, A - 1);
      if HasTerm(a, b, N, A - 1) {
      }
    }
  }

  /** The carry entering a column is at most 0xFFFF times the most terms of any earlier column. */
  lemma {:induction false} CarryBound(a: seq<Littlenum>, b: seq<Littlenum>, N: nat, m: nat)
    requires forall M: nat :: M < N ==> ColTerms(a, b, M) <= m
    ensures ExactCarry(a, b, N) <= 0xFFFF * m
  {
    if N > 0 {
      CarryBound(a, b, N - 1, m);
      ColBound(a, b, N - 1, N);
      assert ColTerms(a, b, N - 1) <= m;
      assert 0xFFFF * m + 0xFFFF * 0xFFFF * m == RADIX * (0xFFFF * m);
    }
  }

  /** A factor of at most two littlenums can never make a column wrap. */
  lemma ShortFactorNoWrap(a: seq<Littlenum>, b: seq<Littlenum>)
    requires |a| <= 2 || |b| <= 2
    ensures NoWrap(a, b)
  {
    forall N: nat | N < Columns(a, b)
      ensures ExactCarry(a, b, N) + Term(a, b, N, FirstIndex(b, N)) < WORD
    {
      forall M: nat | M < N ensures ColTerms(a, b, M) <= 2 {
        TermsBound(a, b, M, M + 1);
      }
      CarryBound(a, b, N, 2);
      if HasTerm(a, b, N, FirstIndex(b, N)) {
      }
    }
  }

  /** Before the first loss the machine's carries are the exact ones. */
  lemma {:induction false} CarryExact(a: seq<Littlenum>, b: seq<Littlenum>, N: nat)
    requires N <= Columns(a, b) && LostBelow(a, b, N) == 0
    ensures CarryInto(a, b, N) == ExactCarry(a, b, N)
  {
    if N > 0 {
      assert Pow(N - 1) * Finished(a, b, N - 1).lost == 0;
      CarryExact(a, b, N - 1);
      var c := Finished(a, b, N - 1);
      if c.lost > 0 {
        MulMono(Pow(N - 1), 1, c.lost);
      }
      ScanBalance(a, b, N - 1, N, CarryInto(a, b, N - 1));
      WorkIsDigit(a, b, N - 1);
      DivModUnique(c.work + RADIX * c.carry, RADIX, c.carry, c.work);
    }
  }

  lemma {:induction false} LostMonotone(a: seq<Littlenum>, b: seq<Littlenum>, n: nat, m: nat)
    requires n <= m
    ensures LostBelow(a, b, n) <= LostBelow(a, b, m)
  {
    if n < m {
      LostMonotone(a, b, n, m - 1);
    }
  }

  lemma {:induction false} ScanLostMonotone(a: seq<Littlenum>, b: seq<Littlenum>, N: nat, A: nat, A': nat, x: nat)
    requires A <= A'
    ensures Scan(a, b, N, A, x).lost <= Scan(a, b, N, A', x).lost
  {
    if A < A' {
      ScanLostMonotone(a, b, N, A, A' - 1, x);
      if HasTerm(a, b, N, A' - 1) {
        AccumulateLoses(Scan(a, b, N, A' - 1, x), Mul(a[A' - 1], b[N - (A' - 1)]));
      }
    }
  }

  lemma AccumulateLoses(c: Column, t: nat)
    ensures Accumulate(c, t).lost >= c.lost
  {
  }

  lemma {:induction false} ExactCarryTotal(a: seq<Littlenum>, b: seq<Littlenum>, N: nat)
    ensures Pow(N) * ExactCarry(a, b, N) <= ColsVal(a, b, N)
  {
    if N > 0 {
      ExactCarryTotal(a, b, N - 1);
      var x, y, p := ExactCarry(a, b, N - 1), Col(a, b, N - 1), Pow(N - 1);
      CarryStep(p, x, y);
    }
  }

  lemma CarryStep(p: nat, x: nat, y: nat)
    ensures (RADIX * p) * ((x + y) / 0x10000) <= p * x + p * y
  {
    var q := (x + y) / 0x10000;
    MulMono(p, RADIX * q, x + y);
    assert (RADIX * p) * q == p * (RADIX * q);
  }

  lemma ExactFinalCarry(a: seq<Littlenum>, b: seq<Littlenum>)
    ensures ExactCarry(a, b, Columns(a, b)) < RADIX
  {
    var n := Columns(a, b);
    ExactCarryTotal(a, b, n);
    ColumnsAreProduct(a, b, n);
    ProductBound(a, b);
    if ExactCarry(a, b, n) >= RADIX {
      MulMono(Pow(n), RADIX, ExactCarry(a, b, n));
    }
  }

  lemma {:induction false} NoWrapKeepsAll(a: seq<Littlenum>, b: seq<Littlenum>, N: nat)
    requires NoWrap(a, b) && N <= Columns(a, b)
    ensures LostBelow(a, b, N) == 0
  {
    if N > 0 {
      var m := N - 1;
      NoWrapKeepsAll(a, b, m);
      CarryExact(a, b, m);
      var x := ExactCarry(a, b, m);
      assert ExactCarry(a, b, N) < WORD by {
        if N == Columns(a, b) {
          ExactFinalCarry(a, b);
        }
      }
      assert x + Col(a, b, m) < RADIX * WORD;
      ScanKeepsAll(a, b, m, N, x);
    }
  }

  /** The machine product is exact precisely when no carry leaves too little room. */
  lemma LostIffWrap(a: seq<Littlenum>, b: seq<Littlenum>)
    ensures Lost(a, b) == 0 <==> NoWrap(a, b)
  {
    var n := Columns(a, b);
    if NoWrap(a, b) {
      NoWrapKeepsAll(a, b, n);
    }
    if Lost(a, b) == 0 {
      forall N: nat | N < n
        ensures ExactCarry(a, b, N) + Term(a, b, N, FirstIndex(b, N)) < WORD
      {
        LostNowhere(a, b, N);
        CarryExact(a, b, N);
        WrapLoses(a, b, N);
      }
    }
  }

  lemma LostNowhere(a: seq<Littlenum>, b: seq<Littlenum>, N: nat)
    requires Lost(a, b) == 0 && N < Columns(a, b)
    ensures LostBelow(a, b, N) == 0 && Finished(a, b, N).lost == 0
  {
    LostMonotone(a, b, N, Columns(a, b));
    LostMonotone(a, b, N + 1, Columns(a, b));
    if Finished(a, b, N).lost > 0 {
      MulMono(Pow(N), 1, Finished(a, b, N).lost);
    }
  }

  lemma WrapLoses(a: seq<Littlenum>, b: seq<Littlenum>, N: nat)
    requires N < Columns(a, b) && Finished(a, b, N).lost == 0
    ensures CarryInto(a, b, N) + Term(a, b, N, FirstIndex(b, N)) < WORD
  {
    var x, i := CarryInto(a, b, N), FirstIndex(b, N);
    CarryWord(a, b, N);
    if HasTerm(a, b, N, i) {
      ScanBeforeFirst(a, b, N, i, x);
      ScanLostMonotone(a, b, N, i + 1, N + 1, x);
    }
  }

  // ---------------------------------------------------------------------
  // When the result is exact, and when it vanishes
  // ---------------------------------------------------------------------

  predicate Normalized(s: seq<Littlenum>) {
    s != [] && s[|s| - 1] != 0
  }

  /** n is a multiple of RADIX^j. */
  predicate EndsInZeros(n: nat, j: nat) {
    j == 0 || (n % 0x10000 == 0 && EndsInZeros(n / 0x10000, j - 1))
  }

  /** n has at most cap significant digits. */
  ghost predicate Representable(n: nat, cap: nat) {
    exists j: nat :: EndsInZeros(n, j) && n < Pow(cap + j)
  }

  /** The product n fills a digit above its columns, ends in enough zero digits to fit,
      and yet in too few for the code to notice. */
  predicate NeedlessShift(n: nat, columns: nat, cap: nat) {
    && columns > cap && n >= Pow(columns)
    && EndsInZeros(n, columns - cap + 1) && !EndsInZeros(n, 2 * (columns - cap) + 1)
  }

  lemma {:induction false} MultipleIff(d: seq<Littlenum>, j: nat)
    requires Val(d) > 0
    ensures LowZeros(d) < |d|
    ensures EndsInZeros(Val(d), j) <==> j <= LowZeros(d)
  {
    ValZero(d);
    assert Val(d) == d[0] + 0x10000 * Val(d[1..]);
    if j > 0 && d[0] == 0 {
      MultipleIff(d[1..], j - 1);
    }
  }

  lemma {:induction false} PowMonotone(i: nat, j: nat)
    requires i <= j
    ensures Pow(i) <= Pow(j)
  {
    if i < j {
      PowMonotone(i, j - 1);
    }
  }

  /** Dropping digits is exact as long as they are zeros. */
  lemma SuffixExact(d: seq<Littlenum>, k: nat)
    requires k <= |d|
    ensures Pow(k) * Val(d[k..]) == Val(d) <==> k <= LowZeros(d)
  {
    ValSplit(d, k);
    ValZero(d[..k]);
    if LowZeros(d) < k {
      assert d[..k][LowZeros(d)] != 0;
    }
  }

  /** What the exact product of two normalized factors looks like. */
  lemma ProductShape(a: seq<Littlenum>, b: seq<Littlenum>)
    requires Normalized(a) && Normalized(b) && NoWrap(a, b)
    ensures var n, d := Columns(a, b), Digits(a, b);
            && Val(d) == Val(a) * Val(b) && Val(d) >= Pow(n - 1)
            && Normalized(d) && LowZeros(d) == LowZeros(Works(a, b, n))
            && (FinalCarry(a, b) == 0 ==> |d| == n && Val(d) < Pow(n))
            && (FinalCarry(a, b) != 0 ==> |d| == n + 1 && Val(d) >= Pow(n) && d[n] != 0)
  {
    var n, d, w := Columns(a, b), Digits(a, b), Works(a, b, Columns(a, b));
    LostIffWrap(a, b);
    DigitsTotal(a, b);
    ProductAtLeast(a, b);
    FinalCarryFits(a, b);
    TopShape(w, FinalCarry(a, b));
    SameLowZeros(w, d);
  }

  lemma TopShape(w: seq<Littlenum>, c: nat)
    requires c < RADIX && Val(w + Top(c)) >= (if |w| == 0 then 0 else Pow(|w| - 1))
    ensures c == 0 ==> w + Top(c) == w && Val(w) < Pow(|w|) && (w != [] ==> Normalized(w))
    ensures c != 0 ==> w + Top(c) == w + [c] && Val(w + [c]) >= Pow(|w|)
  {
    if c == 0 {
      assert w + Top(c) == w;
      ValBound(w);
      if w != [] {
        TopDigit(w);
      }
    } else {
      ValLeader(w + [c]);
    }
  }

  lemma ProductAtLeast(a: seq<Littlenum>, b: seq<Littlenum>)
    requires Normalized(a) && Normalized(b)
    ensures Val(a) * Val(b) >= Pow(Columns(a, b) - 1)
  {
    ValLeader(a);
    ValLeader(b);
    PowAdd(|a| - 1, |b| - 1);
    MulAtLeast(Val(a), Val(b), Pow(|a| - 1), Pow(|b| - 1));
  }

  lemma MulAtLeast(x: nat, y: nat, p: nat, q: nat)
    requires x >= p && y >= q
    ensures x * y >= p * q
  {
    MulMono(x, q, y);
    MulMono(q, p, x);
  }

  lemma SameLowZeros(w: seq<Littlenum>, d: seq<Littlenum>)
    requires w <= d && (|w| < |d| ==> d[|w|] != 0)
    ensures LowZeros(d) == LowZeros(w)
  {
    assert forall i :: 0 <= i < |w| ==> w[i] == d[i];
  }

  /** A normalized digit string is representable exactly when its significant digits fit. */
  lemma SignificantDigits(d: seq<Littlenum>, cap: nat)
    requires Normalized(d)
    ensures Val(d) > 0 && LowZeros(d) < |d|
    ensures Representable(Val(d), cap) <==> |d| - LowZeros(d) <= cap
  {
    ValLeader(d);
    ValBound(d);
    MultipleIff(d, LowZeros(d));
    if |d| - LowZeros(d) <= cap {
      PowMonotone(|d|, cap + LowZeros(d));
    } else if Representable(Val(d), cap) {
      TooManyDigits(d, cap);
    }
  }

  lemma TooManyDigits(d: seq<Littlenum>, cap: nat)
    requires Representable(Val(d), cap) && d != [] && Val(d) >= Pow(|d| - 1)
    ensures |d| - LowZeros(d) <= cap
  {
    var j: nat :| EndsInZeros(Val(d), j) && Val(d) < Pow(cap + j);
    MultipleIff(d, j);
    if cap + j <= |d| - 1 {
      PowMonotone(cap + j, |d| - 1);
    }
  }

  /** The product is exact if and only if it fits the destination and is not shifted for nothing. */
  lemma ExactIff(a: seq<Littlenum>, b: seq<Littlenum>, cap: nat)
    requires Normalized(a) && Normalized(b) && NoWrap(a, b) && cap > 0
    ensures var n, p := Val(a) * Val(b), Multip(a, b, cap);
            Pow(p.k) * Val(p.mant) == n <==> Representable(n, cap) && !NeedlessShift(n, Columns(a, b), cap)
  {
    var d := Digits(a, b);
    ProductShape(a, b);
    SignificantDigits(d, cap);
    SuffixExact(d, LeftOut(a, b, cap));
    NeedlessShiftShape(d, Columns(a, b), cap);
  }

  lemma NeedlessShiftShape(d: seq<Littlenum>, columns: nat, cap: nat)
    requires Val(d) > 0 && (Val(d) >= Pow(columns) <==> |d| > columns)
    ensures NeedlessShift(Val(d), columns, cap)
            <==> columns > cap && |d| > columns && columns - cap < LowZeros(d) <= 2 * (columns - cap)
  {
    if columns > cap {
      MultipleIff(d, columns - cap + 1);
      MultipleIff(d, 2 * (columns - cap) + 1);
    }
  }

  /** Unless it is shifted for nothing, an inexact product fills the whole destination. */
  lemma InexactIsFull(a: seq<Littlenum>, b: seq<Littlenum>, cap: nat)
    requires Normalized(a) && Normalized(b) && NoWrap(a, b) && cap > 0
    requires !NeedlessShift(Val(a) * Val(b), Columns(a, b), cap)
    ensures var p := Multip(a, b, cap);
      Pow(p.k) * Val(p.mant) == Val(a) * Val(b) || (|p.mant| == cap && Normalized(p.mant))
  {
    var d := Digits(a, b);
    ProductShape(a, b);
    SuffixExact(d, LeftOut(a, b, cap));
    NeedlessShiftShape(d, Columns(a, b), cap);
  }

  /** Unless it is shifted for nothing, a product is never too large and its relative error is
      below RADIX^(1-cap). */
  lemma Accuracy(a: seq<Littlenum>, b: seq<Littlenum>, cap: nat)
    requires Normalized(a) && Normalized(b) && NoWrap(a, b) && cap > 0
    requires !NeedlessShift(Val(a) * Val(b), Columns(a, b), cap)
    ensures var n, p, u := Val(a) * Val(b), Multip(a, b, cap), Pow(cap - 1);
      && Normalized(p.mant)
      && Pow(p.k) * Val(p.mant) <= n
      && n * u <= Pow(p.k) * Val(p.mant) * (u + 1)
  {
    FloorBounds(a, b, cap);
    InexactIsFull(a, b, cap);
    ProductAtLeast(a, b);
    NonZeroMantissa(a, b, cap);
    var p := Multip(a, b, cap);
    hide *;
    if Normalized(p.mant) && |p.mant| == cap {
      ValLeader(p.mant);
      MulMono(Pow(p.k), Pow(cap - 1), Val(p.mant));
      Spare(Pow(p.k), Val(p.mant), Pow(cap - 1), Val(a) * Val(b));
    } else {
      Widen(Val(a) * Val(b), Pow(cap - 1));
    }
  }

  lemma FloorBounds(a: seq<Littlenum>, b: seq<Littlenum>, cap: nat)
    requires NoWrap(a, b)
    ensures var n, p := Val(a) * Val(b), Multip(a, b, cap);
      Pow(p.k) * Val(p.mant) <= n < Pow(p.k) * Val(p.mant) + Pow(p.k)
  {
    LostIffWrap(a, b);
    DigitsTotal(a, b);
    ValSplit(Digits(a, b), LeftOut(a, b, cap));
    ValBound(Digits(a, b)[..LeftOut(a, b, cap)]);
  }

  /** An exact or full product of non-zero factors is not empty. */
  lemma NonZeroMantissa(a: seq<Littlenum>, b: seq<Littlenum>, cap: nat)
    requires Normalized(a) && Normalized(b) && NoWrap(a, b) && cap > 0
    requires var p := Multip(a, b, cap);
      Pow(p.k) * Val(p.mant) == Val(a) * Val(b) || (|p.mant| == cap && Normalized(p.mant))
    ensures Normalized(Multip(a, b, cap).mant)
  {
    LeaderIff(a, b, cap);
    ProductAtLeast(a, b);
    var p := Multip(a, b, cap);
    ValZero([]);
    hide *;
    if p.mant == [] {
      ZeroFactor(Pow(p.k), Val([]));
    }
  }

  lemma Widen(n: nat, u: nat)
    ensures n * u <= n * (u + 1)
  {
  }

  lemma Spare(q: nat, r: nat, u: nat, n: nat)
    requires n < q * r + q && q * u <= q * r
    ensures n * u <= q * r * (u + 1)
  {
    MulMono(u, n, q * r + q);
    assert u * (q * r + q) == u * (q * r) + u * q;
    assert q * r * (u + 1) == q * r * u + q * r;
  }

  /** A product of non-zero factors keeps a non-zero leader, except when it is a multiple of the
      power of RADIX just above its columns and at least half of those columns do not fit. */
  lemma LeaderIff(a: seq<Littlenum>, b: seq<Littlenum>, cap: nat)
    requires Normalized(a) && Normalized(b) && NoWrap(a, b) && cap > 0
    ensures var p, n, x := Multip(a, b, cap), Columns(a, b), Val(a) * Val(b);
            && (Normalized(p.mant) <==> !(EndsInZeros(x, n) && n >= 2 * cap))
            && (!Normalized(p.mant) ==> p.mant == [])
  {
    var n, d, c := Columns(a, b), Digits(a, b), FinalCarry(a, b);
    ProductShape(a, b);
    MultipleIff(d, n);
  }

  /** The digits computed for two normalized factors have a non-zero leader, even if lower columns have
      wrapped: the last column has only one term, and with its carry that is below the word size. */
  lemma DigitsNormalized(a: seq<Littlenum>, b: seq<Littlenum>)
    requires Normalized(a) && Normalized(b)
    ensures Normalized(Digits(a, b))
  {
    hide Scan, Col, ColSum, Val, Term, Columns;
    var m := Columns(a, b) - 1;
    SomeColumn(a, b);
    LastDigit(a, b, m);
    FinalCarryFits(a, b);
  }

  lemma SomeColumn(a: seq<Littlenum>, b: seq<Littlenum>)
    requires Normalized(a) && Normalized(b)
    ensures Columns(a, b) >= 1
  {
  }

  /** The digit and the carry of the last column are not both zero. */
  lemma LastDigit(a: seq<Littlenum>, b: seq<Littlenum>, m: nat)
    requires Normalized(a) && Normalized(b) && m + 1 == Columns(a, b)
    ensures var c := Finished(a, b, m); c.work < RADIX && (c.work != 0 || c.carry != 0)
  {
    hide Scan, ColSum, Term, Columns, CarryInto, FirstIndex;
    var x := CarryInto(a, b, m);
    WorkIsDigit(a, b, m);
    ScanBalance(a, b, m, m + 1, x);
    LastColumn(a, b, m);
    LastCarry(a, b, m);
    ScanKeepsAll(a, b, m, m + 1, x);
  }

  /** The last column consists of the product of the two leaders. */
  lemma LastColumn(a: seq<Littlenum>, b: seq<Littlenum>, m: nat)
    requires Normalized(a) && Normalized(b) && m + 1 == Columns(a, b)
    ensures Col(a, b, m) == Term(a, b, m, FirstIndex(b, m)) > 0
  {
    MulPositive(a[|a| - 1], b[|b| - 1]);
    OnlyTerm(a, b, m, m + 1);
  }

  lemma MulPositive(x: Littlenum, y: Littlenum)
    requires x > 0 && y > 0
    ensures Mul(x, y) > 0
  {
    MulMono(x, 1, y);
  }

  lemma {:induction false} OnlyTerm(a: seq<Littlenum>, b: seq<Littlenum>, N: nat, A: nat)
    requires a != [] && b != [] && N == |a| + |b| - 2 && A <= N + 1
    ensures ColSum(a, b, N, A) == if A < |a| then 0 else Term(a, b, N, |a| - 1)
  {
    if A > 0 {
      OnlyTerm(a, b, N, A - 1);
    }
  }

  /** The carry into the last column leaves room for it. */
  lemma LastCarry(a: seq<Littlenum>, b: seq<Littlenum>, m: nat)
    requires m + 1 == Columns(a, b)
    ensures CarryInto(a, b, m) + Col(a, b, m) < WORD
  {
    hide Val, Columns, CarryInto, Col, Works, LostBelow;
    Balance(a, b, m);
    ColumnsAreProduct(a, b, m + 1);
    ProductBound(a, b);
    RoomLeft(Pow(m), CarryInto(a, b, m), Col(a, b, m), Val(Works(a, b, m)) + LostBelow(a, b, m), ColsVal(a, b, m + 1));
  }

  lemma RoomLeft(p: nat, x: nat, y: nat, rest: nat, total: nat)
    requires rest + p * x + p * y == total < 0x10000 * (0x10000 * p)
    ensures x + y < WORD
  {
    assert p * (x + y) == p * x + p * y;
    if x + y >= WORD {
      MulMono(p, WORD, x + y);
    }
  }

  /** So a product of normalized factors is normalized or empty, wrapped or not. */
  lemma MultipNormalized(a: seq<Littlenum>, b: seq<Littlenum>, cap: nat)
    requires Normalized(a) && Normalized(b)
    ensures var mant := Multip(a, b, cap).mant; mant == [] || Normalized(mant)
  {
    DigitsNormalized(a, b);
  }

  lemma TopDigit(d: seq<Littlenum>)
    requires d != [] && Val(d) >= Pow(|d| - 1)
    ensures d[|d| - 1] != 0
  {
    var n := |d| - 1;
    assert d == d[..n] + [d[n]];
    ValAppend(d[..n], d[n]);
    ValBound(d[..n]);
  }

  /** A zero factor gives an empty mantissa. */
  lemma ZeroProduct(a: seq<Littlenum>, b: seq<Littlenum>, cap: nat)
    requires Val(a) == 0 || Val(b) == 0
    ensures Multip(a, b, cap).mant == []
  {
    var n, w := Columns(a, b), Works(a, b, Columns(a, b));
    ZeroFactor(Val(a), Val(b));
    MachineTotal(a, b);
    if FinalCarry(a, b) > 0 {
      MulMono(Pow(n), 1, FinalCarry(a, b));
    }
    ValZero(w);
  }

  lemma ZeroFactor(x: int, y: int)
    requires x == 0 || y == 0
    ensures x * y == 0
  {
  }

  /** 2^31 times 2 in a one-digit destination: the only digit of the product is lost. */
  lemma VanishingProduct()
    ensures Multip([0, 0x8000], [2], 1) == Product([], 3)
  {
    var a: seq<Littlenum>, b: seq<Littlenum> := [0, 0x8000], [2];
    assert Scan(a, b, 0, 1, 0) == Column(0, 0, 0);
    assert CarryInto(a, b, 1) == 0;
    assert Scan(a, b, 1, 1, 0) == Column(0, 0, 0);
    assert Scan(a, b, 1, 2, 0) == Column(0, 1, 0);
    assert CarryInto(a, b, 2) == 1;
    assert Works(a, b, 1) == [0];
    assert Works(a, b, 2) == [0, 0];
    assert LowZeros([0, 0]) == 2;
  }

  /** Three all-ones littlenums squared do wrap. */
  lemma WrapExample()
    ensures Lost([0xFFFF, 0xFFFF, 0xFFFF], [0xFFFF, 0xFFFF, 0xFFFF]) != 0
  {
    var a: seq<Littlenum> := [0xFFFF, 0xFFFF, 0xFFFF];
    assert ColSum(a, a, 0, 1) == 0xFFFE0001;
    assert ExactCarry(a, a, 1) == 0xFFFE;
    assert ColSum(a, a, 1, 1) == 0xFFFE0001;
    assert ColSum(a, a, 1, 2) == 0x1_FFFC0002;
    assert ExactCarry(a, a, 2) == 0x1FFFD;
    assert ColSum(a, a, 2, 1) == 0xFFFE0001;
    assert ColSum(a, a, 2, 2) == 0x1_FFFC0002;
    assert ColSum(a, a, 2, 3) == 0x2_FFFA0003;
    assert ExactCarry(a, a, 3) == 0x2FFFC;
    assert Term(a, a, 3, FirstIndex(a, 3)) == 0xFFFE0001;
    LostIffWrap(a, a);
  }

  /** What fits of a mantissa: its high digits, and how many low ones are cut. */
  function Truncated(m: seq<Littlenum>, cap: nat): (p: Product)
    ensures |p.mant| <= cap
    ensures Val(p.mant) == Val(m) / Pow(p.k) && (|m| <= cap ==> p.mant == m && p.k == 0)
  {
    if |m| <= cap then
      assert Val(m) / 1 == Val(m);
      Product(m, 0)
    else
      ValSplit(m, |m| - cap);
      Product(m[|m| - cap..], |m| - cap)
  }
}
