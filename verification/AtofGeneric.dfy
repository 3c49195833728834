/** Decimal text to flonum. */
module AtofGeneric {
  import opened Characters
  import opened Littlenums
  import opened FlonumProduct
  import opened FlonumValue
  import opened Flonums
  import opened PowerOfTen
  import opened Decimal

  // ---------------------------------------------------------------------
  // Sizes
  // ---------------------------------------------------------------------

  /** How many decimal digits can matter for a destination of `precision` digits, two of them
      guard digits. */
  function MaxDigits(precision: nat): (n: nat)
    requires 2 <= precision <= 200
    ensures 2 <= n <= 960
  {
    (precision - 2) * 16 * 1_000_000_000_000_000 / 3_321_928_094_887_362 + 2
  }

  /** More than enough littlenums for n decimal digits. */
  function SizeFor(n: nat): (size: nat)
    ensures size >= 2
  {
    (n * 3_321_928_094_887_362 / 1_000_000_000_000_000 + 1) / 16 + 2
  }

  lemma {:induction false} TenToTheN(n: nat)
    ensures Pow10(n) <= Pow2(n * 10 / 3 + 4)
  {
    if n < 3 {
      assert Pow10(0) == 1 && Pow10(1) == 10 && Pow10(2) == 100;
      assert Pow2(4) == 16 && Pow2(5) == 32 && Pow2(6) == 64 && Pow2(7) == 128 && Pow2(8) == 256;
      assert Pow2(9) == 512 && Pow2(10) == 1024;
    } else {
      TenToTheN(n - 3);
      var k := (n - 3) * 10 / 3 + 4;
      assert n * 10 / 3 + 4 == k + 10;
      assert Pow10(n) == 10 * Pow10(n - 1) && Pow10(n - 1) == 10 * Pow10(n - 2) && Pow10(n - 2) == 10 * Pow10(n - 3);
      TwoToTheTen(k);
    }
  }

  lemma TwoToTheTen(k: nat)
    ensures Pow2(k + 10) == 1024 * Pow2(k)
  {
    assert Pow2(k + 10) == 2 * Pow2(k + 9) && Pow2(k + 9) == 2 * Pow2(k + 8) && Pow2(k + 8) == 2 * Pow2(k + 7);
    assert Pow2(k + 7) == 2 * Pow2(k + 6) && Pow2(k + 6) == 2 * Pow2(k + 5) && Pow2(k + 5) == 2 * Pow2(k + 4);
    assert Pow2(k + 4) == 2 * Pow2(k + 3) && Pow2(k + 3) == 2 * Pow2(k + 2) && Pow2(k + 2) == 2 * Pow2(k + 1);
  }

  lemma {:induction false} Pow2Monotone(i: nat, j: nat)
    requires i <= j
    ensures Pow2(i) <= Pow2(j)
  {
    if i < j {
      Pow2Monotone(i, j - 1);
    }
  }

  lemma {:induction false} RadixIsPow2(k: nat)
    ensures Pow(k) == Pow2(16 * k)
  {
    if k > 0 {
      RadixIsPow2(k - 1);
      TwoToTheTen(16 * k - 10);
      var b := 16 * (k - 1);
      assert Pow2(b + 6) == 2 * Pow2(b + 5) && Pow2(b + 5) == 2 * Pow2(b + 4) && Pow2(b + 4) == 2 * Pow2(b + 3);
      assert Pow2(b + 3) == 2 * Pow2(b + 2) && Pow2(b + 2) == 2 * Pow2(b + 1) && Pow2(b + 1) == 2 * Pow2(b);
      assert Pow(k) == 0x10000 * Pow(k - 1);
    }
  }

  /** The array computed for n decimal digits holds any n decimal digits. */
  lemma SizeSuffices(n: nat)
    requires n <= 960
    ensures Pow10(n) <= Pow(SizeFor(n))
  {
    TenToTheN(n);
    RadixIsPow2(SizeFor(n));
    Pow2Monotone(n * 10 / 3 + 4, 16 * SizeFor(n));
  }

  // ---------------------------------------------------------------------
  // The digits
  // ---------------------------------------------------------------------

  /** How many digits there are from p on. */
  function Available(s: string, p: nat): nat
    decreases |s| - p
  {
    if p >= |s| then 0 else (if IsDigit(At(s, p)) then 1 else 0) + Available(s, p + 1)
  }

  lemma {:induction false} AvailableRun(s: string, p: nat, n: nat)
    requires p + n <= RunEnd(s, p) && p <= |s|
    ensures Available(s, p) == n + Available(s, p + n)
    decreases n
  {
    if n > 0 {
      assert IsDigit(At(s, p));
      RunHorner(s, p, 1, 0);
      AvailableRun(s, p + 1, n - 1);
    }
  }

  lemma FoundAvailable(s: string, start: nat, first: nat, before: nat, after: nat)
    requires Found(s, start, first, before, after)
    ensures Available(s, first) >= before + after
  {
    var p := first + before;
    RunZeros(s, start, first, 0);
    AvailableRun(s, first, before);
    if after > 0 {
      AvailableRun(s, p + 1, after);
    }
  }

  lemma {:induction false} HornerBound(s: string, p: nat, count: nat, acc: nat)
    ensures Horner(s, p, count, acc) < (acc + 1) * Pow10(count)
    ensures acc <= Horner(s, p, count, acc)
    decreases |s| - p
  {
    if count == 0 || p >= |s| {
      AtLeastOne(acc + 1, Pow10(count));
    } else if IsDigit(At(s, p)) {
      HornerBound(s, p + 1, count - 1, Push(acc, At(s, p)));
      Grow(Push(acc, At(s, p)) + 1, 10 * (acc + 1), Pow10(count - 1));
      assert (10 * (acc + 1)) * Pow10(count - 1) == (acc + 1) * Pow10(count) by {
        TenTimes(acc + 1, Pow10(count - 1));
      }
    } else {
      HornerBound(s, p + 1, count, acc);
    }
  }

  lemma AtLeastOne(x: int, y: int)
    requires x > 0 && y > 0
    ensures x - 1 < x * y
  {
  }

  lemma Grow(x: int, y: int, z: int)
    requires x <= y && z > 0
    ensures x * z <= y * z
  {
  }

  /** a := 10 * a + d, in place; what does not fit is left in the carry. */
  method TimesTenPlus(a: array<Littlenum>, d: nat) returns (carry: nat)
    requires d < 10
    modifies a
    ensures carry < 10 && Val(a[..]) + Pow(a.Length) * carry == 10 * Val(old(a[..])) + d
  {
    carry := d;
    ghost var before := a[..];
    for i := 0 to a.Length
      invariant carry < 10 && a[i..] == before[i..]
      invariant Val(a[..i]) + Pow(i) * carry == 10 * Val(before[..i]) + d
    {
      ghost var low := a[..i];
      var work := carry + 10 * (a[i] as int);
      TenStep(low, before[..i], before[i], carry, d);
      a[i] := work % 0x10000;
      carry := work / 0x10000;
      assert a[..i + 1] == low + [work % 0x10000];
      assert before[..i + 1] == before[..i] + [before[i]];
    }
    assert a[..a.Length] == a[..] && before[..a.Length] == before;
  }

  lemma TenStep(low: seq<Littlenum>, before: seq<Littlenum>, x: Littlenum, carry: nat, d: nat)
    requires |low| == |before| && carry < 10
    requires Val(low) + Pow(|low|) * carry == 10 * Val(before) + d
    ensures var w := carry + 10 * x;
      w / 0x10000 < 10
      && Val(low + [w % 0x10000]) + Pow(|low| + 1) * (w / 0x10000) == 10 * Val(before + [x]) + d
  {
    var w, p := carry + 10 * x, Pow(|low|);
    assert w == w % 0x10000 + 0x10000 * (w / 0x10000);
    PowNext(|low|);
    hide *;
    ValAppend(low, w % 0x10000);
    ValAppend(before, x);
    Regroup(p, Val(low), Val(before), carry, x, w % 0x10000, w / 0x10000, d);
  }

  lemma PowNext(k: nat)
    ensures Pow(k + 1) == 0x10000 * Pow(k)
  {
  }

  lemma Regroup(p: int, low: int, before: int, c: int, x: int, r: int, q: int, d: int)
    requires c + 10 * x == r + 0x10000 * q && low + p * c == 10 * before + d
    ensures low + p * r + (0x10000 * p) * q == 10 * (before + p * x) + d
  {
    assert p * (c + 10 * x) == p * (r + 0x10000 * q);
    assert p * (0x10000 * q) == (0x10000 * p) * q;
  }

  /** The binary value of the next n digits from `first` on; the carry out of the array, at which
      the program aborts, is never anything but zero. */
  method ParseDigits(s: string, first: nat, n: nat, a: array<Littlenum>)
    requires first <= |s| && n <= Available(s, first)
    requires Val(a[..]) == 0 && Pow10(n) <= Pow(a.Length)
    modifies a
    ensures Val(a[..]) == Horner(s, first, n, 0)
  {
    var p: nat, count: nat := first, n;
    while count != 0
      invariant first <= p <= |s| && count <= n && count <= Available(s, p)
      invariant Horner(s, p, count, Val(a[..])) == Horner(s, first, n, 0)
      decreases |s| - p
    {
      var c := At(s, p);
      if IsDigit(c) {
        ghost var v := Val(a[..]);
        var carry := TimesTenPlus(a, c as int - '0' as int);
        NoCarry(s, p, count, v, first, n, a.Length, carry, Val(a[..]));
        assert carry == 0;
        count := count - 1;
      }
      p := p + 1;
    }
  }

  lemma NoCarry(s: string, p: nat, count: nat, v: nat, first: nat, n: nat, size: nat, carry: nat, v': nat)
    requires count > 0 && p < |s| && IsDigit(At(s, p))
    requires Horner(s, p, count, v) == Horner(s, first, n, 0) && Pow10(n) <= Pow(size)
    requires v' + Pow(size) * carry == Push(v, At(s, p))
    ensures carry == 0
  {
    HornerBound(s, first, n, 0);
    HornerBound(s, p + 1, count - 1, Push(v, At(s, p)));
    assert Push(v, At(s, p)) < Pow(size);
    if carry > 0 {
      MulMono(Pow(size), 1, carry);
    }
  }

  /** The digits with their high zeros left out, but at least one. */
  method TrimSize(a: array<Littlenum>) returns (size: nat)
    requires a.Length > 0
    ensures 1 <= size <= a.Length && Val(a[..size]) == Val(a[..])
    ensures Normalized(a[..size]) || a[..size] == [0]
  {
    size := a.Length;
    assert a[..size] == a[..];
    while a[size - 1] == 0 && size >= 2
      invariant 1 <= size <= a.Length && Val(a[..size]) == Val(a[..])
    {
      assert a[..size] == a[..size - 1] + [0];
      ValAppend(a[..size - 1], 0);
      size := size - 1;
    }
  }

  // ---------------------------------------------------------------------
  // The power of ten
  // ---------------------------------------------------------------------

  /** The table of flonums holds these numbers, and none of it is shared with p or q. */
  ghost predicate TableHolds(table: seq<Flonum>, nums: seq<Num>, p: Flonum, q: Flonum)
    reads table, set f <- table :: f.digits
  {
    |nums| == |table| && forall i :: 0 <= i < |table| ==>
      && table[i].Valid() && table[i].sign == '+'
      && table[i] != p && table[i] != q && table[i].digits != p.digits && table[i].digits != q.digits
      && Num(table[i].Mantissa(), table[i].exponent) == nums[i]
  }

  /** power := power * base^e, one table entry for each bit of e. */
  method PowerLoop(e: nat, table: seq<Flonum>, power: Flonum, temporary: Flonum, ghost nums: seq<Num>)
    returns (overflow: bool)
    requires power.Valid() && power.sign == '+' && power != temporary && power.digits != temporary.digits
    requires power.digits.Length == temporary.digits.Length > 0
    requires TableHolds(table, nums, power, temporary)
    modifies power, power.digits, temporary, temporary.digits
    ensures power.Valid() && power.sign == '+'
    ensures (Num(power.Mantissa(), power.exponent), overflow)
         == Power(e, 1, old(Num(power.Mantissa(), power.exponent)), nums, power.digits.Length)
  {
    hide Multip, Truncated;
    overflow := false;
    var decimalExponent, place := e, 1;
    ghost var acc, cap := Num(power.Mantissa(), power.exponent), power.digits.Length;
    ghost var goal := Power(e, 1, acc, nums, cap);
    while decimalExponent != 0
      invariant power.Valid() && power.sign == '+' && acc == Num(power.Mantissa(), power.exponent)
      invariant TableHolds(table, nums, power, temporary)
      invariant !overflow ==> Power(decimalExponent, place, acc, nums, cap) == goal
      invariant overflow ==> decimalExponent == 0 && (acc, true) == goal
      invariant place >= 1
      decreases decimalExponent
    {
      if decimalExponent % 2 == 1 {
        if place > |table| - 1 {
          overflow := true;
          decimalExponent := 0;
        } else {
          FlonumMultip(table[place], power, temporary);
          FlonumCopy(temporary, power);
          acc := Copied(Times(nums[place], acc, cap), acc);
        }
      }
      decimalExponent := decimalExponent / 2;
      place := place + 1;
    }
  }

  // ---------------------------------------------------------------------
  // The conversion
  // ---------------------------------------------------------------------

  function DigitsUsed(r: Scanned, precision: nat): nat
    requires 2 <= precision <= 200
  {
    if r.before + r.after > MaxDigits(precision) then MaxDigits(precision) else r.before + r.after
  }

  /** The power of ten that the digits used are worth. */
  function NetExponent(r: Scanned, precision: nat): int
    requires 2 <= precision <= 200
  {
    r.exponent + (r.before - DigitsUsed(r, precision))
  }

  function Abs(e: int): nat {
    if e < 0 then -e else e
  }

  const ONE := Num([1], 0)

  /** The result is the truncated product of the digits used and a power of ten. */
  ghost predicate Converted(s: string, r: Scanned, precision: nat, digits: seq<Littlenum>,
                            table: seq<Num>, result: Num, overflow: bool)
    requires 2 <= precision <= 200
  {
    var (power, o) := Power(Abs(NetExponent(r, precision)), 1, ONE, table, precision);
    && Val(digits) == Horner(s, r.first, DigitsUsed(r, precision), 0)
    && (Normalized(digits) || digits == [0])
    && overflow == o && result == Times(power, Num(digits, 0), precision)
  }

  /** The two tables of powers of ten. */
  datatype Tables = Tables(positive: seq<Flonum>, negative: seq<Flonum>)
  datatype TableValues = TableValues(positive: seq<Num>, negative: seq<Num>)

  /** The digits used, as a flonum of their own. */
  method DigitsFlonum(s: string, first: nat, n: nat) returns (f: Flonum)
    requires first <= |s| && n <= Available(s, first) && n <= 960
    ensures fresh(f) && fresh(f.digits) && f.Valid() && f.sign == '+' && f.exponent == 0
    ensures Val(f.Mantissa()) == Horner(s, first, n, 0)
    ensures Normalized(f.Mantissa()) || f.Mantissa() == [0]
  {
    var binary := new Littlenum[SizeFor(n)](_ => 0);
    SizeSuffices(n);
    ValZero(binary[..]);
    ParseDigits(s, first, n, binary);
    var used := TrimSize(binary);
    f := new Flonum(binary);
    f.leader := used - 1;
  }

  /** base^e as a flonum of `precision` digits, computed from the number 1. */
  method PowerFlonum(e: nat, precision: nat, table: seq<Flonum>, ghost nums: seq<Num>)
    returns (power: Flonum, overflow: bool)
    requires precision > 0 && |nums| == |table|
    requires forall i :: 0 <= i < |table| ==>
      table[i].Valid() && table[i].sign == '+' && Num(table[i].Mantissa(), table[i].exponent) == nums[i]
    ensures fresh(power) && fresh(power.digits) && power.Valid() && power.sign == '+'
    ensures (Num(power.Mantissa(), power.exponent), overflow) == Power(e, 1, ONE, nums, precision)
  {
    hide Power;
    var powerLow := new Littlenum[precision](i => if i == 0 then 1 else 0);
    var temporaryLow := new Littlenum[precision](_ => 0);
    power := new Flonum(powerLow);
    power.leader := 0;
    var temporary := new Flonum(temporaryLow);
    assert power.Mantissa() == [1];
    overflow := PowerLoop(e, table, power, temporary, nums);
  }

  /** The tables hold these values. */
  ghost predicate TablesHold(tables: Tables, values: TableValues)
    reads tables.positive, tables.negative,
          set f <- tables.positive :: f.digits, set f <- tables.negative :: f.digits
  {
    && |values.positive| == |tables.positive| && |values.negative| == |tables.negative|
    && (forall i :: 0 <= i < |tables.positive| ==>
          && tables.positive[i].Valid() && tables.positive[i].sign == '+'
          && Num(tables.positive[i].Mantissa(), tables.positive[i].exponent) == values.positive[i])
    && (forall i :: 0 <= i < |tables.negative| ==>
          && tables.negative[i].Valid() && tables.negative[i].sign == '+'
          && Num(tables.negative[i].Mantissa(), tables.negative[i].exponent) == values.negative[i])
  }

  /** Digits times power of ten, into the destination. */
  method Convert(s: string, r: Scanned, dest: Flonum, tables: Tables, ghost values: TableValues, ghost start: nat)
    returns (overflow: bool, ghost digits: seq<Littlenum>)
    requires 2 <= dest.digits.Length <= 200 && start <= |s|
    requires Found(s, start, r.first, r.before, r.after) && r.before + r.after > 0
    requires TablesHold(tables, values)
    modifies dest, dest.digits
    ensures dest.Valid()
    ensures Converted(s, r, dest.digits.Length, digits,
                      if NetExponent(r, dest.digits.Length) < 0 then values.negative else values.positive,
                      Num(dest.Mantissa(), dest.exponent), overflow)
  {
    hide Power, Multip, Found, Horner;
    var precision := dest.digits.Length;
    var maximum := MaxDigits(precision);
    var available := r.before + r.after;
    var n := if available > maximum then maximum else available;
    var decimalExponent := r.exponent + (r.before - n);
    FoundAvailable(s, start, r.first, r.before, r.after);
    FoundBounds(s, start, r.first, r.before, r.after);
    var digitsFlonum := DigitsFlonum(s, r.first, n);
    digits := digitsFlonum.Mantissa();
    var power;
    if decimalExponent < 0 {
      power, overflow := PowerFlonum(-decimalExponent, precision, tables.negative, values.negative);
    } else {
      power, overflow := PowerFlonum(decimalExponent, precision, tables.positive, values.positive);
    }
    ghost var p := power.Mantissa();
    assert digitsFlonum.Mantissa() == digits;
    FlonumMultip(power, digitsFlonum, dest);
    assert digitsFlonum.Mantissa() == digits && power.Mantissa() == p;
  }

  lemma FoundBounds(s: string, start: nat, first: nat, before: nat, after: nat)
    requires Found(s, start, first, before, after)
    ensures first <= |s|
  {
  }

  predicate Letter(c: char, lower: char, upper: char) {
    c == lower || c == upper
  }

  predicate IsNan(s: string, p: nat) {
    Letter(At(s, p), 'n', 'N') && Letter(At(s, p + 1), 'a', 'A') && Letter(At(s, p + 2), 'n', 'N')
  }

  predicate IsInf(s: string, p: nat) {
    Letter(At(s, p), 'i', 'I') && Letter(At(s, p + 1), 'n', 'N') && Letter(At(s, p + 2), 'f', 'F')
  }

  predicate IsInity(s: string, p: nat) {
    && Letter(At(s, p), 'i', 'I') && Letter(At(s, p + 1), 'n', 'N') && Letter(At(s, p + 2), 'i', 'I')
    && Letter(At(s, p + 3), 't', 'T') && Letter(At(s, p + 4), 'y', 'Y')
  }

  /** Reads the number at `start` into dest.  Error 2 is an exponent the tables cannot reach. */
  method AtofGeneric(s: string, start: nat, dest: Flonum, tables: Tables, ghost values: TableValues)
    returns (error: nat, end: nat, ghost r: Scanned, ghost digits: seq<Littlenum>)
    requires 2 <= dest.digits.Length <= 200 && start <= |s| && TablesHold(tables, values)
    modifies dest, dest.digits
    ensures dest.Valid()
    ensures var p, negative := SignedEnd(s, start), At(s, start) == '-';
      if IsNan(s, p) then
        error == 0 && dest.sign == '\0' && dest.leader == 0 && dest.exponent == 0 && end == p + 3
      else if IsInf(s, p) then
        && error == 0 && dest.sign == (if negative then 'N' else 'P')
        && dest.leader == 0 && dest.exponent == 0 && end == if IsInity(s, p + 3) then p + 8 else p + 3
      else
        && Found(s, p, r.first, r.before, r.after) && end == Read(s, p).end && r.exponent == Read(s, p).exponent
        && dest.sign == (if negative then '-' else '+')
        && (r.before + r.after == 0 ==> error == 0 && dest.Mantissa() == [] && dest.exponent == 0)
        && (r.before + r.after > 0 ==>
              && (error == 0 || error == 2)
              && Converted(s, r, dest.digits.Length, digits,
                           if NetExponent(r, dest.digits.Length) < 0 then values.negative else values.positive,
                           Num(dest.Mantissa(), dest.exponent), error == 2))
  {
    hide Converted, Found, Read;
    r, digits, error := Scanned(0, 0, 0, 0, 0), [], 0;
    var p, signChar := start, '+';
    if At(s, p) == '-' || At(s, p) == '+' {
      signChar := At(s, p);
      p := p + 1;
    }
    if IsNan(s, p) {
      dest.sign, dest.exponent, dest.leader, end := '\0', 0, 0, p + 3;
      return;
    }
    if IsInf(s, p) {
      dest.sign, dest.exponent, dest.leader := if signChar == '+' then 'P' else 'N', 0, 0;
      end := if IsInity(s, p + 3) then p + 8 else p + 3;
      return;
    }
    var scanned := ScanNumber(s, p);
    r := scanned;
    end := scanned.end;
    if scanned.before + scanned.after == 0 {
      dest.exponent, dest.leader, dest.sign := 0, -1, signChar;
    } else {
      var overflow;
      overflow, digits := Convert(s, scanned, dest, tables, values, p);
      error := if overflow then 2 else 0;
      dest.sign := signChar;
    }
  }
}
