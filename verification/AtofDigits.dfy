/** What leaving out digits costs, and when it costs the whole number. */
module AtofDigits {
  import opened Characters
  import opened Littlenums
  import opened FlonumProduct
  import opened FlonumValue
  import opened PowerOfTen
  import opened Decimal
  import opened AtofGeneric
  import opened AtofCorrect

  lemma {:induction false} HornerAtLeast(s: string, p: nat, m: nat, acc: nat)
    requires m <= Available(s, p)
    ensures acc * Pow10(m) <= Horner(s, p, m, acc)
    decreases |s| - p
  {
    if m > 0 {
      if IsDigit(At(s, p)) {
        var next := Push(acc, At(s, p));
        HornerAtLeast(s, p + 1, m - 1, next);
        Grow(10 * acc, next, Pow10(m - 1));
        TenTimes(acc, Pow10(m - 1));
      } else {
        HornerAtLeast(s, p + 1, m, acc);
      }
    }
  }

  /** Reading m more digits multiplies by 10^m and adds less than that. */
  lemma {:induction false} HornerTail(s: string, p: nat, n: nat, m: nat, acc: nat)
    requires n + m <= Available(s, p)
    ensures Horner(s, p, n, acc) * Pow10(m) <= Horner(s, p, n + m, acc)
    ensures Horner(s, p, n + m, acc) < (Horner(s, p, n, acc) + 1) * Pow10(m)
    decreases |s| - p
  {
    if n == 0 {
      assert Horner(s, p, 0, acc) == acc;
      HornerAtLeast(s, p, m, acc);
      HornerBound(s, p, m, acc);
    } else if IsDigit(At(s, p)) {
      HornerTail(s, p + 1, n - 1, m, Push(acc, At(s, p)));
    } else {
      HornerTail(s, p + 1, n, m, acc);
    }
  }

  lemma Bracket(h: nat, u: nat, p: nat, t: real, tp: real, full: real)
    requires h * p <= u < (h + 1) * p && tp == t * (p as real) && t > 0.0
    requires full == (u as real) * t
    ensures (h as real) * tp <= full < ((h as real) + 1.0) * tp
  {
    NatMul(h, p);
    NatMul(h + 1, p);
    BracketReal(h as real, u as real, p as real, t, tp, full);
  }

  lemma BracketReal(x: real, y: real, z: real, t: real, tp: real, full: real)
    requires x * z <= y < (x + 1.0) * z && tp == t * z && t > 0.0 && full == y * t
    ensures x * tp <= full < (x + 1.0) * tp
  {
    Swap(x, z, t);
    Swap(x + 1.0, z, t);
    Scale(x * z, y, t);
    ScaleBelow(y, (x + 1.0) * z, t);
  }

  lemma ScaleBelow(x: real, y: real, t: real)
    requires x < y && t > 0.0
    ensures x * t < y * t
  {
  }

  /** The digits left out are worth less than one unit of the last digit used. */
  lemma UsedBrackets(s: string, start: nat, r: Scanned, precision: nat)
    requires 2 <= precision <= 200 && Found(s, start, r.first, r.before, r.after)
    requires r.exponent == Read(s, start).exponent
    ensures var v := Denoted(Read(s, start));
      Used(s, r, precision) <= v < Used(s, r, precision) + TenPow(NetExponent(r, precision))
  {
    hide Found, Horner, Read, TenPow, Pow10, RunEnd, MaxDigits;
    FoundAvailable(s, start, r.first, r.before, r.after);
    FoundValue(s, start, r.first, r.before, r.after);
    var d := Read(s, start);
    var n := DigitsUsed(r, precision);
    var m, k, e := r.before + r.after - n, d.scale - r.after, d.exponent - d.scale;
    HornerTail(s, r.first, n, m, 0);
    var h, u := Horner(s, r.first, n, 0), Horner(s, r.first, n + m, 0);
    TenPowAdd(e, k);
    TenPowAdd(e + k, m);
    assert e + k + m == NetExponent(r, precision);
    Rescale(u, Pow10(k), TenPow(e), TenPow(e + k), d.mantissa);
    Bracket(h, u, Pow10(m), TenPow(e + k), TenPow(e + k + m), Denoted(d));
    OneMore(h as real, TenPow(e + k + m));
  }

  lemma OneMore(x: real, t: real)
    ensures (x + 1.0) * t == x * t + t
  {
  }

  /** All in all the result is at most the number denoted, and short of it by at most the digits
      left out and one truncation for each multiplication and table entry. */
  lemma ConvertedBelow(s: string, start: nat, r: Scanned, precision: nat, digits: seq<Littlenum>, table: seq<Num>,
                       result: Num, overflow: bool)
    requires 2 <= precision <= 200 && Found(s, start, r.first, r.before, r.after)
    requires r.exponent == Read(s, start).exponent && Normalized(digits)
    requires Converted(s, r, precision, digits, table, result, overflow)
    requires TableFor(table, if NetExponent(r, precision) < 0 then 0.1 else 10.0, precision)
    requires SoundFor(Abs(NetExponent(r, precision)), digits, table, precision)
    ensures var e, v := NetExponent(r, precision), Denoted(Read(s, start));
      && 0.0 < Value(result) <= v
      && (v - TenPow(e)) * KeepAll(precision, 2 * Ones(Abs(e)) + 1) < Value(result)
  {
    hide *;
    ConvertedClose(s, r, precision, digits, table, result, overflow);
    UsedBrackets(s, start, r, precision);
    var e, v := NetExponent(r, precision), Denoted(Read(s, start));
    var n := 2 * Ones(Abs(e)) + 1;
    CloseParts(Value(result), Used(s, r, precision), precision, n);
    ScaleBelow(v - TenPow(e), Used(s, r, precision), KeepAll(precision, n));
  }

  lemma CloseParts(x: real, v: real, cap: nat, n: nat)
    requires cap > 0 && Close(x, v, cap, n)
    ensures 0.0 < x <= v && v * KeepAll(cap, n) <= x
  {
  }

  // ---------------------------------------------------------------------
  // Zeros right after the mark count as digits that matter
  // ---------------------------------------------------------------------

  /** All digits that would be used are zeros that stand right behind the mark. */
  ghost predicate OnlyZeros(s: string, r: Scanned, precision: nat)
    requires 2 <= precision <= 200
  {
    && r.before == 0 && r.after > MaxDigits(precision)
    && forall k :: r.first < k <= r.first + MaxDigits(precision) ==> At(s, k) == '0'
  }

  lemma {:induction false} HornerZeros(s: string, p: nat, n: nat)
    requires p + n <= RunEnd(s, p) && p <= |s|
    ensures Horner(s, p, n, 0) == 0 <==> forall k :: p <= k < p + n ==> At(s, k) == '0'
    decreases n
  {
    if n > 0 {
      assert IsDigit(At(s, p));
      RunHorner(s, p, 1, 0);
      if At(s, p) == '0' {
        HornerZeros(s, p + 1, n - 1);
      } else {
        HornerPositive(s, p + 1, n - 1, Push(0, At(s, p)));
      }
    }
  }

  /** The digits used of a number that is not zero are all zeros in exactly that case. */
  lemma ZeroDigitsIff(s: string, start: nat, r: Scanned, precision: nat)
    requires 2 <= precision <= 200 && Found(s, start, r.first, r.before, r.after)
    requires r.before + r.after > 0
    ensures Horner(s, r.first, DigitsUsed(r, precision), 0) == 0 <==> OnlyZeros(s, r, precision)
  {
    hide RunEnd, Horner, MaxDigits;
    var n := DigitsUsed(r, precision);
    if r.before > 0 {
      UsedPositive(s, start, r, n);
    } else {
      SkipMark(s, r.first, n, 0);
      HornerZeros(s, r.first + 1, n);
    }
  }

  lemma UsedPositive(s: string, start: nat, r: Scanned, n: nat)
    requires Found(s, start, r.first, r.before, r.after) && r.before > 0 && n > 0
    ensures Horner(s, r.first, n, 0) > 0
  {
    RunZeros(s, start, r.first, 0);
    assert IsDigit(At(s, r.first));
    HornerPositive(s, r.first + 1, n - 1, Push(0, At(s, r.first)));
  }

  /** Such a number is converted to zero, whatever the tables hold and whatever wraps. */
  lemma OnlyZerosLost(s: string, start: nat, r: Scanned, precision: nat, digits: seq<Littlenum>, table: seq<Num>,
                      result: Num, overflow: bool)
    requires 2 <= precision <= 200 && Found(s, start, r.first, r.before, r.after) && r.before + r.after > 0
    requires Converted(s, r, precision, digits, table, result, overflow) && OnlyZeros(s, r, precision)
    ensures result.mant == [] && Read(s, start).mantissa > 0
  {
    ZeroDigitsIff(s, start, r, precision);
    FoundNonZero(s, start, r.first, r.before, r.after);
    DigitsKind(s, r, precision, digits, table, result, overflow);
    hide *;
    var e := Abs(NetExponent(r, precision));
    ConvertedParts(s, r, precision, digits, table, result, overflow, e);
    ZeroTimesResult(PowerAt(e, table, precision), digits, precision);
  }

  /** And where the products are sound, no other number that is not zero is. */
  lemma LostIff(s: string, start: nat, r: Scanned, precision: nat, digits: seq<Littlenum>, table: seq<Num>,
                result: Num, overflow: bool)
    requires 2 <= precision <= 200 && Found(s, start, r.first, r.before, r.after) && r.before + r.after > 0
    requires Converted(s, r, precision, digits, table, result, overflow)
    requires TableFor(table, if NetExponent(r, precision) < 0 then 0.1 else 10.0, precision)
    requires SoundFor(Abs(NetExponent(r, precision)), digits, table, precision)
    ensures result.mant == [] <==> OnlyZeros(s, r, precision)
    ensures Read(s, start).mantissa > 0
  {
    ZeroDigitsIff(s, start, r, precision);
    FoundNonZero(s, start, r.first, r.before, r.after);
    DigitsKind(s, r, precision, digits, table, result, overflow);
    hide *;
    if OnlyZeros(s, r, precision) {
      OnlyZerosLost(s, start, r, precision, digits, table, result, overflow);
    } else {
      ConvertedClose(s, r, precision, digits, table, result, overflow);
      CloseNotEmpty(result, Used(s, r, precision), precision, 2 * Ones(Abs(NetExponent(r, precision))) + 1);
    }
  }

  lemma DigitsKind(s: string, r: Scanned, precision: nat, digits: seq<Littlenum>, table: seq<Num>,
                   result: Num, overflow: bool)
    requires 2 <= precision <= 200
    requires Converted(s, r, precision, digits, table, result, overflow)
    ensures Val(digits) == Horner(s, r.first, DigitsUsed(r, precision), 0)
    ensures Val(digits) == 0 || Normalized(digits)
  {
    hide Power, Times, Horner, NetExponent, DigitsUsed;
  }

  lemma ZeroTimesResult(power: Num, digits: seq<Littlenum>, cap: nat)
    requires Val(digits) == 0
    ensures Times(power, Num(digits, 0), cap).mant == []
  {
    hide Multip, Val;
    ZeroProduct(power.mant, digits, cap);
  }

  lemma CloseNotEmpty(x: Num, v: real, cap: nat, n: nat)
    requires cap > 0 && Close(Value(x), v, cap, n)
    ensures x.mant != []
  {
    hide KeepAll, RadixPow;
  }

  // ---------------------------------------------------------------------
  // Every number
  // ---------------------------------------------------------------------

  /** With one table for 10, the other for 0.1 and sound products, a result is at most the number
      denoted and falls short of it by no more than the digits left out and the truncations. */
  ghost predicate WorthDenoted(s: string, start: nat, r: Scanned, precision: nat, digits: seq<Littlenum>,
                               values: TableValues, result: Num, overflow: bool)
    requires 2 <= precision <= 200
  {
    var e, v := NetExponent(r, precision), Denoted(Read(s, start));
    TableFor(values.positive, 10.0, precision) && TableFor(values.negative, 0.1, precision)
    && SoundFor(Abs(e), digits, if e < 0 then values.negative else values.positive, precision) ==>
      && !overflow
      && if OnlyZeros(s, r, precision) then result.mant == [] && v > 0.0
         else 0.0 < Value(result) <= v
              && (v - TenPow(e)) * KeepAll(precision, 2 * Ones(Abs(e)) + 1) < Value(result)
  }

  /** Where all digits are used, the entries are exact and the products fit, it is the number denoted. */
  ghost predicate ExactlyDenoted(s: string, start: nat, r: Scanned, precision: nat, digits: seq<Littlenum>,
                                 values: TableValues, result: Num, overflow: bool)
    requires 2 <= precision <= 200
  {
    var e := NetExponent(r, precision);
    0 <= e && r.before + r.after <= MaxDigits(precision) && ExactFor(e, digits, values.positive, precision) ==>
      !overflow && Value(result) == Denoted(Read(s, start))
  }

  /** A number whose digits used are all zeros is not zero, and lost without an error. */
  lemma LostSound(s: string, start: nat, r: Scanned, precision: nat, digits: seq<Littlenum>, table: seq<Num>,
                  result: Num, overflow: bool, base: real)
    requires 2 <= precision <= 200 && Found(s, start, r.first, r.before, r.after) && r.before + r.after > 0
    requires Converted(s, r, precision, digits, table, result, overflow) && OnlyZeros(s, r, precision)
    requires base > 0.0 && TableFor(table, base, precision)
    requires SoundFor(Abs(NetExponent(r, precision)), digits, table, precision)
    ensures result.mant == [] && !overflow && Denoted(Read(s, start)) > 0.0
  {
    hide *;
    OnlyZerosLost(s, start, r, precision, digits, table, result, overflow);
    ConvertedParts(s, r, precision, digits, table, result, overflow, Abs(NetExponent(r, precision)));
    ClosePower(Abs(NetExponent(r, precision)), digits, table, precision, base);
    DenotedPositive(Read(s, start));
  }

  lemma DenotedPositive(d: Number)
    requires d.mantissa > 0
    ensures Denoted(d) > 0.0
  {
    hide TenPow;
  }

  lemma AllUsedNotLost(s: string, r: Scanned, precision: nat)
    requires 2 <= precision <= 200 && r.before + r.after <= MaxDigits(precision)
    ensures !OnlyZeros(s, r, precision)
  {
  }

  lemma NormalDigits(s: string, start: nat, r: Scanned, precision: nat, digits: seq<Littlenum>, table: seq<Num>,
                     result: Num, overflow: bool)
    requires 2 <= precision <= 200 && Found(s, start, r.first, r.before, r.after) && r.before + r.after > 0
    requires Converted(s, r, precision, digits, table, result, overflow) && !OnlyZeros(s, r, precision)
    ensures Normalized(digits)
  {
    hide *;
    ZeroDigitsIff(s, start, r, precision);
    DigitsKind(s, r, precision, digits, table, result, overflow);
  }

  /** If one table is for 10 and the other one for 0.1, every number is read as what its text denotes,
      up to the digits left out and the truncations, and exactly where all products are exact. */
  lemma NumberRead(s: string, start: nat, r: Scanned, precision: nat, digits: seq<Littlenum>, values: TableValues,
                   result: Num, overflow: bool)
    requires 2 <= precision <= 200 && Found(s, start, r.first, r.before, r.after) && r.before + r.after > 0
    requires r.exponent == Read(s, start).exponent
    requires Converted(s, r, precision, digits,
                       if NetExponent(r, precision) < 0 then values.negative else values.positive, result, overflow)
    ensures WorthDenoted(s, start, r, precision, digits, values, result, overflow)
    ensures ExactlyDenoted(s, start, r, precision, digits, values, result, overflow)
  {
    NumberClose(s, start, r, precision, digits, values, result, overflow);
    NumberExact(s, start, r, precision, digits, values, result, overflow);
  }

  lemma NumberClose(s: string, start: nat, r: Scanned, precision: nat, digits: seq<Littlenum>, values: TableValues,
                    result: Num, overflow: bool)
    requires 2 <= precision <= 200 && Found(s, start, r.first, r.before, r.after) && r.before + r.after > 0
    requires r.exponent == Read(s, start).exponent
    requires Converted(s, r, precision, digits,
                       if NetExponent(r, precision) < 0 then values.negative else values.positive, result, overflow)
    ensures WorthDenoted(s, start, r, precision, digits, values, result, overflow)
  {
    hide Converted, Found, Read, TableFor, SoundFor, OnlyZeros, Denoted, Value, TenPow, KeepAll, Ones, Normalized,
         NetExponent, Abs;
    var e := NetExponent(r, precision);
    var table := if e < 0 then values.negative else values.positive;
    var base := if e < 0 then 0.1 else 10.0;
    if TableFor(values.positive, 10.0, precision) && TableFor(values.negative, 0.1, precision)
       && SoundFor(Abs(e), digits, table, precision) {
      if OnlyZeros(s, r, precision) {
        LostSound(s, start, r, precision, digits, table, result, overflow, base);
      } else {
        NormalDigits(s, start, r, precision, digits, table, result, overflow);
        ConvertedBelow(s, start, r, precision, digits, table, result, overflow);
        ConvertedClose(s, r, precision, digits, table, result, overflow);
      }
    }
  }

  lemma NumberExact(s: string, start: nat, r: Scanned, precision: nat, digits: seq<Littlenum>, values: TableValues,
                    result: Num, overflow: bool)
    requires 2 <= precision <= 200 && Found(s, start, r.first, r.before, r.after) && r.before + r.after > 0
    requires r.exponent == Read(s, start).exponent
    requires Converted(s, r, precision, digits,
                       if NetExponent(r, precision) < 0 then values.negative else values.positive, result, overflow)
    ensures ExactlyDenoted(s, start, r, precision, digits, values, result, overflow)
  {
    hide Converted, Found, Read, OnlyZeros, Denoted, Value, Normalized, NetExponent, ExactFor, MaxDigits;
    var e := NetExponent(r, precision);
    if 0 <= e && r.before + r.after <= MaxDigits(precision) && ExactFor(e, digits, values.positive, precision) {
      AllUsedNotLost(s, r, precision);
      NormalDigits(s, start, r, precision, digits, values.positive, result, overflow);
      ExactConversion(s, start, r, precision, digits, values.positive, result, overflow);
    }
  }

  /** For instance the digits of 0.000000000001, converted for a float, are all left out. */
  lemma LostExample(s: string, r: Scanned, digits: seq<Littlenum>, table: seq<Num>, result: Num, overflow: bool)
    requires s == "0.000000000001" && Found(s, 0, r.first, r.before, r.after)
    requires Converted(s, r, 4, digits, table, result, overflow)
    ensures result.mant == [] && Read(s, 0).mantissa > 0
  {
    ExampleZeros(s, r);
    hide *;
    OnlyZerosLost(s, 0, r, 4, digits, table, result, overflow);
  }

  lemma ExampleZeros(s: string, r: Scanned)
    requires s == "0.000000000001" && Found(s, 0, r.first, r.before, r.after)
    ensures OnlyZeros(s, r, 4) && r.before + r.after > 0
  {
    hide RunEnd;
    RunZeros(s, 0, 1, 0);
    Ends(s, 1, 1);
    Ends(s, 2, 14);
    assert r.first == 1 && r.before == 0 && At(s, 13) == '1';
  }

  lemma {:induction false} Ends(s: string, i: nat, j: nat)
    requires i <= j && !IsDigit(At(s, j)) && forall k :: i <= k < j ==> IsDigit(At(s, k))
    ensures RunEnd(s, i) == j
    decreases j - i
  {
    if i < j {
      Ends(s, i + 1, j);
    }
  }
}
