/** What a converted number is worth. */
module AtofCorrect {
  import opened Littlenums
  import opened FlonumProduct
  import opened FlonumValue
  import opened PowerOfTen
  import opened Decimal
  import opened AtofGeneric

  /** 10^e for any integer e. */
  function TenPow(e: int): (r: real)
    ensures r > 0.0
  {
    if e >= 0 then NPow(10.0, e) else NPow(0.1, -e)
  }

  lemma {:induction false} TenPowAdd(e: int, k: nat)
    ensures TenPow(e + k) == TenPow(e) * (Pow10(k) as real)
  {
    hide TenPow;
    if k > 0 {
      TenPowAdd(e, k - 1);
      TenPowNext(e + (k - 1));
      assert e + (k - 1) + 1 == e + k;
      TenFold(TenPow(e), Pow10(k - 1) as real);
    }
  }

  lemma TenPowNext(e: int)
    ensures TenPow(e + 1) == 10.0 * TenPow(e)
  {
    if e < 0 {
      assert NPow(0.1, -e) == 0.1 * NPow(0.1, -e - 1);
      assert NPow(10.0, 0) == 1.0 == NPow(0.1, 0);
    }
  }

  lemma TenFold(x: real, y: real)
    ensures 10.0 * (x * y) == x * (10.0 * y)
  {
  }

  /** The real number that a decimal text denotes. */
  function Denoted(d: Number): real {
    (d.mantissa as real) * TenPow(d.exponent - d.scale)
  }

  /** The number the conversion works on: the digits used, at their net exponent. */
  function Used(s: string, r: Scanned, precision: nat): real
    requires 2 <= precision <= 200
  {
    (Horner(s, r.first, DigitsUsed(r, precision), 0) as real) * TenPow(NetExponent(r, precision))
  }

  /** When no digit had to be left out, that is the number denoted. */
  lemma UsedIsDenoted(s: string, start: nat, r: Scanned, precision: nat)
    requires 2 <= precision <= 200 && Found(s, start, r.first, r.before, r.after)
    requires r.exponent == Read(s, start).exponent && r.before + r.after <= MaxDigits(precision)
    ensures Used(s, r, precision) == Denoted(Read(s, start))
  {
    hide Found, Horner, Read, TenPow, Pow10, RunEnd;
    FoundValue(s, start, r.first, r.before, r.after);
    var d := Read(s, start);
    var k, e := d.scale - r.after, d.exponent - d.scale;
    TenPowAdd(e, k);
    assert e + k == NetExponent(r, precision);
    Rescale(Horner(s, r.first, r.before + r.after, 0), Pow10(k), TenPow(e), TenPow(e + k), d.mantissa);
  }

  lemma Rescale(h: nat, p: nat, t: real, tp: real, m: nat)
    requires m == h * p && tp == t * (p as real)
    ensures (h as real) * tp == (m as real) * t
  {
    NatMul(h, p);
    Swap(h as real, p as real, t);
  }

  lemma Swap(h: real, p: real, t: real)
    ensures h * (t * p) == (h * p) * t
  {
  }

  /** A table whose entries are not zero. */
  predicate NonZeroEntries(table: seq<Num>) {
    forall i :: 1 <= i < |table| ==> Normalized(table[i].mant)
  }

  /** The result has no mantissa, or one whose leader is not zero, for every text and also when
      products wrap or are shifted for nothing. */
  lemma ConvertedTidy(s: string, r: Scanned, precision: nat, digits: seq<Littlenum>, table: seq<Num>,
                      result: Num, overflow: bool)
    requires 2 <= precision <= 200 && Converted(s, r, precision, digits, table, result, overflow)
    requires NonZeroEntries(table)
    ensures Tidy(result.mant)
  {
    hide Power, Multip, Horner;
    var e := Abs(NetExponent(r, precision));
    var power := Power(e, 1, ONE, table, precision).0;
    PowerTidy(e, 1, ONE, table, precision);
    if digits == [0] {
      ZeroDigit();
      ZeroProduct(power.mant, digits, precision);
    } else {
      TimesTidy(power, Num(digits, 0), precision);
    }
  }

  lemma ZeroDigit()
    ensures Val([0]) == 0
  {
  }

  /** Exponents of 2048 and more are what error 2 is for. */
  lemma ErrorIff(s: string, r: Scanned, precision: nat, digits: seq<Littlenum>, table: seq<Num>, result: Num, overflow: bool)
    requires 2 <= precision <= 200 && |table| == 12
    requires Converted(s, r, precision, digits, table, result, overflow)
    ensures overflow <==> Abs(NetExponent(r, precision)) >= 2048
  {
    hide Power;
    OverflowIff(Abs(NetExponent(r, precision)), 1, ONE, table, precision);
    assert Pow2(3) == 8 && Pow2(5) == 32 && Pow2(7) == 128 && Pow2(9) == 512 && Pow2(11) == 2048;
  }

  /** What the power loop leaves for an exponent of magnitude e. */
  function PowerAt(e: nat, table: seq<Num>, cap: nat): Num {
    Power(e, 1, ONE, table, cap).0
  }

  /** Every step of the power loop, and the last product, is sound. */
  ghost predicate SoundFor(e: nat, digits: seq<Littlenum>, table: seq<Num>, cap: nat) {
    SoundSteps(e, 1, ONE, table, cap) && Sound(PowerAt(e, table, cap).mant, digits, cap)
  }

  /** Every product also fits, and every table entry used is the exact power of ten. */
  ghost predicate ExactFor(e: nat, digits: seq<Littlenum>, table: seq<Num>, cap: nat) {
    var m := PowerAt(e, table, cap).mant;
    && ExactSteps(e, 1, ONE, table, cap, 10.0)
    && Sound(m, digits, cap) && ProductFits(m, digits, cap)
  }

  ghost predicate ProductFits(a: seq<Littlenum>, b: seq<Littlenum>, cap: nat) {
    Representable(Val(a) * Val(b), cap)
  }

  lemma TimesFits(a: Num, b: Num, cap: nat)
    requires Normalized(a.mant) && Normalized(b.mant) && cap > 0
    requires Sound(a.mant, b.mant, cap) && ProductFits(a.mant, b.mant, cap)
    ensures Value(Times(a, b, cap)) == Value(a) * Value(b) && Normalized(Times(a, b, cap).mant)
  {
    hide Sound, Normalized, Times, Value, Representable;
    TimesExact(a, b, cap);
  }

  /** When every multiplication fits and uses exact table entries, the result is exactly the
      digits used times the power of ten. */
  lemma ConvertedExact(s: string, r: Scanned, precision: nat, digits: seq<Littlenum>, table: seq<Num>,
                       result: Num, overflow: bool)
    requires 2 <= precision <= 200 && Converted(s, r, precision, digits, table, result, overflow)
    requires NetExponent(r, precision) >= 0 && Normalized(digits)
    requires ExactFor(NetExponent(r, precision), digits, table, precision)
    ensures !overflow && Value(result) == Used(s, r, precision)
  {
    hide *;
    var e := NetExponent(r, precision);
    AbsPositive(e);
    ConvertedParts(s, r, precision, digits, table, result, overflow, e);
    DigitsValue(digits);
    UsedProduct(s, r, precision, e);
    ExactPower(e, digits, table, precision);
    TimesFits(PowerAt(e, table, precision), Num(digits, 0), precision);
  }

  /** So a number with a net exponent that is not negative, all of whose digits are used, is
      converted exactly. */
  lemma ExactConversion(s: string, start: nat, r: Scanned, precision: nat, digits: seq<Littlenum>, table: seq<Num>,
                        result: Num, overflow: bool)
    requires 2 <= precision <= 200 && Found(s, start, r.first, r.before, r.after)
    requires r.exponent == Read(s, start).exponent && r.before + r.after <= MaxDigits(precision)
    requires Converted(s, r, precision, digits, table, result, overflow)
    requires NetExponent(r, precision) >= 0 && Normalized(digits)
    requires ExactFor(NetExponent(r, precision), digits, table, precision)
    ensures !overflow && Value(result) == Denoted(Read(s, start))
  {
    hide *;
    ConvertedExact(s, r, precision, digits, table, result, overflow);
    UsedIsDenoted(s, start, r, precision);
  }

  lemma AbsPositive(e: int)
    requires e >= 0
    ensures Abs(e) == e
  {
  }

  lemma ExactPower(e: nat, digits: seq<Littlenum>, table: seq<Num>, cap: nat)
    requires ExactFor(e, digits, table, cap) && cap > 0
    ensures var power := PowerAt(e, table, cap);
      && Normalized(power.mant) && Value(power) == NPow(10.0, e) && !Power(e, 1, ONE, table, cap).1
      && Sound(power.mant, digits, cap) && ProductFits(power.mant, digits, cap)
  {
    hide Power, ExactSteps, Sound, ProductFits, Normalized, Value, NPow;
    OneValue();
    PlaceOne(e);
    PowerExact(e, 1, ONE, table, cap, 10.0, NPow(10.0, e));
  }

  lemma ConvertedParts(s: string, r: Scanned, precision: nat, digits: seq<Littlenum>, table: seq<Num>,
                       result: Num, overflow: bool, e: nat)
    requires 2 <= precision <= 200 && Converted(s, r, precision, digits, table, result, overflow)
    requires e == Abs(NetExponent(r, precision))
    ensures overflow == Power(e, 1, ONE, table, precision).1
    ensures result == Times(PowerAt(e, table, precision), Num(digits, 0), precision)
    ensures Val(digits) == Horner(s, r.first, DigitsUsed(r, precision), 0)
  {
    hide Power, Times, Val, Horner, NetExponent, DigitsUsed;
  }

  lemma PlaceOne(e: nat)
    ensures e * Pow2(1 - 1) == e
  {
  }

  lemma UsedProduct(s: string, r: Scanned, precision: nat, e: nat)
    requires 2 <= precision <= 200 && e == Abs(NetExponent(r, precision))
    ensures var base := if NetExponent(r, precision) < 0 then 0.1 else 10.0;
      Used(s, r, precision) == (Horner(s, r.first, DigitsUsed(r, precision), 0) as real) * NPow(base, e)
  {
    hide Horner, NetExponent, DigitsUsed, NPow;
  }

  lemma OneValue()
    ensures Value(ONE) == 1.0 && Normalized(ONE.mant) && Val(ONE.mant) == 1
  {
    assert ONE.mant[1..] == [];
    assert RadixPow(0) == 1.0;
  }

  lemma DigitsValue(digits: seq<Littlenum>)
    ensures Value(Num(digits, 0)) == Val(digits) as real
  {
    assert RadixPow(0) == 1.0;
  }

  /** In any case, the result is close to the digits used times the power of ten: two truncations
      for every bit of the exponent and one more are all the error there is. */
  lemma ConvertedClose(s: string, r: Scanned, precision: nat, digits: seq<Littlenum>, table: seq<Num>,
                       result: Num, overflow: bool)
    requires 2 <= precision <= 200 && Converted(s, r, precision, digits, table, result, overflow)
    requires Normalized(digits)
    requires TableFor(table, if NetExponent(r, precision) < 0 then 0.1 else 10.0, precision)
    requires SoundFor(Abs(NetExponent(r, precision)), digits, table, precision)
    ensures !overflow
    ensures Close(Value(result), Used(s, r, precision), precision, 2 * Ones(Abs(NetExponent(r, precision))) + 1)
  {
    hide *;
    var e := Abs(NetExponent(r, precision));
    var base := if NetExponent(r, precision) < 0 then 0.1 else 10.0;
    ConvertedParts(s, r, precision, digits, table, result, overflow, e);
    DigitsClose(digits, precision);
    UsedProduct(s, r, precision, e);
    ClosePower(e, digits, table, precision, base);
    TimesOfClose(PowerAt(e, table, precision), NPow(base, e), 2 * Ones(e), Num(digits, 0), Val(digits) as real, 0,
                 precision, Used(s, r, precision));
  }

  lemma ClosePower(e: nat, digits: seq<Littlenum>, table: seq<Num>, cap: nat, base: real)
    requires cap > 0 && base > 0.0 && TableFor(table, base, cap) && SoundFor(e, digits, table, cap)
    ensures var power := PowerAt(e, table, cap);
      && Normalized(power.mant) && Close(Value(power), NPow(base, e), cap, 2 * Ones(e))
      && !Power(e, 1, ONE, table, cap).1 && Sound(power.mant, digits, cap)
  {
    hide Power, SoundSteps, Sound, Normalized, Value, TableFor, Close, NPow, Ones;
    OneValue();
    OneClose(cap);
    PlaceOne(e);
    PowerClose(e, 1, ONE, table, cap, base, 1.0, 0, NPow(base, e));
  }

  lemma OneClose(cap: nat)
    requires cap > 0
    ensures Close(1.0, 1.0, cap, 0)
  {
  }

  lemma DigitsClose(digits: seq<Littlenum>, cap: nat)
    requires Normalized(digits) && cap > 0
    ensures Close(Value(Num(digits, 0)), Val(digits) as real, cap, 0)
  {
    DigitsValue(digits);
    NormalizedPositive(Num(digits, 0));
    OneClose(cap);
    hide Value, Val;
  }
}
