/** From text to IEEE words, and two numbers that do not survive it. */
module AtofText {
  import opened Characters
  import opened Littlenums
  import opened FlonumProduct
  import opened FlonumValue
  import opened PowerOfTen
  import opened Decimal
  import opened AtofGeneric
  import opened AtofCorrect
  import opened AtofDigits
  import opened BitReaders
  import opened IeeeWords
  import opened AtofIeee
  import opened Flonums
  import opened IeeeRounding

  /** The guard digits behind the words of the format. */
  const GUARD := 2

  /** A number whose digits are all used and whose products all fit is encoded as the standard asks,
      unless it is one of those that the encoder gets wrong.  It always has a bit to be found. */
  lemma TextToWords(s: string, start: nat, r: Scanned, fmt: Format, digits: seq<Littlenum>, table: seq<Num>,
                    result: Num, overflow: bool, above: Littlenum)
    requires Supported(fmt) && Found(s, start, r.first, r.before, r.after)
    requires r.exponent == Read(s, start).exponent && r.before + r.after <= MaxDigits(fmt.precision + GUARD)
    requires Converted(s, r, fmt.precision + GUARD, digits, table, result, overflow)
    requires NetExponent(r, fmt.precision + GUARD) >= 0 && Normalized(digits)
    requires ExactFor(NetExponent(r, fmt.precision + GUARD), digits, table, fmt.precision + GUARD)
    ensures !overflow && Val(result.mant) > 0
    ensures Correct(fmt, CodeAbove(fmt, result.mant, result.exp, above), Denoted(Read(s, start)))
            <==> !Misencoded(fmt, result.mant, result.exp) && !Misplaced(fmt, result.mant, result.exp, above)
  {
    hide *;
    var precision := fmt.precision + GUARD;
    PrecisionSmall(fmt);
    ExactConversion(s, start, r, precision, digits, table, result, overflow);
    ExactPositive(s, r, precision, digits, table, result, overflow);
    PositiveMantissa(result);
    NumParts(result);
    EncodedWithAbove(fmt, result.mant, result.exp, above);
  }

  lemma PrecisionSmall(fmt: Format)
    requires Supported(fmt)
    ensures 2 <= fmt.precision + GUARD <= 200
  {
  }

  lemma NumParts(x: Num)
    ensures Num(x.mant, x.exp) == x
  {
  }

  lemma ExactPositive(s: string, r: Scanned, precision: nat, digits: seq<Littlenum>, table: seq<Num>,
                      result: Num, overflow: bool)
    requires 2 <= precision <= 200 && Converted(s, r, precision, digits, table, result, overflow)
    requires NetExponent(r, precision) >= 0 && Normalized(digits)
    requires ExactFor(NetExponent(r, precision), digits, table, precision)
    ensures Value(result) > 0.0
  {
    hide *;
    var e := NetExponent(r, precision);
    AbsPositive(e);
    ConvertedParts(s, r, precision, digits, table, result, overflow, e);
    ExactPower(e, digits, table, precision);
    TimesFits(PowerAt(e, table, precision), Num(digits, 0), precision);
    NormalizedPositive(Times(PowerAt(e, table, precision), Num(digits, 0), precision));
  }

  lemma PositiveMantissa(x: Num)
    requires Value(x) > 0.0
    ensures Val(x.mant) > 0
  {
    hide Val, RadixPow;
    assert 0.0 * RadixPow(x.exp) == 0.0;
  }

  // ---------------------------------------------------------------------
  // Every text
  // ---------------------------------------------------------------------

  lemma TidyPositive(mant: seq<Littlenum>)
    requires Tidy(mant) && mant != []
    ensures Val(mant) > 0
  {
    ValLeader(mant);
  }

  lemma PrecisionOf(fmt: Format)
    requires Supported(fmt)
    ensures fmt.precision == 2 || fmt.precision == 4
  {
  }

  /** The words of a number that was read, by its sign. */
  ghost predicate NumberWords(fmt: Format, negative: bool, result: Num, overflow: bool, above: Littlenum, code: nat)
    requires Supported(fmt) && Tidy(result.mant)
  {
    var sign := if negative then SignBit(fmt) else 0;
    if overflow then code == sign + Infinity(fmt)
    else if result.mant == [] then code == sign
    else
      TidyPositive(result.mant);
      code == Encoded(fmt, if negative then '-' else '+', result.mant, result.exp, above)
  }

  /** From a text to IEEE words, for every text and also where products wrap.  No table entry is zero;
      then the number built is zero or has a bit to be found, and finding it ends. */
  method ReadIeee(s: string, start: nat, fmt: Format, words: array<Littlenum>, tables: Tables, ghost values: TableValues)
    returns (end: nat, ghost r: Scanned, ghost digits: seq<Littlenum>, ghost result: Num, ghost overflow: bool,
             ghost above: Littlenum)
    requires Supported(fmt) && start <= |s| && words.Length > fmt.precision && TablesHold(tables, values)
    requires NonZeroEntries(values.positive) && NonZeroEntries(values.negative)
    modifies words
    ensures var p, negative, w, precision :=
        SignedEnd(s, start), At(s, start) == '-', words[..fmt.precision], fmt.precision + GUARD;
      if IsNan(s, p) then
        w[0] == 0x7fff && (forall i :: 1 <= i < fmt.precision ==> w[i] == 0xffff) && end == p + 3
      else if IsInf(s, p) then
        && Big(w) == Infinity(fmt) + (if negative then SignBit(fmt) else 0)
        && end == if IsInity(s, p + 3) then p + 8 else p + 3
      else
        && Found(s, p, r.first, r.before, r.after) && end == Read(s, p).end && r.exponent == Read(s, p).exponent
        && Tidy(result.mant) && NumberWords(fmt, negative, result, overflow, above, Big(w))
        && if r.before + r.after == 0 then result.mant == [] && !overflow
           else && Converted(s, r, precision, digits,
                             if NetExponent(r, precision) < 0 then values.negative else values.positive, result, overflow)
                && WorthDenoted(s, p, r, precision, digits, values, result, overflow)
                && ExactlyDenoted(s, p, r, precision, digits, values, result, overflow)
  {
    hide Converted, Found, Read, NonZeroEntries, TablesHold, Tidy, WorthDenoted, ExactlyDenoted, Val, Encoded, Big, SignedEnd;
    PrecisionOf(fmt);
    var bits := new Littlenum[fmt.precision + GUARD];
    var number := new Flonum(bits);
    var error;
    error, end, r, digits := AtofGeneric.AtofGeneric(s, start, number, tables, values);
    result, overflow, above := Num(number.Mantissa(), number.exponent), error != 0, bits[1];
    ghost var p := SignedEnd(s, start);
    if !IsNan(s, p) && !IsInf(s, p) {
      if r.before + r.after == 0 {
        EmptyTidy();
      } else {
        ConvertedTidy(s, r, fmt.precision + GUARD, digits,
                      if NetExponent(r, fmt.precision + GUARD) < 0 then values.negative else values.positive,
                      result, overflow);
        NumberRead(s, p, r, fmt.precision + GUARD, digits, values, result, overflow);
      }
      if result.mant != [] {
        TidyPositive(result.mant);
      }
    }
    if error != 0 {
      FillRest(words, fmt.precision,
               (if fmt.precision == 2 then 0x7f80 else 0x7ff0) + (if number.sign == '-' then 0x8000 else 0), 0);
      BigWords(words[..fmt.precision]);
    } else {
      GenToWords(number, words, fmt);
    }
  }

  lemma EmptyTidy()
    ensures Tidy([])
  {
  }

  // ---------------------------------------------------------------------
  // Whole numbers
  // ---------------------------------------------------------------------

  /** Without a power of ten every number that fits is converted exactly, whatever the tables hold. */
  lemma ExactForNone(digits: seq<Littlenum>, table: seq<Num>, cap: nat)
    requires Normalized(digits) && Val(digits) < Pow(cap)
    ensures ExactFor(0, digits, table, cap)
  {
    hide Val, Pow, NoWrap, Sound, ProductFits, Normalized;
    assert PowerAt(0, table, cap) == ONE;
    TimesOneFits(digits, cap);
  }

  lemma TimesOneFits(digits: seq<Littlenum>, cap: nat)
    requires Normalized(digits) && Val(digits) < Pow(cap)
    ensures Sound(ONE.mant, digits, cap) && ProductFits(ONE.mant, digits, cap)
  {
    hide Val, Pow, NoWrap, NeedlessShift, Representable, Normalized;
    OneValue();
    ShortFactorNoWrap(ONE.mant, digits);
    ValBound(digits);
    OnceIs(Val(digits));
    NotNeedless(Val(digits), Columns(ONE.mant, digits), cap);
    FitsBelow(Val(digits), cap);
  }

  lemma OnceIs(v: nat)
    ensures 1 * v == v
  {
  }

  lemma NotNeedless(n: nat, columns: nat, cap: nat)
    requires n < Pow(columns)
    ensures !NeedlessShift(n, columns, cap)
  {
    hide Pow, EndsInZeros;
  }

  lemma FitsBelow(n: nat, cap: nat)
    requires n < Pow(cap)
    ensures Representable(n, cap)
  {
    assert EndsInZeros(n, 0);
    hide Pow, EndsInZeros;
  }

  /** The digits of a single and those of a double fit their flonums, and are below 2^70. */
  lemma LargestDigits(fmt: Format)
    requires Supported(fmt)
    ensures var n := MaxDigits(fmt.precision + GUARD);
      Pow10(n) <= Pow(fmt.precision + GUARD) && Pow10(n) <= Pow2(70)
  {
    assert MaxDigits(4) == 11 && MaxDigits(6) == 21;
    TenToTheEleventh();
    TenToTheTwentyFirst();
    SixLittlenums();
    TwoToTheSeventieth();
    PrecisionOf(fmt);
    hide Pow10, Pow, Pow2, MaxDigits;
  }

  /** The digits that can matter are those of as many bits, and two guard digits: 9 and 19. */
  lemma UsefulDigits()
    ensures MaxDigits(2 + GUARD) == 9 + 2 && Pow10(9) <= Pow2(32) < Pow10(10)
    ensures MaxDigits(4 + GUARD) == 19 + 2 && Pow10(19) <= Pow2(64) < Pow10(20)
  {
    Constants();
    Pow2Add(16, 16);
    Pow2Add(16, 48);
    TenToTheEleventh();
    assert Pow10(11) == 10 * Pow10(10) == 100 * Pow10(9);
    TenToTheTwentyFirst();
    assert Pow10(21) == 10 * Pow10(20) == 100 * Pow10(19);
    hide Pow2, Pow10;
  }

  lemma TenToTheEleventh()
    ensures Pow10(11) == 100_000_000_000
  {
  }

  lemma TenToTheTwentyFirst()
    ensures Pow10(21) == 1_000_000_000_000_000_000_000
  {
    TenToTheEleventh();
    assert Pow10(16) == 100_000 * Pow10(11);
  }

  lemma SixLittlenums()
    ensures Pow(4) == 0x1_0000_0000_0000_0000 && Pow(6) == 0x1_0000_0000_0000_0000_0000_0000
  {
  }

  lemma TwoToTheSeventieth()
    ensures Pow2(70) == 0x40_0000_0000_0000_0000
  {
    Constants();
    Pow2Add(53, 17);
    assert Pow2(17) == 2 * Pow2(16);
  }

  /** A number between 1 and 2^70 is in the middle of the range of exponents. */
  lemma MiddleRange(fmt: Format, m: seq<Littlenum>, e: int)
    requires Supported(fmt) && Val(m) > 0 && 1.0 <= Value(Num(m, e)) < TwoPow(70)
    ensures Bias(fmt) <= BiasedExponent(fmt, m, e) <= Bias(fmt) + 69
    ensures !Misencoded(fmt, m, e) && !Exhausted(fmt, m, e)
  {
    hide First, Val, Value, TwoPow, Skip, Rounded;
    Exponents(fmt, m, e);
    var b := BiasedExponent(fmt, m, e) - Bias(fmt);
    FirstUnits(m, e, Skip(m) + 1, TwoPow(b));
    TwoPowNext(b);
    TwoPowZero();
    if b < 0 {
      TwoPowMonotone(b + 1, 0);
    }
    if b >= 70 {
      TwoPowMonotone(70, b);
    }
    Constants();
  }

  /** The digits used are the whole number. */
  lemma WholeDigits(s: string, start: nat, r: Scanned, precision: nat, digits: seq<Littlenum>, table: seq<Num>,
                    result: Num, overflow: bool)
    requires 2 <= precision <= 200 && Found(s, start, r.first, r.before, r.after) && r.before + r.after > 0
    requires r.before + r.after <= MaxDigits(precision)
    requires Converted(s, r, precision, digits, table, result, overflow)
    ensures Normalized(digits) && Val(digits) == Horner(s, r.first, r.before + r.after, 0)
    ensures 1 <= Val(digits) < Pow10(MaxDigits(precision))
  {
    hide *;
    AllUsed(r, precision);
    DigitsKind(s, r, precision, digits, table, result, overflow);
    FoundPositive(s, start, r);
    HornerBelow(s, r.first, r.before + r.after);
    Pow10Monotone(r.before + r.after, MaxDigits(precision));
  }

  lemma AllUsed(r: Scanned, precision: nat)
    requires 2 <= precision <= 200 && r.before + r.after <= MaxDigits(precision)
    ensures DigitsUsed(r, precision) == r.before + r.after && NetExponent(r, precision) == r.exponent - r.after
  {
    hide MaxDigits;
  }

  lemma FoundPositive(s: string, start: nat, r: Scanned)
    requires Found(s, start, r.first, r.before, r.after) && r.before + r.after > 0
    ensures Horner(s, r.first, r.before + r.after, 0) > 0
  {
    hide *;
    FoundNonZero(s, start, r.first, r.before, r.after);
    FoundValue(s, start, r.first, r.before, r.after);
    NotNone(Horner(s, r.first, r.before + r.after, 0), Pow10(Read(s, start).scale - r.after), Read(s, start).mantissa);
  }

  lemma NotNone(x: nat, y: nat, product: nat)
    requires product == x * y && product > 0
    ensures x > 0
  {
  }

  lemma HornerBelow(s: string, p: nat, n: nat)
    ensures Horner(s, p, n, 0) < Pow10(n)
  {
    HornerBound(s, p, n, 0);
  }

  lemma {:induction false} Pow10Monotone(i: nat, j: nat)
    requires i <= j
    ensures Pow10(i) <= Pow10(j)
  {
    if i < j {
      Pow10Monotone(i, j - 1);
    }
  }

  lemma WholeValue(s: string, r: Scanned, precision: nat, n: nat)
    requires 2 <= precision <= 200 && NetExponent(r, precision) == 0
    requires n == Horner(s, r.first, DigitsUsed(r, precision), 0)
    ensures Used(s, r, precision) == n as real
  {
    hide Horner, NetExponent, DigitsUsed;
    assert TenPow(0) == 1.0;
  }

  /** A number of n <= 2^70 is below 2^70 as a real number, too. */
  lemma BelowSeventy(n: nat)
    requires 1 <= n < Pow2(70)
    ensures 1.0 <= n as real < TwoPow(70)
  {
    TwoPowAdd(0, 70);
    TwoPowZero();
    hide TwoPow, Pow2;
  }

  /** A number without fraction or power of ten, whose digits are all used, is encoded as the standard
      asks, whatever the tables hold and whatever stands in memory. */
  lemma WholeNumber(s: string, start: nat, r: Scanned, fmt: Format, digits: seq<Littlenum>, table: seq<Num>,
                    result: Num, overflow: bool, above: Littlenum)
    requires Supported(fmt) && Found(s, start, r.first, r.before, r.after) && r.before + r.after > 0
    requires r.exponent == Read(s, start).exponent == r.after && r.before + r.after <= MaxDigits(fmt.precision + GUARD)
    requires Converted(s, r, fmt.precision + GUARD, digits, table, result, overflow)
    ensures !overflow && Val(result.mant) > 0
    ensures Correct(fmt, CodeAbove(fmt, result.mant, result.exp, above), Denoted(Read(s, start)))
  {
    var precision := fmt.precision + GUARD;
    PrecisionSmall(fmt);
    hide *;
    AllUsed(r, precision);
    WholeDigits(s, start, r, precision, digits, table, result, overflow);
    LargestDigits(fmt);
    ExactForNone(digits, table, precision);
    ExactConversion(s, start, r, precision, digits, table, result, overflow);
    ExactPositive(s, r, precision, digits, table, result, overflow);
    PositiveMantissa(result);
    UsedIsDenoted(s, start, r, precision);
    WholeValue(s, r, precision, Val(digits));
    BelowSeventy(Val(digits));
    NumParts(result);
    MiddleRange(fmt, result.mant, result.exp);
    NotMisplaced(fmt, result.mant, result.exp, above);
    EncodedWithAbove(fmt, result.mant, result.exp, above);
  }

  lemma NotMisplaced(fmt: Format, m: seq<Littlenum>, e: int, above: Littlenum)
    requires Supported(fmt) && Val(m) > 0 && !Exhausted(fmt, m, e)
    ensures !Misplaced(fmt, m, e, above)
  {
  }

  // ---------------------------------------------------------------------
  // Examples
  // ---------------------------------------------------------------------

  /** There is only one bit that can be the first one bit. */
  lemma SkipUnique(m: seq<Littlenum>, s: nat)
    requires First(m, s) == 0 && First(m, s + 1) == 1 && Val(m) > 0
    ensures Skip(m) == s
  {
    var k := Skip(m);
    if k < s {
      FirstAhead(m, k + 1, s - (k + 1));
    } else if s < k {
      FirstAhead(m, s + 1, k - (s + 1));
    }
  }

  /** The first q of 32 bits. */
  lemma First32(m: seq<Littlenum>, q: nat)
    requires |m| == 2 && q <= 32
    ensures First(m, q) == HighBits((m[0] as int) + 0x10000 * (m[1] as int), 32 - q)
    ensures Val(m) == (m[0] as int) + 0x10000 * (m[1] as int)
  {
    assert m[1..][1..] == [];
    assert Val(m[1..]) == m[1];
    Pow2Add(q, 32 - q);
    hide Val, Pow2;
    DivCancel(Val(m), Pow2(q), Pow2(32 - q));
  }

  /** About 5.2e-54, as a single, becomes infinity instead of zero. */
  lemma TooSmallExample()
    ensures var m: seq<Littlenum> := [0, 0x8000];
      Val(m) > 0 && Code(Format(2, 8), m, -13) == Infinity(Format(2, 8)) && IeeeCode(Format(2, 8), m, -13) == 0
  {
    var m: seq<Littlenum> := [0, 0x8000];
    First32(m, 0);
    First32(m, 1);
    Constants();
    Pow2Add(16, 16);
    assert Pow2(32) == 2 * Pow2(31);
    hide First, Val, Pow2;
    SkipUnique(m, 0);
  }

  /** A denormal single whose 16 bits and the bit behind them are all ones becomes zero. */
  lemma CarryLostExample()
    ensures var m: seq<Littlenum> := [0xfc00, 0x07ff];
      Val(m) > 0 && Code(Format(2, 8), m, -10) == 0 && IeeeCode(Format(2, 8), m, -10) == 0x10000
  {
    var m: seq<Littlenum> := [0xfc00, 0x07ff];
    First32(m, 5);
    First32(m, 6);
    First32(m, 22);
    Constants();
    Pow2Add(16, 10);
    assert Pow2(27) == 2 * Pow2(26);
    hide First, Val, Pow2;
    SkipUnique(m, 5);
  }

  /** 2^-128, held as the number 1, becomes zero as a single, because the bit put back is looked for in
      the littlenum above it. */
  lemma MisplacedExample()
    ensures var m: seq<Littlenum> := [1];
      Val(m) > 0 && CodeAbove(Format(2, 8), m, -8, 0) == 0 && IeeeCode(Format(2, 8), m, -8) > 0
  {
    var m: seq<Littlenum> := [1];
    FirstOne(m);
    Constants();
    hide First, Val, Pow2;
    SkipUnique(m, 15);
    CodeAboveIs(Format(2, 8), m, -8, 0);
  }

  lemma FirstOne(m: seq<Littlenum>)
    requires m == [1]
    ensures Val(m) == 1 && First(m, 15) == 0 && First(m, 16) == 1
  {
    FirstHead(m, 1, 1);
    FirstHead(m, 1, 0);
    assert m[0..] == m && m[1..] == [];
    assert Pow2(1) == 2 && Pow2(0) == 1;
  }

  /** 1.5 * 2^128, as a single, becomes NaN instead of infinity. */
  lemma NanExample()
    ensures var m: seq<Littlenum> := [0x8000, 1];
      Val(m) > 0 && Code(Format(2, 8), m, 7) == 0x7fc0_0000 && IeeeCode(Format(2, 8), m, 7) == 0x7f80_0000
  {
    var m: seq<Littlenum> := [0x8000, 1];
    First32(m, 15);
    First32(m, 16);
    FirstPast(m, 8);
    Constants();
    assert Pow2(17) == 2 * Pow2(16);
    hide First, Val, Pow2;
    SkipUnique(m, 15);
    assert Rounded(m, 39) == 0xc0_0000;
  }
}
