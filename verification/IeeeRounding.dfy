/** The words of a flonum against the encoding that IEEE 754-2008 sections 3.4 and 4.3.1 ask for:
    the nearest number, and of two that are equally near the one further away from zero. */
module IeeeRounding {
  import opened Littlenums
  import opened FlonumValue
  import opened PowerOfTen
  import opened AtofGeneric
  import opened BitReaders
  import opened IeeeWords
  import opened AtofIeee

  /** 2^e for any integer e. */
  function TwoPow(e: int): (r: real)
    ensures r > 0.0
  {
    if e >= 0 then NPow(2.0, e) else NPow(0.5, -e)
  }

  lemma TwoPowNext(e: int)
    ensures TwoPow(e + 1) == 2.0 * TwoPow(e)
  {
    if e < 0 {
      assert NPow(0.5, -e) == 0.5 * NPow(0.5, -e - 1);
      assert NPow(2.0, 0) == 1.0 == NPow(0.5, 0);
    }
  }

  lemma {:induction false} TwoPowAdd(e: int, k: nat)
    ensures TwoPow(e + k) == TwoPow(e) * (Pow2(k) as real)
  {
    hide TwoPow;
    if k > 0 {
      TwoPowAdd(e, k - 1);
      TwoPowNext(e + (k - 1));
      assert e + (k - 1) + 1 == e + k;
      Double(TwoPow(e), Pow2(k - 1) as real);
    }
  }

  lemma Double(x: real, y: real)
    ensures 2.0 * (x * y) == x * (2.0 * y)
  {
  }

  lemma {:induction false} RadixIsTwoPow(e: int)
    ensures RadixPow(e) == TwoPow(16 * e)
    decreases if e < 0 then -e else e
  {
    hide TwoPow;
    if e > 0 {
      RadixIsTwoPow(e - 1);
      TwoPowAdd(16 * (e - 1), 16);
      Sixteen();
    } else if e < 0 {
      RadixIsTwoPow(e + 1);
      TwoPowAdd(16 * e, 16);
      Sixteen();
      assert 16 * (e + 1) == 16 * e + 16;
    } else {
      TwoPowZero();
    }
  }

  lemma TwoPowZero()
    ensures TwoPow(0) == 1.0
  {
  }

  lemma {:induction false} TwoPowMonotone(i: int, j: int)
    requires i <= j
    ensures TwoPow(i) <= TwoPow(j)
    decreases j - i
  {
    hide TwoPow;
    if i < j {
      TwoPowMonotone(i, j - 1);
      TwoPowNext(j - 1);
    }
  }

  // ---------------------------------------------------------------------
  // What an encoding stands for
  // ---------------------------------------------------------------------

  /** The hidden bit. */
  function Hidden(fmt: Format): nat
    requires Supported(fmt)
  {
    if fmt.precision == 2 then 0x80_0000 else 0x10_0000_0000_0000
  }

  function Bias(fmt: Format): int
    requires Supported(fmt)
  {
    if fmt.precision == 2 then 127 else 1023
  }

  /** The exponent of the last place of a code. */
  function LastPlace(fmt: Format, code: nat): int
    requires Supported(fmt)
  {
    var e := code / Hidden(fmt);
    (if e == 0 then 1 else e) - Bias(fmt) - fmt.FractionBits()
  }

  /** The number that exponent and fraction stand for. */
  function Decode(fmt: Format, code: nat): real
    requires Supported(fmt)
  {
    var e, fraction := code / Hidden(fmt), code % Hidden(fmt);
    ((if e == 0 then fraction else Hidden(fmt) + fraction) as real) * TwoPow(LastPlace(fmt, code))
  }

  /** Neighbours are one unit of the last place apart, also across powers of two. */
  lemma DecodeNext(fmt: Format, code: nat)
    requires Supported(fmt)
    ensures Decode(fmt, code + 1) == Decode(fmt, code) + TwoPow(LastPlace(fmt, code))
  {
    hide TwoPow;
    var h := Hidden(fmt);
    var e, t, u := code / h, code % h, TwoPow(LastPlace(fmt, code));
    if t + 1 < h {
      NextSame(code, h);
      AddOne(if e == 0 then t else h + t, u);
    } else {
      NextBinade(code, h);
      TwoPowNext(LastPlace(fmt, code));
      if e == 0 {
        AddOne(t, u);
      } else {
        Twice(h, u);
        AddOne(h + t, u);
      }
    }
  }

  lemma NextSame(c: nat, h: nat)
    requires h > 0 && c % h + 1 < h
    ensures (c + 1) / h == c / h && (c + 1) % h == c % h + 1
  {
    DivModUnique(c + 1, h, c / h, c % h + 1);
  }

  lemma NextBinade(c: nat, h: nat)
    requires h > 0 && c % h + 1 == h
    ensures (c + 1) / h == c / h + 1 && (c + 1) % h == 0
  {
    assert c + 1 == h * (c / h) + h == h * (c / h + 1);
    DivModUnique(c + 1, h, c / h + 1, 0);
  }

  lemma AddOne(n: nat, u: real)
    ensures ((n + 1) as real) * u == (n as real) * u + u
  {
  }

  lemma Twice(h: nat, u: real)
    ensures (h as real) * (2.0 * u) == ((h + h) as real) * u
  {
  }

  lemma {:induction false} DecodeMonotone(fmt: Format, c: nat, d: nat)
    requires Supported(fmt) && c <= d
    ensures Decode(fmt, c) <= Decode(fmt, d) && (c < d ==> Decode(fmt, c) < Decode(fmt, d))
    decreases d - c
  {
    hide Decode, TwoPow, LastPlace;
    if c < d {
      DecodeMonotone(fmt, c, d - 1);
      DecodeNext(fmt, d - 1);
    }
  }

  /** x lies between the middles of the gaps around a code; the lower middle belongs to it. */
  predicate RoundsTo(fmt: Format, code: nat, x: real)
    requires Supported(fmt)
  {
    && (code > 0 ==> Decode(fmt, code - 1) + Decode(fmt, code) <= 2.0 * x)
    && 2.0 * x < Decode(fmt, code) + Decode(fmt, code + 1)
  }

  /** The encoding of x: what it rounds to, or infinity from the middle above the largest number on. */
  predicate Correct(fmt: Format, code: int, x: real)
    requires Supported(fmt)
  {
    && 0 <= code <= Infinity(fmt)
    && (code > 0 ==> Decode(fmt, code - 1) + Decode(fmt, code) <= 2.0 * x)
    && (code < Infinity(fmt) ==> 2.0 * x < Decode(fmt, code) + Decode(fmt, code + 1))
  }

  /** There is no second one. */
  lemma CorrectUnique(fmt: Format, c: int, d: int, x: real)
    requires Supported(fmt) && Correct(fmt, c, x) && Correct(fmt, d, x)
    ensures c == d
  {
    hide Decode;
    if c < d {
      DecodeMonotone(fmt, c, d - 1);
      DecodeMonotone(fmt, c + 1, d);
    } else if d < c {
      DecodeMonotone(fmt, d, c - 1);
      DecodeMonotone(fmt, d + 1, c);
    }
  }

  lemma CutAtInfinity(fmt: Format, code: nat, x: real)
    requires Supported(fmt) && RoundsTo(fmt, code, x)
    ensures Correct(fmt, if code <= Infinity(fmt) then code else Infinity(fmt), x)
  {
    hide Decode;
    if code > Infinity(fmt) {
      DecodeMonotone(fmt, Infinity(fmt) - 1, code - 1);
      DecodeMonotone(fmt, Infinity(fmt), code);
    }
  }

  // ---------------------------------------------------------------------
  // What the bits of a mantissa stand for
  // ---------------------------------------------------------------------

  /** t whole units fit into x. */
  predicate Floor(t: nat, unit: real, x: real) {
    (t as real) * unit <= x < (t as real) * unit + unit
  }

  /** x is within half a unit of r units, and the lower middle belongs to r. */
  predicate WithinHalf(r: nat, unit: real, x: real) {
    2.0 * ((r as real) * unit) - unit <= 2.0 * x < 2.0 * ((r as real) * unit) + unit
  }

  /** The first q bits of a flonum, in units of the last of them, and what is left. */
  lemma FirstUnits(m: seq<Littlenum>, e: int, q: nat, unit: real)
    requires unit == TwoPow(16 * (|m| + e) - q)
    ensures Floor(First(m, q), unit, Value(Num(m, e)))
  {
    hide TwoPow, RadixPow, First, Pow2, Val, Value;
    var v, p, d, base := Val(m), Pow2(q), Pow2(16 * |m|), 16 * e - q;
    RadixIsTwoPow(e);
    TwoPowAdd(base, q);
    TwoPowAdd(base, 16 * |m|);
    assert base + q == 16 * e && base + 16 * |m| == 16 * (|m| + e) - q;
    FirstQuotient(m, q, First(m, q), v, p, d);
    ValueProduct(m, e, v, RadixPow(e));
    Units(v, p, d, First(m, q), TwoPow(base), unit, RadixPow(e), Value(Num(m, e)));
  }

  lemma FirstQuotient(m: seq<Littlenum>, q: nat, t: nat, v: nat, p: nat, d: nat)
    requires t == First(m, q) && v == Val(m) && p == Pow2(q) && d == Pow2(16 * |m|)
    ensures Between(t, d, v, p)
  {
    hide Val, Pow2;
    assert d > 0;
    Quotients(v, p, d, t);
  }

  lemma ValueProduct(m: seq<Littlenum>, e: int, v: nat, r: real)
    requires v == Val(m) && r == RadixPow(e)
    ensures Value(Num(m, e)) == Product(v as real, r)
  {
    hide Val, RadixPow;
  }

  function Product(x: real, y: real): real {
    x * y
  }

  /** t is the quotient of v * p by d. */
  predicate Between(t: nat, d: nat, v: nat, p: nat) {
    t * d <= v * p < (t + 1) * d
  }

  lemma Quotients(v: nat, p: nat, d: nat, t: nat)
    requires d > 0 && t == v * p / d
    ensures Between(t, d, v, p)
  {
    var n := v * p;
    assert n == d * (n / d) + n % d;
    assert (t + 1) * d == t * d + d;
  }

  lemma Units(v: nat, p: nat, d: nat, t: nat, b: real, unit: real, r: real, x: real)
    requires Between(t, d, v, p) && b > 0.0
    requires r == b * (p as real) && x == Product(v as real, r) && unit == b * (d as real)
    ensures Floor(t, unit, x)
  {
    NatMul(t, d);
    NatMul(t + 1, d);
    NatMul(v, p);
    UnitsReal(v as real, p as real, d as real, t as real, b, unit, x);
  }

  lemma UnitsReal(v: real, p: real, d: real, t: real, b: real, unit: real, x: real)
    requires t * d <= v * p < (t + 1.0) * d && b > 0.0
    requires x == v * (b * p) && unit == b * d
    ensures t * unit <= x < t * unit + unit
  {
    Scale(t * d, v * p, b);
    Strict(v * p, (t + 1.0) * d, b);
    assert x == (v * p) * b;
    assert t * unit == (t * d) * b;
    assert (t + 1.0) * unit == ((t + 1.0) * d) * b;
    assert (t + 1.0) * unit == t * unit + unit;
  }

  lemma Strict(x: real, y: real, r: real)
    requires x < y && r > 0.0
    ensures x * r < y * r
  {
  }

  /** Rounding by the next bit leaves at most half a unit either way. */
  lemma RoundedUnits(m: seq<Littlenum>, e: int, q: nat, unit: real)
    requires unit == TwoPow(16 * (|m| + e) - q)
    ensures WithinHalf(Rounded(m, q), unit, Value(Num(m, e)))
  {
    var half := TwoPow(16 * (|m| + e) - (q + 1));
    TwoPowNext(16 * (|m| + e) - (q + 1));
    hide TwoPow, First, Value;
    FirstUnits(m, e, q + 1, half);
    Halves(First(m, q + 1), Rounded(m, q), half, unit, Value(Num(m, e)));
  }

  lemma Halves(t: nat, r: nat, half: real, unit: real, x: real)
    requires r == (t + 1) / 2 && unit == 2.0 * half && half > 0.0
    requires Floor(t, half, x)
    ensures WithinHalf(r, unit, x)
  {
    if t == 2 * r {
      HalfEven(t as real, r as real, half);
    } else {
      assert t == 2 * r - 1;
      HalfOdd(t as real, r as real, half);
    }
  }

  lemma HalfEven(t: real, r: real, half: real)
    requires t == 2.0 * r
    ensures t * half == r * (2.0 * half)
  {
  }

  lemma HalfOdd(t: real, r: real, half: real)
    requires t == 2.0 * r - 1.0
    ensures t * half == r * (2.0 * half) - half
  {
  }

  // ---------------------------------------------------------------------
  // The three ranges
  // ---------------------------------------------------------------------

  /** The code c stands for r units, and its gaps are as wide as rounding to r needs. */
  ghost predicate StandsFor(fmt: Format, c: nat, r: nat, unit: real, below: bool)
    requires Supported(fmt)
  {
    && Decode(fmt, c) == (r as real) * unit
    && TwoPow(LastPlace(fmt, c)) >= unit
    && (c > 0 ==> below || TwoPow(LastPlace(fmt, c - 1)) == unit)
  }

  lemma RoundsToUnits(fmt: Format, c: nat, r: nat, t: nat, unit: real, x: real)
    requires Supported(fmt) && StandsFor(fmt, c, r, unit, r == t)
    requires WithinHalf(r, unit, x) && Floor(t, unit, x)
    ensures RoundsTo(fmt, c, x)
  {
    hide Decode, TwoPow, LastPlace;
    DecodeNext(fmt, c);
    if c > 0 {
      DecodeNext(fmt, c - 1);
    }
  }

  lemma Divided(h: nat, e: int, t: nat)
    requires e >= 0 && t < h
    ensures (e * h + t) / h == e && (e * h + t) % h == t
  {
    DivModUnique(e * h + t, h, e, t);
  }

  lemma NormalRange(m: seq<Littlenum>, s: nat, fmt: Format)
    requires Supported(fmt) && First(m, s + 1) == 1
    ensures var q := s + 1 + fmt.FractionBits();
      Hidden(fmt) <= First(m, q) < 2 * Hidden(fmt) && First(m, q) <= Rounded(m, q) <= First(m, q) + 1
  {
    var q := s + 1 + fmt.FractionBits();
    Constants();
    FirstAhead(m, s + 1, fmt.FractionBits());
    FirstBits(m, q);
    OneBit();
    hide First, Pow2;
  }

  lemma Exponents(fmt: Format, m: seq<Littlenum>, e: int)
    requires Supported(fmt) && Val(m) > 0
    ensures BiasedExponent(fmt, m, e) == 16 * (|m| + e) - Skip(m) + Bias(fmt) - 1
    ensures Pow2(fmt.exponentBits) == 2 * Bias(fmt) + 2
    ensures First(m, Skip(m)) == 0 && First(m, Skip(m) + 1) == 1
  {
    Constants();
    hide First, Val;
  }

  /** In the normal range, up to the exponent whose bits are all ones. */
  lemma NormalRounds(fmt: Format, m: seq<Littlenum>, e: int)
    requires Supported(fmt) && Val(m) > 0 && 1 <= BiasedExponent(fmt, m, e)
    ensures var code := NormalCode(fmt, m, Skip(m), BiasedExponent(fmt, m, e));
      code >= 0 && RoundsTo(fmt, code, Value(Num(m, e)))
  {
    hide First, Pow2, TwoPow, Value, Val, Rounded, RoundsTo, Skip, BiasedExponent, NormalCode,
         StandsFor, WithinHalf, Floor, Hidden, Bias;
    Exponents(fmt, m, e);
    var s, biased := Skip(m), BiasedExponent(fmt, m, e);
    NormalRange(m, s, fmt);
    var q := s + 1 + fmt.FractionBits();
    var place := biased - Bias(fmt) - fmt.FractionBits();
    FirstUnits(m, e, q, TwoPow(place));
    RoundedUnits(m, e, q, TwoPow(place));
    NormalDecode(fmt, m, s, biased, Rounded(m, q), place, Rounded(m, q) == First(m, q));
    RoundsToUnits(fmt, NormalCode(fmt, m, s, biased), Rounded(m, q), First(m, q), TwoPow(place), Value(Num(m, e)));
  }

  lemma NormalDecode(fmt: Format, m: seq<Littlenum>, s: nat, biased: nat, r: nat, place: int, exact: bool)
    requires Supported(fmt) && biased >= 1 && Hidden(fmt) <= r <= 2 * Hidden(fmt)
    requires r == Rounded(m, s + 1 + fmt.FractionBits()) && (r == Hidden(fmt) ==> exact)
    requires place == biased - Bias(fmt) - fmt.FractionBits()
    ensures var code := NormalCode(fmt, m, s, biased);
      code >= 0 && StandsFor(fmt, code, r, TwoPow(place), exact)
  {
    hide TwoPow, Rounded, Decode, LastPlace;
    NormalAt(fmt, biased, r, place);
    if r > Hidden(fmt) {
      NormalBelow(fmt, biased, r, place);
    }
  }

  lemma NormalAt(fmt: Format, biased: nat, r: nat, place: int)
    requires Supported(fmt) && biased >= 1 && Hidden(fmt) <= r <= 2 * Hidden(fmt)
    requires place == biased - Bias(fmt) - fmt.FractionBits()
    ensures var code := (biased - 1) * Hidden(fmt) + r;
      Decode(fmt, code) == (r as real) * TwoPow(place) && TwoPow(LastPlace(fmt, code)) >= TwoPow(place)
  {
    hide TwoPow;
    var h := Hidden(fmt);
    TwoPowNext(place);
    if r < 2 * h {
      Divided(h, biased, r - h);
    } else {
      Divided(h, biased + 1, 0);
      Twice(h, TwoPow(place));
    }
  }

  lemma NormalBelow(fmt: Format, biased: nat, r: nat, place: int)
    requires Supported(fmt) && biased >= 1 && Hidden(fmt) < r <= 2 * Hidden(fmt)
    requires place == biased - Bias(fmt) - fmt.FractionBits()
    ensures LastPlace(fmt, (biased - 1) * Hidden(fmt) + r - 1) == place
  {
    Divided(Hidden(fmt), biased, r - 1 - Hidden(fmt));
  }

  /** Below it, while there is room for bits. */
  lemma DenormalRounds(fmt: Format, m: seq<Littlenum>, e: int)
    requires Supported(fmt) && Val(m) > 0
    requires -fmt.FractionBits() <= BiasedExponent(fmt, m, e) <= 0
    ensures RoundsTo(fmt, Rounded(m, Skip(m) + fmt.FractionBits() + BiasedExponent(fmt, m, e)), Value(Num(m, e)))
  {
    hide First, Pow2, TwoPow, Value, Val, Rounded, RoundsTo, Skip, BiasedExponent, NormalCode,
         StandsFor, WithinHalf, Floor, Hidden, Bias;
    Exponents(fmt, m, e);
    var s, biased := Skip(m), BiasedExponent(fmt, m, e);
    var k, place := fmt.FractionBits() + biased, 1 - Bias(fmt) - fmt.FractionBits();
    RoundedSmall(fmt, m, s, k);
    FirstUnits(m, e, s + k, TwoPow(place));
    RoundedUnits(m, e, s + k, TwoPow(place));
    DenormalDecode(fmt, Rounded(m, s + k), place);
    RoundsToUnits(fmt, Rounded(m, s + k), Rounded(m, s + k), First(m, s + k), TwoPow(place), Value(Num(m, e)));
  }

  lemma DenormalDecode(fmt: Format, r: nat, place: int)
    requires Supported(fmt) && r <= Hidden(fmt) && place == 1 - Bias(fmt) - fmt.FractionBits()
    ensures forall b :: StandsFor(fmt, r, r, TwoPow(place), b)
    ensures Decode(fmt, r) == (r as real) * TwoPow(place)
  {
    hide TwoPow;
    if r < Hidden(fmt) {
      Divided(Hidden(fmt), 0, r);
    } else {
      Divided(Hidden(fmt), 1, 0);
    }
    if r > 0 {
      Divided(Hidden(fmt), 0, r - 1);
    }
  }

  /** Below half the smallest number. */
  lemma ZeroRounds(fmt: Format, m: seq<Littlenum>, e: int)
    requires Supported(fmt) && Val(m) > 0 && BiasedExponent(fmt, m, e) < -fmt.FractionBits()
    ensures RoundsTo(fmt, 0, Value(Num(m, e)))
  {
    hide First, Pow2, TwoPow, Value, Val, Decode, Skip, BiasedExponent, StandsFor, Floor, Hidden, Bias, RoundsTo;
    Exponents(fmt, m, e);
    var top, place := 16 * (|m| + e) - Skip(m), 1 - Bias(fmt) - fmt.FractionBits();
    FirstUnits(m, e, Skip(m), TwoPow(top));
    TwoPowMonotone(top, place - 1);
    TwoPowNext(place - 1);
    SmallestCodes(fmt, place);
    ZeroHolds(fmt, TwoPow(top), TwoPow(place), Value(Num(m, e)));
  }

  lemma SmallestCodes(fmt: Format, place: int)
    requires Supported(fmt) && place == 1 - Bias(fmt) - fmt.FractionBits()
    ensures Decode(fmt, 0) == 0.0 && Decode(fmt, 1) == TwoPow(place)
  {
    hide TwoPow;
    DenormalDecode(fmt, 0, place);
    DenormalDecode(fmt, 1, place);
  }

  lemma ZeroHolds(fmt: Format, top: real, unit: real, x: real)
    requires Supported(fmt) && Decode(fmt, 0) == 0.0 && Decode(fmt, 1) == unit
    requires 2.0 * top <= unit && Floor(0, top, x)
    ensures RoundsTo(fmt, 0, x)
  {
    hide Decode;
  }

  /** From twice the largest power of two on. */
  lemma InfinityRounds(fmt: Format, m: seq<Littlenum>, e: int)
    requires Supported(fmt) && Val(m) > 0 && BiasedExponent(fmt, m, e) >= Pow2(fmt.exponentBits)
    ensures Correct(fmt, Infinity(fmt), Value(Num(m, e)))
  {
    hide First, Pow2, TwoPow, Value, Val, Decode, Skip, BiasedExponent, Floor, Bias, Correct;
    Exponents(fmt, m, e);
    var top, place := 16 * (|m| + e) - (Skip(m) + 1), Pow2(fmt.exponentBits) - 1 - Bias(fmt);
    FirstUnits(m, e, Skip(m) + 1, TwoPow(top));
    TwoPowMonotone(place, top);
    InfinityDecode(fmt, place);
    DecodeMonotone(fmt, Infinity(fmt) - 1, Infinity(fmt));
    InfinityHolds(fmt, TwoPow(top), Value(Num(m, e)));
  }

  lemma InfinityDecode(fmt: Format, place: int)
    requires Supported(fmt) && place == Pow2(fmt.exponentBits) - 1 - Bias(fmt)
    ensures Decode(fmt, Infinity(fmt)) == TwoPow(place)
  {
    Constants();
    hide TwoPow, Pow2;
    Divided(Hidden(fmt), Pow2(fmt.exponentBits) - 1, 0);
    var last := LastPlace(fmt, Infinity(fmt));
    TwoPowAdd(last, fmt.FractionBits());
    Swapped(Hidden(fmt) as real, TwoPow(last));
  }

  lemma InfinityHolds(fmt: Format, top: real, x: real)
    requires Supported(fmt) && Decode(fmt, Infinity(fmt) - 1) <= Decode(fmt, Infinity(fmt)) <= top
    requires Floor(1, top, x)
    ensures Correct(fmt, Infinity(fmt), x)
  {
    hide Decode;
  }

  lemma Swapped(x: real, y: real)
    ensures x * y == y * x
  {
  }

  // ---------------------------------------------------------------------
  // The program against the encoding
  // ---------------------------------------------------------------------

  /** The encoding that the standard asks for. */
  function IeeeCode(fmt: Format, m: seq<Littlenum>, e: int): int
    requires Supported(fmt) && Val(m) > 0
  {
    var s, biased := Skip(m), BiasedExponent(fmt, m, e);
    var k := fmt.FractionBits() + biased;
    if biased >= Pow2(fmt.exponentBits) then Infinity(fmt)
    else if biased >= 1 then
      var code := NormalCode(fmt, m, s, biased);
      if code <= Infinity(fmt) then code else Infinity(fmt)
    else if k >= 0 then Rounded(m, s + k)
    else 0
  }

  lemma IeeeCodeCorrect(fmt: Format, m: seq<Littlenum>, e: int)
    requires Supported(fmt) && Val(m) > 0
    ensures Correct(fmt, IeeeCode(fmt, m, e), Value(Num(m, e)))
  {
    hide RoundsTo, Correct, NormalCode, Rounded, First, Value, Val, BiasedExponent, Pow2, Skip;
    var biased := BiasedExponent(fmt, m, e);
    var k := fmt.FractionBits() + biased;
    if biased >= Pow2(fmt.exponentBits) {
      InfinityRounds(fmt, m, e);
    } else if biased >= 1 {
      NormalRounds(fmt, m, e);
      CutAtInfinity(fmt, NormalCode(fmt, m, Skip(m), biased), Value(Num(m, e)));
    } else if k >= 0 {
      DenormalRounds(fmt, m, e);
      RoundedSmall(fmt, m, Skip(m), k);
      CutAtInfinity(fmt, Rounded(m, Skip(m) + k), Value(Num(m, e)));
    } else {
      ZeroRounds(fmt, m, e);
      CutAtInfinity(fmt, 0, Value(Num(m, e)));
    }
  }

  lemma RoundedSmall(fmt: Format, m: seq<Littlenum>, s: nat, k: nat)
    requires Supported(fmt) && k <= fmt.FractionBits() && First(m, s) == 0
    ensures Rounded(m, s + k) <= Hidden(fmt) < Infinity(fmt)
  {
    RoundedBelow(m, s, k, fmt);
    Constants();
    hide First, Pow2, Rounded;
  }

  /** The numbers that the program gets wrong: those whose exponent bits are all ones and whose
      fraction is not zero, which become NaN or zero; those far below the smallest number, which
      become infinity; and those whose last 16 bits round up to 2^16, which become zero. */
  predicate Misencoded(fmt: Format, m: seq<Littlenum>, e: int)
    requires Supported(fmt) && Val(m) > 0
  {
    var s, biased := Skip(m), BiasedExponent(fmt, m, e);
    || (biased == Pow2(fmt.exponentBits) - 1 && Rounded(m, s + 1 + fmt.FractionBits()) != Hidden(fmt))
    || biased <= 2 * fmt.exponentBits - 16 * fmt.precision - 14
    || (biased == 16 - fmt.FractionBits() && Rounded(m, s + 16) == 0x10000)
  }

  lemma CodeIsIeee(fmt: Format, m: seq<Littlenum>, e: int)
    requires Supported(fmt) && Val(m) > 0
    ensures Code(fmt, m, e) == IeeeCode(fmt, m, e) <==> !Misencoded(fmt, m, e)
  {
    hide First, Rounded, Val, Skip, BiasedExponent, Pow2;
    var s, biased := Skip(m), BiasedExponent(fmt, m, e);
    var k := fmt.FractionBits() + biased;
    Exponents(fmt, m, e);
    NormalRange(m, s, fmt);
    if 0 <= k <= fmt.FractionBits() {
      RoundedSmall(fmt, m, s, k);
      if k <= 16 {
        RoundedSixteen(m, s, k);
      }
    }
  }

  lemma RoundedSixteen(m: seq<Littlenum>, s: nat, k: nat)
    requires First(m, s) == 0 && k <= 16
    ensures Rounded(m, s + k) <= 0x10000 && (k < 16 ==> Rounded(m, s + k) < 0x10000)
  {
    BitsBelow(k, 16);
    FirstBelow(m, s, k + 1);
    assert Pow2(k + 1) == 2 * Pow2(k);
    hide First, Pow2;
  }

  lemma FirstBelow(m: seq<Littlenum>, s: nat, k: nat)
    requires First(m, s) == 0
    ensures First(m, s + k) < Pow2(k)
  {
    hide First, Pow2;
    FirstAhead(m, s, k);
  }

  /** The program encodes a number as the standard asks exactly when it is none of those. */
  lemma EncodedCorrectly(fmt: Format, m: seq<Littlenum>, e: int)
    requires Supported(fmt) && Val(m) > 0
    ensures Correct(fmt, Code(fmt, m, e), Value(Num(m, e))) <==> !Misencoded(fmt, m, e)
  {
    hide Correct, Code, IeeeCode, Misencoded, Value, Val;
    IeeeCodeCorrect(fmt, m, e);
    CodeIsIeee(fmt, m, e);
    if Correct(fmt, Code(fmt, m, e), Value(Num(m, e))) {
      CorrectUnique(fmt, Code(fmt, m, e), IeeeCode(fmt, m, e), Value(Num(m, e)));
    }
  }

  /** The bit put back is the only one of a number that is not far too small, and the littlenum above
      it has another bit there. */
  predicate Misplaced(fmt: Format, m: seq<Littlenum>, e: int, above: Littlenum)
    requires Supported(fmt) && Val(m) > 0
  {
    Exhausted(fmt, m, e) && BiasedExponent(fmt, m, e) >= -fmt.FractionBits() && above % 2 == 0
  }

  /** The first bits of the number 1, however many zeros stand in front of it. */
  lemma OneFirst(m: seq<Littlenum>, j: nat)
    requires Val(m) == 1
    ensures First(m, 16 * |m| + j) == Pow2(j)
  {
    FirstPast(m, j);
    hide First, Pow2;
  }

  lemma ZeroFirst(j: nat)
    ensures First([0], 16 + j) == 0
  {
    assert Val([0]) == 0;
    FirstPast([0], j);
    hide First;
  }

  /** Reading the bit above instead of the last bit of the number 1. */
  lemma AboveRounded(m: seq<Littlenum>, s: nat, k: nat, above: Littlenum)
    requires Val(m) == 1 && s + 1 == 16 * |m|
    ensures Rounded([above % 2], 15 + k) == if above % 2 == 1 then Rounded(m, s + k) else 0
    ensures Rounded(m, s + k) > 0
  {
    hide *;
    OneRounded(m, s, k);
    if above % 2 == 1 {
      OneDigit(1);
      OneRounded([1], 15, k);
    } else {
      ZeroFirst(k);
      RoundedFrom([0], 15 + k, 0);
    }
  }

  lemma OneRounded(m: seq<Littlenum>, s: nat, k: nat)
    requires Val(m) == 1 && s + 1 == 16 * |m|
    ensures Rounded(m, s + k) == (Pow2(k) + 1) / 2 > 0
  {
    hide *;
    OneFirst(m, k);
    RoundedFrom(m, s + k, Pow2(k));
  }

  lemma RoundedFrom(m: seq<Littlenum>, q: nat, f: nat)
    requires First(m, q + 1) == f
    ensures Rounded(m, q) == (f + 1) / 2 && (f > 0 ==> Rounded(m, q) > 0)
  {
  }

  lemma CodeAboveIs(fmt: Format, m: seq<Littlenum>, e: int, above: Littlenum)
    requires Supported(fmt) && Val(m) > 0
    ensures !Misplaced(fmt, m, e, above) ==> CodeAbove(fmt, m, e, above) == Code(fmt, m, e)
    ensures Misplaced(fmt, m, e, above) ==> CodeAbove(fmt, m, e, above) == 0 && IeeeCode(fmt, m, e) > 0
  {
    hide Val, First, Rounded, BiasedExponent;
    if Exhausted(fmt, m, e) {
      var k := fmt.FractionBits() + BiasedExponent(fmt, m, e);
      ExhaustedIff(m, Skip(m));
      if k >= 0 {
        AboveRounded(m, Skip(m), k, above);
      }
    }
  }

  /** Whatever stands above the lowest littlenum, the words are correct exactly for all other numbers. */
  lemma EncodedWithAbove(fmt: Format, m: seq<Littlenum>, e: int, above: Littlenum)
    requires Supported(fmt) && Val(m) > 0
    ensures Correct(fmt, CodeAbove(fmt, m, e, above), Value(Num(m, e)))
            <==> !Misencoded(fmt, m, e) && !Misplaced(fmt, m, e, above)
  {
    hide Correct, Code, CodeAbove, IeeeCode, Misencoded, Misplaced, Value, Val;
    CodeAboveIs(fmt, m, e, above);
    EncodedCorrectly(fmt, m, e);
    IeeeCodeCorrect(fmt, m, e);
    if Misplaced(fmt, m, e, above) && Correct(fmt, 0, Value(Num(m, e))) {
      CorrectUnique(fmt, 0, IeeeCode(fmt, m, e), Value(Num(m, e)));
    }
  }

  /** What a code of exponent and fraction stands for. */
  lemma CodeParts(fmt: Format, code: nat, e: nat, fraction: nat)
    requires Supported(fmt) && code / Hidden(fmt) == e && code % Hidden(fmt) == fraction
    ensures Decode(fmt, code) ==
      ((if e == 0 then fraction else Hidden(fmt) + fraction) as real)
      * TwoPow((if e == 0 then 1 else e) - Bias(fmt) - fmt.FractionBits())
  {
    hide TwoPow;
  }

  lemma UnitsInOne()
    ensures TwoPow(-23) * 8388608.0 == 1.0 && TwoPow(-22) == 2.0 * TwoPow(-23)
    ensures TwoPow(-52) * 4503599627370496.0 == 1.0
  {
    Constants();
    TwoPowZero();
    TwoPowAdd(-23, 23);
    TwoPowAdd(-52, 52);
    TwoPowNext(-23);
    hide TwoPow, Pow2;
  }

  /** Numbers and their codes, by section 3.4 of the standard: one, one and a half, three and the smallest
      number of all, and what infinities and signs look like. */
  lemma SingleCodes()
    ensures var single := Format(2, 8);
      && Decode(single, 0x3f80_0000) == 1.0 && Decode(single, 0x3fc0_0000) == 1.5 && Decode(single, 0x4040_0000) == 3.0
      && Decode(single, 1) == TwoPow(-149) && Infinity(single) == 0x7f80_0000 && SignBit(single) == 0x8000_0000
  {
    UnitsInOne();
    hide TwoPow, Decode;
    CodeParts(Format(2, 8), 0x3f80_0000, 127, 0);
    CodeParts(Format(2, 8), 0x3fc0_0000, 127, 0x40_0000);
    CodeParts(Format(2, 8), 0x4040_0000, 128, 0x40_0000);
    CodeParts(Format(2, 8), 1, 0, 1);
  }

  lemma DoubleCodes()
    ensures var double := Format(4, 11);
      && Decode(double, 0x3ff0_0000_0000_0000) == 1.0 && Decode(double, 0x3ff8_0000_0000_0000) == 1.5
      && Decode(double, 1) == TwoPow(-1074) && Infinity(double) == 0x7ff0_0000_0000_0000
      && SignBit(double) == 0x8000_0000_0000_0000
  {
    UnitsInOne();
    hide TwoPow, Decode;
    CodeParts(Format(4, 11), 0x3ff0_0000_0000_0000, 1023, 0);
    CodeParts(Format(4, 11), 0x3ff8_0000_0000_0000, 1023, 0x8_0000_0000_0000);
    CodeParts(Format(4, 11), 1, 0, 1);
  }
}
