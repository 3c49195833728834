/** The IEEE words of a flonum: the program's branches, and the number they amount to. */
module AtofIeee {
  import opened Littlenums
  import opened PowerOfTen
  import opened AtofGeneric
  import opened BitReaders
  import opened Flonums
  import opened IeeeWords

  /** The zero bits in front of the first one bit, from bit q on. */
  function SkipFrom(m: seq<Littlenum>, q: nat): (s: nat)
    requires Val(m) > 0 && First(m, q) == 0
    ensures First(m, s) == 0 && First(m, s + 1) == 1
    decreases 16 * |m| - q
  {
    FirstBits(m, q);
    FirstEnd(m, q);
    if First(m, q + 1) != 0 then q else SkipFrom(m, q + 1)
  }

  lemma FirstEnd(m: seq<Littlenum>, q: nat)
    requires Val(m) > 0 && First(m, q) == 0
    ensures q < 16 * |m| && Bit(m, q) < 2
  {
    if q >= 16 * |m| {
      PastPositive(m, q);
    }
    OneBit();
  }

  lemma PastPositive(m: seq<Littlenum>, q: nat)
    requires Val(m) > 0 && q >= 16 * |m|
    ensures First(m, q) > 0
  {
    hide First, Pow2, Val;
    FirstPast(m, q - 16 * |m|);
    PositiveProduct(Val(m), Pow2(q - 16 * |m|));
  }

  lemma PositiveProduct(x: int, y: int)
    requires x > 0 && y > 0
    ensures x * y > 0
  {
  }

  lemma FirstStart(m: seq<Littlenum>)
    ensures First(m, 0) == 0
  {
    FirstBits(m, 0);
  }

  function Skip(m: seq<Littlenum>): (s: nat)
    requires Val(m) > 0
    ensures First(m, s) == 0 && First(m, s + 1) == 1
  {
    FirstStart(m);
    SkipFrom(m, 0)
  }

  /** The biased exponent of mantissa * RADIX^e. */
  function BiasedExponent(fmt: Format, m: seq<Littlenum>, e: int): int
    requires Val(m) > 0 && fmt.exponentBits > 0
  {
    16 * (e + |m|) - Skip(m) + (Pow2(fmt.exponentBits - 1) - 2)
  }

  /** The first q bits, rounded by the bit behind them. */
  function Rounded(m: seq<Littlenum>, q: nat): nat {
    (First(m, q + 1) + 1) / 2
  }

  lemma RoundedByBit(m: seq<Littlenum>, q: nat, bit: nat)
    requires Reads(m, q, 1, bit)
    ensures Rounded(m, q) == First(m, q) + bit && bit < 2
  {
    OneBit();
    hide First;
  }

  /** Infinity, without a sign. */
  function Infinity(fmt: Format): nat
    requires Supported(fmt)
  {
    if fmt.precision == 2 then 0x7f80_0000 else 0x7ff0_0000_0000_0000
  }

  /** One more than the largest number without a sign. */
  function SignBit(fmt: Format): nat
    requires Supported(fmt)
  {
    if fmt.precision == 2 then 0x8000_0000 else 0x8000_0000_0000_0000
  }

  /** What the branch for exponents in range makes of a number whose exponent is `biased` and whose
      first one bit is bit s. */
  function NormalCode(fmt: Format, m: seq<Littlenum>, s: nat, biased: int): int
    requires Supported(fmt)
  {
    (biased - 1) * (if fmt.precision == 2 then 0x80_0000 else 0x10_0000_0000_0000)
      + Rounded(m, s + 1 + fmt.FractionBits())
  }

  /** What the branch for small exponents makes of it.  Two cases go wrong: a number far below the
      smallest one becomes infinity, and the carry out of 16 rounded bits is lost. */
  function DenormalCode(fmt: Format, m: seq<Littlenum>, s: nat, biased: int): nat
    requires Supported(fmt)
  {
    var k := fmt.FractionBits() + biased;
    if 1 + fmt.exponentBits + (-biased - (15 - fmt.exponentBits)) >= 16 * fmt.precision then Infinity(fmt)
    else if k < 0 then 0
    else if k <= 16 then Rounded(m, s + k) % 0x10000
    else Rounded(m, s + k)
  }

  lemma Constants()
    ensures Pow2(4) == 16 && Pow2(7) == 128 && Pow2(8) == 256 && Pow2(10) == 1024 && Pow2(11) == 2048
    ensures Pow2(16) == 0x1_0000 && Pow2(23) == 0x80_0000 && Pow2(24) == 0x100_0000
    ensures Pow2(48) == 0x1_0000_0000_0000 && Pow2(52) == 0x10_0000_0000_0000 && Pow2(53) == 0x20_0000_0000_0000
    ensures Pow(2) == 0x1_0000_0000 && Pow(4) == 0x1_0000_0000_0000_0000
  {
    Sixteen();
    assert Pow2(4) == 16 && Pow2(7) == 128 && Pow2(8) == 256 && Pow2(10) == 1024 && Pow2(11) == 2048;
    Pow2Add(16, 7);
    Pow2Add(16, 8);
    Pow2Add(16, 16);
    Pow2Add(16, 32);
    Pow2Add(4, 48);
    assert Pow2(53) == 2 * Pow2(52);
  }

  /** The words for zero, infinities and NaN. */
  method FillRest(words: array<Littlenum>, precision: nat, first: Littlenum, rest: Littlenum)
    requires (precision == 2 || precision == 4) && words.Length >= precision
    modifies words
    ensures words[0] == first && forall i :: 1 <= i < precision ==> words[i] == rest
  {
    words[0], words[1] := first, rest;
    if precision == 4 {
      words[2], words[3] := rest, rest;
    }
  }

  lemma BigWords(ws: seq<Littlenum>)
    ensures |ws| == 2 ==> Big(ws) == 0x1_0000 * (ws[0] as int) + ws[1]
    ensures |ws| == 4 ==> Big(ws) == 0x1_0000_0000_0000 * (ws[0] as int) + 0x1_0000_0000 * (ws[1] as int)
                                     + 0x1_0000 * (ws[2] as int) + ws[3]
  {
    if |ws| == 2 {
      assert ws == [] + [ws[0]] + [ws[1]];
      BigAppend([], ws[0]);
      BigAppend([] + [ws[0]], ws[1]);
    }
    if |ws| == 4 {
      assert ws == [] + [ws[0]] + [ws[1]] + [ws[2]] + [ws[3]];
      BigAppend([], ws[0]);
      BigAppend([] + [ws[0]], ws[1]);
      BigAppend([] + [ws[0]] + [ws[1]], ws[2]);
      BigAppend([] + [ws[0]] + [ws[1]] + [ws[2]], ws[3]);
    }
  }

  /** Takes the first one bit from the reader. */
  method SkipZeros(reader: BitReader) returns (skipped: nat)
    requires reader.Valid() && reader.position == 0 && Val(reader.mantissa) > 0
    modifies reader`pointer, reader`littlenumsLeft, reader`bitsLeft, reader`position
    ensures reader.Valid() && skipped == Skip(reader.mantissa) && reader.position == skipped + 1
  {
    ghost var m := reader.mantissa;
    FirstStart(m);
    hide First, Reads, Val;
    skipped := 0;
    var bit := reader.NextBits(1);
    SkipStep(m, 0, bit);
    while bit == 0
      invariant reader.Valid() && reader.position == skipped + 1 && First(m, skipped) == 0
      invariant First(m, skipped + 1) == bit && SkipFrom(m, skipped) == Skip(m)
      invariant skipped < 16 * |m|
      decreases 16 * |m| - skipped
    {
      FirstEnd(m, skipped + 1);
      bit := reader.NextBits(1);
      skipped := skipped + 1;
      SkipStep(m, skipped, bit);
    }
  }

  lemma SkipStep(m: seq<Littlenum>, q: nat, bit: nat)
    requires Val(m) > 0 && First(m, q) == 0 && Reads(m, q, 1, bit)
    ensures First(m, q + 1) == bit && (bit != 0 ==> SkipFrom(m, q) == q) && q < 16 * |m|
    ensures bit == 0 ==> SkipFrom(m, q) == SkipFrom(m, q + 1)
  {
    FirstEnd(m, q);
    hide First, Pow2;
  }

  /** The sign in the first word. */
  function SignWord(sign: char): nat {
    if sign == '+' then 0 else 0x8000
  }

  /** The sign in all the words. */
  function SignValue(fmt: Format, sign: char): nat
    requires Supported(fmt)
  {
    if sign == '+' then 0 else SignBit(fmt)
  }

  /** A number whose biased exponent is in range. */
  method StoreNormal(reader: BitReader, words: array<Littlenum>, fmt: Format, sign: char, biased: nat, ghost s: nat)
    requires Supported(fmt) && reader.Valid() && words.Length >= fmt.precision && words != reader.digits
    requires reader.position == s + 1 && First(reader.mantissa, s + 1) == 1
    requires 1 <= biased < Pow2(fmt.exponentBits)
    modifies reader`pointer, reader`littlenumsLeft, reader`bitsLeft, reader`position, words
    ensures var code := NormalCode(fmt, reader.mantissa, s, biased);
      && code <= SignBit(fmt)
      && Big(words[..fmt.precision]) == if code == SignBit(fmt) then 0 else SignValue(fmt, sign) + code
  {
    hide Stored, Reads, Big, First, ShiftLeft, Rounded, NormalCode, SignBit, SignValue, Pow, Pow2, SignWord;
    ghost var m, q, f := reader.mantissa, s + 1, fmt.FractionBits();
    var p, bits := fmt.precision, 15 - fmt.exponentBits;
    ghost var high := SignWord(sign) + biased * Pow2(bits);
    var x := reader.NextBits(bits);
    HighWord(fmt, sign, biased, m, q, bits, x);
    var word1 := SignWord(sign) + biased * Pow2(bits) + x;
    words[0] := word1;
    StoredFirst(high, x, m, q, bits);
    assert words[..1] == [high + x];
    FillWords(reader, words, 1, p, high, q, bits);
    ghost var ws := words[..p];
    StoredNormal(fmt, sign, biased, ws, m, s);
    var bit := reader.NextBits(1);
    RoundedByBit(m, q + f, bit);
    if bit != 0 {
      RoundUp(words, p);
      ClearFlippedSign(words, fmt, word1 >= 0x8000);
    }
    CarriedOut(fmt, sign, biased, m, s, Big(ws));
  }

  /** The first word, and the number that the words behind it hold. */
  lemma FirstWord(fmt: Format, ws: seq<Littlenum>)
    requires Supported(fmt) && |ws| == fmt.precision
    ensures var p, low := SignBit(fmt) / 0x8000, Big(ws) - SignBit(fmt) / 0x8000 * ws[0];
      0 <= low < p && forall x: Littlenum :: Big(ws[0 := x]) == p * x + low
  {
    BigWords(ws);
    forall x: Littlenum ensures Big(ws[0 := x]) == SignBit(fmt) / 0x8000 * x + (Big(ws) - SignBit(fmt) / 0x8000 * ws[0]) {
      BigWords(ws[0 := x]);
    }
  }

  lemma TopBit(p: nat, x: nat, low: nat, b: nat)
    requires p == 0x1_0000 || p == 0x1_0000_0000_0000
    requires b == p * x + low && low < p && x < 0x10000
    ensures b >= 0x8000 * p <==> x >= 0x8000
    ensures b % (0x8000 * p) == p * (x % 0x8000) + low
  {
    assert x % 0x8000 == if x >= 0x8000 then x - 0x8000 else x;
  }

  /** If the sign bit is not the one wanted, the program clears it. */
  method ClearFlippedSign(words: array<Littlenum>, fmt: Format, negative: bool)
    requires Supported(fmt) && words.Length >= fmt.precision
    modifies words
    ensures var b := Big(old(words[..fmt.precision]));
      Big(words[..fmt.precision]) == if negative == (b >= SignBit(fmt)) then b else b % SignBit(fmt)
  {
    hide Big;
    ghost var ws, p := words[..fmt.precision], SignBit(fmt) / 0x8000;
    FirstWord(fmt, ws);
    TopBit(p, ws[0], Big(ws) - p * ws[0], Big(ws));
    if negative != (words[0] >= 0x8000) {
      words[0] := words[0] % 0x8000;
      assert words[..fmt.precision] == ws[0 := ws[0] % 0x8000];
    }
  }

  /** The carry stays below the sign, except when all exponent bits and all rounded bits are ones;
      then it leaves nothing but zeros. */
  lemma CarriedOut(fmt: Format, sign: char, biased: nat, m: seq<Littlenum>, s: nat, b: nat)
    requires Supported(fmt) && 1 <= biased < Pow2(fmt.exponentBits)
    requires var t, one := First(m, s + 1 + fmt.FractionBits()),
                          if fmt.precision == 2 then 0x80_0000 else 0x10_0000_0000_0000;
      b == SignValue(fmt, sign) + (biased - 1) * one + t && one <= t < 2 * one
    ensures var code := NormalCode(fmt, m, s, biased);
      var bit := Rounded(m, s + 1 + fmt.FractionBits()) - First(m, s + 1 + fmt.FractionBits());
      && b == SignValue(fmt, sign) + code - bit
      && (bit == 0 ==> code < SignBit(fmt))
      && (bit == 1 ==>
            && code <= SignBit(fmt)
            && var b' := if b + 1 == Pow(fmt.precision) then 0 else b + 1;
               (if (sign != '+') == (b' >= SignBit(fmt)) then b' else b' % SignBit(fmt))
               == if code == SignBit(fmt) then 0 else SignValue(fmt, sign) + code)
  {
    Constants();
    hide First, Pow2, Rounded;
  }

  lemma HighWord(fmt: Format, sign: char, biased: nat, m: seq<Littlenum>, q: nat, bits: nat, x: nat)
    requires Supported(fmt) && biased < Pow2(fmt.exponentBits) && bits == 15 - fmt.exponentBits
    requires Reads(m, q, bits, x)
    ensures SignWord(sign) + biased * Pow2(bits) + x < 0x10000
    ensures SignWord(sign) + biased * Pow2(bits) + x >= 0x8000 <==> sign != '+'
  {
    hide First, Pow2;
    Constants();
  }

  /** Before rounding, the words hold the sign, the exponent and the fraction. */
  lemma StoredNormal(fmt: Format, sign: char, biased: nat, ws: seq<Littlenum>, m: seq<Littlenum>, s: nat)
    requires Supported(fmt) && |ws| == fmt.precision && 1 <= biased < Pow2(fmt.exponentBits)
    requires First(m, s + 1) == 1
    requires Stored(ws, SignWord(sign) + biased * Pow2(15 - fmt.exponentBits), m, s + 1, fmt.FractionBits())
    ensures var t, one := First(m, s + 1 + fmt.FractionBits()),
                          if fmt.precision == 2 then 0x80_0000 else 0x10_0000_0000_0000;
      && Big(ws) == SignValue(fmt, sign) + (biased - 1) * one + t
      && one <= t < 2 * one
  {
    Constants();
    hide First, Pow2, Big;
  }

  // ---------------------------------------------------------------------
  // Numbers below the range of exponents
  // ---------------------------------------------------------------------

  /** The sign, then words of zeros while whole words of them are needed. */
  method ZeroWords(words: array<Littlenum>, fmt: Format, high: Littlenum, numBits: nat,
                   ghost m: seq<Littlenum>, ghost q: nat)
    returns (lp: nat, left: nat)
    requires Supported(fmt) && words.Length > fmt.precision && numBits < 16 * fmt.precision - 1 - fmt.exponentBits
    modifies words
    ensures 1 <= lp <= fmt.precision && left < 16 && numBits == 16 * (lp - 1) + left
    ensures Stored(words[..lp], high, m, q, 0)
  {
    hide Stored, First;
    words[0] := high;
    lp, left := 1, numBits;
    NoBitsRead(m, q);
    StoredFirst(high, 0, m, q, 0);
    assert words[..1] == [high + 0];
    while left >= 16
      invariant 1 <= lp <= fmt.precision && numBits == 16 * (lp - 1) + left
      invariant Stored(words[..lp], high, m, q, 0)
    {
      ghost var before := words[..lp];
      StoredPart(before, high, m, q, 0, 0);
      left := left - 16;
      words[lp] := 0;
      lp := lp + 1;
      assert words[..lp] == before + [0];
    }
  }

  lemma NoBitsRead(m: seq<Littlenum>, q: nat)
    ensures Reads(m, q, 0, 0)
  {
    OneBit();
    hide First;
  }

  /** The words before rounding: the sign and as many bits as there is room for. */
  method DenormalWords(reader: BitReader, words: array<Littlenum>, fmt: Format, sign: char, biased: int, ghost q: nat)
    returns (lp: nat)
    requires Supported(fmt) && reader.Valid() && words.Length > fmt.precision && words != reader.digits
    requires reader.position == q && -62 <= biased <= 0
    requires !(1 + fmt.exponentBits + (-biased - (15 - fmt.exponentBits)) >= 16 * fmt.precision)
    modifies reader`pointer, reader`littlenumsLeft, reader`bitsLeft, reader`position, words
    ensures reader.Valid()
    ensures var k, p := fmt.FractionBits() + biased, fmt.precision;
      if k >= 0 then lp == p && reader.position == q + k && Stored(words[..p], SignWord(sign), reader.mantissa, q, k)
      else lp == p + 1 && Stored(words[..p], SignWord(sign), reader.mantissa, q, 0)
  {
    hide Stored, Reads, First, Pow2;
    ghost var m, high := reader.mantissa, SignWord(sign);
    var p, eb, numBits := fmt.precision, fmt.exponentBits, -biased;
    ghost var k := 0;
    if numBits >= 16 - eb {
      numBits := numBits - (15 - eb);
      lp, numBits := ZeroWords(words, fmt, SignWord(sign), numBits, m, q);
      if numBits != 0 {
        ghost var before := words[..lp];
        k := 16 - numBits;
        var x := reader.NextBits(16 - numBits);
        ReadsBelow(m, q, k, x);
        assert words[..lp] == before;
        StoredPart(before, high, m, q, k, x);
        words[lp] := x;
        assert words[..lp + 1] == before + [x];
        assert lp == p ==> words[..p] == before;
        lp := lp + 1;
      }
    } else {
      k := 15 - (eb + numBits);
      var x := reader.NextBits(15 - (eb + numBits));
      ReadsBelow(m, q, k, x);
      Halved(k, x);
      words[0] := SignWord(sign) + x;
      StoredFirst(high, x, m, q, k);
      assert words[..1] == [high + x];
      lp := 1;
    }
    if lp < p {
      FillWords(reader, words, lp, p, high, q, k);
      lp := p;
    }
  }

  lemma Halved(k: nat, x: nat)
    requires x < Pow2(k) && k <= 15
    ensures x < 0x8000
  {
    Pow2Monotone(k, 15);
    Sixteen();
    assert Pow2(16) == 2 * Pow2(15);
  }

  /** Adds the bit that was read last; with at most 16 bits only to one word, whose carry is lost. */
  method AddBit(words: array<Littlenum>, p: nat, lp: nat, precBits: int)
    requires (p == 2 || p == 4) && words.Length > p && lp == if precBits >= 0 then p - 1 else p
    requires precBits > 16 ==> Big(words[..p]) + 1 < Pow(p)
    modifies words
    ensures Big(words[..p])
         == Big(old(words[..p])) + if precBits < 0 then 0 else if precBits <= 16 && old(words[p - 1]) == 0xffff then -0xffff else 1
  {
    hide Big, Pow;
    BigWords(words[..p]);
    if precBits > 16 {
      RoundUp(words, lp + 1);
    } else {
      words[lp] := ((words[lp] as int) + 1) % 0x10000;
      BigWords(words[..p]);
    }
  }

  /** A number whose exponent is too small for a hidden bit. */
  method StoreDenormal(reader: BitReader, words: array<Littlenum>, fmt: Format, sign: char, biased: int, ghost s: nat)
    requires Supported(fmt) && reader.Valid() && words.Length > fmt.precision && words != reader.digits
    requires reader.position == s && First(reader.mantissa, s) == 0 && -62 <= biased <= 0
    requires sign == '+' || sign == '-'
    modifies reader`pointer, reader`littlenumsLeft, reader`bitsLeft, reader`position, words
    ensures Big(words[..fmt.precision]) == SignValue(fmt, sign) + DenormalCode(fmt, reader.mantissa, s, biased)
  {
    hide Stored, Reads, First, Pow2, ShiftLeft, Rounded, Big, Pow;
    ghost var m := reader.mantissa;
    var p, precBits := fmt.precision, 16 * fmt.precision - (fmt.exponentBits + 1 - biased);
    if -biased >= 16 - fmt.exponentBits && -biased - (15 - fmt.exponentBits) + fmt.exponentBits + 1 >= 16 * p {
      FillRest(words, p, (if p == 2 then 0x7f80 else 0x7ff0) + (if sign == '-' then 0x8000 else 0), 0);
      BigWords(words[..p]);
    } else {
      var lp := DenormalWords(reader, words, fmt, sign, biased, s);
      StoredDenormal(fmt, sign, words[..p], m, s, if precBits < 0 then 0 else precBits);
      ghost var position := reader.position;
      var bit := reader.NextBits(1);
      BigWords(words[..p]);
      if precBits >= 0 {
        RoundedByBit(m, position, bit);
      }
      if bit != 0 {
        AddBit(words, p, lp - 1, precBits);
      }
    }
  }

  /** Before rounding, the words hold the sign and k bits. */
  lemma StoredDenormal(fmt: Format, sign: char, ws: seq<Littlenum>, m: seq<Littlenum>, s: nat, k: nat)
    requires Supported(fmt) && |ws| == fmt.precision && k <= fmt.FractionBits()
    requires First(m, s) == 0 && Stored(ws, SignWord(sign), m, s, k)
    ensures Big(ws) == SignValue(fmt, sign) + First(m, s + k)
    ensures Big(ws) + 1 < Pow(fmt.precision)
    ensures k <= 16 ==> First(m, s + k) < 0x10000 && ws[fmt.precision - 1] == First(m, s + k)
    ensures k < 16 ==> First(m, s + k) < 0x8000
    ensures k == 0 ==> First(m, s + k) == 0
  {
    hide First, Pow2, Big, Pow, Stored;
    BitsBelow(k, fmt.FractionBits());
    StoredSum(fmt, sign, ws, m, s, k);
    SignFits(fmt, sign, First(m, s + k));
    if k <= 16 {
      LastWord(ws, SignValue(fmt, sign), First(m, s + k));
    }
  }

  /** Behind the sign there is room for a fraction and its carry. */
  lemma SignFits(fmt: Format, sign: char, fraction: nat)
    requires Supported(fmt) && fraction < Pow2(fmt.FractionBits())
    ensures SignValue(fmt, sign) + fraction + 1 < Pow(fmt.precision) && SignValue(fmt, sign) % 0x10000 == 0
  {
    Constants();
    hide Pow2, Pow;
  }

  lemma LastWord(ws: seq<Littlenum>, high: nat, low: nat)
    requires (|ws| == 2 || |ws| == 4) && high % 0x10000 == 0 && low < 0x10000 && Big(ws) == high + low
    ensures ws[|ws| - 1] == low
  {
    BigWords(ws);
    hide Big;
    var rest := if |ws| == 2 then ws[0] as int
                else 0x1_0000_0000 * (ws[0] as int) + 0x1_0000 * (ws[1] as int) + ws[2] as int;
    assert Big(ws) == 0x10000 * rest + ws[|ws| - 1] as int;
  }

  lemma StoredSum(fmt: Format, sign: char, ws: seq<Littlenum>, m: seq<Littlenum>, s: nat, k: nat)
    requires Supported(fmt) && |ws| == fmt.precision
    requires First(m, s) == 0 && Stored(ws, SignWord(sign), m, s, k)
    ensures Big(ws) == SignValue(fmt, sign) + First(m, s + k) && First(m, s + k) < Pow2(k)
  {
    Constants();
    hide First, Pow2, Big;
  }

  lemma BitsBelow(k: nat, f: nat)
    requires k <= f
    ensures Pow2(k) <= Pow2(f) && Pow2(0) == 1
    ensures k <= 16 ==> Pow2(k) <= 0x10000
    ensures k < 16 ==> Pow2(k) <= 0x8000
  {
    Sixteen();
    Pow2Monotone(k, f);
    if k < 16 {
      assert Pow2(16) == 2 * Pow2(15);
      hide Pow2;
      Pow2Monotone(k, 15);
    }
  }

  // ---------------------------------------------------------------------
  // All flonums
  // ---------------------------------------------------------------------

  /** What the program makes of a finite number: the words without the sign, except that a carry
      into the sign clears it. */
  function Code(fmt: Format, m: seq<Littlenum>, e: int): int
    requires Supported(fmt) && Val(m) > 0
  {
    var s, biased := Skip(m), BiasedExponent(fmt, m, e);
    if -62 <= biased < 1 then DenormalCode(fmt, m, s, biased)
    else if biased < 0 || biased >= Pow2(fmt.exponentBits) then Infinity(fmt)
    else NormalCode(fmt, m, s, biased)
  }

  /** The first one bit is the last bit, and is to be put back. */
  predicate Exhausted(fmt: Format, m: seq<Littlenum>, e: int)
    requires Supported(fmt) && Val(m) > 0
  {
    Val(m) == 1 && -62 <= BiasedExponent(fmt, m, e) < 1
  }

  /** The same with the littlenum above the lowest one, whose low bit takes the place of a bit that is
      put back when there are no more. */
  function CodeAbove(fmt: Format, m: seq<Littlenum>, e: int, above: Littlenum): int
    requires Supported(fmt) && Val(m) > 0
  {
    if Exhausted(fmt, m, e) then DenormalCode(fmt, [above % 2], 15, BiasedExponent(fmt, m, e)) else Code(fmt, m, e)
  }

  function Encoded(fmt: Format, sign: char, m: seq<Littlenum>, e: int, above: Littlenum): int
    requires Supported(fmt) && Val(m) > 0
  {
    var code := CodeAbove(fmt, m, e, above);
    if code == SignBit(fmt) then 0 else SignValue(fmt, sign) + code
  }

  /** Puts the first one bit back and stores what follows. */
  method StoreSmall(reader: BitReader, words: array<Littlenum>, fmt: Format, sign: char, biased: int, ghost e: int)
    requires Supported(fmt) && reader.Valid() && reader.whole && reader.base == 0 && reader.digits.Length >= 2
    requires words.Length > fmt.precision && words != reader.digits && (sign == '+' || sign == '-')
    requires Val(reader.mantissa) > 0 && reader.position == Skip(reader.mantissa) + 1
    requires biased == BiasedExponent(fmt, reader.mantissa, e) && -62 <= biased < 1
    modifies reader, words
    ensures var code := CodeAbove(fmt, old(reader.mantissa), e, reader.digits[1]);
      code < SignBit(fmt) && Big(words[..fmt.precision]) == SignValue(fmt, sign) + code
  {
    hide First, Pow2, Val, Big, NormalCode, DenormalCode, BiasedExponent, Stored;
    ghost var m := reader.mantissa;
    ExhaustedIff(m, Skip(m));
    EmptyIsZero();
    OneLowBit(reader.digits[1]);
    reader.UngetBits(1);
    ghost var s := reader.position;
    assert CodeAbove(fmt, m, e, reader.digits[1]) == DenormalCode(fmt, reader.mantissa, s, biased);
    DenormalBelow(fmt, reader.mantissa, s, biased);
    StoreDenormal(reader, words, fmt, sign, biased, s);
  }

  lemma EmptyIsZero()
    ensures Val([]) == 0
  {
  }

  lemma OneLowBit(x: nat)
    ensures LowBits(x, 1) == x % 2
  {
    OneBit();
  }

  /** Zero, NaN and the infinities. */
  method StoreSpecial(f: Flonum, words: array<Littlenum>, fmt: Format)
    requires Supported(fmt) && words.Length > fmt.precision
    requires f.leader < 0 || f.sign in {'\0', 'P', 'N'}
    modifies words
    ensures var w := words[..fmt.precision];
      if f.leader < 0 then
        Big(w) == if f.sign == '+' then 0 else SignBit(fmt)
      else if f.sign == '\0' then
        w[0] == 0x7fff && forall i :: 1 <= i < fmt.precision ==> w[i] == 0xffff
      else
        Big(w) == Infinity(fmt) + if f.sign == 'P' then 0 else SignBit(fmt)
  {
    var p, infinity := fmt.precision, if fmt.precision == 2 then 0x7f80 else 0x7ff0;
    if f.leader < 0 {
      FillRest(words, p, if f.sign == '+' then 0 else 0x8000, 0);
    } else if f.sign == '\0' {
      FillRest(words, p, 0x7fff, 0xffff);
    } else {
      FillRest(words, p, if f.sign == 'P' then infinity else 0x8000 + infinity, 0);
    }
    BigWords(words[..p]);
    hide Big;
  }

  /** Where there is nothing to put back, the exponent decides. */
  lemma EncodedCases(fmt: Format, sign: char, m: seq<Littlenum>, e: int, above: Littlenum)
    requires Supported(fmt) && Val(m) > 0
    ensures var b, s := BiasedExponent(fmt, m, e), SignValue(fmt, sign);
      var code := if b < 0 || b >= Pow2(fmt.exponentBits) then Infinity(fmt) else NormalCode(fmt, m, Skip(m), b);
      !(-62 <= b < 1) ==>
        Encoded(fmt, sign, m, e, above) == if code == SignBit(fmt) then 0 else s + code
  {
    hide BiasedExponent, NormalCode, DenormalCode, Skip, Pow2, Val;
  }

  /** A number that is not zero. */
  method StoreFinite(f: Flonum, words: array<Littlenum>, fmt: Format)
    requires Supported(fmt) && f.Valid() && words.Length > fmt.precision && words != f.digits
    requires f.Signed() && Val(f.Mantissa()) > 0 && f.digits.Length >= 2
    modifies words
    ensures Big(words[..fmt.precision]) == Encoded(fmt, f.sign, f.Mantissa(), f.exponent, f.digits[1])
  {
    hide First, Pow2, Val, Big, NormalCode, DenormalCode, Code, CodeAbove, Skip;
    ghost var m := f.Mantissa();
    EncodedCases(fmt, f.sign, m, f.exponent, f.digits[1]);
    var p := fmt.precision;
    var reader := new BitReader(f.digits, f.leader);
    var skippage := SkipZeros(reader);
    var biased := 16 * (f.exponent + f.leader + 1) - skippage + (Pow2(fmt.exponentBits - 1) - 2);
    assert biased == BiasedExponent(fmt, m, f.exponent);
    hide BiasedExponent;
    if 1 > biased >= -62 {
      StoreSmall(reader, words, fmt, f.sign, biased, f.exponent);
    } else if biased < 0 || biased >= Pow2(fmt.exponentBits) {
      FillRest(words, p, (if p == 2 then 0x7f80 else 0x7ff0) + (if f.sign == '-' then 0x8000 else 0), 0);
      BigWords(words[..p]);
    } else {
      StoreNormal(reader, words, fmt, f.sign, biased, skippage);
    }
  }

  /** The words of a flonum. */
  method GenToWords(f: Flonum, words: array<Littlenum>, fmt: Format)
    requires Supported(fmt) && f.Valid() && words.Length > fmt.precision && words != f.digits
    requires f.leader >= 0 && f.sign !in {'\0', 'P', 'N'} ==>
      f.Signed() && Val(f.Mantissa()) > 0 && f.digits.Length >= 2
    modifies words
    ensures var w := words[..fmt.precision];
      if f.leader < 0 then
        Big(w) == if f.sign == '+' then 0 else SignBit(fmt)
      else if f.sign == '\0' then
        w[0] == 0x7fff && forall i :: 1 <= i < fmt.precision ==> w[i] == 0xffff
      else if f.sign == 'P' then
        Big(w) == Infinity(fmt)
      else if f.sign == 'N' then
        Big(w) == SignBit(fmt) + Infinity(fmt)
      else
        Big(w) == Encoded(fmt, f.sign, f.Mantissa(), f.exponent, f.digits[1])
  {
    hide First, Pow2, Val, Big, NormalCode, DenormalCode;
    if f.leader < 0 || f.sign in {'\0', 'P', 'N'} {
      StoreSpecial(f, words, fmt);
      return;
    }
    StoreFinite(f, words, fmt);
  }

  /** The first one bit is the last bit exactly if the mantissa is the number 1. */
  lemma ExhaustedIff(m: seq<Littlenum>, s: nat)
    requires Val(m) > 0 && First(m, s + 1) == 1 && First(m, s) == 0
    ensures s + 1 <= 16 * |m| && (s + 1 == 16 * |m| <==> Val(m) == 1)
  {
    FirstWhole(m);
    FirstEnd(m, s);
    if s + 1 < 16 * |m| {
      FirstAhead(m, s + 1, 16 * |m| - (s + 1));
      assert Pow2(16 * |m| - (s + 1)) == 2 * Pow2(16 * |m| - (s + 1) - 1);
    }
    hide Val, First, Pow2;
  }

  lemma FirstWhole(m: seq<Littlenum>)
    ensures First(m, 16 * |m|) == Val(m)
  {
    FirstPast(m, 0);
    OneBit();
    hide Val, First, Pow2;
  }

  lemma DenormalBelow(fmt: Format, m: seq<Littlenum>, s: nat, biased: int)
    requires Supported(fmt) && First(m, s) == 0
    requires -62 <= biased <= 0
    ensures DenormalCode(fmt, m, s, biased) < SignBit(fmt)
  {
    var k := fmt.FractionBits() + biased;
    if k > 16 {
      RoundedBelow(m, s, k, fmt);
    }
  }

  lemma RoundedBelow(m: seq<Littlenum>, s: nat, k: nat, fmt: Format)
    requires Supported(fmt) && First(m, s) == 0 && k <= fmt.FractionBits()
    ensures Rounded(m, s + k) <= Pow2(k) <= Pow2(fmt.FractionBits()) < SignBit(fmt)
  {
    FirstAhead(m, s, k + 1);
    Pow2Monotone(k, fmt.FractionBits());
    Constants();
    assert Pow2(k + 1) == 2 * Pow2(k);
    hide First, Pow2;
  }

  /** k bits behind the first q. */
  lemma {:induction false} FirstAhead(m: seq<Littlenum>, q: nat, k: nat)
    ensures First(m, q) * Pow2(k) <= First(m, q + k) < (First(m, q) + 1) * Pow2(k)
  {
    hide First;
    if k > 0 {
      FirstAhead(m, q, k - 1);
      FirstBits(m, q + k - 1);
      OneBit();
      Doubled(First(m, q), Pow2(k - 1));
      Doubled(First(m, q) + 1, Pow2(k - 1));
    }
  }

  lemma Doubled(x: int, p: int)
    ensures x * (2 * p) == 2 * (x * p)
  {
  }
}
