/** The bits of a mantissa, taken from the leader down. */
module BitReaders {
  import opened Littlenums
  import opened PowerOfTen
  import opened AtofGeneric

  /** The first q bits of the mantissa, read as the digits of a binary fraction behind which
      zeros follow. */
  function First(m: seq<Littlenum>, q: nat): nat {
    Scaled(Val(m), Pow2(q), Pow2(16 * |m|))
  }

  function Scaled(v: nat, c: nat, d: nat): nat
    requires d > 0
  {
    v * c / d
  }

  lemma {:induction false} Pow2Add(i: nat, j: nat)
    ensures Pow2(i + j) == Pow2(i) * Pow2(j)
  {
    if i > 0 {
      Pow2Add(i - 1, j);
      MulAssoc(2, Pow2(i - 1), Pow2(j));
    }
  }

  lemma DivCancel(x: nat, c: nat, d: nat)
    requires c > 0 && d > 0
    ensures c * d > 0 && (x * c) / (c * d) == x / d
  {
    var q, r := x / d, x % d;
    assert x == d * q + r;
    Below(c, r, d);
    Spread3(c, d, q, r);
    DivModUnique(x * c, c * d, q, c * r);
  }

  lemma Below(c: int, r: int, d: int)
    requires c > 0 && 0 <= r < d
    ensures 0 <= c * r < c * d
  {
  }

  lemma Spread3(c: int, d: int, q: int, r: int)
    ensures (d * q + r) * c == (c * d) * q + c * r
  {
  }

  /** Inside the mantissa, that is the part above the bit reached. */
  lemma FirstHead(m: seq<Littlenum>, left: nat, b: nat)
    requires 1 <= left <= |m| && b <= 16
    ensures First(m, 16 * (|m| - left) + 16 - b) == Val(m[left - 1..]) / Pow2(b)
  {
    var q, low := 16 * (|m| - left) + 16 - b, 16 * (left - 1);
    ValSplit(m, left - 1);
    RadixIsPow2(left - 1);
    Pow2Add(q, low + b);
    Pow2Add(low, b);
    hide Val, Pow, Pow2;
    assert q + (low + b) == 16 * |m|;
    DivCancel(Val(m), Pow2(q), Pow2(low + b));
    DivMul(Val(m), Pow2(low), Pow2(b));
  }

  /** Past its end there are only zeros. */
  lemma FirstPast(m: seq<Littlenum>, j: nat)
    ensures First(m, 16 * |m| + j) == Val(m) * Pow2(j)
  {
    Pow2Add(16 * |m|, j);
    hide Val, Pow2;
    Exact(Val(m), Pow2(16 * |m|), Pow2(j));
  }

  lemma Exact(v: nat, c: nat, d: nat)
    requires c > 0
    ensures v * (c * d) / c == v * d
  {
    DivModUnique(v * (c * d), c, v * d, 0);
  }

  lemma HeadDigit(m: seq<Littlenum>, left: nat)
    requires 1 <= left <= |m|
    ensures Val(m[left - 1..]) == m[left - 1] + 0x10000 * Val(m[left..])
  {
    assert m[left - 1..][1..] == m[left..];
  }

  /** Bits from within one digit. */
  lemma Within(x: nat, h: nat, c: nat, d: nat, t: nat, w: nat, e: nat)
    requires c > 0 && d > 0 && e == c * d && e * t == 0x10000 && w == x + 0x10000 * h
    ensures e > 0 && w / c == d * (w / e) + (x / c) % d
  {
    DivMul(w, c, d);
    Reorder(c, d, t, h);
    AddMultiple(x, c, (d * t) * h);
    MulAssoc(d, t, h);
    ModMultiple(x / c, d, t * h);
  }

  lemma Reorder(c: int, d: int, t: int, h: int)
    ensures ((c * d) * t) * h == c * ((d * t) * h)
  {
    MulAssoc(c, d, t);
    MulAssoc(c, d * t, h);
  }

  lemma AddMultiple(x: nat, c: nat, k: nat)
    requires c > 0
    ensures (x + c * k) / c == x / c + k && (x + c * k) % c == x % c
  {
    var q, r := x / c, x % c;
    assert x == c * q + r;
    assert c * (q + k) == c * q + c * k;
    DivModUnique(x + c * k, c, q + k, r);
  }

  lemma ModMultiple(x: nat, d: nat, k: nat)
    requires d > 0
    ensures (x + d * k) % d == x % d && x + d * k == d * ((x + d * k) / d) + x % d
  {
    AddMultiple(x, d, k);
  }

  /** What is left of one digit below the multiples of c. */
  lemma Rest(x: nat, h: nat, c: nat, t: nat, w: nat)
    requires c > 0 && c * t == 0x10000 && w == x + 0x10000 * h
    ensures w == c * (w / c) + x % c
  {
    MulAssoc(c, t, h);
    ModMultiple(x, c, t * h);
  }

  /** The high bits of the next digit behind what was read before. */
  lemma Onto(y: nat, w: nat, c: nat, d: nat)
    requires c > 0 && c * d == 0x10000
    ensures (y + 0x10000 * w) / c == d * w + y / c
    ensures y < 0x10000 ==> y / c < d
  {
    MulAssoc(c, d, w);
    AddMultiple(y, c, d * w);
    if y < 0x10000 && y / c >= d {
      MulMono(c, d, y / c);
    }
  }

  lemma Combine(c: nat, d: nat, e: nat, f: nat, low: nat, high: nat)
    requires low < c && high < d && e == c * d
    ensures d * (c * f + low) + high == e * f + (d * low + high)
    ensures d * low + high < e
  {
    Distribute(d, c, f, low);
    MulMono(d, low, c - 1);
  }

  /** All of one digit that is left, then the high part of the one below. */
  lemma Across(x: nat, h: nat, y: nat, w: nat, w': nat, c: nat, t: nat, d: nat, u: nat, e: nat, r: nat)
    requires c > 0 && u > 0 && c * t == 0x10000 && u * d == 0x10000 && e == c * d && y < 0x10000
    requires w == x + 0x10000 * h && w' == y + 0x10000 * w && r == d * (x % c) + y / u
    ensures w' / u == e * (w / c) + r && r < e && y / u < d
  {
    Rest(x, h, c, t, w);
    Onto(y, w, u, d);
    Combine(c, d, e, w / c, x % c, y / u);
  }

  /** All of the last digit that is left, then zeros. */
  lemma AcrossEnd(x: nat, h: nat, w: nat, c: nat, t: nat, d: nat, e: nat, r: nat)
    requires c > 0 && d > 0 && c * t == 0x10000 && e == c * d
    requires w == x + 0x10000 * h && r == d * (x % c)
    ensures w * d == e * (w / c) + r && r < e
  {
    Rest(x, h, c, t, w);
    Combine(c, d, e, w / c, x % c, 0);
  }

  /** x without its lowest b bits. */
  function HighBits(x: nat, b: nat): nat {
    Quotient(x, Pow2(b))
  }

  function Quotient(x: nat, d: nat): nat
    requires d > 0
  {
    x / d
  }

  /** The lowest b bits of x. */
  function LowBits(x: nat, b: nat): (r: nat)
    ensures r < Pow2(b)
  {
    x % Pow2(b)
  }

  /** x shifted left by j bits. */
  function ShiftLeft(x: nat, j: nat): nat {
    x * Pow2(j)
  }

  /** r consists of the k bits behind the first q. */
  predicate Reads(m: seq<Littlenum>, q: nat, k: nat, r: nat) {
    r < Pow2(k) && First(m, q + k) == Pow2(k) * First(m, q) + r
  }

  /** The next k bits, when the digit being read still has more than k. */
  lemma ReadWithin(m: seq<Littlenum>, left: nat, b: nat, k: nat)
    requires 1 <= left <= |m| && k < b <= 16
    ensures Reads(m, 16 * (|m| - left) + 16 - b, k, LowBits(HighBits(m[left - 1], b - k), k))
  {
    hide Val, Pow2, First;
    FirstHead(m, left, b);
    FirstHead(m, left, b - k);
    HeadDigit(m, left);
    SixteenSplit(b);
    Pow2Add(b - k, k);
    assert b - k + k == b;
    Within(m[left - 1], Val(m[left..]), Pow2(b - k), Pow2(k), Pow2(16 - b), Val(m[left - 1..]), Pow2(b));
  }

  lemma SixteenSplit(b: nat)
    requires b <= 16
    ensures Pow2(b) * Pow2(16 - b) == 0x10000
  {
    Sixteen();
    Pow2Add(b, 16 - b);
  }

  lemma Sixteen()
    ensures Pow2(16) == 0x10000
  {
    assert Pow2(8) == 256;
    assert Pow2(12) == 4096;
  }

  /** All b bits left of the digit being read, and j bits of the one below it. */
  lemma ReadAcross(m: seq<Littlenum>, left: nat, b: nat, j: nat)
    requires 2 <= left <= |m| && 1 <= b <= 16 && j <= 16
    ensures Reads(m, 16 * (|m| - left) + 16 - b, b + j,
                  ShiftLeft(LowBits(m[left - 1], b), j) + LowBits(HighBits(m[left - 2], 16 - j), j))
  {
    hide Val, Pow2, First;
    FirstHead(m, left, b);
    FirstHead(m, left - 1, 16 - j);
    HeadDigit(m, left);
    HeadDigit(m, left - 1);
    Pow2Add(b, j);
    SixteenSplit(b);
    SixteenSplit(16 - j);
    assert 16 - (16 - j) == j;
    Across(m[left - 1], Val(m[left..]), m[left - 2], Val(m[left - 1..]), Val(m[left - 2..]),
           Pow2(b), Pow2(16 - b), Pow2(j), Pow2(16 - j), Pow2(b + j),
           ShiftLeft(LowBits(m[left - 1], b), j) + HighBits(m[left - 2], 16 - j));
    SmallLow(HighBits(m[left - 2], 16 - j), Pow2(j));
  }

  lemma SmallLow(x: nat, d: nat)
    requires x < d
    ensures x % d == x
  {
  }

  /** All b bits left of the lowest digit, and zeros. */
  lemma ReadLast(m: seq<Littlenum>, b: nat, j: nat)
    requires m != [] && 1 <= b <= 16
    ensures Reads(m, 16 * |m| - b, b + j, ShiftLeft(LowBits(m[0], b), j))
  {
    hide Val, Pow2, First;
    FirstHead(m, 1, b);
    FirstPast(m, j);
    HeadDigit(m, 1);
    assert m[0..] == m;
    Pow2Add(b, j);
    SixteenSplit(b);
    AcrossEnd(m[0], Val(m[1..]), Val(m), Pow2(b), Pow2(16 - b), Pow2(j), Pow2(b + j),
              ShiftLeft(LowBits(m[0], b), j));
  }

  lemma ReadNothing(m: seq<Littlenum>, q: nat, k: nat)
    requires q >= 16 * |m|
    ensures Reads(m, q, k, 0)
  {
    hide Val, Pow2, First;
    FirstPast(m, q - 16 * |m|);
    FirstPast(m, q - 16 * |m| + k);
    Pow2Add(q - 16 * |m|, k);
    Regroup3(Val(m), Pow2(q - 16 * |m|), Pow2(k));
  }

  lemma Regroup3(v: int, c: int, d: int)
    ensures v * (c * d) == d * (v * c)
  {
    MulAssoc(v, c, d);
  }

  // ---------------------------------------------------------------------
  // Runs of reads
  // ---------------------------------------------------------------------

  /** Bit i of a mantissa, counted from the top of the leader; zeros follow. */
  function Bit(m: seq<Littlenum>, i: nat): nat {
    if i < 16 * |m| then LowBits(HighBits(m[|m| - 1 - i / 16], 15 - i % 16), 1) else 0
  }

  /** The first bits are those bits, one after the other. */
  lemma FirstBits(m: seq<Littlenum>, i: nat)
    ensures First(m, 0) == 0 && First(m, i + 1) == 2 * First(m, i) + Bit(m, i)
  {
    NoBits(m);
    OneBit();
    hide First, Pow2, Val, LowBits, HighBits, ShiftLeft;
    if i >= 16 * |m| {
      ReadNothing(m, i, 1);
    } else {
      var left, b := |m| - i / 16, 16 - i % 16;
      if b > 1 {
        ReadWithin(m, left, b, 1);
      } else if left > 1 {
        ReadAcross(m, left, 1, 0);
        LastBit(m[left - 1]);
      } else {
        ReadLast(m, 1, 0);
        LastBit(m[0]);
      }
    }
  }

  lemma OneBit()
    ensures Pow2(0) == 1 && Pow2(1) == 2
  {
  }

  lemma LastBit(x: nat)
    ensures ShiftLeft(LowBits(x, 1), 0) == LowBits(HighBits(x, 0), 1)
    ensures forall y {:trigger LowBits(y, 0)} :: LowBits(y, 0) == 0
  {
  }

  lemma NoBits(m: seq<Littlenum>)
    ensures First(m, 0) == 0
  {
    ValBound(m);
    RadixIsPow2(|m|);
    hide Val, Pow, Pow2;
    OneBit();
    Small(Val(m), Pow2(16 * |m|));
  }

  lemma Small(x: nat, d: nat)
    requires x < d
    ensures x * 1 / d == 0
  {
  }

  function Sum(ks: seq<nat>): nat {
    if ks == [] then 0 else Sum(ks[..|ks| - 1]) + ks[|ks| - 1]
  }

  /** The results of several reads, one behind the other. */
  function Joined(ks: seq<nat>, rs: seq<nat>): nat
    requires |ks| == |rs|
  {
    if ks == [] then 0
    else ShiftLeft(Joined(ks[..|ks| - 1], rs[..|rs| - 1]), ks[|ks| - 1]) + rs[|rs| - 1]
  }

  /** Each read in a run gives the bits behind those of the reads before it. */
  ghost predicate Run(m: seq<Littlenum>, ks: seq<nat>, rs: seq<nat>)
    requires |ks| == |rs|
  {
    forall i :: 0 <= i < |ks| ==> Reads(m, Sum(ks[..i]), ks[i], rs[i])
  }

  /** Any run of reads from the start takes the bits in order, and zeros after the last. */
  lemma {:induction false} RunReads(m: seq<Littlenum>, ks: seq<nat>, rs: seq<nat>)
    requires |ks| == |rs| && Run(m, ks, rs)
    ensures Joined(ks, rs) == First(m, Sum(ks))
  {
    NoBits(m);
    hide First, Reads, ShiftLeft;
    if ks != [] {
      var n := |ks| - 1;
      assert forall i :: 0 <= i < n ==> ks[..n][..i] == ks[..i];
      RunReads(m, ks[..n], rs[..n]);
      ReadOn(m, Sum(ks[..n]), ks[n], rs[n]);
    }
  }

  lemma ReadOn(m: seq<Littlenum>, q: nat, k: nat, r: nat)
    requires Reads(m, q, k, r)
    ensures First(m, q + k) == ShiftLeft(First(m, q), k) + r
  {
    hide First, Pow2;
  }

  /** What is read within the low b bits of a digit only depends on those bits. */
  lemma SameWithin(x: nat, y: nat, b: nat, k: nat)
    requires LowBits(x, b) == LowBits(y, b) && k <= b
    ensures LowBits(HighBits(x, b - k), k) == LowBits(HighBits(y, b - k), k)
    ensures LowBits(x, b - k) == LowBits(y, b - k)
  {
    Pow2Add(b - k, k);
    hide Pow2;
    SplitLow(x, Pow2(b - k), Pow2(k), Pow2(b));
    SplitLow(y, Pow2(b - k), Pow2(k), Pow2(b));
  }

  lemma SplitLow(x: nat, c: nat, d: nat, e: nat)
    requires c > 0 && d > 0 && e == c * d
    ensures e > 0 && (x / c) % d == (x % e) / c && x % c == (x % e) % c
  {
    var y, s := x / c, x % c;
    var q, r := y / d, y % d;
    Remainder(x, c, d, e, y, s, q, r);
    TwoDigitsBelow(c, d, r, s);
    DivModUnique(c * r + s, c, r, s);
  }

  lemma Remainder(x: nat, c: nat, d: nat, e: nat, y: nat, s: nat, q: nat, r: nat)
    requires x == c * y + s && y == d * q + r && s < c && r < d && e == c * d
    ensures e > 0 && x % e == c * r + s
  {
    Regrouped(c, d, q, r, s);
    TwoDigitsBelow(c, d, r, s);
    DivModUnique(x, e, q, c * r + s);
  }

  lemma Regrouped(c: int, d: int, q: int, r: int, s: int)
    ensures c * (d * q + r) + s == (c * d) * q + (c * r + s)
  {
    MulAssoc(c, d, q);
  }

  lemma TwoDigitsBelow(c: nat, d: nat, r: nat, s: nat)
    requires r < d && s < c
    ensures 0 <= c * r + s < c * d
  {
    MulMono(c, r + 1, d);
    assert c * (r + 1) == c * r + c;
    MulMono(c, 0, r);
  }

  lemma NothingAbove(x: nat, k: nat)
    requires k < 16
    ensures LowBits(x, k) < 0x10000 && LowBits(LowBits(x, k), k) == LowBits(x, k)
    ensures First([LowBits(x, k) as Littlenum], 16 - k) == 0
  {
    Sixteen();
    Pow2Monotone(k, 16);
    hide First, Val, Pow2;
    var y: Littlenum := LowBits(x, k);
    SmallLow(y, Pow2(k));
    FirstHead([y], 1, k);
    OneDigit(y);
    SmallHigh(y, Pow2(k));
  }

  lemma OneDigit(y: Littlenum)
    ensures Val([y]) == y && [y][0..] == [y]
  {
  }

  lemma SmallHigh(x: nat, d: nat)
    requires x < d
    ensures x / d == 0
  {
  }

  /** A cursor over a mantissa.  `position` counts the bits taken so far.  The digits of the mantissa
      are those from `base` on, or the low bits of one of them if the cursor has been put back there
      after it had run out. */
  class BitReader {
    const digits: array<Littlenum>
    var pointer: int
    var littlenumsLeft: int
    var bitsLeft: nat
    ghost var mantissa: seq<Littlenum>
    ghost var base: nat
    ghost var whole: bool
    ghost var position: nat

    ghost predicate Valid()
      reads this, digits
    {
      && base + |mantissa| <= digits.Length && (whole ==> mantissa == digits[base..base + |mantissa|])
      && 0 <= littlenumsLeft <= |mantissa|
      && if littlenumsLeft == 0 then position >= 16 * |mantissa| && pointer == base + if mantissa == [] then -1 else 0
         else && 0 < bitsLeft <= 16 && pointer == base + littlenumsLeft - 1
              && position == 16 * (|mantissa| - littlenumsLeft) + 16 - bitsLeft
              && (whole || (littlenumsLeft == 1 && LowBits(mantissa[0], bitsLeft) == LowBits(digits[pointer], bitsLeft)))
    }

    constructor (digits: array<Littlenum>, leader: int)
      requires -1 <= leader < digits.Length
      ensures Valid() && whole && this.digits == digits && mantissa == digits[..leader + 1]
      ensures position == 0 && base == 0
    {
      this.digits := digits;
      mantissa, base, whole := digits[..leader + 1], 0, true;
      bitsLeft, pointer, littlenumsLeft := 16, leader, 1 + leader;
      position := 0;
    }

    /** All the bits left of one littlenum, and as many as are missing of the one below it. */
    method TakeAcross(k: nat) returns (r: nat)
      requires Valid() && littlenumsLeft != 0 && bitsLeft <= k <= 16
      modifies this`pointer, this`littlenumsLeft, this`bitsLeft, this`position
      ensures Valid() && position == old(position) + k && Reads(mantissa, old(position), k, r)
    {
      hide Reads, HighBits, LowBits, ShiftLeft, Pow2;
      ghost var m := mantissa;
      var j, b := k - bitsLeft, bitsLeft;
      r := ShiftLeft(LowBits(digits[pointer], b), j);
      littlenumsLeft := littlenumsLeft - 1;
      if littlenumsLeft != 0 {
        ReadAcross(m, littlenumsLeft + 1, b, j);
        bitsLeft := 16 - j;
        pointer := pointer - 1;
        r := r + LowBits(HighBits(digits[pointer], bitsLeft), j);
      } else {
        ReadLast(m, b, j);
      }
      position := position + k;
    }

    /** The next k bits. */
    method NextBits(k: nat) returns (r: nat)
      requires Valid() && k <= 16
      modifies this`pointer, this`littlenumsLeft, this`bitsLeft, this`position
      ensures Valid() && position == old(position) + k && Reads(mantissa, old(position), k, r)
    {
      hide Reads, HighBits, LowBits, ShiftLeft, Pow2;
      ghost var m := mantissa;
      if littlenumsLeft == 0 {
        ReadNothing(m, position, k);
        r := 0;
        position := position + k;
      } else if k >= bitsLeft {
        r := TakeAcross(k);
      } else {
        ReadWithin(m, littlenumsLeft, bitsLeft, k);
        if !whole {
          SameWithin(m[0], digits[pointer], bitsLeft, k);
        }
        bitsLeft := bitsLeft - k;
        r := LowBits(HighBits(digits[pointer], bitsLeft), k);
        position := position + k;
      }
    }

    /** Puts back the last k bits.  A reader that has run out moves to the littlenum above its lowest
        instead, and takes the low k bits of that one for all that there is. */
    method UngetBits(k: nat)
      requires Valid() && whole && 0 < k < 16 && k <= position
      requires littlenumsLeft == 0 ==> pointer + 1 < digits.Length
      modifies this
      ensures Valid()
      ensures old(littlenumsLeft) > 0 ==> position == old(position) - k && mantissa == old(mantissa)
      ensures old(littlenumsLeft) == 0 ==>
        var x := digits[old(pointer) + 1];
        position == 16 - k && LowBits(x, k) < 0x10000 && mantissa == [LowBits(x, k)] && First(mantissa, position) == 0
    {
      hide First, Pow2, LowBits;
      if littlenumsLeft == 0 {
        pointer := pointer + 1;
        littlenumsLeft := littlenumsLeft + 1;
        bitsLeft := k;
        NothingAbove(digits[pointer], k);
        mantissa, base, whole, position := [LowBits(digits[pointer], k)], pointer, false, 16 - k;
      } else {
        if bitsLeft + k > 16 {
          bitsLeft := k - (16 - bitsLeft);
          pointer := pointer + 1;
          littlenumsLeft := littlenumsLeft + 1;
        } else {
          bitsLeft := bitsLeft + k;
        }
        position := position - k;
      }
    }
  }
}
