/** Multiprecision floating point numbers, their product and their truncating copy. */
module Flonums {
  import opened Littlenums
  import opened FlonumProduct

  /** MANTISSA * RADIX^exponent.  `leader` indexes the highest digit in use and is -1 for zero. */
  class Flonum {
    const digits: array<Littlenum>
    var leader: int
    var exponent: int
    var sign: char

    constructor (digits: array<Littlenum>)
      ensures this.digits == digits && leader == -1 && exponent == 0 && sign == '+'
    {
      this.digits := digits;
      leader, exponent, sign := -1, 0, '+';
    }

    predicate Valid()
      reads this
    {
      -1 <= leader < digits.Length
    }

    predicate Signed()
      reads this
    {
      sign == '+' || sign == '-'
    }

    function Mantissa(): seq<Littlenum>
      requires Valid()
      reads this, digits
    {
      digits[..leader + 1]
    }
  }

  lemma LowZerosAppend(w: seq<Littlenum>, x: Littlenum)
    ensures LowZeros(w + [x]) == if LowZeros(w) == |w| && x == 0 then |w| + 1 else LowZeros(w)
  {
    assert forall i :: 0 <= i < |w| ==> (w + [x])[i] == w[i];
    assert (w + [x])[|w|] == x;
  }

  lemma NextColumn(w: seq<Littlenum>, drop: nat, x: Littlenum)
    ensures LowZeros(w + [x]) <= |w| <==> LowZeros(w) < |w| || x != 0
    ensures Unstored(w + [x], drop)
         == if |w| < drop || (LowZeros(w) == |w| && x == 0) then |w| + 1 else Unstored(w, drop)
  {
    LowZerosAppend(w, x);
  }

  lemma WorksStart(a: seq<Littlenum>, b: seq<Littlenum>)
    ensures Works(a, b, 0) == [] && CarryInto(a, b, 0) == 0 && LowZeros([]) == 0
  {
  }

  lemma WorksStep(a: seq<Littlenum>, b: seq<Littlenum>, N: nat, work: nat, carry: nat)
    requires N < Columns(a, b)
    requires var c := Scan(a, b, N, N + 1, CarryInto(a, b, N)); work == c.work && carry == c.carry
    ensures work < 0x10000 && Works(a, b, N + 1) == Works(a, b, N) + [work] && CarryInto(a, b, N + 1) == carry
  {
    hide Scan;
    WorkIsDigit(a, b, N);
  }

  lemma ScanNext(a: seq<Littlenum>, b: seq<Littlenum>, N: nat, A: nat, carryIn: nat)
    ensures var c, d := Scan(a, b, N, A, carryIn), Scan(a, b, N, A + 1, carryIn);
            && (!HasTerm(a, b, N, A) ==> d == c)
            && (HasTerm(a, b, N, A) ==>
                  var w := (c.work + Mul(a[A], b[N - A])) % 0x1_0000_0000;
                  d.work == w % 0x10000 && d.carry == (c.carry + w / 0x10000) % 0x1_0000_0000)
  {
  }

  /** One column: every a[A] * b[N-A], added with 32-bit wrap-around. */
  method SumColumn(a: Flonum, b: Flonum, N: nat, carryIn: nat, ghost x: seq<Littlenum>, ghost y: seq<Littlenum>)
    returns (work: nat, carry: nat)
    requires a.Valid() && b.Valid() && a.Mantissa() == x && b.Mantissa() == y
    ensures var c := Scan(x, y, N, N + 1, carryIn);
            work == c.work && carry == c.carry
  {
    ScanStart(x, y, N, carryIn);
    hide Scan, Mul;
    work, carry := carryIn, 0;
    for A := 0 to N + 1
      invariant work == Scan(x, y, N, A, carryIn).work && carry == Scan(x, y, N, A, carryIn).carry
    {
      ScanNext(x, y, N, A, carryIn);
      var B := N - A;
      if A <= a.leader && B <= b.leader && B >= 0 {
        work := (work + Mul(a.digits[A], b.digits[B])) % 0x1_0000_0000;
        carry := (carry + work / 0x10000) % 0x1_0000_0000;
        work := work % 0x10000;
      }
    }
  }

  lemma ScanStart(a: seq<Littlenum>, b: seq<Littlenum>, N: nat, carryIn: nat)
    ensures Scan(a, b, N, 0, carryIn) == Column(carryIn, 0, 0)
  {
  }

  /** Digits 0 .. P move down one place, the lowest is lost and `carry` enters on top. */
  method ShiftIn(product: Flonum, P: int, carry: Littlenum)
    requires -1 <= P < product.digits.Length
    modifies product.digits
    ensures product.digits[..P + 1] == (old(product.digits[..P + 1]) + [carry])[1..]
  {
    ghost var t := product.digits[..P + 1] + [carry];
    var c, q := carry, P;
    while q >= 0
      invariant -1 <= q <= P && c == t[q + 1]
      invariant forall i :: 0 <= i <= q ==> product.digits[i] == t[i]
      invariant forall i :: q < i <= P ==> product.digits[i] == t[i + 1]
      decreases q
    {
      var work := product.digits[q];
      product.digits[q] := c;
      c := work;
      q := q - 1;
    }
  }

  /** The end of the product: a place for the final carry, then the leader and the exponent. */
  method PlaceCarry(product: Flonum, position: int, extra: int, exponent: int, carry: Littlenum)
    requires 0 <= position <= product.digits.Length
    requires carry != 0 && extra > 0 ==> position < product.digits.Length
    modifies product`leader, product`exponent, product.digits
    ensures product.Valid()
    ensures var d, k := old(product.digits[..position]) + Top(carry), if carry != 0 && extra <= 0 then 1 else 0;
            product.Mantissa() == d[k..] && product.exponent == exponent + k
  {
    var P := position;
    product.exponent := exponent;
    if carry != 0 {
      if extra > 0 {
        product.digits[P] := carry;
      } else {
        product.exponent := exponent + 1;
        P := P - 1;
        ShiftIn(product, P, carry);
      }
    } else {
      P := P - 1;
    }
    product.leader := P;
  }

  /** P is where the next column goes; it is negative while columns are dropped. */
  ghost predicate StoredTo(product: Flonum, P: int, w: seq<Littlenum>, drop: nat)
    reads product.digits
  {
    && (|w| < drop ==> P == |w| - drop)
    && (|w| >= drop ==> 0 <= P == |w| - Unstored(w, drop) <= product.digits.Length
                        && product.digits[..P] == w[Unstored(w, drop)..])
  }

  /** Stores a finished column, unless it is dropped or one more low zero. */
  method StoreColumn(product: Flonum, P: int, significant: bool, work: Littlenum,
                     ghost w: seq<Littlenum>, ghost drop: nat)
    returns (counted: bool)
    requires StoredTo(product, P, w, drop) && (significant <==> LowZeros(w) < |w| || work != 0)
    requires |w| < product.digits.Length + drop
    modifies product.digits
    ensures counted == (significant || P < 0)
    ensures StoredTo(product, if counted then P + 1 else P, w + [work], drop)
    ensures significant <==> LowZeros(w + [work]) < |w| + 1
  {
    NextColumn(w, drop, work);
    counted := significant || P < 0;
    if counted && P >= 0 {
      product.digits[P] := work;
      assert product.digits[..P + 1] == product.digits[..P] + [work];
    }
  }

  /** Every column from the lowest up; those that are kept go to product.digits[..P]. */
  method SumColumns(a: Flonum, b: Flonum, product: Flonum, ghost x: seq<Littlenum>, ghost y: seq<Littlenum>)
    returns (P: int, extra: int, exponent: int, carry: nat, ghost w: seq<Littlenum>)
    requires a.Valid() && b.Valid() && a.Mantissa() == x && b.Mantissa() == y
    requires product.digits != a.digits && product.digits != b.digits
    modifies product.digits
    ensures var n, drop := Columns(x, y), Dropped(x, y, product.digits.Length);
      && w == Works(x, y, n) && carry == CarryInto(x, y, n)
      && P == n - Unstored(w, drop) <= product.digits.Length
      && exponent == a.exponent + b.exponent + Unstored(w, drop)
      && (n > 0 ==> extra == product.digits.Length - n + (Unstored(w, drop) - drop))
      && product.digits[..P] == w[Unstored(w, drop)..]
  {
    WorksStart(x, y);
    hide Scan, Works, CarryInto, LowZeros;
    var sizeA, sizeB := a.leader, b.leader;
    exponent := a.exponent + b.exponent;
    var sizeProduct := product.digits.Length - 1;
    var sizeSum := sizeA + sizeB;
    extra := sizeProduct - sizeSum;
    P := 0;
    if extra < 0 {
      P := extra;
      exponent := exponent - extra;
    }
    carry := 0;
    var significant := false;
    ghost var drop := Dropped(x, y, product.digits.Length);
    w := [];
    var N := 0;
    while N <= sizeSum
      invariant 0 <= N <= Columns(x, y)
      invariant a.Mantissa() == x && b.Mantissa() == y
      invariant w == Works(x, y, N) && carry == CarryInto(x, y, N)
      invariant StoredTo(product, P, w, drop) && (significant <==> LowZeros(w) < N)
      invariant exponent == a.exponent + b.exponent + N - P
      invariant extra == sizeProduct - sizeSum + (N - P - drop)
    {
      var work, stored;
      work, carry := SumColumn(a, b, N, carry, x, y);
      WorksStep(x, y, N, work, carry);
      significant := significant || work != 0;
      stored := StoreColumn(product, P, significant, work, w, drop);
      if stored {
        P := P + 1;
      } else {
        extra := extra + 1;
        exponent := exponent + 1;
      }
      w, N := w + [work], N + 1;
    }
  }

  /** Digits, leader and exponent of the product. */
  method MultiplyDigits(a: Flonum, b: Flonum, product: Flonum)
    requires a.Valid() && b.Valid()
    requires product != a && product != b && product.digits != a.digits && product.digits != b.digits
    modifies product`leader, product`exponent, product.digits
    ensures product.Valid() && a.Mantissa() == old(a.Mantissa()) && b.Mantissa() == old(b.Mantissa())
    ensures var p := Multip(old(a.Mantissa()), old(b.Mantissa()), product.digits.Length);
      product.Mantissa() == p.mant && product.exponent == a.exponent + b.exponent + p.k
  {
    ghost var x, y, cap := a.Mantissa(), b.Mantissa(), product.digits.Length;
    var P, extra, exponent, carry;
    ghost var w;
    P, extra, exponent, carry, w := SumColumns(a, b, product, x, y);
    LastColumns(x, y, cap, P, extra, carry, product.digits[..P]);
    PlaceCarry(product, P, extra, exponent, carry);
  }

  /** a * b into product, column by column, low columns first. */
  method FlonumMultip(a: Flonum, b: Flonum, product: Flonum)
    requires a.Valid() && b.Valid()
    requires product != a && product != b && product.digits != a.digits && product.digits != b.digits
    modifies product, product.digits
    ensures !(a.Signed() && b.Signed()) ==>
      product.sign == '\0' && unchanged(product`leader, product`exponent, product.digits)
    ensures a.Signed() && b.Signed() ==>
      var p := Multip(a.Mantissa(), b.Mantissa(), product.digits.Length);
      && product.Valid()
      && product.Mantissa() == p.mant
      && product.exponent == a.exponent + b.exponent + p.k
      && product.sign == if a.sign == b.sign then '+' else '-'
  {
    if !(a.sign == '+' || a.sign == '-') || !(b.sign == '+' || b.sign == '-') {
      product.sign := '\0';
      return;
    }
    product.sign := if a.sign == b.sign then '+' else '-';
    MultiplyDigits(a, b, product);
  }

  lemma LastColumns(a: seq<Littlenum>, b: seq<Littlenum>, cap: nat, P: int, extra: int, c: nat, d: seq<Littlenum>)
    requires P == Columns(a, b) - Skipped(a, b, cap) && c == CarryInto(a, b, Columns(a, b))
    requires Columns(a, b) > 0 ==> extra == cap - Columns(a, b) + (Skipped(a, b, cap) - Dropped(a, b, cap))
    requires d == Works(a, b, Columns(a, b))[Skipped(a, b, cap)..]
    ensures c < 0x10000 && (c != 0 && extra > 0 ==> P < cap)
    ensures var k, t := if c != 0 && extra <= 0 then 1 else 0, d + Top(c);
            k <= |t| && Multip(a, b, cap) == Product(t[k..], Skipped(a, b, cap) + k)
  {
    FinalCarryFits(a, b);
    var w, t := Works(a, b, Columns(a, b)), Top(c);
    assert (w + t)[Skipped(a, b, cap)..] == d + t;
  }

  /** A digit whose first byte is byte `at` of a region whose first `count` bytes are cleared
      (low byte first). */
  function Cleared(x: Littlenum, at: int, count: int): Littlenum {
    if at + 1 < count then 0 else if at < count then x / 0x100 * 0x100 else x
  }

  /** Byte by byte, the bytes that are counted are zeros and the others are as they were. */
  lemma ClearedBytes(x: Littlenum, at: int, count: int)
    ensures Cleared(x, at, count) % 0x100 == if at < count then 0 else x % 0x100
    ensures Cleared(x, at, count) / 0x100 == if at + 1 < count then 0 else x / 0x100
  {
    assert x / 0x100 * 0x100 / 0x100 == x / 0x100 && x / 0x100 * 0x100 % 0x100 == 0;
  }

  /** memset to zero of `count` bytes from digit `from` on. */
  method ZeroBytes(a: array<Littlenum>, from: nat, count: nat)
    requires from + (count + 1) / 2 <= a.Length
    modifies a
    ensures forall j :: 0 <= j < a.Length ==>
      a[j] == if j < from then old(a[j]) else Cleared(old(a[j]), 2 * (j - from), count)
  {
    for n := 0 to count
      invariant forall j :: 0 <= j < a.Length ==>
        a[j] == if j < from then old(a[j]) else Cleared(old(a[j]), 2 * (j - from), n)
    {
      var j := from + n / 2;
      a[j] := if n % 2 == 0 then a[j] / 0x100 * 0x100 else 0;
    }
  }

  /** memcpy of `count` digits, from source[offset..] to the start of target. */
  method CopyDigits(source: array<Littlenum>, offset: nat, target: array<Littlenum>, count: nat)
    requires source != target && offset + count <= source.Length && count <= target.Length
    modifies target
    ensures forall j :: 0 <= j < target.Length ==>
      target[j] == if j < count then source[offset + j] else old(target[j])
  {
    for i := 0 to count
      invariant forall j :: 0 <= j < target.Length ==>
        target[j] == if j < i then source[offset + j] else old(target[j])
    {
      target[i] := source[offset + i];
    }
  }

  /** Copies a number that fits, and clears part of what is left above it. */
  method CopyWhole(input: Flonum, out: Flonum)
    requires input.Valid() && input != out && input.digits != out.digits
    requires 0 <= input.leader < out.digits.Length
    modifies out`leader, out`exponent, out.digits
    ensures out.leader == input.leader && out.exponent == input.exponent && out.Mantissa() == input.Mantissa()
    ensures forall j :: input.leader < j < out.digits.Length ==>
      out.digits[j] == Cleared(old(out.digits[j]), 2 * (j - input.leader - 1), out.digits.Length - 1 - input.leader)
  {
    var inLength, outLength := input.leader, out.digits.Length - 1;
    if inLength < outLength {
      ZeroBytes(out.digits, inLength + 1, outLength - inLength);
    }
    CopyDigits(input.digits, 0, out.digits, inLength + 1);
    out.exponent := input.exponent;
    out.leader := input.leader;
  }

  /** Copies the high digits of a number that does not fit. */
  method CopyHigh(input: Flonum, out: Flonum)
    requires input.Valid() && input != out && input.digits != out.digits
    requires 0 < out.digits.Length <= input.leader
    modifies out`leader, out`exponent, out.digits
    ensures var shorten := input.leader + 1 - out.digits.Length;
      && out.Valid() && out.Mantissa() == input.Mantissa()[shorten..] && out.exponent == input.exponent + shorten
  {
    var outLength := out.digits.Length - 1;
    var shorten := input.leader - outLength;
    CopyDigits(input.digits, shorten, out.digits, outLength + 1);
    out.leader := outLength;
    out.exponent := input.exponent + shorten;
  }

  /** Copies input to out, keeping the high digits when out is shorter.  The clearing of unused
      high digits counts bytes where it means digits, so only about half of them are cleared;
      they lie above the leader. */
  method FlonumCopy(input: Flonum, out: Flonum)
    requires input.Valid() && input != out && input.digits != out.digits
    requires out.digits.Length > 0
    modifies out, out.digits
    ensures var p := Truncated(input.Mantissa(), out.digits.Length);
      && out.Valid() && out.Mantissa() == p.mant && out.sign == input.sign
      && out.exponent == if p.mant == [] then old(out.exponent) else input.exponent + p.k
    ensures input.leader >= 0 ==> forall j :: input.leader < j < out.digits.Length ==>
      out.digits[j] == Cleared(old(out.digits[j]), 2 * (j - input.leader - 1), out.digits.Length - 1 - input.leader)
  {
    hide Cleared;
    out.sign := input.sign;
    if input.leader < 0 {
      out.leader := -1;
    } else if input.leader < out.digits.Length {
      CopyWhole(input, out);
    } else {
      CopyHigh(input, out);
    }
  }
}
