/** Decimal numbers as text: what a text denotes, and the scan that finds its significant digits. */
module Decimal {
  import opened Characters

  predicate IsExponentMark(c: char) {
    c == 'e' || c == 'E'
  }

  function Pow10(k: nat): (p: nat)
    ensures p > 0
  {
    if k == 0 then 1 else 10 * Pow10(k - 1)
  }

  function Push(acc: nat, c: char): nat
    requires IsDigit(c)
  {
    10 * acc + (c as int - '0' as int)
  }

  // ---------------------------------------------------------------------
  // The number a text denotes
  // ---------------------------------------------------------------------

  /** The end of the run of digits that starts at i. */
  function RunEnd(s: string, i: nat): (j: nat)
    ensures i <= j && !IsDigit(At(s, j))
    ensures forall k :: i <= k < j ==> IsDigit(At(s, k))
    ensures i <= |s| ==> j <= |s|
    decreases |s| - i
  {
    if IsDigit(At(s, i)) then RunEnd(s, i + 1) else i
  }

  /** The digits of the run at i, written after those of acc. */
  function RunValue(s: string, i: nat, acc: nat): nat
    decreases |s| - i
  {
    if IsDigit(At(s, i)) then RunValue(s, i + 1, Push(acc, At(s, i))) else acc
  }

  /** mantissa * 10^(exponent - scale), read from a text up to `end`. */
  datatype Number = Number(mantissa: nat, scale: nat, exponent: int, end: nat)

  function SignedEnd(s: string, i: nat): nat {
    if At(s, i) == '+' || At(s, i) == '-' then i + 1 else i
  }

  function ReadExponent(s: string, i: nat): (int, nat) {
    if IsExponentMark(At(s, i)) then
      var j := SignedEnd(s, i + 1);
      var v: int := RunValue(s, j, 0);
      (if At(s, i + 1) == '-' then -v else v, RunEnd(s, j))
    else
      (0, i)
  }

  /** Where the digits of the number whose whole part ends at p end. */
  function FractionEnd(s: string, p: nat): nat {
    if At(s, p) == '.' then RunEnd(s, p + 1) else p
  }

  /** A decimal number: digits, perhaps a mark and more digits, perhaps an exponent. */
  function Read(s: string, i: nat): Number {
    var p := RunEnd(s, i);
    var (e, end) := ReadExponent(s, FractionEnd(s, p));
    if At(s, p) == '.' then
      Number(RunValue(s, p + 1, RunValue(s, i, 0)), RunEnd(s, p + 1) - (p + 1), e, end)
    else
      Number(RunValue(s, i, 0), 0, e, end)
  }

  // ---------------------------------------------------------------------
  // The significant digits
  // ---------------------------------------------------------------------

  /** The next `count` digits from p on, whatever stands between them. */
  function Horner(s: string, p: nat, count: nat, acc: nat): nat
    decreases |s| - p
  {
    if count == 0 || p >= |s| then acc
    else if IsDigit(At(s, p)) then Horner(s, p + 1, count - 1, Push(acc, At(s, p)))
    else Horner(s, p + 1, count, acc)
  }

  /** `before` digits without leading zero from `first` on, then `after` digits without trailing
      zero behind a mark, are all that matters of the number at `start`. */
  ghost predicate Found(s: string, start: nat, first: nat, before: nat, after: nat) {
    var p := first + before;
    && start <= first && p == RunEnd(s, start) && p <= |s|
    && (forall k :: start <= k < first ==> At(s, k) == '0')
    && (before > 0 ==> At(s, first) != '0')
    && (At(s, p) != '.' ==> after == 0)
    && (At(s, p) == '.' ==> p + 1 + after <= RunEnd(s, p + 1)
                            && (forall k :: p + after < k < RunEnd(s, p + 1) ==> At(s, k) == '0'))
    && (after > 0 ==> At(s, p + after) != '0')
  }

  lemma {:induction false} RunZeros(s: string, i: nat, j: nat, acc: nat)
    requires i <= j && forall k :: i <= k < j ==> At(s, k) == '0'
    ensures RunEnd(s, i) == RunEnd(s, j) && RunValue(s, i, acc) == RunValue(s, j, acc * Pow10(j - i))
    decreases j - i
  {
    if i < j {
      assert Push(acc, '0') == 10 * acc;
      RunZeros(s, i + 1, j, 10 * acc);
      TenTimes(acc, Pow10(j - i - 1));
    }
  }

  lemma TenTimes(x: int, y: int)
    ensures 10 * x * y == x * (10 * y)
  {
  }

  lemma {:induction false} RunHorner(s: string, i: nat, n: nat, acc: nat)
    requires i + n <= RunEnd(s, i) && i <= |s|
    ensures RunValue(s, i, acc) == RunValue(s, i + n, Horner(s, i, n, acc))
    ensures RunEnd(s, i + n) == RunEnd(s, i)
    decreases n
  {
    if n > 0 {
      assert IsDigit(At(s, i));
      RunHorner(s, i + 1, n - 1, Push(acc, At(s, i)));
    }
  }

  lemma {:induction false} HornerSplit(s: string, p: nat, n: nat, m: nat, acc: nat)
    requires p + n <= RunEnd(s, p) && p <= |s|
    ensures Horner(s, p, n + m, acc) == Horner(s, p + n, m, Horner(s, p, n, acc))
    decreases n
  {
    if n > 0 {
      assert IsDigit(At(s, p));
      RunHorner(s, p, 1, 0);
      HornerSplit(s, p + 1, n - 1, m, Push(acc, At(s, p)));
    }
  }

  /** The digits that were found, with as many zeros as were cut off, are the number. */
  lemma FoundValue(s: string, start: nat, first: nat, before: nat, after: nat)
    requires Found(s, start, first, before, after)
    ensures var d := Read(s, start);
      && after <= d.scale
      && d.mantissa == Horner(s, first, before + after, 0) * Pow10(d.scale - after)
  {
    hide RunValue, RunEnd, Horner, Pow10, ReadExponent;
    var p := first + before;
    RunZeros(s, start, first, 0);
    RunHorner(s, first, before, 0);
    HornerSplit(s, first, before, after, 0);
    var whole := Horner(s, first, before, 0);
    Stop(s, p, whole);
    SkipMark(s, p, after, whole);
    if At(s, p) == '.' {
      var q, n := p + 1 + after, Horner(s, p + 1, after, whole);
      RunHorner(s, p + 1, after, whole);
      RunZeros(s, q, RunEnd(s, p + 1), n);
      Stop(s, RunEnd(s, p + 1), n * Pow10(RunEnd(s, p + 1) - q));
    }
  }

  lemma Stop(s: string, p: nat, acc: nat)
    requires !IsDigit(At(s, p))
    ensures RunValue(s, p, acc) == acc && Horner(s, p, 0, acc) == acc && Pow10(0) == 1
  {
  }

  lemma SkipMark(s: string, p: nat, n: nat, acc: nat)
    ensures At(s, p) == '.' ==> Horner(s, p, n, acc) == Horner(s, p + 1, n, acc)
  {
  }

  lemma {:induction false} HornerPositive(s: string, p: nat, count: nat, acc: nat)
    requires acc > 0
    ensures Horner(s, p, count, acc) > 0
    decreases |s| - p
  {
    if count > 0 && p < |s| {
      if IsDigit(At(s, p)) {
        HornerPositive(s, p + 1, count - 1, Push(acc, At(s, p)));
      } else {
        HornerPositive(s, p + 1, count, acc);
      }
    }
  }

  /** There are digits left exactly when the number is not zero. */
  lemma FoundNonZero(s: string, start: nat, first: nat, before: nat, after: nat)
    requires Found(s, start, first, before, after)
    ensures before + after == 0 <==> Read(s, start).mantissa == 0
  {
    FoundValue(s, start, first, before, after);
    hide RunValue, RunEnd, Pow10, ReadExponent;
    var p := first + before;
    var n := Horner(s, first, before + after, 0);
    if before > 0 {
      assert IsDigit(At(s, first));
      HornerPositive(s, first + 1, before - 1 + after, Push(0, At(s, first)));
    } else if after > 0 {
      assert Horner(s, p, after, 0) == Horner(s, p + 1, after, 0);
      LastDigit(s, p + 1, after, 0);
    }
    Product(n, Pow10(Read(s, start).scale - after));
  }

  lemma Product(x: nat, y: nat)
    requires y > 0
    ensures x * y == 0 <==> x == 0
  {
  }

  lemma {:induction false} LastDigit(s: string, p: nat, n: nat, acc: nat)
    requires n > 0 && p + n <= RunEnd(s, p) && p <= |s| && At(s, p + n - 1) != '0'
    ensures Horner(s, p, n, acc) > 0
    decreases n
  {
    assert IsDigit(At(s, p));
    if n > 1 {
      RunHorner(s, p, 1, 0);
      LastDigit(s, p + 1, n - 1, Push(acc, At(s, p)));
    } else {
      HornerPositive(s, p + 1, 0, Push(acc, At(s, p)));
    }
  }

  // ---------------------------------------------------------------------
  // The scan
  // ---------------------------------------------------------------------

  datatype Scanned = Scanned(first: nat, before: nat, after: nat, exponent: int, end: nat)

  method ScanWhole(s: string, start: nat) returns (first: nat, before: nat, p: nat, seen: bool)
    requires start <= |s|
    ensures start <= first <= p == RunEnd(s, start) == first + before <= |s|
    ensures seen <==> before > 0
    ensures seen ==> At(s, first) != '0'
    ensures forall k :: start <= k < first ==> At(s, k) == '0'
  {
    first, before, p, seen := start, 0, start, false;
    while At(s, p) != '\0' && At(s, p) != '.' && !IsExponentMark(At(s, p))
      invariant start <= first <= p <= |s| && p == first + before
      invariant RunEnd(s, p) == RunEnd(s, start)
      invariant seen <==> before > 0
      invariant seen ==> At(s, first) != '0'
      invariant forall k :: start <= k < first ==> At(s, k) == '0'
      decreases |s| - p
    {
      var c := At(s, p);
      if !IsDigit(c) {
        break;
      }
      if seen || c > '0' {
        before := before + 1;
        seen := true;
      } else {
        first := first + 1;
      }
      p := p + 1;
    }
  }

  method ScanFraction(s: string, mark: nat, wasSeen: bool) returns (after: nat, p: nat)
    requires mark < |s|
    ensures p == RunEnd(s, mark + 1) && mark + 1 + after <= p
    ensures forall k :: mark + after < k < p ==> At(s, k) == '0'
  {
    var seen := wasSeen;
    after, p := 0, mark + 1;
    while At(s, p) != '\0' && !IsExponentMark(At(s, p))
      invariant mark < p <= |s| && after == p - (mark + 1)
      invariant RunEnd(s, p) == RunEnd(s, mark + 1)
      invariant seen || forall k :: mark < k < p ==> At(s, k) == '0'
      decreases |s| - p
    {
      var c := At(s, p);
      if !IsDigit(c) {
        if !seen {
          after := 0;
        }
        break;
      }
      after := after + 1;
      if c > '0' {
        seen := true;
      }
      p := p + 1;
    }
  }

  /** Drops the zeros at the end of the fraction, whose digits start just after `mark`. */
  method StripZeros(s: string, mark: nat, fraction: nat) returns (after: nat)
    ensures after <= fraction && (after > 0 ==> At(s, mark + after) != '0')
    ensures forall k :: mark + after < k <= mark + fraction ==> At(s, k) == '0'
  {
    after := fraction;
    while after > 0 && At(s, mark + after) == '0'
      invariant after <= fraction
      invariant forall k :: mark + after < k <= mark + fraction ==> At(s, k) == '0'
    {
      after := after - 1;
    }
  }

  method ScanExponent(s: string, start: nat) returns (exponent: int, p: nat)
    ensures (exponent, p) == ReadExponent(s, start)
  {
    exponent, p := 0, start;
    if IsExponentMark(At(s, p)) {
      p := p + 1;
      var negative := At(s, p) == '-';
      if At(s, p) == '+' || At(s, p) == '-' {
        p := p + 1;
      }
      ghost var from := p;
      while IsDigit(At(s, p))
        invariant RunEnd(s, p) == RunEnd(s, from) && exponent >= 0
        invariant RunValue(s, p, exponent) == RunValue(s, from, 0)
        decreases |s| - p
      {
        exponent := exponent * 10 + (At(s, p) as int - '0' as int);
        p := p + 1;
      }
      if negative {
        exponent := -exponent;
      }
    }
  }

  /** The digits that matter: no zeros in front of the mark, none at the end of the fraction. */
  method ScanNumber(s: string, start: nat) returns (r: Scanned)
    requires start <= |s|
    ensures Found(s, start, r.first, r.before, r.after)
    ensures r.end == Read(s, start).end && r.exponent == Read(s, start).exponent
  {
    hide RunValue, RunEnd;
    var first, before, p, seen := ScanWhole(s, start);
    var after := 0;
    if At(s, p) == '.' {
      var mark := p;
      after, p := ScanFraction(s, p, seen);
      after := StripZeros(s, mark, after);
    }
    var exponent, end := ScanExponent(s, p);
    r := Scanned(first, before, after, exponent, end);
  }
}
