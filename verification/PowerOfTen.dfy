/** Powers of ten as products of table entries, one for each bit of the exponent. */
module PowerOfTen {
  import opened Littlenums
  import opened FlonumProduct
  import opened FlonumValue

  function Pow2(k: nat): (p: nat)
    ensures p > 0
  {
    if k == 0 then 1 else 2 * Pow2(k - 1)
  }

  /** Copying an empty mantissa leaves the exponent of the target alone. */
  function Copied(t: Num, target: Num): Num {
    if t.mant == [] then Num([], target.exp) else t
  }

  /** acc times the table entries for the bits of e, whose lowest bit has place number `place`.
      The second component says that a bit had no table entry. */
  function Power(e: nat, place: nat, acc: Num, table: seq<Num>, cap: nat): (Num, bool) {
    if e == 0 then (acc, false)
    else if e % 2 == 0 then Power(e / 2, place + 1, acc, table, cap)
    else if place >= |table| then (acc, true)
    else Power(e / 2, place + 1, Copied(Times(table[place], acc, cap), acc), table, cap)
  }

  /** The table runs out exactly for exponents of 2^(number of entries left) and more. */
  lemma {:induction false} OverflowIff(e: nat, place: nat, acc: Num, table: seq<Num>, cap: nat)
    requires place <= |table|
    ensures Power(e, place, acc, table, cap).1 <==> e >= Pow2(|table| - place)
    decreases e
  {
    if e > 0 {
      if place == |table| {
        PastTheEnd(e, place, acc, table, cap);
      } else {
        var next := if e % 2 == 0 then acc else Copied(Times(table[place], acc, cap), acc);
        OverflowIff(e / 2, place + 1, next, table, cap);
        assert Pow2(|table| - place) == 2 * Pow2(|table| - (place + 1));
      }
    }
  }

  lemma {:induction false} PastTheEnd(e: nat, place: nat, acc: Num, table: seq<Num>, cap: nat)
    requires e > 0 && place >= |table|
    ensures Power(e, place, acc, table, cap).1
    decreases e
  {
    if e % 2 == 0 {
      PastTheEnd(e / 2, place + 1, acc, table, cap);
    }
  }

  /** Neither an empty mantissa nor one with a non-zero leader consists of zeros only. */
  predicate Tidy(mant: seq<Littlenum>) {
    mant == [] || Normalized(mant)
  }

  lemma TimesTidy(a: Num, b: Num, cap: nat)
    requires Tidy(a.mant) && Tidy(b.mant)
    ensures Tidy(Times(a, b, cap).mant)
  {
    if a.mant == [] || b.mant == [] {
      assert Val([]) == 0;
      ZeroProduct(a.mant, b.mant, cap);
    } else {
      MultipNormalized(a.mant, b.mant, cap);
    }
  }

  /** With a table of such entries all results are of this kind, whatever wraps on the way. */
  lemma {:induction false} PowerTidy(e: nat, place: nat, acc: Num, table: seq<Num>, cap: nat)
    requires Tidy(acc.mant) && place > 0 && forall i :: 1 <= i < |table| ==> Tidy(table[i].mant)
    ensures Tidy(Power(e, place, acc, table, cap).0.mant)
    decreases e
  {
    hide Multip, Normalized;
    if e > 0 {
      if e % 2 == 0 {
        PowerTidy(e / 2, place + 1, acc, table, cap);
      } else if place < |table| {
        TimesTidy(table[place], acc, cap);
        PowerTidy(e / 2, place + 1, Copied(Times(table[place], acc, cap), acc), table, cap);
      }
    }
  }

  function Ones(e: nat): nat {
    if e == 0 then 0 else e % 2 + Ones(e / 2)
  }

  /** Every multiplication the exponent calls for is sound. */
  ghost predicate SoundSteps(e: nat, place: nat, acc: Num, table: seq<Num>, cap: nat) {
    e == 0 ||
    if e % 2 == 0 then SoundSteps(e / 2, place + 1, acc, table, cap)
    else place < |table| && Sound(table[place].mant, acc.mant, cap)
         && SoundSteps(e / 2, place + 1, Times(table[place], acc, cap), table, cap)
  }

  /** Every multiplication the exponent calls for also fits, and uses an exact table entry. */
  ghost predicate ExactSteps(e: nat, place: nat, acc: Num, table: seq<Num>, cap: nat, base: real)
    requires base > 0.0
  {
    e == 0 ||
    if e % 2 == 0 then ExactSteps(e / 2, place + 1, acc, table, cap, base)
    else 0 < place < |table| && Sound(table[place].mant, acc.mant, cap)
         && Normalized(table[place].mant)
         && Representable(Val(table[place].mant) * Val(acc.mant), cap)
         && Value(table[place]) == NPow(base, Pow2(place - 1))
         && ExactSteps(e / 2, place + 1, Times(table[place], acc, cap), table, cap, base)
  }

  /** Entry i stands for base^(2^(i-1)), up to one truncation to cap digits. */
  ghost predicate TableFor(table: seq<Num>, base: real, cap: nat)
    requires base > 0.0 && cap > 0
  {
    forall i :: 1 <= i < |table| ==>
      Normalized(table[i].mant) && Close(Value(table[i]), NPow(base, Pow2(i - 1)), cap, 1)
  }

  /** The exponent left after its lowest bit, at its place value. */
  lemma Halve(e: nat, place: nat)
    requires place > 0
    ensures e * Pow2(place - 1) == (e % 2) * Pow2(place - 1) + (e / 2) * Pow2(place)
  {
    var p := Pow2(place - 1);
    assert e == e % 2 + 2 * (e / 2);
    Spread(e % 2, e / 2, p);
  }

  lemma Spread(r: int, q: int, p: int)
    ensures (r + 2 * q) * p == r * p + q * (2 * p)
  {
    assert (2 * q) * p == q * (2 * p);
  }

  /** v * base^(2^(place-1)) * base^(rest) is v * base^(whole exponent). */
  lemma PowerSplit(e: nat, place: nat, base: real, v: real)
    requires place > 0 && base > 0.0 && e % 2 == 1
    ensures NPow(base, Pow2(place - 1)) * v * NPow(base, (e / 2) * Pow2(place)) == v * NPow(base, e * Pow2(place - 1))
  {
    Halve(e, place);
    NPowAdd(base, Pow2(place - 1), (e / 2) * Pow2(place));
    Rearranged(NPow(base, Pow2(place - 1)), v, NPow(base, (e / 2) * Pow2(place)), NPow(base, e * Pow2(place - 1)));
  }

  lemma Rearranged(x: real, v: real, y: real, t: real)
    requires t == x * y
    ensures x * v * y == v * t
  {
    assert x * v * y == v * (x * y);
  }

  /** When all multiplications fit, the result is exactly acc * base^e. */
  lemma {:induction false} PowerExact(e: nat, place: nat, acc: Num, table: seq<Num>, cap: nat, base: real, goal: real)
    requires place > 0 && cap > 0 && base > 0.0
    requires Normalized(acc.mant) && ExactSteps(e, place, acc, table, cap, base)
    requires goal == Value(acc) * NPow(base, e * Pow2(place - 1))
    ensures var (r, overflow) := Power(e, place, acc, table, cap);
      !overflow && Normalized(r.mant) && Value(r) == goal
    decreases e
  {
    hide Value, Times, Sound, Representable, Normalized, Val, Pow2, NPow;
    if e == 0 {
      NPowZero(base);
      ZeroTimes(Pow2(place - 1));
    } else {
      Halve(e, place);
      if e % 2 == 0 {
        ZeroTimes(Pow2(place - 1));
        PowerExact(e / 2, place + 1, acc, table, cap, base, goal);
      } else {
        var t := Times(table[place], acc, cap);
        TimesExact(table[place], acc, cap);
        NormalizedPositive(t);
        PowerSplit(e, place, base, Value(acc));
        PowerExact(e / 2, place + 1, t, table, cap, base, goal);
      }
    }
  }

  lemma NPowZero(base: real)
    requires base > 0.0
    ensures NPow(base, 0) == 1.0
  {
  }

  lemma ZeroTimes(x: int)
    ensures 0 * x == 0
  {
  }

  /** Two truncations for every bit of the exponent is all the error there is. */
  lemma {:induction false} PowerClose(e: nat, place: nat, acc: Num, table: seq<Num>, cap: nat,
                                      base: real, v: real, n: nat, goal: real)
    requires place > 0 && cap > 0 && base > 0.0 && v > 0.0
    requires TableFor(table, base, cap) && SoundSteps(e, place, acc, table, cap)
    requires Normalized(acc.mant) && Close(Value(acc), v, cap, n)
    requires goal == v * NPow(base, e * Pow2(place - 1))
    ensures var (r, overflow) := Power(e, place, acc, table, cap);
      !overflow && Normalized(r.mant) && Close(Value(r), goal, cap, n + 2 * Ones(e))
    decreases e
  {
    hide Value, Times, Sound, Normalized, Pow2, TableFor, Close, NPow;
    if e == 0 {
      NPowZero(base);
      ZeroTimes(Pow2(place - 1));
    } else {
      Halve(e, place);
      if e % 2 == 0 {
        ZeroTimes(Pow2(place - 1));
        PowerClose(e / 2, place + 1, acc, table, cap, base, v, n, goal);
      } else {
        var t, w := Times(table[place], acc, cap), NPow(base, Pow2(place - 1)) * v;
        PowerCloseStep(place, acc, table, cap, base, v, n, w);
        PowerSplit(e, place, base, v);
        PowerClose(e / 2, place + 1, t, table, cap, base, w, n + 2, goal);
      }
    }
  }

  lemma PowerCloseStep(place: nat, acc: Num, table: seq<Num>, cap: nat, base: real, v: real, n: nat, w: real)
    requires 0 < place < |table| && cap > 0 && base > 0.0 && v > 0.0
    requires TableFor(table, base, cap) && Sound(table[place].mant, acc.mant, cap)
    requires Normalized(acc.mant) && Close(Value(acc), v, cap, n)
    requires w == NPow(base, Pow2(place - 1)) * v
    ensures var t := Times(table[place], acc, cap);
      w > 0.0 && Normalized(t.mant) && t.mant != [] && Close(Value(t), w, cap, n + 2)
  {
    hide Close, KeepAll, Keep, Times, Sound, Value, Normalized, NPow, Pow2;
    Positive(NPow(base, Pow2(place - 1)), v);
    TimesOfClose(table[place], NPow(base, Pow2(place - 1)), 1, acc, v, n, cap, w);
  }
}
