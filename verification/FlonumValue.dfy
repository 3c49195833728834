/** The real numbers that flonums stand for, and how close a truncated product stays to them. */
module FlonumValue {
  import opened Littlenums
  import opened FlonumProduct

  /** mant * RADIX^exp. */
  datatype Num = Num(mant: seq<Littlenum>, exp: int)

  /** RADIX^e for any integer e. */
  function RadixPow(e: int): (r: real)
    ensures r > 0.0
    decreases if e < 0 then -e else e
  {
    if e == 0 then 1.0 else if e > 0 then 65536.0 * RadixPow(e - 1) else RadixPow(e + 1) / 65536.0
  }

  function Value(x: Num): real {
    Val(x.mant) as real * RadixPow(x.exp)
  }

  lemma RadixPowNext(e: int)
    ensures RadixPow(e + 1) == 65536.0 * RadixPow(e)
  {
  }

  lemma {:induction false} RadixPowAdd(i: int, j: nat, k: int)
    requires k == i + j
    ensures RadixPow(k) == RadixPow(i) * RadixPow(j)
  {
    RadixPowZero();
    hide RadixPow;
    if j > 0 {
      RadixPowAdd(i, j - 1, k - 1);
      RadixPowNext(k - 1);
      RadixPowNext(j - 1);
      Exchange(65536.0, RadixPow(i), RadixPow(j - 1));
    }
  }

  lemma Exchange(x: real, y: real, z: real)
    ensures x * (y * z) == y * (x * z)
  {
  }

  lemma RadixPowZero()
    ensures RadixPow(0) == 1.0
  {
  }

  /** Powers of any two integers add up. */
  lemma RadixPowSum(i: int, j: int)
    ensures RadixPow(i + j) == RadixPow(i) * RadixPow(j)
  {
    RadixPowZero();
    hide RadixPow;
    if j >= 0 {
      RadixPowAdd(i, j, i + j);
    } else {
      RadixPowAdd(j, -j, 0);
      RadixPowAdd(i + j, -j, i);
      Unfactor(RadixPow(i + j), RadixPow(j), RadixPow(-j), RadixPow(i));
    }
  }

  lemma Unfactor(x: real, y: real, z: real, w: real)
    requires 1.0 == y * z && w == x * z
    ensures x == w * y
  {
    assert (x * z) * y == x * (y * z);
  }

  function NPow(base: real, n: nat): (r: real)
    requires base > 0.0
    ensures r > 0.0
  {
    if n == 0 then 1.0 else base * NPow(base, n - 1)
  }

  lemma {:induction false} NPowAdd(base: real, n: nat, m: nat)
    requires base > 0.0
    ensures NPow(base, n + m) == NPow(base, n) * NPow(base, m)
  {
    if n > 0 {
      NPowAdd(base, n - 1, m);
      Associate(base, NPow(base, n - 1), NPow(base, m));
    }
  }

  lemma {:induction false} PowReal(k: nat)
    ensures Pow(k) as real == RadixPow(k)
  {
    if k > 0 {
      PowReal(k - 1);
    }
  }

  lemma NatMul(x: nat, y: nat)
    ensures (x * y) as real == x as real * y as real
  {
  }

  /** The value of a mantissa with k more zero digits. */
  lemma ValueShift(mant: seq<Littlenum>, e: int, k: nat)
    ensures Value(Num(mant, e + k)) == (Pow(k) * Val(mant)) as real * RadixPow(e)
  {
    hide RadixPow, Val, Pow;
    RadixPowAdd(e, k, e + k);
    PowReal(k);
    NatMul(Pow(k), Val(mant));
    Exchange(Val(mant) as real, RadixPow(e), RadixPow(k));
  }

  lemma ValueTimes(a: Num, b: Num)
    ensures Value(a) * Value(b) == (Val(a.mant) * Val(b.mant)) as real * RadixPow(a.exp + b.exp)
  {
    hide RadixPow, Val;
    RadixPowSum(a.exp, b.exp);
    NatMul(Val(a.mant), Val(b.mant));
    Pairs(Val(a.mant) as real, Val(b.mant) as real, RadixPow(a.exp), RadixPow(b.exp));
  }

  lemma Pairs(x: real, y: real, p: real, q: real)
    ensures (x * p) * (y * q) == (x * y) * (p * q)
  {
    assert (x * p) * (y * q) == x * (p * (y * q)) == x * (y * (p * q));
  }

  // ---------------------------------------------------------------------
  // The truncated product
  // ---------------------------------------------------------------------

  function Times(a: Num, b: Num, cap: nat): Num {
    var p := Multip(a.mant, b.mant, cap);
    Num(p.mant, a.exp + b.exp + p.k)
  }

  /** The machine multiplies these two mantissas without wrap-around and without a needless shift. */
  ghost predicate Sound(a: seq<Littlenum>, b: seq<Littlenum>, cap: nat) {
    NoWrap(a, b) && !NeedlessShift(Val(a) * Val(b), Columns(a, b), cap)
  }

  /** A product that fits the destination is exact. */
  lemma TimesExact(a: Num, b: Num, cap: nat)
    requires Normalized(a.mant) && Normalized(b.mant) && cap > 0
    requires Sound(a.mant, b.mant, cap) && Representable(Val(a.mant) * Val(b.mant), cap)
    ensures Value(Times(a, b, cap)) == Value(a) * Value(b) && Normalized(Times(a, b, cap).mant)
  {
    hide RadixPow, Val, Multip, Pow, NoWrap, Representable, NeedlessShift, Normalized, Columns;
    var p := Multip(a.mant, b.mant, cap);
    ExactIff(a.mant, b.mant, cap);
    NonZeroMantissa(a.mant, b.mant, cap);
    ValueShift(p.mant, a.exp + b.exp, p.k);
    ValueTimes(a, b);
  }

  /** What relative truncation to cap digits leaves at least: u / (u + 1) for u = RADIX^(cap-1). */
  function Keep(cap: nat): (r: real)
    requires cap > 0
    ensures 0.0 < r < 1.0
  {
    var u := Pow(cap - 1) as real;
    assert u > 0.0;
    KeepBelowOne(u);
    u / (u + 1.0)
  }

  lemma KeepBelowOne(u: real)
    requires u > 0.0
    ensures 0.0 < u / (u + 1.0) < 1.0
  {
  }

  lemma TimesClose(a: Num, b: Num, cap: nat)
    requires Normalized(a.mant) && Normalized(b.mant) && cap > 0 && Sound(a.mant, b.mant, cap)
    ensures var t, v := Value(Times(a, b, cap)), Value(a) * Value(b);
      Normalized(Times(a, b, cap).mant) && t <= v && v * Keep(cap) <= t
  {
    hide RadixPow, Val, Multip, Pow, NoWrap, NeedlessShift, Value, Normalized, Columns;
    var p, u := Multip(a.mant, b.mant, cap), Pow(cap - 1);
    Accuracy(a.mant, b.mant, cap);
    ValueShift(p.mant, a.exp + b.exp, p.k);
    ValueTimes(a, b);
    Ratio(Val(a.mant) * Val(b.mant), Pow(p.k) * Val(p.mant), u, RadixPow(a.exp + b.exp));
  }

  lemma Ratio(n: nat, q: nat, u: nat, r: real)
    requires u > 0 && r > 0.0 && q <= n && n * u <= q * (u + 1)
    ensures q as real * r <= n as real * r
    ensures n as real * r * (u as real / (u as real + 1.0)) <= q as real * r
  {
    NatMul(n, u);
    NatMul(q, u + 1);
    var x, y, w := n as real, q as real, u as real;
    assert x * w <= y * (w + 1.0);
    Divide(x, w, y, w + 1.0);
    Scale(x * (w / (w + 1.0)), y, r);
    Scale(y, x, r);
    assert x * (w / (w + 1.0)) * r == x * r * (w / (w + 1.0));
  }

  lemma Divide(x: real, w: real, y: real, d: real)
    requires d > 0.0 && x * w <= y * d
    ensures x * (w / d) <= y
  {
    assert x * (w / d) == (x * w) / d;
  }

  lemma Scale(x: real, y: real, r: real)
    requires x <= y && r >= 0.0
    ensures x * r <= y * r && r * x <= r * y
  {
  }

  // ---------------------------------------------------------------------
  // Closeness
  // ---------------------------------------------------------------------

  function KeepAll(cap: nat, n: nat): (r: real)
    requires cap > 0
    ensures r > 0.0
  {
    if n == 0 then 1.0 else Keep(cap) * KeepAll(cap, n - 1)
  }

  /** x is v cut down by at most n truncations to cap digits. */
  predicate Close(x: real, v: real, cap: nat, n: nat)
    requires cap > 0
  {
    0.0 < x <= v && v * KeepAll(cap, n) <= x
  }

  lemma {:induction false} KeepAllAdd(cap: nat, n: nat, m: nat)
    requires cap > 0
    ensures KeepAll(cap, n + m) == KeepAll(cap, n) * KeepAll(cap, m)
  {
    if n > 0 {
      KeepAllAdd(cap, n - 1, m);
      Associate(Keep(cap), KeepAll(cap, n - 1), KeepAll(cap, m));
    }
  }

  lemma Associate(x: real, y: real, z: real)
    ensures x * (y * z) == (x * y) * z
  {
  }

  /** Truncating the product of two close numbers gives one close to the true product. */
  lemma CloseTimes(x: real, v: real, n: nat, y: real, w: real, m: nat, z: real, cap: nat, goal: real)
    requires cap > 0 && Close(x, v, cap, n) && Close(y, w, cap, m) && goal == v * w
    requires 0.0 < z <= x * y && x * y * Keep(cap) <= z
    ensures Close(z, goal, cap, n + m + 1)
  {
    KeepAllSplit(cap, n, m);
    hide KeepAll, Keep;
    MulBelowReal(x, v, y, w);
    CloseLower(x, v, KeepAll(cap, n), y, w, KeepAll(cap, m), Keep(cap), z, KeepAll(cap, n + m + 1), goal);
  }

  lemma KeepAllSplit(cap: nat, n: nat, m: nat)
    requires cap > 0
    ensures KeepAll(cap, n + m + 1) == Keep(cap) * (KeepAll(cap, n) * KeepAll(cap, m))
  {
    KeepAllAdd(cap, n, m);
  }

  lemma CloseLower(x: real, v: real, kn: real, y: real, w: real, km: real, k: real, z: real, t: real, goal: real)
    requires v > 0.0 && w > 0.0 && kn > 0.0 && km > 0.0 && k > 0.0 && t == k * (kn * km) && goal == v * w
    requires v * kn <= x && w * km <= y && x * y * k <= z
    ensures goal * t <= z
  {
    CutProduct(x, v, kn, y, w, km, k);
    Shuffle(v, kn, w, km, k, t);
  }

  lemma CutProduct(x: real, v: real, kn: real, y: real, w: real, km: real, k: real)
    requires v > 0.0 && w > 0.0 && kn > 0.0 && km > 0.0 && k > 0.0
    requires v * kn <= x && w * km <= y
    ensures (v * kn) * (w * km) * k <= x * y * k
  {
    Positive(v, kn);
    Positive(w, km);
    MulBelowReal(v * kn, x, w * km, y);
    Scale((v * kn) * (w * km), x * y, k);
  }

  lemma Positive(x: real, y: real)
    requires x > 0.0 && y > 0.0
    ensures x * y > 0.0
  {
  }

  lemma MulBelowReal(x: real, y: real, z: real, w: real)
    requires 0.0 < x <= y && 0.0 < z <= w
    ensures x * z <= y * w
  {
    Scale(x, y, z);
    Scale(z, w, y);
  }

  lemma Shuffle(v: real, kn: real, w: real, km: real, k: real, t: real)
    requires t == k * (kn * km)
    ensures (v * kn) * (w * km) * k == (v * w) * t
  {
    Pairs(v, w, kn, km);
    Associate(v * w, kn * km, k);
  }

  lemma NormalizedPositive(x: Num)
    requires Normalized(x.mant)
    ensures Value(x) > 0.0 && x.mant != []
  {
    ValLeader(x.mant);
    Positive(Val(x.mant) as real, RadixPow(x.exp));
  }

  /** A sound machine product of numbers close to va and vb is close to va * vb. */
  lemma TimesOfClose(a: Num, va: real, n: nat, b: Num, vb: real, m: nat, cap: nat, goal: real)
    requires cap > 0 && Normalized(a.mant) && Normalized(b.mant) && Sound(a.mant, b.mant, cap)
    requires Close(Value(a), va, cap, n) && Close(Value(b), vb, cap, m) && goal == va * vb
    ensures var t := Times(a, b, cap); Normalized(t.mant) && t.mant != [] && Close(Value(t), goal, cap, n + m + 1)
  {
    hide Times, Sound, Normalized, Value, KeepAll, Keep, Close;
    TimesClose(a, b, cap);
    NormalizedPositive(Times(a, b, cap));
    CloseTimes(Value(a), va, n, Value(b), vb, m, Value(Times(a, b, cap)), cap, goal);
  }
}
