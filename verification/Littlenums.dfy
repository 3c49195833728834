/** Bignums of base-65536 digits ("littlenums"), least significant digit first,
    and the number such a digit string stands for. */
module Littlenums {

  const RADIX := 0x10000

  type Littlenum = x: int | 0 <= x < 0x10000

  function Pow(k: nat): (p: nat)
    ensures p > 0
  {
    if k == 0 then 1 else RADIX * Pow(k - 1)
  }

  /** The number a digit string stands for. */
  function Val(s: seq<Littlenum>): nat {
    if s == [] then 0 else s[0] + RADIX * Val(s[1..])
  }

  lemma MulAssoc(x: int, y: int, z: int)
    ensures x * (y * z) == (x * y) * z
  {
  }

  lemma {:induction false} PowAdd(i: nat, j: nat)
    ensures Pow(i + j) == Pow(i) * Pow(j)
  {
    if i > 0 {
      PowAdd(i - 1, j);
      MulAssoc(RADIX, Pow(i - 1), Pow(j));
    }
  }

  lemma {:induction false} ValConcat(s: seq<Littlenum>, t: seq<Littlenum>)
    ensures Val(s + t) == Val(s) + Pow(|s|) * Val(t)
  {
    if s == [] {
      assert s + t == t;
    } else {
      assert (s + t)[1..] == s[1..] + t;
      ValConcat(s[1..], t);
      MulAssoc(RADIX, Pow(|s| - 1), Val(t));
    }
  }

  /** A digit string of length n stands for a number below RADIX^n. */
  lemma {:induction false} ValBound(s: seq<Littlenum>)
    ensures Val(s) < Pow(|s|)
  {
    if s != [] {
      ValBound(s[1..]);
    }
  }

  lemma ValAppend(s: seq<Littlenum>, x: Littlenum)
    ensures Val(s + [x]) == Val(s) + Pow(|s|) * x
  {
    ValConcat(s, [x]);
    assert [x][1..] == [];
    assert Val([x]) == x;
  }

  lemma DivModUnique(n: nat, d: nat, q: nat, r: nat)
    requires n == d * q + r && r < d
    ensures n / d == q && n % d == r
  {
    var q', r' := n / d, n % d;
    assert d * q' + r' == n && 0 <= r' < d;
    if q' < q {
      MulMono(d, q' + 1, q);
    } else if q' > q {
      MulMono(d, q + 1, q');
    }
  }

  lemma MulMono(d: nat, x: int, y: int)
    requires x <= y
    ensures d * x <= d * y
  {
    var k := y - x;
    assert d * y == d * x + d * k;
  }

  /** Splitting a digit string is division with remainder by a power of RADIX. */
  lemma ValSplit(s: seq<Littlenum>, k: nat)
    requires k <= |s|
    ensures Val(s) == Val(s[..k]) + Pow(k) * Val(s[k..])
    ensures Val(s[..k]) == Val(s) % Pow(k) && Val(s[k..]) == Val(s) / Pow(k)
  {
    assert s == s[..k] + s[k..];
    ValConcat(s[..k], s[k..]);
    ValBound(s[..k]);
    DivModUnique(Val(s), Pow(k), Val(s[k..]), Val(s[..k]));
  }

  lemma {:induction false} ValZero(s: seq<Littlenum>)
    ensures Val(s) == 0 <==> forall i :: 0 <= i < |s| ==> s[i] == 0
  {
    if s != [] {
      ValZero(s[1..]);
      if Val(s) == 0 {
        forall i | 0 <= i < |s| ensures s[i] == 0 {
          if i > 0 { assert s[i] == s[1..][i - 1]; }
        }
      }
    }
  }

  /** A string whose top digit is not zero is at least RADIX^(length-1). */
  lemma ValLeader(s: seq<Littlenum>)
    requires s != [] && s[|s| - 1] != 0
    ensures Val(s) >= Pow(|s| - 1)
  {
    var n := |s| - 1;
    assert s == s[..n] + [s[n]];
    ValAppend(s[..n], s[n]);
    MulMono(Pow(n), 1, s[n]);
  }

  lemma DivMul(n: nat, c: nat, d: nat)
    requires c > 0 && d > 0
    ensures c * d > 0 && n / c / d == n / (c * d)
  {
    var q, r := n / c, n % c;
    var q2, r2 := q / d, q % d;
    assert n == c * q + r && q == d * q2 + r2;
    var t := c * r2 + r;
    MulMono(c, r2, d - 1);
    assert t < c * d;
    assert n == (c * d) * q2 + t by { Distribute(c, d, q2, r2); }
    DivModUnique(n, c * d, q2, t);
  }

  lemma Distribute(c: int, d: int, x: int, y: int)
    ensures c * (d * x + y) == (c * d) * x + c * y
  {
    assert c * (d * x) == (c * d) * x;
  }
}
