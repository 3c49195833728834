/** Numbers written with digits. */
module Numerals {

  function DigitChar(d: nat): char
    requires d < 10
  {
    '0' + d as char
  }

  function Digits(n: nat, base: nat): (s: string)
    requires base == 8 || base == 10
    ensures |s| > 0 && forall i :: 0 <= i < |s| ==> '0' <= s[i] <= '9'
  {
    if n < base then [DigitChar(n)] else Digits(n / base, base) + [DigitChar(n % base)]
  }

  lemma {:induction false} DigitsBound(n: nat, base: nat, k: nat, bound: nat)
    requires (base == 8 || base == 10) && n < bound && k > 0 && bound <= PowerOf(base, k)
    ensures |Digits(n, base)| <= k
    decreases k
  {
    assert PowerOf(base, 0) == 1;
    if n >= base {
      Shrink(n, base, PowerOf(base, k - 1));
      DigitsBound(n / base, base, k - 1, PowerOf(base, k - 1));
    }
  }

  function PowerOf(base: nat, k: nat): nat {
    if k == 0 then 1 else base * PowerOf(base, k - 1)
  }

  lemma Shrink(n: nat, b: nat, p: nat)
    requires b > 0 && n < b * p
    ensures n / b < p
  {
    Quotient(n / b, b, p, n % b);
  }

  lemma Quotient(q: int, b: int, p: int, r: int)
    requires b > 0 && b * q + r < b * p && r >= 0
    ensures q < p
  {
  }

  // ---------------------------------------------------------------------
  // What a numeral is
  // ---------------------------------------------------------------------

  /** The figures of all bases up to sixteen, in their order. */
  const FIGURES := "0123456789abcdef"
  const CAPITALS := "0123456789ABCDEF"

  /** Figure by figure, a text spells these numbers. */
  predicate Spells(s: string, ds: seq<nat>) {
    |s| == |ds| && forall i :: 0 <= i < |ds| ==> ds[i] < 16 && (s[i] == FIGURES[ds[i]] || s[i] == CAPITALS[ds[i]])
  }

  /** What figures are worth by their places. */
  function Worth(ds: seq<nat>, base: nat): nat {
    if ds == [] then 0 else Worth(ds[..|ds| - 1], base) * base + ds[|ds| - 1]
  }

  /** A text is the numeral of n: figures below the base, worth n, without a zero in front. */
  ghost predicate Numeral(s: string, n: nat, base: nat) {
    exists ds: seq<nat> ::
      && Spells(s, ds) && Worth(ds, base) == n && ds != []
      && (forall i :: 0 <= i < |ds| ==> ds[i] < base) && (ds[0] == 0 ==> |ds| == 1)
  }

  function FiguresOf(n: nat, base: nat): (ds: seq<nat>)
    requires base == 8 || base == 10
    ensures ds != [] && (forall i :: 0 <= i < |ds| ==> ds[i] < base) && (ds[0] == 0 ==> n == 0 && |ds| == 1)
  {
    if n < base then [n] else FiguresOf(n / base, base) + [n % base]
  }

  lemma FigureChar(d: nat)
    requires d < 10
    ensures FIGURES[d] == DigitChar(d) == CAPITALS[d]
  {
  }

  lemma {:induction false} DigitsSpell(n: nat, base: nat)
    requires base == 8 || base == 10
    ensures Spells(Digits(n, base), FiguresOf(n, base)) && Worth(FiguresOf(n, base), base) == n
    decreases n
  {
    if n < base {
      FigureChar(n);
      assert [n][..0] == [];
    } else {
      DigitsSpell(n / base, base);
      FigureChar(n % base);
      SpellMore(Digits(n / base, base), FiguresOf(n / base, base), n % base, base);
      assert n / base * base + n % base == n;
    }
  }

  lemma SpellMore(s: string, ds: seq<nat>, d: nat, base: nat)
    requires Spells(s, ds) && d < 10
    ensures Spells(s + [DigitChar(d)], ds + [d]) && Worth(ds + [d], base) == Worth(ds, base) * base + d
  {
    FigureChar(d);
    assert (ds + [d])[..|ds|] == ds;
  }

  /** Printed numbers are numerals. */
  lemma DigitsNumeral(n: nat, base: nat)
    requires base == 8 || base == 10
    ensures Numeral(Digits(n, base), n, base)
  {
    hide Digits, Worth, Spells, FiguresOf;
    DigitsSpell(n, base);
    var ds := FiguresOf(n, base);
    assert Spells(Digits(n, base), ds);
  }
}
