/** The text of a number, part by part, and the numbers that are read from it. */
module DecimalText {
  import opened Characters
  import opened Numerals
  import opened Decimal
  import opened AtofGeneric
  import opened AtofCorrect

  /** Decimal figures. */
  predicate Tens(t: string, ds: seq<nat>) {
    Spells(t, ds) && forall i :: 0 <= i < |ds| ==> ds[i] < 10
  }

  /** The texts in front of the digits of an exponent. */
  const MARKS := ["e", "E", "e+", "E+", "e-", "E-"]

  /** The parts of a number that is written out, and what follows it. */
  datatype Text = Text(whole: string, point: string, fraction: string, mark: string, power: string, rest: string) {
    function All(): string {
      whole + Behind()
    }

    /** What stands behind the whole part. */
    function Behind(): string {
      point + (fraction + Exponent())
    }

    function Exponent(): string {
      mark + (power + rest)
    }

    /** Without its mark a part is left out, and no character that could belong to a number follows. */
    predicate Proper() {
      && (point == "." || (point == "" && fraction == ""))
      && (mark in MARKS || (mark == "" && power == ""))
      && Apart(rest)
    }
  }

  /** A text that cannot be part of the number in front of it. */
  predicate Apart(rest: string) {
    rest == "" || rest[0] !in "0123456789.eE+-"
  }

  /** From p on the text is this. */
  predicate Stands(s: string, p: nat, t: string) {
    p <= |s| && s[p..] == t
  }

  lemma {:induction false} FiguresRead(s: string, p: nat, t: string, rest: string, ds: seq<nat>, before: seq<nat>)
    requires Stands(s, p, t + rest) && Tens(t, ds)
    ensures RunEnd(s, p) == RunEnd(s, p + |t|)
    ensures RunValue(s, p, Worth(before, 10)) == RunValue(s, p + |t|, Worth(before + ds, 10))
    decreases |t|
  {
    if t == "" {
      assert before + ds == before;
    } else {
      assert s[p] == (t + rest)[0] == t[0];
      assert s[p + 1..] == s[p..][1..] == t[1..] + rest;
      assert ds[0] < 10;
      FigureChar(ds[0]);
      assert (before + [ds[0]])[..|before|] == before;
      assert Push(Worth(before, 10), s[p]) == Worth(before + [ds[0]], 10);
      FiguresRead(s, p + 1, t[1..], rest, ds[1..], before + [ds[0]]);
      assert before + [ds[0]] + ds[1..] == before + ds;
    }
  }

  /** A run of figures that no digit follows is read as its worth, behind what was read before. */
  lemma WholeRun(s: string, p: nat, t: string, rest: string, ds: seq<nat>, before: seq<nat>)
    requires Stands(s, p, t + rest) && Tens(t, ds) && (rest == "" || !IsDigit(rest[0]))
    ensures RunEnd(s, p) == p + |t| && RunValue(s, p, Worth(before, 10)) == Worth(before + ds, 10)
  {
    FiguresRead(s, p, t, rest, ds, before);
    After(s, p, t, rest);
  }

  /** What follows a text. */
  lemma After(s: string, p: nat, t: string, rest: string)
    requires Stands(s, p, t + rest)
    ensures Stands(s, p + |t|, rest)
    ensures At(s, p + |t|) == if rest == "" then '\0' else rest[0]
    ensures t != "" ==> At(s, p) == t[0]
  {
    assert s[p + |t|..] == s[p..][|t|..] == rest;
    if rest != "" {
      assert s[p + |t|] == s[p..][|t|];
    }
    if t != "" {
      assert s[p] == s[p..][0];
    }
  }

  /** What a mark does to the figures behind it. */
  function Signed(mark: string, n: int): int {
    if '-' in mark then -n else n
  }

  lemma ExponentReads(s: string, p: nat, mark: string, power: string, rest: string, ps: seq<nat>)
    requires Stands(s, p, mark + (power + rest)) && Tens(power, ps)
    requires mark in MARKS && Apart(rest)
    ensures ReadExponent(s, p) == (Signed(mark, Worth(ps, 10)), p + |mark| + |power|)
  {
    hide *;
    MarkParts(mark);
    MarkSplit(mark, power + rest);
    After(s, p, mark, power + rest);
    LastRun(s, p + |mark|, power, rest, ps);
    After(s, p, mark[..1], mark[1..] + (power + rest));
    SignReads(s, p + 1, mark[1..], power, rest, ps);
    ExponentParts(s, p, mark, Worth(ps, 10), p + |mark| + |power|);
  }

  lemma ExponentParts(s: string, p: nat, mark: string, n: nat, end: nat)
    requires IsExponentMark(At(s, p)) && SignedEnd(s, p + 1) == p + |mark|
    requires At(s, p + 1) == '-' <==> '-' in mark
    requires RunEnd(s, p + |mark|) == end && RunValue(s, p + |mark|, 0) == n
    ensures ReadExponent(s, p) == (Signed(mark, n), end)
  {
    hide RunEnd, RunValue, SignedEnd;
  }

  lemma MarkSplit(mark: string, behind: string)
    requires mark != ""
    ensures mark + behind == mark[..1] + (mark[1..] + behind)
  {
  }

  lemma LastRun(s: string, p: nat, t: string, rest: string, ds: seq<nat>)
    requires Stands(s, p, t + rest) && Tens(t, ds) && Apart(rest)
    ensures RunEnd(s, p) == p + |t| && RunValue(s, p, 0) == Worth(ds, 10)
  {
    assert [] + ds == ds && Worth([], 10) == 0;
    hide Worth, RunValue, RunEnd;
    WholeRun(s, p, t, rest, ds, []);
  }

  lemma MarkParts(mark: string)
    requires mark in MARKS
    ensures mark != "" && IsExponentMark(mark[0])
    ensures mark[1..] == "" || mark[1..] == "+" || mark[1..] == "-"
    ensures '-' in mark <==> mark[1..] == "-"
  {
  }

  lemma NoExponent(s: string, p: nat, rest: string)
    requires Stands(s, p, rest) && Apart(rest)
    ensures ReadExponent(s, p) == (0, p)
  {
    After(s, p, "", rest);
  }

  lemma SignReads(s: string, q: nat, sign: string, power: string, rest: string, ps: seq<nat>)
    requires Stands(s, q, sign + (power + rest)) && Tens(power, ps)
    requires sign == "" || sign == "+" || sign == "-"
    requires Apart(rest)
    ensures SignedEnd(s, q) == q + |sign| && (At(s, q) == '-' <==> sign == "-")
  {
    After(s, q, sign, power + rest);
    if sign == "" {
      After(s, q, power, rest);
      if power != "" {
        FigureChar(ps[0]);
      }
    }
  }

  /** The exponent of a text, if it has one. */
  lemma PowerReads(s: string, p: nat, t: Text, ps: seq<nat>)
    requires Stands(s, p, t.Exponent()) && t.Proper() && Tens(t.power, ps)
    ensures ReadExponent(s, p) == (Signed(t.mark, Worth(ps, 10)), |s| - |t.rest|)
  {
    LengthLeft(s, p, t.Exponent());
    if t.mark == "" {
      assert t.Exponent() == t.rest;
      assert ps == [];
      NoExponent(s, p, t.rest);
    } else {
      hide Stands, ReadExponent, Signed, Worth, Apart;
      ExponentReads(s, p, t.mark, t.power, t.rest, ps);
    }
  }

  lemma LengthLeft(s: string, p: nat, t: string)
    requires Stands(s, p, t)
    ensures p == |s| - |t|
  {
  }

  /** The whole part and what is behind it. */
  lemma WholeReads(s: string, p: nat, t: Text, ws: seq<nat>)
    requires Stands(s, p, t.All()) && t.Proper() && Tens(t.whole, ws)
    ensures var q := p + |t.whole|;
      && RunEnd(s, p) == q && RunValue(s, p, 0) == Worth(ws, 10)
      && Stands(s, q, t.Behind()) && (At(s, q) == '.' <==> t.point == ".")
  {
    NoDigitAhead(t);
    assert [] + ws == ws && Worth([], 10) == 0;
    hide RunEnd, RunValue, Tens, Worth, Stands, Apart, Text.Behind, Text.Exponent;
    After(s, p, t.whole, t.Behind());
    WholeRun(s, p, t.whole, t.Behind(), ws, []);
  }

  lemma FractionReads(s: string, q: nat, t: Text, ws: seq<nat>, fs: seq<nat>)
    requires Stands(s, q, t.Behind())
    requires t.Proper() && t.point == "." && Tens(t.fraction, fs)
    ensures var r := q + 1 + |t.fraction|;
      && RunEnd(s, q + 1) == r && RunValue(s, q + 1, Worth(ws, 10)) == Worth(ws + fs, 10)
      && Stands(s, r, t.Exponent())
  {
    NoDigitAhead(t);
    hide RunEnd, RunValue, Tens, Worth, Stands, Apart, Text.Exponent;
    After(s, q, ".", t.fraction + t.Exponent());
    After(s, q + 1, t.fraction, t.Exponent());
    WholeRun(s, q + 1, t.fraction, t.Exponent(), fs, ws);
  }

  /** Digits, perhaps a point and more digits, perhaps a mark, a sign and an exponent: for every text
      of this kind these are the numbers that are read, wherever it stands. */
  lemma NumberReads(s: string, p: nat, t: Text, ws: seq<nat>, fs: seq<nat>, ps: seq<nat>)
    requires Stands(s, p, t.All()) && t.Proper()
    requires Tens(t.whole, ws) && Tens(t.fraction, fs) && Tens(t.power, ps)
    ensures Read(s, p) == Number(Worth(ws + fs, 10), |t.fraction|, Signed(t.mark, Worth(ps, 10)), |s| - |t.rest|)
  {
    hide *;
    PointOrNot(t, ws, fs);
    WholeReads(s, p, t, ws);
    var q, m, e := p + |t.whole|, Worth(ws + fs, 10), Signed(t.mark, Worth(ps, 10));
    if t.point == "." {
      FractionReads(s, q, t, ws, fs);
      PowerReads(s, q + 1 + |t.fraction|, t, ps);
      ReadPoint(s, p, q, Worth(ws, 10), q + 1 + |t.fraction|, m, e, |s| - |t.rest|);
    } else {
      PowerReads(s, q, t, ps);
      ReadWhole(s, p, q, m, e, |s| - |t.rest|);
    }
  }

  lemma ReadPoint(s: string, p: nat, q: nat, w: nat, r: nat, m: nat, e: int, end: nat)
    requires RunEnd(s, p) == q && At(s, q) == '.' && RunEnd(s, q + 1) == r && ReadExponent(s, r) == (e, end)
    requires RunValue(s, p, 0) == w && RunValue(s, q + 1, w) == m
    ensures Read(s, p) == Number(m, r - (q + 1), e, end)
  {
    hide RunEnd, RunValue, ReadExponent;
  }

  lemma ReadWhole(s: string, p: nat, q: nat, m: nat, e: int, end: nat)
    requires RunEnd(s, p) == q && At(s, q) != '.' && ReadExponent(s, q) == (e, end) && RunValue(s, p, 0) == m
    ensures Read(s, p) == Number(m, 0, e, end)
  {
    hide RunEnd, RunValue, ReadExponent;
  }

  lemma PointOrNot(t: Text, ws: seq<nat>, fs: seq<nat>)
    requires t.Proper() && Tens(t.fraction, fs)
    ensures t.point == "." || (t.Behind() == t.Exponent() && ws + fs == ws && |t.fraction| == 0)
  {
    if t.point == "" {
      assert "" + ("" + t.Exponent()) == t.Exponent();
    }
  }

  /** No digit follows the figures of the whole part or of the fraction. */
  lemma NoDigitAhead(t: Text)
    requires t.Proper()
    ensures var e := t.Exponent();
      e == "" || (!IsDigit(e[0]) && e[0] != '.')
    ensures var b := t.Behind();
      (b == "" || !IsDigit(b[0])) && (t.point == "." <==> b != "" && b[0] == '.')
  {
    if t.mark == "" {
      assert t.Exponent() == t.rest;
    } else {
      assert t.Exponent()[0] == t.mark[0];
    }
    if t.point == "" {
      assert t.Behind() == t.Exponent();
    }
  }

  /** So the number it denotes is that of its figures, moved by its exponent and its point. */
  lemma TextDenotes(s: string, p: nat, t: Text, ws: seq<nat>, fs: seq<nat>, ps: seq<nat>)
    requires Stands(s, p, t.All()) && t.Proper()
    requires Tens(t.whole, ws) && Tens(t.fraction, fs) && Tens(t.power, ps)
    ensures Denoted(Read(s, p)) ==
      (Worth(ws + fs, 10) as real) * TenPow(Signed(t.mark, Worth(ps, 10)) - |t.fraction|)
  {
    hide Stands, Text.All, Text.Proper, Tens, Worth, TenPow, Signed, Read;
    NumberReads(s, p, t, ws, fs, ps);
  }

  lemma ExampleParts(t: Text)
    requires t == Text("2", ".", "5", "e-", "4", "")
    ensures Stands("2.5e-4", 0, t.All()) && t.Proper()
    ensures Tens(t.whole, [2]) && Tens(t.fraction, [5]) && Tens(t.power, [4])
    ensures Signed(t.mark, 4) - |t.fraction| == -5
  {
    assert t.Exponent() == "e-4" && t.Behind() == ".5e-4";
    assert "2.5e-4"[0..] == "2.5e-4" == t.All();
  }

  lemma ExampleFigures()
    ensures Worth([2] + [5], 10) == 25 && Worth([4], 10) == 4
  {
    assert [2] + [5] == [2, 5];
    assert [2, 5][..1] == [2] && [2][..0] == [] && [4][..0] == [];
  }

  lemma FifthPlace()
    ensures TenPow(-5) == 0.00001
  {
    TenPowNext(-1);
    TenPowNext(-2);
    TenPowNext(-3);
    TenPowNext(-4);
    TenPowNext(-5);
    assert TenPow(0) == 1.0;
    hide TenPow;
  }

  /** A number as it is written. */
  lemma WrittenExample()
    ensures Denoted(Read("2.5e-4", 0)) == 0.00025
  {
    hide *;
    var t := Text("2", ".", "5", "e-", "4", "");
    ExampleParts(t);
    ExampleFigures();
    FifthPlace();
    TextDenotes("2.5e-4", 0, t, [2], [5], [4]);
  }

  // ---------------------------------------------------------------------
  // Signs and names
  // ---------------------------------------------------------------------

  /** From p on the text goes on with these letters, small or capital. */
  predicate Begins(s: string, p: nat, small: string, capital: string) {
    |small| == |capital| && forall i :: 0 <= i < |small| ==> At(s, p + i) == small[i] || At(s, p + i) == capital[i]
  }

  /** The names of what is no number. */
  lemma NamesRead(s: string, p: nat)
    ensures IsNan(s, p) <==> Begins(s, p, "nan", "NAN")
    ensures IsInf(s, p) <==> Begins(s, p, "inf", "INF")
    ensures IsInity(s, p) <==> Begins(s, p, "inity", "INITY")
  {
    BeginsEach(s, p, "nan", "NAN");
    BeginsEach(s, p, "inf", "INF");
    BeginsEach(s, p, "inity", "INITY");
  }

  lemma BeginsEach(s: string, p: nat, small: string, capital: string)
    requires |small| == |capital| && (|small| == 3 || |small| == 5)
    ensures Begins(s, p, small, capital) <==>
      && Letter(At(s, p), small[0], capital[0]) && Letter(At(s, p + 1), small[1], capital[1])
      && Letter(At(s, p + 2), small[2], capital[2])
      && (|small| == 5 ==> Letter(At(s, p + 3), small[3], capital[3]) && Letter(At(s, p + 4), small[4], capital[4]))
  {
    var holds := Begins(s, p, small, capital);
    if holds {
      assert forall i :: 0 <= i < |small| ==> At(s, p + i) == small[i] || At(s, p + i) == capital[i];
      assert At(s, p + 0) == small[0] || At(s, p + 0) == capital[0];
    }
  }

  /** In front of a number there may be a sign. */
  lemma LeadReads(s: string, p: nat, lead: string, t: Text, ws: seq<nat>)
    requires Stands(s, p, lead + t.All()) && t.Proper()
    requires (lead == "" || lead == "+" || lead == "-") && Tens(t.whole, ws) && t.whole + t.point != ""
    ensures SignedEnd(s, p) == p + |lead| <= |s| && s[p + |lead|..] == t.All()
    ensures At(s, p) == '-' <==> lead == "-"
    ensures !IsNan(s, p + |lead|) && !IsInf(s, p + |lead|)
  {
    After(s, p, lead, t.All());
    assert t.All()[0] == (t.whole + t.point)[0];
    if t.whole != "" {
      FigureChar(ws[0]);
    }
  }
}
