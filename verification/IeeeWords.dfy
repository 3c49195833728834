/** From flonum to the 16-bit words of an IEEE number. */
module IeeeWords {
  import opened Littlenums
  import opened PowerOfTen
  import opened AtofGeneric
  import opened BitReaders
  import opened Flonums

  /** 16-bit words in all, and how many bits of them hold the exponent. */
  datatype Format = Format(precision: nat, exponentBits: nat) {
    /** The bits of the fraction. */
    function FractionBits(): int {
      16 * precision - 1 - exponentBits
    }
  }

  /** Single and double. */
  predicate Supported(fmt: Format) {
    fmt == Format(2, 8) || fmt == Format(4, 11)
  }

  /** The number in words, most significant word first. */
  function Big(ws: seq<Littlenum>): nat {
    if ws == [] then 0 else 0x10000 * Big(ws[..|ws| - 1]) + ws[|ws| - 1]
  }

  lemma BigAppend(ws: seq<Littlenum>, x: Littlenum)
    ensures Big(ws + [x]) == 0x10000 * Big(ws) + x
  {
    assert (ws + [x])[..|ws|] == ws;
  }

  lemma {:induction false} BigBound(ws: seq<Littlenum>)
    ensures Big(ws) < Pow(|ws|)
  {
    if ws != [] {
      BigBound(ws[..|ws| - 1]);
    }
  }

  lemma {:induction false} BigUpdate(ws: seq<Littlenum>, i: nat, x: Littlenum)
    requires i < |ws|
    ensures Big(ws[i := x]) == Big(ws) + Pow(|ws| - 1 - i) * (x - ws[i])
  {
    var n := |ws| - 1;
    if i == n {
      assert ws[i := x][..n] == ws[..n];
    } else {
      assert ws[i := x][..n] == ws[..n][i := x];
      BigUpdate(ws[..n], i, x);
      MulAssoc(0x10000, Pow(n - 1 - i), x - ws[i]);
    }
  }

  // ---------------------------------------------------------------------
  // Words filled from a bit reader
  // ---------------------------------------------------------------------

  /** Below the value `high` of the first word, the words hold the k bits behind the first q. */
  ghost predicate Stored(ws: seq<Littlenum>, high: nat, m: seq<Littlenum>, q: nat, k: nat) {
    && ws != [] && Big(ws) >= ShiftLeft(high, 16 * (|ws| - 1))
    && Reads(m, q, k, Big(ws) - ShiftLeft(high, 16 * (|ws| - 1)))
  }

  lemma ReadsJoin(m: seq<Littlenum>, q: nat, k: nat, r: nat, l: nat, x: nat)
    requires Reads(m, q, k, r) && Reads(m, q + k, l, x)
    ensures Reads(m, q, k + l, ShiftLeft(r, l) + x)
  {
    hide First, Pow2;
    Pow2Add(k, l);
    Combine(Pow2(k), Pow2(l), Pow2(k + l), First(m, q), r, x);
  }

  lemma Shift16(x: nat, n: nat)
    ensures ShiftLeft(x, 16) == 0x10000 * x && ShiftLeft(x, 0) == x
    ensures ShiftLeft(x, 16 * (n + 1)) == 0x10000 * ShiftLeft(x, 16 * n)
    ensures ShiftLeft(0, n) == 0
  {
    OneBit();
    Sixteen();
    Pow2Add(16, 16 * n);
    hide Pow2;
    Regroup3(x, 0x10000, Pow2(16 * n));
  }

  lemma StoredFirst(high: nat, x: nat, m: seq<Littlenum>, q: nat, k: nat)
    requires high + x < 0x10000 && Reads(m, q, k, x)
    ensures Stored([high + x], high, m, q, k)
  {
    BigAppend([], high + x);
    Shift16(high, 0);
    assert [] + [high + x] == [high + x];
    hide Reads, ShiftLeft;
  }

  lemma StoredNext(ws: seq<Littlenum>, high: nat, m: seq<Littlenum>, q: nat, k: nat, x: nat)
    requires Stored(ws, high, m, q, k) && Reads(m, q + k, 16, x) && x < 0x10000
    ensures Stored(ws + [x], high, m, q, k + 16)
  {
    hide Reads, ShiftLeft, Big;
    BigAppend(ws, x);
    var r := Big(ws) - ShiftLeft(high, 16 * (|ws| - 1));
    ReadsJoin(m, q, k, r, 16, x);
    Shift16(high, |ws| - 1);
    Shift16(r, 0);
  }

  lemma StoredNothing(ws: seq<Littlenum>, high: nat, m: seq<Littlenum>, q: nat)
    requires Stored(ws, high, m, q, 0)
    ensures Big(ws) == ShiftLeft(high, 16 * (|ws| - 1)) && Reads(m, q, 0, 0)
  {
    hide First, ShiftLeft;
  }

  /** A word with fewer than 16 bits, in front of which there are none. */
  lemma StoredPart(ws: seq<Littlenum>, high: nat, m: seq<Littlenum>, q: nat, k: nat, x: nat)
    requires Stored(ws, high, m, q, 0) && Reads(m, q, k, x) && x < 0x10000
    ensures Stored(ws + [x], high, m, q, k)
  {
    hide Reads, ShiftLeft, Big;
    StoredNothing(ws, high, m, q);
    BigAppend(ws, x);
    Shift16(high, |ws| - 1);
  }

  lemma SmallBits(k: nat)
    requires k <= 16
    ensures Pow2(k) <= 0x10000
  {
    Pow2Monotone(k, 16);
    Sixteen();
  }

  lemma ReadsBelow(m: seq<Littlenum>, q: nat, k: nat, x: nat)
    requires Reads(m, q, k, x) && k <= 16
    ensures x < Pow2(k) <= 0x10000
  {
    SmallBits(k);
  }

  /** Fills words[from..to] with mantissa bits. */
  method FillWords(reader: BitReader, words: array<Littlenum>, from: nat, to: nat,
                   ghost high: nat, ghost q: nat, ghost k: nat)
    requires reader.Valid() && 0 < from <= to <= words.Length && words != reader.digits
    requires reader.position == q + k && Stored(words[..from], high, reader.mantissa, q, k)
    modifies reader`pointer, reader`littlenumsLeft, reader`bitsLeft, reader`position, words
    ensures reader.Valid() && reader.position == q + k + 16 * (to - from)
    ensures Stored(words[..to], high, reader.mantissa, q, k + 16 * (to - from))
    ensures forall i :: to <= i < words.Length ==> words[i] == old(words[i])
  {
    hide Stored, Reads, Pow2;
    ghost var m := reader.mantissa;
    var lp := from;
    while lp < to
      invariant from <= lp <= to && reader.Valid() && reader.position == q + k + 16 * (lp - from)
      invariant Stored(words[..lp], high, m, q, k + 16 * (lp - from))
      invariant forall i :: to <= i < words.Length ==> words[i] == old(words[i])
    {
      ghost var before := words[..lp];
      var x := reader.NextBits(16);
      ReadsBelow(m, q + k + 16 * (lp - from), 16, x);
      assert words[..lp] == before;
      words[lp] := x;
      StoredNext(before, high, m, q, k + 16 * (lp - from), x);
      lp := lp + 1;
      assert words[..lp] == before + [x];
    }
  }

  /** Adds 1 to the number in words[..count], with the carry running to the first word. */
  method RoundUp(words: array<Littlenum>, count: nat)
    requires 0 < count <= words.Length
    modifies words
    ensures var b := Big(old(words[..count]));
      Big(words[..count]) == if b + 1 == Pow(count) then 0 else b + 1
    ensures forall i :: count <= i < words.Length ==> words[i] == old(words[i])
  {
    hide Big, Pow;
    ghost var b := Big(words[..count]);
    PowStart();
    BigBound(words[..count]);
    var carry, lp := 1, count - 1;
    while carry != 0 && lp >= 0
      invariant -1 <= lp < count && 0 <= carry <= 1
      invariant Big(words[..count]) + Pow(count - 1 - lp) * carry == b + 1
      invariant forall i :: count <= i < words.Length ==> words[i] == old(words[i])
      decreases lp
    {
      ghost var before, x := words[..count], words[lp];
      carry := (words[lp] as int) + carry;
      BigUpdate(before, lp, carry % 0x10000);
      CarryStep(Pow(count - 1 - lp), x, carry, Big(before), b + 1);
      PowNext(count - 1 - lp);
      words[lp] := carry % 0x10000;
      assert words[..count] == before[lp := carry % 0x10000];
      carry := carry / 0x10000;
      lp := lp - 1;
    }
    BigBound(words[..count]);
    CarryOut(Pow(count), carry);
    CarryOut(Pow(count - 1 - lp), carry);
  }

  lemma PowStart()
    ensures Pow(0) == 1
  {
  }

  lemma CarryOut(p: int, c: int)
    requires 0 <= c <= 1
    ensures p * c == if c == 1 then p else 0
  {
  }

  lemma CarryStep(p: int, x: int, sum: int, big: int, goal: int)
    requires 0 <= x < 0x10000 && sum == x + 1 && big + p * 1 == goal
    ensures big + p * (sum % 0x10000 - x) + (0x10000 * p) * (sum / 0x10000) == goal
    ensures 0 <= sum / 0x10000 <= 1
  {
    assert sum == sum % 0x10000 + 0x10000 * (sum / 0x10000);
    if sum == 0x10000 {
      assert sum % 0x10000 == 0 && sum / 0x10000 == 1;
    } else {
      assert sum % 0x10000 == sum && sum / 0x10000 == 0;
    }
  }
}
