/** The columns of an ar header, byte by byte. */
module ArHeaders {
  import opened ArFormat
  import opened Numerals

  /** A text stands at the left of a column, with blanks behind it. */
  predicate LeftJustified(column: string, text: string) {
    |text| <= |column| && column[..|text|] == text && forall i :: |text| <= i < |column| ==> column[i] == ' '
  }

  /** A number, with a minus sign if it is below zero. */
  ghost predicate Signed(text: string, n: int, base: nat) {
    if n < 0 then text != "" && text[0] == '-' && Numeral(text[1..], -n, base) else Numeral(text, n, base)
  }

  /** A number at the left of a column. */
  ghost predicate Field(column: string, n: int, base: nat) {
    exists text: string :: LeftJustified(column, text) && Signed(text, n, base)
  }

  // ---------------------------------------------------------------------
  // Writing
  // ---------------------------------------------------------------------

  lemma NumberSigned(n: int, base: nat)
    requires base == 8 || base == 10
    ensures Signed(Number(n, base), n, base)
  {
    hide Digits, Numeral;
    DigitsNumeral(if n < 0 then -n else n, base);
    if n < 0 {
      assert Number(n, base)[1..] == Digits(-n, base);
    }
  }

  lemma ColumnField(n: int, base: nat, width: nat)
    requires base == 8 || base == 10
    ensures |Number(n, base)| <= width ==> Field(Column(Number(n, base), width), n, base)
  {
    hide Number, Signed;
    NumberSigned(n, base);
    if |Number(n, base)| <= width {
      ColumnLeft(Number(n, base), width);
      assert LeftJustified(Column(Number(n, base), width), Number(n, base));
    }
  }

  lemma ColumnLeft(text: string, width: nat)
    requires |text| <= width
    ensures |Column(text, width)| == width && LeftJustified(Column(text, width), text)
  {
  }

  lemma JoinAt(c: Columns)
    requires Aligned(c)
    ensures var hb := Join(c);
      && |hb| == 60 && hb[..16] == c.name && hb[16..28] == c.date && hb[28..34] == c.uid && hb[34..40] == c.gid
      && hb[40..48] == c.mode && hb[48..58] == c.size && hb[58..60] == c.fmag
  {
  }

  lemma ShortNumbers(m: Member)
    requires Fits(m)
    ensures |Number(m.uid, 10)| <= 6 && |Number(m.gid, 10)| <= 6 && |Number(m.mode, 8)| <= 8
    ensures |Number(RoundUp4(|m.name|), 10)| <= 13
  {
    PowersUsed();
    DigitsBound(m.uid, 10, 6, 0x1_0000);
    DigitsBound(m.gid, 10, 6, 0x1_0000);
    DigitsBound(m.mode, 8, 8, 0x1_0000);
    DigitsBound(RoundUp4(|m.name|), 10, 13, 1000);
    hide Digits, PowerOf;
  }

  /** Where the columns of a written header stand, and what they hold. */
  lemma HeaderColumns(m: Member)
    requires Fits(m)
    ensures var hb, stored := HeaderOf(m), if IsLong(m.name) then RoundUp4(|m.name|) else 0;
      && |hb| == 60 && hb[58..60] == "`\n"
      && Field(hb[16..28], m.date, 10) && Field(hb[28..34], m.uid, 10) && Field(hb[34..40], m.gid, 10)
      && Field(hb[40..48], m.mode, 8) && Field(hb[48..58], stored + |m.data|, 10)
      && if IsLong(m.name) then hb[..3] == "#1/" && Field(hb[3..16], stored, 10) else LeftJustified(hb[..16], m.name)
  {
    hide Number, Field, Join;
    HeaderSize(m);
    ShortNumbers(m);
    JoinAt(ColumnsOf(m));
    ColumnField(m.date, 10, 12);
    ColumnField(m.uid, 10, 6);
    ColumnField(m.gid, 10, 6);
    ColumnField(m.mode, 8, 8);
    ColumnField(|NamePart(m.name)| + |m.data|, 10, 10);
    ColumnField(RoundUp4(|m.name|), 10, 13);
    StoredLength(m.name);
    var hb := HeaderOf(m);
    if IsLong(m.name) {
      assert hb[..3] == hb[..16][..3] && hb[3..16] == hb[..16][3..];
      assert NameColumn(m.name)[3..] == Column(Number(RoundUp4(|m.name|), 10), 13);
    } else {
      ColumnLeft(m.name, 16);
    }
  }

  lemma StoredLength(name: string)
    ensures |NamePart(name)| == if IsLong(name) then RoundUp4(|name|) else 0
  {
  }

  // ---------------------------------------------------------------------
  // Reading
  // ---------------------------------------------------------------------

  lemma {:induction false} ReadFigures(s: string, ds: seq<nat>, base: nat, rest: string)
    requires (base == 8 || base == 10) && Spells(s, ds) && forall i :: 0 <= i < |ds| ==> ds[i] < base
    requires rest == "" || !IsDigitOf(rest[0], base)
    ensures ReadDigits(s + rest, base, 0) == Worth(ds, base)
    decreases |ds|
  {
    FiguresThen(s, ds, base, rest);
  }

  /** Figures in front of anything else. */
  lemma {:induction false} FiguresThen(s: string, ds: seq<nat>, base: nat, rest: string)
    requires (base == 8 || base == 10) && Spells(s, ds) && forall i :: 0 <= i < |ds| ==> ds[i] < base
    ensures ReadDigits(s + rest, base, 0) == ReadDigits(rest, base, Worth(ds, base))
    decreases |ds|
  {
    if ds == [] {
      assert s + rest == rest;
    } else {
      var n := |ds| - 1;
      FiguresThen(s[..n], ds[..n], base, [s[n]] + rest);
      assert s[..n] + ([s[n]] + rest) == s + rest;
      FigureChar(ds[n]);
      ReadOne([s[n]] + rest, base, Worth(ds[..n], base));
      assert ([s[n]] + rest)[1..] == rest;
    }
  }

  /** A number is read over blanks in front of it, up to what is no figure. */
  lemma {:induction false} StrtolReads(blanks: string, text: string, n: int, base: nat, rest: string)
    requires (base == 8 || base == 10) && Signed(text, n, base)
    requires forall i :: 0 <= i < |blanks| ==> IsSpace(blanks[i])
    requires rest == "" || !IsDigitOf(rest[0], base)
    ensures Strtol(blanks + text + rest, base) == n
    decreases |blanks|
  {
    if blanks == "" {
      assert blanks + text + rest == text + rest;
      SignedReads(text, n, base, rest);
    } else {
      assert (blanks + text + rest)[1..] == blanks[1..] + text + rest;
      StrtolReads(blanks[1..], text, n, base, rest);
    }
  }

  lemma SignedReads(text: string, n: int, base: nat, rest: string)
    requires (base == 8 || base == 10) && Signed(text, n, base) && (rest == "" || !IsDigitOf(rest[0], base))
    ensures Strtol(text + rest, base) == n
  {
    hide ReadDigits, Strtol, Numeral;
    if n < 0 {
      NumeralReads(text[1..], -n, base, rest);
      assert (text + rest)[1..] == text[1..] + rest;
      StrtolSign(text + rest, base);
    } else {
      NumeralReads(text, n, base, rest);
      StrtolFigure(text + rest, base);
    }
  }

  lemma NumeralReads(text: string, n: nat, base: nat, rest: string)
    requires (base == 8 || base == 10) && Numeral(text, n, base) && (rest == "" || !IsDigitOf(rest[0], base))
    ensures ReadDigits(text + rest, base, 0) == n && text != "" && '0' <= text[0] <= '9'
  {
    hide ReadDigits, Worth;
    var ds: seq<nat> :| Spells(text, ds) && Worth(ds, base) == n && ds != []
                        && forall i :: 0 <= i < |ds| ==> ds[i] < base;
    ReadFigures(text, ds, base, rest);
    FigureChar(ds[0]);
  }

  lemma StrtolSign(s: string, base: nat)
    requires (base == 8 || base == 10) && s != "" && s[0] == '-'
    ensures Strtol(s, base) == 0 - ReadDigits(s[1..], base, 0)
  {
    hide ReadDigits;
  }

  lemma StrtolFigure(s: string, base: nat)
    requires (base == 8 || base == 10) && s != "" && '0' <= s[0] <= '9'
    ensures Strtol(s, base) == ReadDigits(s, base, 0)
  {
    hide ReadDigits;
  }

  lemma FieldReads(column: string, n: int, base: nat)
    requires (base == 8 || base == 10) && Field(column, n, base)
    ensures Strtol(column, base) == n
  {
    hide Strtol, Signed;
    var text: string :| LeftJustified(column, text) && Signed(text, n, base);
    StrtolReads("", text, n, base, column[|text|..]);
    assert "" + text + column[|text|..] == column;
  }

  lemma ColumnsRead(hb: string, after: string)
    requires |hb| == 60 && FromHeader(hb, after).Header?
    ensures var c := FromHeader(hb, after).chdr;
      && FromHeader(hb, after).hb == hb && hb[58..60] == "`\n" && hb[0] != ' '
      && c.date == Strtol(hb[16..28], 10) && c.uid == Strtol(hb[28..34], 10) % 0x1_0000_0000
      && c.gid == Strtol(hb[34..40], 10) % 0x1_0000_0000 && c.mode == Strtol(hb[40..48], 8) % 0x1_0000
      && c.size + c.lname == Strtol(hb[48..58], 10)
      && c.lname == (if hb[..3] == "#1/" then Strtol(hb[3..], 10) else 0) && c.lname <= |after|
      && c.name == CString(if hb[..3] == "#1/" then after[..c.lname] else Strip(hb[..16]))
  {
    hide Strtol, CString, Strip;
  }

  /** What is read from any 60 bytes and more: the numbers that stand in the columns, and the name from
      its column or from behind the header. */
  lemma ReadColumns(t: string)
    requires Get(t).Header?
    ensures |t| >= 60
    ensures var hb, c := t[..60], Get(t).chdr;
      && Get(t).hb == hb && hb[58..60] == "`\n" && hb[0] != ' '
      && c.date == Strtol(hb[16..28], 10) && c.uid == Strtol(hb[28..34], 10) % 0x1_0000_0000
      && c.gid == Strtol(hb[34..40], 10) % 0x1_0000_0000 && c.mode == Strtol(hb[40..48], 8) % 0x1_0000
      && c.size + c.lname == Strtol(hb[48..58], 10)
      && c.lname == (if hb[..3] == "#1/" then Strtol(hb[3..], 10) else 0) && 60 + c.lname <= |t|
      && c.name == CString(if hb[..3] == "#1/" then t[60..60 + c.lname] else Strip(hb[..16]))
  {
    hide Strtol, CString, Strip, FromHeader;
    ColumnsRead(t[..60], Drop(t, 60));
    assert Drop(t, 60) == t[60..];
    var n := Get(t).chdr.lname;
    assert t[60..][..n] == t[60..60 + n];
  }

  /** So numerals in the columns are read as what they are worth. */
  lemma FieldsRead(t: string, date: int, uid: nat, gid: nat, mode: nat, size: int)
    requires Get(t).Header? && |t| >= 60
    requires uid < 0x1_0000_0000 && gid < 0x1_0000_0000 && mode < 0x1_0000
    requires Field(t[16..28], date, 10) && Field(t[28..34], uid, 10) && Field(t[34..40], gid, 10)
    requires Field(t[40..48], mode, 8) && Field(t[48..58], size, 10)
    ensures var c := Get(t).chdr; c.date == date && c.uid == uid && c.gid == gid && c.mode == mode && c.size + c.lname == size
  {
    hide Get, Field, Strtol, CString, Strip;
    ReadColumns(t);
    var hb := t[..60];
    assert hb[16..28] == t[16..28] && hb[28..34] == t[28..34] && hb[34..40] == t[34..40];
    assert hb[40..48] == t[40..48] && hb[48..58] == t[48..58];
    FieldReads(t[16..28], date, 10);
    FieldReads(t[28..34], uid, 10);
    FieldReads(t[34..40], gid, 10);
    FieldReads(t[40..48], mode, 8);
    FieldReads(t[48..58], size, 10);
  }

  // ---------------------------------------------------------------------
  // Two members, written out
  // ---------------------------------------------------------------------

  /** One more figure. */
  lemma OneMore(n: nat, d: nat, base: nat, text: string, more: string)
    requires (base == 8 || base == 10) && n > 0 && d < base && Digits(n, base) == text && more == text + [DigitChar(d)]
    ensures Digits(base * n + d, base) == more
  {
    assert (base * n + d) / base == n && (base * n + d) % base == d;
  }

  lemma DateWritten()
    ensures Digits(1234567890, 10) == "1234567890"
  {
    assert Digits(1, 10) == "1";
    hide Digits;
    OneMore(1, 2, 10, "1", "12");
    OneMore(12, 3, 10, "12", "123");
    OneMore(123, 4, 10, "123", "1234");
    OneMore(1234, 5, 10, "1234", "12345");
    OneMore(12345, 6, 10, "12345", "123456");
    OneMore(123456, 7, 10, "123456", "1234567");
    OneMore(1234567, 8, 10, "1234567", "12345678");
    OneMore(12345678, 9, 10, "12345678", "123456789");
    OneMore(123456789, 0, 10, "123456789", "1234567890");
  }

  lemma ModeWritten()
    ensures Digits(0x81a4, 8) == "100644"
  {
    assert Digits(1, 8) == "1";
    hide Digits;
    OneMore(1, 0, 8, "1", "10");
    OneMore(8, 0, 8, "10", "100");
    OneMore(64, 6, 8, "100", "1006");
    OneMore(518, 4, 8, "1006", "10064");
    OneMore(4148, 4, 8, "10064", "100644");
  }

  lemma DigitsWritten()
    ensures Digits(1234567890, 10) == "1234567890" && Digits(501, 10) == "501" && Digits(20, 10) == "20"
    ensures Digits(0x81a4, 8) == "100644" && Digits(5, 10) == "5" && Digits(0, 10) == "0" && Digits(25, 10) == "25"
  {
    DateWritten();
    ModeWritten();
    assert Digits(2, 10) == "2" && Digits(5, 10) == "5" && Digits(0, 10) == "0";
    hide Digits;
    OneMore(5, 0, 10, "5", "50");
    OneMore(50, 1, 10, "50", "501");
    OneMore(2, 0, 10, "2", "20");
    OneMore(2, 5, 10, "2", "25");
  }

  /** A member with a short name. */
  lemma ShortExample()
    ensures MemberBytes(Member("a.o", 1234567890, 501, 20, 0x81a4, "hello"))
         == "a.o             " + "1234567890  " + "501   " + "20    " + "100644  " + "5         " + "`\n" + "hello" + "\n"
  {
    var m := Member("a.o", 1234567890, 501, 20, 0x81a4, "hello");
    DigitsWritten();
    hide Digits;
    assert NamePart("a.o") == "" && NameColumn("a.o") == "a.o             ";
    assert ColumnsOf(m) == Columns("a.o             ", "1234567890  ", "501   ", "20    ", "100644  ", "5         ", "`\n");
    hide NamePart, ColumnsOf;
    assert HeaderOf(m) + "" == HeaderOf(m);
  }

  /** A member with a long one. */
  lemma LongExample()
    ensures MemberBytes(Member("a_rather_long_name.o", 0, 501, 20, 0x81a4, "hello"))
         == "#1/20           " + "0           " + "501   " + "20    " + "100644  " + "25        " + "`\n"
            + "a_rather_long_name.o" + "hello" + "\n"
  {
    var m := Member("a_rather_long_name.o", 0, 501, 20, 0x81a4, "hello");
    DigitsWritten();
    hide Digits;
    LongParts(m.name);
    hide NamePart, NameColumn;
    assert ColumnsOf(m) == Columns("#1/20           ", "0           ", "501   ", "20    ", "100644  ", "25        ", "`\n");
    hide ColumnsOf;
  }

  lemma LongParts(name: string)
    requires name == "a_rather_long_name.o"
    ensures NamePart(name) == name && NameColumn(name) == "#1/20           " && |name| == 20
  {
    DigitsWritten();
    hide Digits;
    assert RoundUp4(20) == 20;
    assert name + Repeat('\0', 0) == name;
  }
}
