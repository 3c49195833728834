/** The format of ar archives: members as bytes, and bytes as members. */
module ArFormat {
  import opened Numerals

  // ---------------------------------------------------------------------
  // Numbers in columns
  // ---------------------------------------------------------------------

  predicate IsDigitOf(c: char, base: nat) {
    '0' <= c && c as int - '0' as int < base
  }

  /** Reads digits while there are any. */
  function ReadDigits(s: string, base: nat, acc: nat): nat
    requires base == 8 || base == 10
    decreases |s|
  {
    if s == [] || !IsDigitOf(s[0], base) then acc
    else ReadDigits(s[1..], base, acc * base + (s[0] as int - '0' as int))
  }

  lemma {:induction false} ReadDigitsBack(n: nat, base: nat, rest: string)
    requires base == 8 || base == 10
    ensures ReadDigits(Digits(n, base) + rest, base, 0) == ReadDigits(rest, base, n)
    decreases n
  {
    var last := DigitChar(n % base);
    var r := [last] + rest;
    ReadOne(r, base, n / base);
    assert r[1..] == rest && n / base * base + n % base == n;
    if n < base {
      assert Digits(n, base) + rest == r;
    } else {
      ReadDigitsBack(n / base, base, r);
      assert Digits(n, base) + rest == Digits(n / base, base) + r;
    }
  }

  lemma ReadOne(s: string, base: nat, acc: nat)
    requires base == 8 || base == 10
    requires s != [] && IsDigitOf(s[0], base)
    ensures ReadDigits(s, base, acc) == ReadDigits(s[1..], base, acc * base + (s[0] as int - '0' as int))
  {
  }

  predicate IsSpace(c: char) {
    c == ' ' || '\t' <= c <= '\r'
  }

  /** A number as C's strtol reads it. */
  function Strtol(s: string, base: nat): int
    requires base == 8 || base == 10
    decreases |s|
  {
    if s == [] then 0
    else if IsSpace(s[0]) then Strtol(s[1..], base)
    else if s[0] == '-' then 0 - ReadDigits(s[1..], base, 0)
    else if s[0] == '+' then ReadDigits(s[1..], base, 0)
    else ReadDigits(s, base, 0)
  }

  function Number(n: int, base: nat): string
    requires base == 8 || base == 10
  {
    if n < 0 then "-" + Digits(-n, base) else Digits(n, base)
  }

  function Repeat(c: char, n: nat): (s: string)
    ensures |s| == n && forall i :: 0 <= i < n ==> s[i] == c
  {
    seq(n, _ => c)
  }

  /** Left justified in a column. */
  function Column(s: string, width: nat): string {
    if |s| < width then s + Repeat(' ', width - |s|) else s
  }

  lemma StrtolBack(n: int, base: nat, width: nat)
    requires base == 8 || base == 10
    ensures Strtol(Column(Number(n, base), width), base) == n
  {
    hide Digits, ReadDigits;
    var magnitude := if n < 0 then -n else n;
    var digits, blanks := Digits(magnitude, base), Repeat(' ', |Column(Number(n, base), width)| - |Number(n, base)|);
    assert Column(Number(n, base), width) == Number(n, base) + blanks;
    ReadDigitsBack(magnitude, base, blanks);
    NoDigits(blanks, base, magnitude);
    SignedBack(n, base, digits, blanks);
  }

  lemma NoDigits(blanks: string, base: nat, acc: nat)
    requires base == 8 || base == 10
    requires forall i :: 0 <= i < |blanks| ==> blanks[i] == ' '
    ensures ReadDigits(blanks, base, acc) == acc
  {
  }

  lemma SignedBack(n: int, base: nat, digits: string, rest: string)
    requires base == 8 || base == 10
    requires digits == Digits(if n < 0 then -n else n, base)
    requires ReadDigits(digits + rest, base, 0) == if n < 0 then -n else n
    ensures Strtol(Number(n, base) + rest, base) == n
  {
    hide Digits, ReadDigits;
    var s := Number(n, base) + rest;
    if n < 0 {
      assert s[1..] == digits + rest;
    } else {
      assert s == digits + rest && s[0] == digits[0];
    }
  }

  // ---------------------------------------------------------------------
  // Members
  // ---------------------------------------------------------------------

  const ARMAG := "!<arch>\n"
  const ARFMAG := "`\n"
  const AR_EFMT1 := "#1/"
  const MAXNAMLEN := 255

  /** A member of an archive, as a user sees it. */
  datatype Member = Member(name: string, date: int, uid: nat, gid: nat, mode: nat, data: string)

  /** Names that do not fit the name column go in front of the data. */
  predicate IsLong(name: string) {
    |name| > 16 || ' ' in name
  }

  function RoundUp4(n: nat): (r: nat)
    ensures n <= r < n + 4 && r % 4 == 0
  {
    (n + 3) / 4 * 4
  }

  /** What stands in front of the data. */
  function NamePart(name: string): (s: string)
    ensures |s| % 4 == 0
  {
    if IsLong(name) then name + Repeat('\0', RoundUp4(|name|) - |name|) else ""
  }

  function NameColumn(name: string): string {
    if IsLong(name) then AR_EFMT1 + Column(Number(RoundUp4(|name|), 10), 13) else Column(name, 16)
  }

  /** The columns of a header. */
  datatype Columns = Columns(name: string, date: string, uid: string, gid: string, mode: string, size: string,
                             fmag: string)

  function Join(c: Columns): string {
    c.name + c.date + c.uid + c.gid + c.mode + c.size + c.fmag
  }

  function ColumnsOf(m: Member): Columns {
    Columns(NameColumn(m.name), Column(Number(m.date, 10), 12), Column(Number(m.uid, 10), 6),
            Column(Number(m.gid, 10), 6), Column(Number(m.mode, 8), 8),
            Column(Number(|NamePart(m.name)| + |m.data|, 10), 10), ARFMAG)
  }

  function HeaderOf(m: Member): string {
    Join(ColumnsOf(m))
  }

  function Pad(n: nat): string {
    if n % 2 == 1 then "\n" else ""
  }

  function MemberBytes(m: Member): string {
    HeaderOf(m) + NamePart(m.name) + m.data + Pad(|NamePart(m.name)| + |m.data|)
  }

  /** The members of an archive, without its magic string. */
  function Bytes(ms: seq<Member>): string {
    if ms == [] then "" else MemberBytes(ms[0]) + Bytes(ms[1..])
  }

  /** Every number fits its column; the name is a C string. */
  predicate Fits(m: Member) {
    && |Number(m.date, 10)| <= 12 && m.uid < 0x1_0000 && m.gid < 0x1_0000 && m.mode < 0x1_0000
    && |Number(|NamePart(m.name)| + |m.data|, 10)| <= 10
    && '\0' !in m.name && |m.name| <= MAXNAMLEN
  }

  predicate Aligned(c: Columns) {
    |c.name| == 16 && |c.date| == 12 && |c.uid| == 6 && |c.gid| == 6 && |c.mode| == 8 && |c.size| == 10 && |c.fmag| == 2
  }

  /** When everything fits, a header takes exactly 60 bytes. */
  lemma HeaderSize(m: Member)
    requires Fits(m)
    ensures Aligned(ColumnsOf(m)) && |HeaderOf(m)| == 60
  {
    PowersUsed();
    DigitsBound(m.uid, 10, 6, 0x1_0000);
    DigitsBound(m.gid, 10, 6, 0x1_0000);
    DigitsBound(m.mode, 8, 8, 0x1_0000);
    DigitsBound(RoundUp4(|m.name|), 10, 13, 1000);
    hide Digits, PowerOf;
  }

  lemma PowersUsed()
    ensures PowerOf(10, 6) == 1_000_000 && PowerOf(8, 8) == 0x100_0000 && PowerOf(10, 13) >= 1000
  {
    assert PowerOf(8, 4) == 4096;
    assert PowerOf(10, 3) == 1000 && PowerOf(10, 7) == 10_000_000;
  }

  // ---------------------------------------------------------------------
  // Headers read back
  // ---------------------------------------------------------------------

  /** A header in the program's own form.  `raw` holds the bytes of a long name. */
  datatype Chdr = Chdr(size: int, date: int, lname: nat, gid: nat, uid: nat, mode: nat, name: string, raw: string)

  datatype Got = End | BadFormat | Header(chdr: Chdr, hb: string)

  /** A C string up to its end. */
  function CString(s: string): (r: string)
    ensures |r| <= |s| && r == s[..|r|] && '\0' !in r && (|r| < |s| ==> s[|r|] == '\0')
  {
    if s == "" || s[0] == '\0' then "" else [s[0]] + CString(s[1..])
  }

  /** Without the spaces at the end. */
  function Strip(s: string): (r: string)
    ensures |r| <= |s| && r == s[..|r|] && (r != "" ==> r[|r| - 1] != ' ')
    ensures forall i :: |r| <= i < |s| ==> s[i] == ' '
  {
    if s != "" && s[|s| - 1] == ' ' then Strip(s[..|s| - 1]) else s
  }

  function Cut(hb: string): Columns
    requires |hb| == 60
  {
    Columns(hb[..16], hb[16..28], hb[28..34], hb[34..40], hb[40..48], hb[48..58], hb[58..60])
  }

  lemma CutJoin(c: Columns)
    requires Aligned(c)
    ensures Cut(Join(c)) == c
  {
  }

  /** The numbers in the columns. */
  function Numbers(c: Columns): Chdr {
    Chdr(Strtol(c.size, 10), Strtol(c.date, 10), 0, Strtol(c.gid, 10) % 0x1_0000_0000,
         Strtol(c.uid, 10) % 0x1_0000_0000, Strtol(c.mode, 8) % 0x1_0000, "", "")
  }

  function Drop(t: string, k: nat): (r: string)
    ensures |r| == if k <= |t| then |t| - k else 0
  {
    if k <= |t| then t[k..] else ""
  }

  /** What a header and what follows it are read as. */
  function FromHeader(hb: string, after: string): Got
    requires |hb| == 60
  {
    if Cut(hb).fmag != ARFMAG || hb[0] == ' ' then BadFormat
    else
      var c := Numbers(Cut(hb));
      if hb[..3] == AR_EFMT1 then
        var len := Strtol(hb[3..], 10);
        if len <= 0 || len > MAXNAMLEN || |after| < len then BadFormat
        else Header(c.(size := c.size - len, lname := len, name := CString(after[..len]), raw := after[..len]), hb)
      else
        Header(c.(name := CString(Strip(hb[..16]))), hb)
  }

  /** What is read at the start of t, the rest of an archive. */
  function Get(t: string): Got {
    if t == "" then End
    else if |t| < 60 then BadFormat
    else FromHeader(t[..60], Drop(t, 60))
  }

  function ChdrOf(m: Member): Chdr {
    Chdr(|m.data|, m.date, |NamePart(m.name)|, m.gid, m.uid, m.mode, m.name, NamePart(m.name))
  }

  /** The names that can be read back: no long name that takes more room than a name may have, and
      no short name that is empty or looks like a long one. */
  predicate Readable(name: string) {
    if IsLong(name) then RoundUp4(|name|) <= MAXNAMLEN else name != "" && !(AR_EFMT1 <= name)
  }

  /** The numbers of a header come back. */
  lemma NumbersBack(m: Member)
    requires Fits(m)
    ensures Numbers(ColumnsOf(m))
         == Chdr(|NamePart(m.name)| + |m.data|, m.date, 0, m.gid, m.uid, m.mode, "", "")
  {
    hide Column, NameColumn, NamePart, Number, Strtol;
    StrtolBack(m.date, 10, 12);
    StrtolBack(m.uid, 10, 6);
    StrtolBack(m.gid, 10, 6);
    StrtolBack(m.mode, 8, 8);
    StrtolBack(|NamePart(m.name)| + |m.data|, 10, 10);
  }

  /** Reading a number that spaces follow. */
  lemma StrtolThen(n: nat, spaces: nat, rest: string)
    requires spaces > 0
    ensures Strtol(Digits(n, 10) + Repeat(' ', spaces) + rest, 10) == n
  {
    var tail := Repeat(' ', spaces) + rest;
    assert Digits(n, 10) + Repeat(' ', spaces) + rest == Digits(n, 10) + tail;
    assert (Digits(n, 10) + tail)[0] == Digits(n, 10)[0];
    ReadDigitsBack(n, 10, tail);
  }

  /** The name column of a long name gives its length. */
  lemma LongColumn(name: string, rest: string)
    requires IsLong(name) && |name| <= MAXNAMLEN
    ensures var hb := NameColumn(name) + rest;
      |NameColumn(name)| == 16 && hb[0] == '#' && hb[..3] == AR_EFMT1 && Strtol(hb[3..], 10) == RoundUp4(|name|)
  {
    var n := RoundUp4(|name|);
    LengthDigits(n);
    hide Digits, PowerOf, Strtol, RoundUp4;
    var spaces := 13 - |Digits(n, 10)|;
    assert NameColumn(name) == AR_EFMT1 + (Digits(n, 10) + Repeat(' ', spaces));
    LongFront(Digits(n, 10), Repeat(' ', spaces), rest);
    StrtolThen(n, spaces, rest);
  }

  lemma LengthDigits(n: nat)
    requires n < 1000
    ensures |Digits(n, 10)| <= 3
  {
    hide Digits;
    assert PowerOf(10, 3) == 1000;
    DigitsBound(n, 10, 3, 1000);
  }

  lemma LongFront(digits: string, spaces: string, rest: string)
    ensures var hb := AR_EFMT1 + (digits + spaces) + rest;
      hb[0] == '#' && hb[..3] == AR_EFMT1 && hb[3..] == digits + spaces + rest
  {
  }

  lemma {:induction false} CStringAt(s: string, n: nat)
    requires n <= |s| && '\0' !in s[..n] && (n < |s| ==> s[n] == '\0')
    ensures CString(s) == s[..n]
  {
    if n > 0 {
      assert s[0] == s[..n][0] && s[1..][..n - 1] == s[..n][1..];
      CStringAt(s[1..], n - 1);
    }
  }

  lemma {:induction false} StripAt(s: string, n: nat)
    requires n <= |s| && (n > 0 ==> s[n - 1] != ' ') && forall i :: n <= i < |s| ==> s[i] == ' '
    ensures Strip(s) == s[..n]
  {
    if n < |s| {
      StripAt(s[..|s| - 1], n);
      assert s[..|s| - 1][..n] == s[..n];
    } else {
      assert s[..n] == s;
    }
  }

  lemma LongName(name: string)
    requires IsLong(name) && '\0' !in name
    ensures CString(NamePart(name)) == name && |NamePart(name)| == RoundUp4(|name|)
  {
    assert NamePart(name)[..|name|] == name;
    CStringAt(NamePart(name), |name|);
  }

  lemma ShortName(name: string, rest: string)
    requires !IsLong(name) && '\0' !in name && name != ""
    ensures var t := NameColumn(name) + rest;
      && t[0] == name[0] != ' ' && t[..16] == NameColumn(name) && CString(Strip(t[..16])) == name
      && (t[..3] == AR_EFMT1 <==> AR_EFMT1 <= name)
  {
    var c := NameColumn(name);
    assert |c| == 16 && c[..|name|] == name && (|name| < 16 ==> c[|name|] == ' ') && (|name| + 1 < 16 ==> c[|name| + 1] == ' ');
    StripAt(c, |name|);
    CStringAt(name, |name|);
    assert name[..|name|] == name;
    assert (c + rest)[..16] == c;
    hide NameColumn, Strip, CString;
    FrontSlash(c, rest, name);
  }

  /** Neither blanks nor what follows make up the mark of a long name. */
  lemma FrontSlash(column: string, rest: string, name: string)
    requires |column| == 16 && name != "" && |name| <= 16 && column[..|name|] == name
    requires |name| < 16 ==> column[|name|] == ' '
    requires |name| + 1 < 16 ==> column[|name| + 1] == ' '
    ensures (column + rest)[..3] == AR_EFMT1 <==> AR_EFMT1 <= name
  {
    var t := column + rest;
    assert t[0] == column[0] && t[1] == column[1] && t[2] == column[2];
    assert t[..3] == [t[0], t[1], t[2]];
    assert AR_EFMT1 <= name <==> |name| >= 3 && name[0] == '#' && name[1] == '1' && name[2] == '/';
    assert forall k :: 0 <= k < |name| ==> column[k] == name[k] by {
      forall k | 0 <= k < |name| ensures column[k] == name[k] {
        assert column[..|name|][k] == column[k];
      }
    }
  }

  /** A header comes back as it was written exactly if the name is one that can be read back. */
  lemma HeaderBack(m: Member, rest: string)
    requires Fits(m)
    ensures Get(HeaderOf(m) + NamePart(m.name) + rest) == Header(ChdrOf(m), HeaderOf(m)) <==> Readable(m.name)
    ensures !Readable(m.name) ==> var g := Get(HeaderOf(m) + NamePart(m.name) + rest);
      g.BadFormat? || (g.Header? && g.chdr.size < |m.data|)
  {
    hide Join, ColumnsOf, NameColumn, Numbers, Strtol, CString, Strip, NamePart, Column, Cut;
    var hb, after := HeaderOf(m), NamePart(m.name) + rest;
    HeaderSize(m);
    CutJoin(ColumnsOf(m));
    NumbersBack(m);
    FrontOf(m);
    assert (hb + NamePart(m.name) + rest)[..60] == hb && Drop(hb + NamePart(m.name) + rest, 60) == after;
    assert hb == NameColumn(m.name) + hb[16..];
    if IsLong(m.name) {
      LongColumn(m.name, hb[16..]);
      LongName(m.name);
      assert |after| >= |NamePart(m.name)| && after[..|NamePart(m.name)|] == NamePart(m.name);
    } else if m.name == "" {
      EmptyColumn();
    } else {
      ShortName(m.name, hb[16..]);
      NoNamePart(m.name);
    }
  }

  lemma FrontOf(m: Member)
    requires Fits(m)
    ensures |NameColumn(m.name)| == 16 && NameColumn(m.name) <= HeaderOf(m)
    ensures ColumnsOf(m).fmag == ARFMAG && '\0' !in m.name && |m.name| <= MAXNAMLEN
  {
    HeaderSize(m);
    hide NameColumn, Column, NamePart;
  }

  lemma EmptyColumn()
    ensures NameColumn("")[0] == ' '
  {
  }

  lemma NoNamePart(name: string)
    requires !IsLong(name)
    ensures NamePart(name) == ""
  {
  }

  // ---------------------------------------------------------------------
  // Archives read back
  // ---------------------------------------------------------------------

  datatype Listing = Listing(members: seq<Member>) | Unreadable

  function Prepend(m: Member, l: Listing): Listing {
    if l.Unreadable? then Unreadable else Listing([m] + l.members)
  }

  /** Where the next header is. */
  function Next(c: Chdr): int {
    60 + c.lname + c.size + (c.size + c.lname) % 2
  }

  function MemberAt(t: string, c: Chdr): Member
    requires c.size >= 0 && |t| >= 60 + c.lname + c.size
  {
    Member(c.name, c.date, c.uid, c.gid, c.mode, t[60 + c.lname..60 + c.lname + c.size])
  }

  /** The members of an archive behind its magic string, each read and skipped. */
  function List(t: string): Listing
    decreases |t|
  {
    var g := Get(t);
    if g.End? then Listing([])
    else if g.BadFormat? || g.chdr.size < 0 || |t| < 60 + g.chdr.lname + g.chdr.size then Unreadable
    else Prepend(MemberAt(t, g.chdr), List(Drop(t, Next(g.chdr))))
  }

  /** Where the parts of a member stand. */
  lemma MemberParts(m: Member, rest: string)
    requires Fits(m)
    ensures var t, from := MemberBytes(m) + rest, 60 + |NamePart(m.name)|;
      && t == HeaderOf(m) + NamePart(m.name) + (m.data + Pad(|NamePart(m.name)| + |m.data|) + rest)
      && t != "" && |t| >= from + |m.data| && t[from..from + |m.data|] == m.data
      && Drop(t, from + |m.data| + (|m.data| + |NamePart(m.name)|) % 2) == rest
  {
    HeaderSize(m);
    hide HeaderOf, NamePart, Drop, Fits;
    var name, pad := NamePart(m.name), Pad(|NamePart(m.name)| + |m.data|);
    Parts(HeaderOf(m), name, m.data, pad, rest);
    Behind(HeaderOf(m) + name + m.data + pad, rest);
  }

  lemma Parts(header: string, name: string, data: string, pad: string, rest: string)
    ensures var t, from := header + name + data + pad + rest, |header| + |name|;
      && t == header + name + (data + pad + rest)
      && |t| >= from + |data| && t[from..from + |data|] == data
  {
  }

  lemma Behind(s: string, rest: string)
    ensures Drop(s + rest, |s|) == rest
  {
  }

  /** Reading an archive gives back what was written into it exactly if all names can be read back. */
  lemma {:induction false} ListBytes(ms: seq<Member>)
    requires forall i :: 0 <= i < |ms| ==> Fits(ms[i])
    ensures List(Bytes(ms)) == Listing(ms) <==> forall i :: 0 <= i < |ms| ==> Readable(ms[i].name)
  {
    hide MemberBytes, Get, Fits, Readable, HeaderOf, NamePart;
    if ms == [] {
      NothingLeft();
    } else {
      var m, rest := ms[0], Bytes(ms[1..]);
      MemberParts(m, rest);
      HeaderBack(m, m.data + Pad(|NamePart(m.name)| + |m.data|) + rest);
      ListBytes(ms[1..]);
      assert ms == [m] + ms[1..];
      if Readable(m.name) {
        ListReadable(m, rest);
        ReadableRest(ms);
      } else {
        ListUnreadable(m, rest, ms);
      }
    }
  }

  lemma NothingLeft()
    ensures Get("") == End
  {
  }

  lemma ReadableRest(ms: seq<Member>)
    requires ms != [] && Readable(ms[0].name)
    ensures (forall i :: 0 <= i < |ms| ==> Readable(ms[i].name))
       <==> (forall i :: 0 <= i < |ms[1..]| ==> Readable(ms[1..][i].name))
  {
    hide Readable;
    if forall i :: 0 <= i < |ms[1..]| ==> Readable(ms[1..][i].name) {
      forall i | 0 <= i < |ms| ensures Readable(ms[i].name) {
        if i > 0 {
          assert ms[i] == ms[1..][i - 1];
        }
      }
    }
  }

  lemma ListReadable(m: Member, rest: string)
    requires Fits(m) && Get(MemberBytes(m) + rest) == Header(ChdrOf(m), HeaderOf(m))
    ensures List(MemberBytes(m) + rest) == Prepend(m, List(rest))
  {
    hide MemberBytes, Get, Fits, HeaderOf, NamePart, Drop, List, Prepend;
    MemberParts(m, rest);
    ListStep(MemberBytes(m) + rest, ChdrOf(m), HeaderOf(m));
  }

  lemma ListStep(t: string, c: Chdr, hb: string)
    requires Get(t) == Header(c, hb) && c.size >= 0 && |t| >= 60 + c.lname + c.size
    ensures List(t) == Prepend(MemberAt(t, c), List(Drop(t, Next(c))))
  {
    hide Get, Drop, Prepend, MemberAt, Next;
  }

  lemma ListUnreadable(m: Member, rest: string, ms: seq<Member>)
    requires Fits(m) && ms != [] && ms[0] == m
    requires var g := Get(MemberBytes(m) + rest); g.BadFormat? || (g.Header? && g.chdr.size < |m.data|)
    ensures List(MemberBytes(m) + rest) != Listing(ms)
  {
    hide MemberBytes, Get, Fits;
  }

  /** A name of 253 characters is padded to 256, which is more than a name may have. */
  lemma LongNameExample()
    ensures var m := Member(Repeat('a', 253), 0, 0, 0, 0, "");
      Fits(m) && List(Bytes([m])) != Listing([m])
  {
    var m := Member(Repeat('a', 253), 0, 0, 0, 0, "");
    assert |NamePart(m.name)| == 256;
    LengthDigits(256);
    LengthDigits(0);
    assert !Readable([m][0].name);
    hide Bytes, List, NamePart, Digits;
    assert Fits(m);
    ListBytes([m]);
  }
}
