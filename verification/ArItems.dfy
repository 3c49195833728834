/** The members of an archive as they stand in it, whatever wrote them. */
module ArItems {
  import opened ArFile
  import opened ArFormat
  import opened Numerals

  /** A member: its header, what the header is read as, the data and the byte behind them. */
  datatype Item = Item(header: string, chdr: Chdr, data: string, pad: string)

  /** The header and the bytes of the name behind it are read as `chdr`. */
  predicate Legible(x: Item) {
    |x.header| == 60 && |x.chdr.raw| == x.chdr.lname && FromHeader(x.header, x.chdr.raw) == Header(x.chdr, x.header)
  }

  /** A member that can be copied: no NUL cuts the header short, the data are there, and behind an odd
      number of bytes one more, which may be any.  There is none behind a member without data. */
  predicate Copies(x: Item) {
    && Legible(x) && CString(x.header) == x.header
    && x.chdr.size == |x.data| && |x.pad| == ReadPad(|x.data|, x.chdr.lname)
  }

  /** A member that can be gone over: the next one is behind the data and the byte that goes with an odd
      number of bytes, or the archive ends before. */
  predicate Skips(x: Item, rest: string) {
    && Legible(x) && x.chdr.size >= 0
    && var room := x.chdr.size + (x.chdr.size + x.chdr.lname) % 2;
       |x.data + x.pad| == room || (|x.data + x.pad| < room && rest == "")
  }

  /** A member for which both come to the same. */
  predicate WellFormed(x: Item) {
    Copies(x) && |x.pad| == (|x.data| + x.chdr.lname) % 2
  }

  predicate AllWellFormed(xs: seq<Item>) {
    forall i :: 0 <= i < |xs| ==> WellFormed(xs[i])
  }

  /** The bytes of a member. */
  function Raw(x: Item): string {
    x.header + x.chdr.raw + (x.data + x.pad)
  }

  function RawAll(xs: seq<Item>): string {
    if xs == [] then "" else Raw(xs[0]) + RawAll(xs[1..])
  }

  /** The bytes that are written for a member when it is copied. */
  function Copied(x: Item): string {
    x.header + (x.chdr.raw + NamePad(|x.chdr.raw|)) + (x.data + WritePad(|x.data|, RoundUp4(|x.chdr.raw|)))
  }

  function CopiedAll(xs: seq<Item>): string {
    if xs == [] then "" else CopiedAll(xs[..|xs| - 1]) + Copied(xs[|xs| - 1])
  }

  lemma {:induction false} CopiedConcat(a: seq<Item>, b: seq<Item>)
    ensures CopiedAll(a + b) == CopiedAll(a) + CopiedAll(b)
  {
    hide Copied;
    if b == [] {
      assert a + b == a;
    } else {
      var n := |b| - 1;
      assert (a + b)[..|a| + n] == a + b[..n];
      CopiedConcat(a, b[..n]);
    }
  }

  lemma CopiedAppend(a: seq<Item>, x: Item)
    ensures CopiedAll(a + [x]) == CopiedAll(a) + Copied(x)
  {
    hide Copied;
    assert (a + [x])[..|a|] == a;
  }

  lemma RawFrom(xs: seq<Item>, i: nat)
    requires i <= |xs|
    ensures i < |xs| ==> RawAll(xs[i..]) == Raw(xs[i]) + RawAll(xs[i + 1..])
    ensures i == |xs| ==> RawAll(xs[i..]) == ""
  {
    hide Raw;
    if i < |xs| {
      assert xs[i..][1..] == xs[i + 1..];
    }
  }

  // ---------------------------------------------------------------------
  // Reading
  // ---------------------------------------------------------------------

  /** A name is read from as many bytes as it takes; what follows does not matter. */
  lemma FromName(hb: string, raw: string, rest: string, c: Chdr)
    requires |hb| == 60 && FromHeader(hb, raw) == Header(c, hb) && |raw| == c.lname
    ensures FromHeader(hb, raw + rest) == Header(c, hb)
  {
    hide Strtol, Numbers, Cut, CString, Strip;
    assert (raw + rest)[..|raw|] == raw;
    assert raw[..|raw|] == raw;
  }

  lemma Fronts(header: string, raw: string, rest: string)
    requires |header| == 60
    ensures var t := header + raw + rest;
      && t[..60] == header && Drop(t, 60) == raw + rest && Drop(t, 60 + |raw|) == rest
  {
  }

  lemma GetEnd(t: string)
    ensures Get(t).End? <==> t == ""
  {
    hide FromHeader;
    if |t| >= 60 {
      NoEnd(t[..60], Drop(t, 60));
    }
  }

  lemma NoEnd(hb: string, after: string)
    requires |hb| == 60
    ensures !FromHeader(hb, after).End?
  {
    hide Strtol, Numbers, Cut, CString, Strip;
  }

  /** A name is part of what it is read from. */
  lemma NameParts(hb: string, after: string, c: Chdr)
    requires |hb| == 60 && FromHeader(hb, after) == Header(c, hb)
    ensures |c.raw| == c.lname <= |after| && c.raw == after[..c.lname] && FromHeader(hb, c.raw) == Header(c, hb)
  {
    hide Strtol, Cut, CString, Strip;
    assert c.raw[..|c.raw|] == c.raw;
  }

  /** The parts of what stands at t, when a header is read there. */
  lemma HeaderParts(t: string, c: Chdr, hb: string)
    requires Get(t) == Header(c, hb)
    ensures |hb| == 60 && |c.raw| == c.lname && FromHeader(hb, c.raw) == Header(c, hb)
    ensures 60 + c.lname <= |t| && t == hb + c.raw + t[60 + c.lname..]
  {
    GotHeader(t, c, hb);
    hide FromHeader;
    NameParts(hb, t[60..], c);
  }

  lemma GotHeader(t: string, c: Chdr, hb: string)
    requires Get(t) == Header(c, hb)
    ensures |t| >= 60 && hb == t[..60] && FromHeader(hb, t[60..]) == Header(c, hb)
  {
    hide Strtol, Numbers, Cut, CString, Strip;
  }

  /** The header that is read is the member's, and its data come next. */
  lemma GetItem(x: Item, rest: string)
    requires Legible(x)
    ensures var t := Raw(x) + rest;
      && Get(t) == Header(x.chdr, x.header)
      && Drop(t, 60 + x.chdr.lname) == x.data + x.pad + rest
  {
    hide FromHeader, CString, Drop;
    assert Raw(x) + rest == x.header + x.chdr.raw + (x.data + x.pad + rest);
    Fronts(x.header, x.chdr.raw, x.data + x.pad + rest);
    FromName(x.header, x.chdr.raw, x.data + x.pad + rest, x.chdr);
  }

  /** Copying a member ends at the next one. */
  lemma PassedCopy(x: Item, rest: string)
    requires Copies(x)
    ensures var u, size, lname := x.data + x.pad + rest, |x.data|, x.chdr.lname;
      size + ReadPad(size, lname) <= |u| && u[..size] == x.data && Drop(u, size + ReadPad(size, lname)) == rest
  {
    hide FromHeader, CString;
    Behind(x.data + x.pad, rest);
  }

  /** So does going over one. */
  lemma PassedSkip(x: Item, rest: string)
    requires Skips(x, rest)
    ensures Drop(x.data + x.pad + rest, x.chdr.size + (x.chdr.size + x.chdr.lname) % 2) == rest
  {
    hide FromHeader;
    Behind(x.data + x.pad, rest);
  }

  /** A member for which both come to the same can be both. */
  lemma BothPass(x: Item, rest: string)
    requires WellFormed(x)
    ensures Copies(x) && Skips(x, rest)
  {
    hide FromHeader, CString;
  }

  // ---------------------------------------------------------------------
  // Copies
  // ---------------------------------------------------------------------

  /** The bytes written are those read exactly if the name takes a multiple of four bytes. */
  lemma SameBytesIff(hb: string, raw: string, data: string)
    ensures hb + (raw + NamePad(|raw|)) + (data + WritePad(|data|, RoundUp4(|raw|)))
         == hb + raw + data + Pad(|raw| + |data|)
         <==> |raw| % 4 == 0
  {
    var a := hb + (raw + NamePad(|raw|)) + (data + WritePad(|data|, RoundUp4(|raw|)));
    var b := hb + raw + data + Pad(|raw| + |data|);
    if |raw| % 4 == 0 {
      assert NamePad(|raw|) == "" && WritePad(|data|, RoundUp4(|raw|)) == Pad(|raw| + |data|);
    } else if a == b {
      var n := |hb| + |raw|;
      assert a[n..] == NamePad(|raw|) + (data + WritePad(|data|, RoundUp4(|raw|)));
      assert b[n..] == data + Pad(|raw| + |data|);
      assert NamePad(|raw|) == "\0" && Pad(|raw| + |data|) == "\n" && WritePad(|data|, RoundUp4(|raw|)) == "";
      assert a[n..] == "\0" + data;
      NotShifted(data);
    }
  }

  lemma {:induction false} NotShifted(data: string)
    ensures "\0" + data != data + "\n"
  {
    if data != "" {
      NotShifted(data[1..]);
      assert (data + "\n")[1..] == data[1..] + "\n";
      assert ("\0" + data)[0] == '\0' && (data + "\n")[0] == data[0];
      assert ("\0" + data)[1..] == data;
      assert data[0] == '\0' ==> data == "\0" + data[1..];
    } else {
      assert ("\0" + data)[0] != (data + "\n")[0];
    }
  }

  /** A member is copied byte for byte exactly if its name takes a multiple of four bytes. */
  lemma CopyFaithfulIff(x: Item)
    requires Copies(x) && (x.pad == "" || x.pad == "\n")
    ensures Copied(x) == Raw(x) <==> |x.chdr.raw| % 4 == 0
  {
    hide FromHeader, CString;
    if x.data == "" {
      NamePadNone(|x.chdr.raw|);
      assert |Copied(x)| == |Raw(x)| + |NamePad(|x.chdr.raw|)|;
      assert |x.chdr.raw| % 4 == 0 ==> x.chdr.raw + NamePad(|x.chdr.raw|) == x.chdr.raw;
    } else {
      SameBytesIff(x.header, x.chdr.raw, x.data);
      assert x.pad == Pad(|x.chdr.raw| + |x.data|);
      assert Raw(x) == x.header + x.chdr.raw + x.data + x.pad;
    }
  }

  predicate Blank(s: string) {
    forall i :: 0 <= i < |s| ==> s[i] == '\0'
  }

  lemma {:induction false} ShiftedIn(k: nat, s: string, i: nat)
    requires 0 < k && i < |s| && (Repeat('\0', k) + s)[..|s|] == s
    ensures s[i] == '\0'
    decreases i
  {
    assert s[i] == (Repeat('\0', k) + s)[..|s|][i] == (Repeat('\0', k) + s)[i];
    if i >= k {
      ShiftedIn(k, s, i - k);
    }
  }

  lemma ShiftedIff(k: nat, s: string, more: string)
    ensures (Repeat('\0', k) + s + more)[..|s|] == s <==> k == 0 || Blank(s)
  {
    var t := Repeat('\0', k) + s + more;
    assert t[..|s|] == (Repeat('\0', k) + s)[..|s|];
    if k == 0 {
      assert t == s + more;
    } else if t[..|s|] == s {
      forall i | 0 <= i < |s| ensures s[i] == '\0' {
        ShiftedIn(k, s, i);
      }
    }
    if Blank(s) {
      assert t[..|s|] == s;
    }
  }

  /** What is read where a copy stands: the same header, but the data start with the NULs that were
      put behind the name.  They are the member's own exactly if its name takes a multiple of four
      bytes or they are NULs throughout. */
  lemma CopyReadIff(x: Item, rest: string)
    requires Copies(x)
    ensures var t, start := Copied(x) + rest, 60 + x.chdr.lname;
      && Get(t) == Header(x.chdr, x.header) && |t| >= start + |x.data|
      && (t[start..start + |x.data|] == x.data <==> |x.chdr.raw| % 4 == 0 || Blank(x.data))
  {
    hide FromHeader, CString, Drop, RoundUp4, WritePad;
    var n, s := |NamePad(|x.chdr.raw|)|, x.data;
    var more := WritePad(|s|, RoundUp4(|x.chdr.raw|)) + rest;
    var tail := NamePad(|x.chdr.raw|) + s + more;
    assert Copied(x) + rest == x.header + x.chdr.raw + tail;
    Fronts(x.header, x.chdr.raw, tail);
    FromName(x.header, x.chdr.raw, tail, x.chdr);
    NamePadNone(|x.chdr.raw|);
    ShiftedIff(n, s, more);
    assert (Copied(x) + rest)[60 + |x.chdr.raw|..] == tail;
  }

  lemma NamePadNone(n: nat)
    ensures NamePad(n) == Repeat('\0', |NamePad(n)|) && (|NamePad(n)| == 0 <==> n % 4 == 0)
  {
  }

  // ---------------------------------------------------------------------
  // Members as a user sees them
  // ---------------------------------------------------------------------

  function Shown(x: Item): Member {
    Member(x.chdr.name, x.chdr.date, x.chdr.uid, x.chdr.gid, x.chdr.mode, x.data)
  }

  function ShownAll(xs: seq<Item>): seq<Member> {
    if xs == [] then [] else [Shown(xs[0])] + ShownAll(xs[1..])
  }

  /** The bytes of well-formed members are listed as those members. */
  lemma {:induction false} ListItems(xs: seq<Item>)
    requires AllWellFormed(xs)
    ensures List(RawAll(xs)) == Listing(ShownAll(xs))
  {
    hide WellFormed, Raw, Get, Shown, Drop;
    if xs == [] {
      NothingLeft();
    } else {
      var rest := RawAll(xs[1..]);
      ItemListed(xs[0], rest);
      ListItems(xs[1..]);
    }
  }

  lemma ItemListed(x: Item, rest: string)
    requires WellFormed(x)
    ensures List(Raw(x) + rest) == Prepend(Shown(x), List(rest))
  {
    GetItem(x, rest);
    DataAt(x, rest);
    hide WellFormed, Get, Drop, Raw, List, MemberAt, Next;
    ListStep(Raw(x) + rest, x.chdr, x.header);
  }

  lemma DataAt(x: Item, rest: string)
    requires WellFormed(x)
    ensures var t := Raw(x) + rest;
      && x.chdr.size >= 0 && |t| >= 60 + x.chdr.lname + x.chdr.size
      && MemberAt(t, x.chdr) == Shown(x) && Drop(t, Next(x.chdr)) == rest
  {
    hide FromHeader, CString, Drop;
    assert Raw(x) + rest == x.header + x.chdr.raw + x.data + x.pad + rest;
    Parts(x.header, x.chdr.raw, x.data, x.pad, rest);
    Behind(x.header + x.chdr.raw + x.data + x.pad, rest);
  }

  /** A member with a newline behind an odd number of bytes. */
  function Renewed(x: Item): Item {
    x.(pad := WritePad(|x.data|, RoundUp4(|x.chdr.raw|)))
  }

  /** A copy is a well-formed member again if the name takes a multiple of four bytes, and shows as
      before. */
  lemma CopyWellFormed(x: Item)
    requires WellFormed(x) && |x.chdr.raw| % 4 == 0
    ensures WellFormed(Renewed(x)) && Raw(Renewed(x)) == Copied(x) && Shown(Renewed(x)) == Shown(x)
  {
    hide FromHeader, CString;
    NamePadNone(|x.chdr.raw|);
    assert x.chdr.raw + NamePad(|x.chdr.raw|) == x.chdr.raw;
  }

  function RenewedAll(xs: seq<Item>): (r: seq<Item>)
    ensures |r| == |xs| && forall i :: 0 <= i < |xs| ==> r[i] == Renewed(xs[i])
  {
    seq(|xs|, i requires 0 <= i < |xs| => Renewed(xs[i]))
  }

  predicate AllFaithful(xs: seq<Item>) {
    forall i :: 0 <= i < |xs| ==> WellFormed(xs[i]) && |xs[i].chdr.raw| % 4 == 0
  }

  lemma {:induction false} RawConcat(a: seq<Item>, b: seq<Item>)
    ensures RawAll(a + b) == RawAll(a) + RawAll(b)
  {
    hide Raw;
    if a == [] {
      assert a + b == b;
    } else {
      assert (a + b)[1..] == a[1..] + b;
      RawConcat(a[1..], b);
    }
  }

  lemma {:induction false} RawRenewed(xs: seq<Item>)
    requires AllFaithful(xs)
    ensures RawAll(RenewedAll(xs)) == CopiedAll(xs)
  {
    hide WellFormed, Raw, Copied, Renewed;
    if xs != [] {
      var n := |xs| - 1;
      RawRenewed(xs[..n]);
      assert RenewedAll(xs) == RenewedAll(xs[..n]) + [Renewed(xs[n])];
      RawConcat(RenewedAll(xs[..n]), [Renewed(xs[n])]);
      assert [Renewed(xs[n])][1..] == [];
      assert RawAll([Renewed(xs[n])]) == Raw(Renewed(xs[n]));
      CopyWellFormed(xs[n]);
    }
  }

  lemma {:induction false} ShownRenewed(xs: seq<Item>)
    ensures ShownAll(RenewedAll(xs)) == ShownAll(xs)
  {
    if xs != [] {
      assert RenewedAll(xs)[1..] == RenewedAll(xs[1..]);
      ShownRenewed(xs[1..]);
    }
  }

  /** An archive of copies is listed as the members that were copied, if each name takes a multiple of
      four bytes. */
  lemma ListCopies(xs: seq<Item>)
    requires AllFaithful(xs)
    ensures List(CopiedAll(xs)) == Listing(ShownAll(xs))
  {
    hide Raw, Copied, Renewed, RawAll, CopiedAll, List, ShownAll, WellFormed;
    forall i | 0 <= i < |xs| ensures WellFormed(RenewedAll(xs)[i]) {
      CopyWellFormed(xs[i]);
    }
    RawRenewed(xs);
    ShownRenewed(xs);
    ListItems(RenewedAll(xs));
  }

  // ---------------------------------------------------------------------
  // Members written by this program
  // ---------------------------------------------------------------------

  /** A member as it is written. */
  function ItemOf(m: Member): Item {
    Item(HeaderOf(m), ChdrOf(m), m.data, Pad(|NamePart(m.name)| + |m.data|))
  }

  /** Copying it would write the same bytes, and if its name can be read back it is well-formed. */
  lemma ItemOfMember(m: Member)
    requires Fits(m)
    ensures Raw(ItemOf(m)) == MemberBytes(m) == Copied(ItemOf(m)) && Shown(ItemOf(m)) == m
    ensures |ItemOf(m).chdr.raw| % 4 == 0 && (Readable(m.name) ==> WellFormed(ItemOf(m)))
  {
    hide HeaderOf, NamePart, CString, FromHeader, Fits, Readable, Drop;
    var x := ItemOf(m);
    NamePadNone(|x.chdr.raw|);
    assert x.chdr.raw + NamePad(|x.chdr.raw|) == x.chdr.raw;
    assert WritePad(|x.data|, RoundUp4(|x.chdr.raw|)) == x.pad;
    NoNul(m);
    if Readable(m.name) {
      HeaderBack(m, "");
      Fronts(HeaderOf(m), NamePart(m.name), "");
      assert NamePart(m.name) + "" == NamePart(m.name);
    }
  }

  // ---------------------------------------------------------------------
  // A name of another archiver
  // ---------------------------------------------------------------------

  function FiveColumns(): Columns {
    Columns(AR_EFMT1 + Column(Number(5, 10), 13), Column(Number(0, 10), 12), Column(Number(0, 10), 6),
            Column(Number(0, 10), 6), Column(Number(0, 8), 8), Column(Number(6, 10), 10), ARFMAG)
  }

  /** A member with a name of five bytes, behind which there is no padding, and one byte of data. */
  function FiveItem(): Item {
    Item(Join(FiveColumns()), Chdr(1, 0, 5, 0, 0, 0, "hello", "hello"), "x", "")
  }

  lemma OneDigit(n: nat, base: nat, width: nat)
    requires (base == 8 || base == 10) && n < base && width > 0
    ensures var c := Column(Number(n, base), width);
      |c| == width && '\0' !in c && c == Digits(n, base) + Repeat(' ', width - 1)
  {
    assert |Digits(n, base)| == 1;
    NumberNoNul(n, base, width);
    assert Digits(n, base) + Repeat(' ', 0) == Digits(n, base);
  }

  lemma FiveHeader()
    ensures var c := FiveColumns();
      Aligned(c) && |Join(c)| == 60 && CString(Join(c)) == Join(c) && Join(c)[..3] == AR_EFMT1
      && Strtol(Join(c)[3..], 10) == 5
  {
    hide Digits, Strtol, CString, Column, Number;
    OneDigit(5, 10, 13);
    OneDigit(0, 10, 12);
    OneDigit(0, 10, 6);
    OneDigit(0, 8, 8);
    OneDigit(6, 10, 10);
    var c := FiveColumns();
    var rest := c.date + c.uid + c.gid + c.mode + c.size + c.fmag;
    assert Join(c) == AR_EFMT1 + (Digits(5, 10) + Repeat(' ', 12)) + rest;
    LongFront(Digits(5, 10), Repeat(' ', 12), rest);
    StrtolThen(5, 12, rest);
    JoinNoNul(c);
    assert Join(c)[..60] == Join(c);
    hide Join;
    CStringAt(Join(c), 60);
  }

  lemma FiveNumbers()
    ensures Numbers(FiveColumns()) == Chdr(6, 0, 0, 0, 0, 0, "", "")
  {
    StrtolBack(0, 10, 12);
    StrtolBack(0, 10, 6);
    StrtolBack(0, 8, 8);
    StrtolBack(6, 10, 10);
    hide Strtol, Column, Number;
  }

  lemma HelloName()
    ensures CString("hello") == "hello" && "hello"[..5] == "hello" && AR_EFMT1[0] == '#'
  {
  }

  lemma FiveParts()
    ensures var x := FiveItem(); |x.chdr.raw| == 5 && x.data == "x" && x.pad == ""
  {
    hide Join, FiveColumns;
  }

  lemma FiveRead(hb: string)
    requires |hb| == 60 && Cut(hb).fmag == ARFMAG && hb[..3] == AR_EFMT1 && Strtol(hb[3..], 10) == 5
    requires Numbers(Cut(hb)) == Chdr(6, 0, 0, 0, 0, 0, "", "")
    ensures FromHeader(hb, "hello") == Header(Chdr(1, 0, 5, 0, 0, 0, "hello", "hello"), hb)
  {
    HelloName();
    assert hb[0] == hb[..3][0];
    hide Strtol, Numbers, Cut, CString;
  }

  lemma FiveWellFormed()
    ensures WellFormed(FiveItem())
  {
    hide Join, Strtol, CString, Numbers, Cut, Column, Number, FromHeader;
    FiveHeader();
    FiveNumbers();
    CutJoin(FiveColumns());
    FiveRead(FiveItem().header);
  }

  lemma OtherByte(x: Item)
    requires WellFormed(x) && |x.chdr.raw| == 5 && x.data == "x" && x.pad == ""
    ensures Copied(x) != Raw(x)
    ensures Get(Copied(x)) == Header(x.chdr, x.header) && |Copied(x)| > 60 + x.chdr.lname
    ensures Copied(x)[60 + x.chdr.lname..61 + x.chdr.lname] != "x"
  {
    BothPass(x, "");
    assert "x"[0] == 'x';
    hide Legible, Copied, Raw, Get, CString;
    CopyFaithfulIff(x);
    CopyReadIff(x, "");
    assert Copied(x) + "" == Copied(x);
  }

  /** It is well-formed, but its copy differs, and what is read of that is another byte. */
  lemma FiveByteExample()
    ensures WellFormed(FiveItem()) && Copied(FiveItem()) != Raw(FiveItem())
    ensures var x := FiveItem(); var start := 60 + x.chdr.lname;
      Get(Copied(x)) == Header(x.chdr, x.header) && |Copied(x)| > start && Copied(x)[start..start + 1] != "x"
  {
    hide *;
    FiveWellFormed();
    FiveParts();
    OtherByte(FiveItem());
  }
}
