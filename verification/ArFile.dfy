/** Reading and writing archive members through files. */
module ArFile {
  import opened ArFormat

  /** A file with s written over what was at `start`. */
  function Overwrite(bytes: string, start: nat, s: string): (r: string)
    requires start <= |bytes|
    ensures |r| >= start + |s|
    ensures start == |bytes| ==> r == bytes + s
  {
    bytes[..start] + s + Drop(bytes, start + |s|)
  }

  lemma OverwriteTwice(bytes: string, start: nat, s: string, more: string)
    requires start <= |bytes|
    ensures Overwrite(Overwrite(bytes, start, s), start + |s|, more) == Overwrite(bytes, start, s + more)
  {
  }

  lemma OverwriteNothing(bytes: string, start: nat)
    requires start <= |bytes|
    ensures Overwrite(bytes, start, "") == bytes
  {
  }

  /** A file descriptor: the bytes of the file and a position.  Reads and writes are complete. */
  class File {
    var bytes: string
    var pos: nat

    constructor (bytes: string)
      ensures this.bytes == bytes && pos == 0
    {
      this.bytes, pos := bytes, 0;
    }

    /** What is left to read. */
    function Rest(): string
      reads this
    {
      Drop(bytes, pos)
    }

    method Read(n: nat) returns (r: string)
      modifies this
      ensures bytes == old(bytes)
      ensures r == if n <= |old(Rest())| then old(Rest())[..n] else old(Rest())
      ensures Rest() == Drop(old(Rest()), n)
      ensures pos == old(pos) + |r|
    {
      var rest := Rest();
      r := if n <= |rest| then rest[..n] else rest;
      pos := pos + |r|;
      DropTwice(bytes, old(pos), |r|);
      if n > |rest| {
        assert Drop(rest, |r|) == "";
      }
    }

    method Write(s: string)
      requires pos <= |bytes|
      modifies this
      ensures pos == old(pos) + |s| <= |bytes| && bytes == Overwrite(old(bytes), old(pos), s)
    {
      bytes := Overwrite(bytes, pos, s);
      pos := pos + |s|;
    }

    method Seek(p: nat)
      modifies this
      ensures bytes == old(bytes) && pos == p
    {
      pos := p;
    }

    method Truncate(n: nat)
      requires n <= |bytes|
      modifies this
      ensures bytes == old(bytes)[..n] && pos == old(pos)
    {
      bytes := bytes[..n];
    }
  }

  lemma DropTwice(s: string, i: nat, j: nat)
    ensures Drop(Drop(s, i), j) == Drop(s, i + j)
  {
  }

  const BUFFER_SIZE := 8 * 1024

  /** What copying size bytes reads beyond them. */
  function ReadPad(size: nat, lname: nat): nat {
    if size == 0 then 0 else (size + lname) % 2
  }

  /** What copying size bytes writes behind them. */
  function WritePad(size: nat, written: nat): string {
    if size == 0 then "" else Pad(size + written)
  }

  /** The bytes that bring a name to a multiple of four. */
  function NamePad(lname: nat): string {
    Repeat('\0', RoundUp4(lname) - lname)
  }

  class Ar {
    var hb: string
    var chdr: Chdr
    var alreadyWritten: nat

    constructor ()
      ensures alreadyWritten == 0
    {
      hb, chdr, alreadyWritten := "", Chdr(0, 0, 0, 0, 0, 0, "", ""), 0;
    }

    /** Reads a header and the name behind it. */
    method GetArobj(f: File) returns (g: Got)
      modifies this, f
      ensures f.bytes == old(f.bytes) && alreadyWritten == old(alreadyWritten)
      ensures g == Get(old(f.Rest()))
      ensures g.Header? ==> chdr == g.chdr && hb == g.hb && f.Rest() == Drop(old(f.Rest()), 60 + chdr.lname)
    {
      hide Strtol, CString, Strip, Cut, Drop;
      ghost var t := f.Rest();
      DropNothing(t);
      DropLength(t, 60);
      var head := f.Read(60);
      if head == "" {
        return End;
      }
      if |head| != 60 {
        return BadFormat;
      }
      hb := head;
      if Cut(hb).fmag != ARFMAG {
        return BadFormat;
      }
      var c := Numbers(Cut(hb));
      if hb[0] == ' ' {
        return BadFormat;
      }
      if hb[..3] == AR_EFMT1 {
        var len := Strtol(hb[3..], 10);
        if len <= 0 || len > MAXNAMLEN {
          return BadFormat;
        }
        var raw := f.Read(len);
        DropTwice(t, 60, len);
        if |raw| != len {
          return BadFormat;
        }
        chdr := c.(size := c.size - len, lname := len, name := CString(raw), raw := raw);
      } else {
        chdr := c.(name := CString(Strip(hb[..16])));
      }
      g := Header(chdr, hb);
    }

    /** Copies size bytes.  When reading from an archive the pad byte is read too, when writing into
        one it is written. */
    method CopyAr(rfd: File, wfd: File, rpad: bool, wpad: bool, size: nat) returns (ok: bool)
      requires rfd != wfd && wfd.pos <= |wfd.bytes|
      modifies rfd, wfd
      ensures rfd.bytes == old(rfd.bytes) && wfd.pos <= |wfd.bytes|
      ensures ok <==> size + (if rpad then ReadPad(size, chdr.lname) else 0) <= |old(rfd.Rest())|
      ensures ok ==> rfd.Rest() == Drop(old(rfd.Rest()), size + if rpad then ReadPad(size, chdr.lname) else 0)
      ensures ok ==>
        var s := old(rfd.Rest())[..size] + if wpad then WritePad(size, alreadyWritten) else "";
        wfd.bytes == Overwrite(old(wfd.bytes), old(wfd.pos), s) && wfd.pos == old(wfd.pos) + |s|
    {
      hide Overwrite, Drop;
      ghost var t, before, start := rfd.Rest(), wfd.bytes, wfd.pos;
      OverwriteNothing(before, start);
      DropNothing(t);
      ok := true;
      if size != 0 {
        ok := CopyBytes(rfd, wfd, size);
        if ok && rpad && (size + chdr.lname) % 2 == 1 {
          var pad := rfd.Read(1);
          DropTwice(t, size, 1);
          DropLength(t, size);
          ok := pad != "";
        }
        if ok && wpad && (size + alreadyWritten) % 2 == 1 {
          wfd.Write("\n");
          OverwriteTwice(before, start, t[..size], "\n");
        }
        if ok {
          assert t[..size] + "" == t[..size];
        }
      }
    }

    /** The loop of the copy, one buffer at a time. */
    method CopyBytes(rfd: File, wfd: File, size: nat) returns (ok: bool)
      requires rfd != wfd && wfd.pos <= |wfd.bytes|
      modifies rfd, wfd
      ensures rfd.bytes == old(rfd.bytes) && wfd.pos <= |wfd.bytes|
      ensures ok <==> size <= |old(rfd.Rest())|
      ensures ok ==> rfd.Rest() == Drop(old(rfd.Rest()), size)
      ensures ok ==> wfd.bytes == Overwrite(old(wfd.bytes), old(wfd.pos), old(rfd.Rest())[..size])
      ensures ok ==> wfd.pos == old(wfd.pos) + size
    {
      hide Overwrite, Drop;
      ghost var t, before, start := rfd.Rest(), wfd.bytes, wfd.pos;
      OverwriteNothing(before, start);
      DropNothing(t);
      var left: nat := size;
      ok := true;
      while left != 0 && ok
        invariant left <= size && size - left <= |t|
        invariant rfd.bytes == old(rfd.bytes) && rfd.Rest() == Drop(t, size - left)
        invariant wfd.bytes == Overwrite(before, start, t[..size - left])
        invariant wfd.pos == start + (size - left) <= |wfd.bytes|
        invariant !ok ==> size > |t|
        decreases left, if ok then 1 else 0
      {
        ghost var copied := size - left;
        var want: nat := if left < BUFFER_SIZE then left else BUFFER_SIZE;
        var buf := rfd.Read(want);
        TakeMore(t, copied, want);
        if buf == "" {
          ok := false;
        } else {
          DropTwice(t, copied, want);
          DropShort(t, copied, want, |buf|);
          wfd.Write(buf);
          OverwriteTwice(before, start, t[..copied], buf);
          left := left - |buf|;
        }
      }
    }

    /** The name of a member with its padding, behind the header. */
    method PutName(wfd: File, name: string)
      requires wfd.pos <= |wfd.bytes|
      modifies this`alreadyWritten, wfd
      ensures wfd.pos == old(wfd.pos) + RoundUp4(|name|) <= |wfd.bytes|
      ensures wfd.bytes == Overwrite(old(wfd.bytes), old(wfd.pos), name + NamePad(|name|))
      ensures alreadyWritten == if name == "" then old(alreadyWritten) else RoundUp4(|name|)
    {
      hide Overwrite;
      ghost var before, start := wfd.bytes, wfd.pos;
      OverwriteNothing(before, start);
      if |name| != 0 {
        wfd.Write(name);
        alreadyWritten := |name|;
        if |name| % 4 != 0 {
          wfd.Write(Repeat('\0', 4 - |name| % 4));
          OverwriteTwice(before, start, name, Repeat('\0', 4 - |name| % 4));
          alreadyWritten := alreadyWritten + (4 - |name| % 4);
        } else {
          assert name + NamePad(|name|) == name;
        }
      } else {
        assert name + NamePad(|name|) == "";
      }
    }

    /** Writes a header and the data behind it.  The size of a header is checked first. */
    method PutMember(rfd: File, wfd: File, name: string, size: nat, rpad: bool) returns (ok: bool)
      requires rfd != wfd && wfd.pos <= |wfd.bytes| && alreadyWritten == 0
      modifies this`alreadyWritten, rfd, wfd
      ensures rfd.bytes == old(rfd.bytes) && alreadyWritten == 0 && wfd.pos <= |wfd.bytes|
      ensures ok <==> |CString(hb)| == 60
                      && size + (if rpad then ReadPad(size, chdr.lname) else 0) <= |old(rfd.Rest())|
      ensures ok ==> rfd.Rest() == Drop(old(rfd.Rest()), size + if rpad then ReadPad(size, chdr.lname) else 0)
      ensures ok ==>
        var s := hb + (name + NamePad(|name|)) + (old(rfd.Rest())[..size] + WritePad(size, RoundUp4(|name|)));
        wfd.bytes == Overwrite(old(wfd.bytes), old(wfd.pos), s) && wfd.pos == old(wfd.pos) + |s|
    {
      hide Overwrite, CString, Drop, WritePad, ReadPad, NamePad;
      ghost var before, start, t := wfd.bytes, wfd.pos, rfd.Rest();
      if |CString(hb)| != 60 {
        return false;
      }
      wfd.Write(hb);
      PutName(wfd, name);
      OverwriteTwice(before, start, hb, name + NamePad(|name|));
      NamePadLength(|name|);
      ok := CopyAr(rfd, wfd, rpad, true, size);
      if ok {
        OverwriteTwice(before, start, hb + (name + NamePad(|name|)), t[..size] + WritePad(size, alreadyWritten));
      }
      alreadyWritten := 0;
    }

    /** Writes the member whose header was read last. */
    method PutArobjCopy(rfd: File, wfd: File) returns (ok: bool)
      requires rfd != wfd && wfd.pos <= |wfd.bytes| && alreadyWritten == 0
      modifies this`alreadyWritten, rfd, wfd
      ensures rfd.bytes == old(rfd.bytes) && alreadyWritten == 0 && wfd.pos <= |wfd.bytes|
      ensures ok <==> |CString(hb)| == 60 && chdr.size >= 0
                      && chdr.size + ReadPad(chdr.size, chdr.lname) <= |old(rfd.Rest())|
      ensures ok ==> rfd.Rest() == Drop(old(rfd.Rest()), chdr.size + ReadPad(chdr.size, chdr.lname))
      ensures ok ==>
        var n := |chdr.raw|;
        var s := hb + (chdr.raw + NamePad(n)) + (old(rfd.Rest())[..chdr.size] + WritePad(chdr.size, RoundUp4(n)));
        wfd.bytes == Overwrite(old(wfd.bytes), old(wfd.pos), s) && wfd.pos == old(wfd.pos) + |s|
    {
      if chdr.size < 0 {
        return false;
      }
      ok := PutMember(rfd, wfd, chdr.raw, chdr.size, true);
    }

    /** Writes a file from the disk as a new member. */
    method PutArobjNew(rfd: File, wfd: File, name: string, date: int, uid: nat, gid: nat, mode: nat) returns (ok: bool)
      requires rfd != wfd && wfd.pos <= |wfd.bytes| && alreadyWritten == 0 && rfd.pos == 0
      modifies this`alreadyWritten, this`hb, rfd, wfd
      ensures rfd.bytes == old(rfd.bytes) && alreadyWritten == 0 && wfd.pos <= |wfd.bytes|
      ensures var m := Member(name, date, uid, gid, mode, rfd.bytes);
        && (ok <==> |CString(HeaderOf(m))| == 60)
        && (ok ==> wfd.bytes == Overwrite(old(wfd.bytes), old(wfd.pos), MemberBytes(m))
                   && wfd.pos == old(wfd.pos) + |MemberBytes(m)|)
    {
      hide Overwrite, CString, HeaderOf;
      var m := Member(name, date, uid, gid, mode, rfd.bytes);
      hb := HeaderOf(m);
      DropNothing(rfd.bytes);
      NewMember(m);
      ok := PutMember(rfd, wfd, if IsLong(name) then name else "", |rfd.bytes|, false);
    }

    /** Goes over the data of the member whose header was read last. */
    method SkipArobj(f: File)
      requires chdr.size >= 0
      modifies f
      ensures f.bytes == old(f.bytes) && f.Rest() == Drop(old(f.Rest()), chdr.size + (chdr.size + chdr.lname) % 2)
    {
      var len := chdr.size + (chdr.size + chdr.lname) % 2;
      DropTwice(f.bytes, f.pos, len);
      f.Seek(f.pos + len);
    }
  }

  lemma NamePadLength(n: nat)
    ensures n + |NamePad(n)| == RoundUp4(n)
  {
  }

  /** A new member has the same parts, whatever its size. */
  lemma NewMember(m: Member)
    ensures var name := if IsLong(m.name) then m.name else "";
      MemberBytes(m) == HeaderOf(m) + (name + NamePad(|name|)) + (m.data[..|m.data|] + WritePad(|m.data|, RoundUp4(|name|)))
  {
    hide HeaderOf;
    assert m.data[..|m.data|] == m.data;
    var name := if IsLong(m.name) then m.name else "";
    assert NamePart(m.name) == name + NamePad(|name|);
  }

  lemma DropNothing(t: string)
    ensures Drop(t, 0) == t
  {
  }

  lemma DropLength(t: string, k: nat)
    ensures |Drop(t, k)| == if k <= |t| then |t| - k else 0
  {
  }

  /** Reading stops at the end. */
  lemma DropShort(t: string, k: nat, want: nat, got: nat)
    requires k + got <= |t| && got == if want <= |t| - k then want else |t| - k
    ensures Drop(t, k + want) == Drop(t, k + got)
  {
  }

  lemma TakeMore(t: string, k: nat, want: nat)
    requires k <= |t|
    ensures var r := Drop(t, k); var buf := if want <= |r| then r[..want] else r;
      && k + |buf| <= |t| && t[..k] + buf == t[..k + |buf|]
      && |buf| == (if want <= |t| - k then want else |t| - k)
  {
  }

  // ---------------------------------------------------------------------
  // Members that are passed on
  // ---------------------------------------------------------------------

  lemma NumberNoNul(n: int, base: nat, width: nat)
    requires base == 8 || base == 10
    ensures '\0' !in Column(Number(n, base), width)
  {
  }

  lemma ColumnsNoNul(m: Member)
    requires '\0' !in m.name
    ensures var c := ColumnsOf(m);
      '\0' !in c.name && '\0' !in c.date && '\0' !in c.uid && '\0' !in c.gid && '\0' !in c.mode && '\0' !in c.size
  {
    NumberNoNul(m.date, 10, 12);
    NumberNoNul(m.uid, 10, 6);
    NumberNoNul(m.gid, 10, 6);
    NumberNoNul(m.mode, 8, 8);
    NumberNoNul(|NamePart(m.name)| + |m.data|, 10, 10);
    NameNoNul(m.name);
    hide NamePart, Number, Column, NameColumn;
  }

  lemma NameNoNul(name: string)
    requires '\0' !in name
    ensures '\0' !in NameColumn(name)
  {
    NumberNoNul(RoundUp4(|name|), 10, 13);
    hide Number;
  }

  lemma JoinNoNul(c: Columns)
    requires '\0' !in c.name && '\0' !in c.date && '\0' !in c.uid && '\0' !in c.gid && '\0' !in c.mode
    requires '\0' !in c.size && '\0' !in c.fmag
    ensures '\0' !in Join(c)
  {
  }

  /** No NUL cuts a header short. */
  lemma NoNul(m: Member)
    requires Fits(m)
    ensures CString(HeaderOf(m)) == HeaderOf(m) && |HeaderOf(m)| == 60
  {
    HeaderSize(m);
    ColumnsNoNul(m);
    var h := HeaderOf(m);
    assert ColumnsOf(m).fmag == ARFMAG;
    hide ColumnsOf, Fits, Join;
    JoinNoNul(ColumnsOf(m));
    assert h[..60] == h;
    CStringAt(h, 60);
  }
}
