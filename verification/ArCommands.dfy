/** Moving, deleting and replacing members of an archive through temporary files. */
module ArCommands {
  import opened ArFormat
  import opened ArFile
  import opened ArItems
  import opened ArSpec
  import opened Numerals
  import opened Paths

  /** The arguments of a command, in a list that shrinks in place. */
  class Arguments {
    const argv: array<string>
    var argc: nat

    predicate Valid()
      reads this
    {
      argc <= argv.Length
    }

    function Args(): seq<string>
      requires Valid()
      reads this, argv
    {
      argv[..argc]
    }

    constructor (args: seq<string>)
      ensures fresh(argv) && Valid() && Args() == args
    {
      argv := new string[|args|](i requires 0 <= i < |args| => args[i]);
      argc := |args|;
    }

    /** Takes one argument out of the list. */
    method Remove(i: nat)
      requires Valid() && i < argc
      modifies this, argv
      ensures Valid() && Args() == old(Args())[..i] + old(Args())[i + 1..]
    {
      ghost var args := Args();
      var j := i;
      while j + 1 < argc
        invariant i <= j < argc == old(argc) && Valid()
        invariant forall k :: 0 <= k < i ==> argv[k] == args[k]
        invariant forall k :: i <= k < j ==> argv[k] == args[k + 1]
        invariant forall k :: j <= k < argc ==> argv[k] == args[k]
      {
        argv[j] := argv[j + 1];
        j := j + 1;
      }
      argc := argc - 1;
    }

    /** Takes the first argument that matches this name out of the list. */
    method Files(name: string) returns (found: bool, file: string)
      requires Valid()
      modifies this, argv
      ensures Valid()
      ensures found == Matches(old(Args()), name)
      ensures found ==> file == old(Args())[FirstMatch(old(Args()), name, 0)]
      ensures Args() == Consume(old(Args()), name)
    {
      found, file := false, "";
      ghost var args := Args();
      var i := 0;
      while i < argc
        invariant 0 <= i <= argc == old(argc) && Valid() && Args() == args && !found
        invariant FirstMatch(args, name, i) == FirstMatch(args, name, 0)
      {
        if name == Rname(argv[i]) {
          file, found := argv[i], true;
          Remove(i);
          return;
        }
        i := i + 1;
      }
    }
  }

  // ---------------------------------------------------------------------
  // One member
  // ---------------------------------------------------------------------

  /** The data of this member and `rest` are next. */
  ghost predicate Located(ar: Ar, f: File, x: Item, rest: string)
    reads ar, f
  {
    ar.chdr == x.chdr && f.Rest() == x.data + x.pad + rest
  }

  /** The header of this member has just been read. */
  ghost predicate Looking(ar: Ar, f: File, x: Item, rest: string)
    reads ar, f
  {
    Located(ar, f, x, rest) && ar.hb == x.header && ar.alreadyWritten == 0
  }

  /** Everything of this file has been written, and this is it. */
  ghost predicate Holds(f: File, xs: seq<Item>)
    reads f
  {
    f.bytes == CopiedAll(xs) && f.pos == |f.bytes|
  }

  /** The header of something that cannot be copied has just been read. */
  ghost predicate Stuck(ar: Ar, f: File, t: string)
    reads ar, f
  {
    && CannotCopy(t) && ar.chdr == Get(t).chdr && ar.hb == Get(t).hb && ar.alreadyWritten == 0
    && f.Rest() == Drop(t, 60 + ar.chdr.lname)
  }

  /** The header read last is that of member i, or of what is behind the last one. */
  ghost predicate Standing(ar: Ar, f: File, ms: seq<Item>, tail: string, i: nat)
    reads ar, f
  {
    if i < |ms| then Looking(ar, f, ms[i], RawAll(ms[i + 1..]) + tail) else i == |ms| && Stuck(ar, f, tail)
  }

  /** Reads the next header, if there is one. */
  method Look(ar: Ar, f: File, ghost ms: seq<Item>, ghost tail: string, ghost i: nat) returns (g: Got)
    requires i <= |ms| && (i < |ms| ==> Legible(ms[i])) && f.Rest() == RawAll(ms[i..]) + tail && ar.alreadyWritten == 0
    requires tail == "" || Get(tail).BadFormat? || CannotCopy(tail)
    modifies ar, f
    ensures f.bytes == old(f.bytes) && ar.alreadyWritten == 0
    ensures i < |ms| ==> g.Header?
    ensures i == |ms| ==> g == Get(tail) && (g.End? <==> tail == "")
    ensures g.Header? ==> Standing(ar, f, ms, tail, i)
  {
    hide Get, Raw, RawAll, Legible, Drop;
    RawFrom(ms, i);
    if i < |ms| {
      assert RawAll(ms[i..]) + tail == Raw(ms[i]) + (RawAll(ms[i + 1..]) + tail);
      GetItem(ms[i], RawAll(ms[i + 1..]) + tail);
    } else {
      assert RawAll(ms[i..]) + tail == tail;
      GetEnd(tail);
    }
    g := ar.GetArobj(f);
  }

  /** Writes the member behind those that a temporary file holds, or fails where it cannot. */
  method PassOn(ar: Ar, f: File, tfd: File, ghost ms: seq<Item>, ghost tail: string, ghost i: nat, ghost held: seq<Item>)
    returns (ok: bool)
    requires f != tfd && Standing(ar, f, ms, tail, i) && (i < |ms| ==> Copies(ms[i])) && Holds(tfd, held)
    modifies ar`alreadyWritten, f, tfd
    ensures f.bytes == old(f.bytes) && ar.alreadyWritten == 0 && ok == (i < |ms|)
    ensures ok ==> f.Rest() == RawAll(ms[i + 1..]) + tail && Holds(tfd, held + [ms[i]])
  {
    hide CopiedAll, CString, FromHeader, Get, Drop, NamePad, WritePad, ReadPad, RawAll;
    if i < |ms| {
      PassedCopy(ms[i], RawAll(ms[i + 1..]) + tail);
      CopiedAppend(held, ms[i]);
    }
    ok := ar.PutArobjCopy(f, tfd);
  }

  /** Goes over the member. */
  method SkipOver(ar: Ar, f: File, ghost x: Item, ghost rest: string)
    requires Located(ar, f, x, rest) && Skips(x, rest)
    modifies f
    ensures f.bytes == old(f.bytes) && f.Rest() == rest
  {
    hide CString, FromHeader, Drop;
    PassedSkip(x, rest);
    ar.SkipArobj(f);
  }

  /** Writes a file from the disk behind the members that a temporary file holds. */
  method PutNew(ar: Ar, tfd: File, disk: Disk, path: string, ghost held: seq<Item>)
    requires path in disk && Fits(MemberFrom(disk, path)) && Holds(tfd, held) && ar.alreadyWritten == 0
    modifies ar`alreadyWritten, ar`hb, tfd
    ensures ar.alreadyWritten == 0 && Holds(tfd, held + [NewItem(disk, path)])
  {
    hide HeaderOf, MemberBytes, CopiedAll, Copied, Raw, ItemOf, Fits, CString;
    var m := MemberFrom(disk, path);
    NoNul(m);
    ItemOfMember(m);
    CopiedAppend(held, NewItem(disk, path));
    var sfd := new File(disk[path].data);
    var ok := ar.PutArobjNew(sfd, tfd, m.name, m.date, m.uid, m.gid, m.mode);
  }

  /** Copies a temporary file back into the archive. */
  method CopyBack(ar: Ar, tfd: File, afd: File) returns (size: nat)
    requires tfd != afd && afd.pos <= |afd.bytes| && tfd.pos == |tfd.bytes|
    modifies tfd, afd
    ensures tfd.bytes == old(tfd.bytes) && size == |tfd.bytes|
    ensures afd.bytes == Overwrite(old(afd.bytes), old(afd.pos), tfd.bytes)
    ensures afd.pos == old(afd.pos) + size <= |afd.bytes|
  {
    hide Overwrite;
    size := tfd.pos;
    tfd.Seek(0);
    DropNothing(tfd.bytes);
    var ok := ar.CopyAr(tfd, afd, false, false, size);
    assert tfd.bytes[..size] + "" == tfd.bytes;
  }

  lemma Stitched(archive: string, start: nat, s: string)
    requires start <= |archive|
    ensures Overwrite(archive, start, s)[..start + |s|] == archive[..start] + s
  {
  }

  // ---------------------------------------------------------------------
  // Commands
  // ---------------------------------------------------------------------

  datatype Status = Done | Orphans | KeyNotFound | Malformed | Failed

  /** This archive has just been opened.  With these arguments, the command reads these members in it,
      and then this tail: nothing, no header, or a member that it has to copy and cannot. */
  ghost predicate Opened(cmd: Command, afd: File, ms: seq<Item>, args: seq<string>, tail: string)
    reads afd
  {
    ReadBy(cmd, ms, args, tail) && afd.bytes == ARMAG + (RawAll(ms) + tail) && afd.pos == |ARMAG|
  }

  /** What reading needs to know at member i. */
  lemma ReadAt(cmd: Command, ms: seq<Item>, args: seq<string>, tail: string, i: nat)
    requires ReadBy(cmd, ms, args, tail) && i <= |ms|
    ensures i < |ms| ==>
      Passes(ms[i], CopiesNext(cmd, Left(ms[..i], args), ms[i].chdr), RawAll(ms[i + 1..]) + tail) && Legible(ms[i])
    ensures tail == "" || Get(tail).BadFormat? || CannotCopy(tail)
    ensures i == |ms| && CannotCopy(tail) ==> CopiesNext(cmd, Left(ms[..i], args), Get(tail).chdr)
    ensures i == |ms| ==> Left(ms[..i], args) == Left(ms, args)
  {
    hide FromHeader, CString, Left, CopiesNext;
    assert ms[..|ms|] == ms;
  }

  function ChdrAt(ms: seq<Item>, tail: string, i: nat): Chdr
    requires i < |ms| || Get(tail).Header?
  {
    if i < |ms| then ms[i].chdr else Get(tail).chdr
  }

  lemma StandingAt(ar: Ar, f: File, ms: seq<Item>, tail: string, i: nat)
    requires Standing(ar, f, ms, tail, i)
    ensures i <= |ms| && ar.alreadyWritten == 0 && (i == |ms| ==> CannotCopy(tail) && Get(tail).Header?)
    ensures ar.chdr == ChdrAt(ms, tail, i)
    ensures i < |ms| ==> Looking(ar, f, ms[i], RawAll(ms[i + 1..]) + tail)
  {
    hide Get, CString;
  }

  /** Copies the members that no argument selects, up to the end or to where it cannot go on. */
  method Keep(ar: Ar, afd: File, arguments: Arguments, tfd: File, ghost ms: seq<Item>, ghost tail: string,
              ghost args: seq<string>)
    returns (bad: bool)
    requires ReadBy(Deleting, ms, args, tail) && afd.Rest() == RawAll(ms) + tail && arguments.Valid()
    requires arguments.Args() == args && Holds(tfd, []) && afd != tfd && ar.alreadyWritten == 0
    modifies ar, afd, arguments, arguments.argv, tfd
    ensures afd.bytes == old(afd.bytes) && arguments.Valid() && bad == (tail != "")
    ensures arguments.Args() == Left(ms, args) && (!CannotCopy(tail) ==> Holds(tfd, Chosen(ms, args, 0, |ms|, false)))
  {
    hide RawAll, Left, Chosen, Picked, Holds, Matches, FirstMatch, Consume, Rname, Looking, Standing, ReadBy, Copies, Skips,
         Legible, CannotCopy, Get;
    StartOfCommand(ms, tail, args);
    ReadAt(Deleting, ms, args, tail, 0);
    ghost var i := 0;
    var g := Look(ar, afd, ms, tail, i);
    while g.Header?
      invariant i <= |ms| && afd.bytes == old(afd.bytes) && ar.alreadyWritten == 0 && arguments.Valid()
      invariant (i < |ms| ==> g.Header?) && (i == |ms| ==> (g.End? <==> tail == ""))
      invariant g.Header? ==> Standing(ar, afd, ms, tail, i)
      invariant arguments.Args() == Left(ms[..i], args)
      invariant Holds(tfd, Chosen(ms, args, 0, i, false))
      decreases |ms| - i
    {
      StandingAt(ar, afd, ms, tail, i);
      ReadAt(Deleting, ms, args, tail, i);
      LeftNone(Left(ms[..i], args), ChdrAt(ms, tail, i).name);
      if i < |ms| {
        LeftNext(ms, args, i);
        ChosenNext(ms, args, 0, i, false);
        ReadAt(Deleting, ms, args, tail, i + 1);
      }
      var found, file := false, "";
      if arguments.argc > 0 {
        found, file := arguments.Files(ar.chdr.name);
      }
      if found {
        LookingLocated(ar, afd, ms[i], RawAll(ms[i + 1..]) + tail);
        SkipOver(ar, afd, ms[i], RawAll(ms[i + 1..]) + tail);
      } else {
        var ok := PassOn(ar, afd, tfd, ms, tail, i, Chosen(ms, args, 0, i, false));
        if !ok {
          assert ms[..|ms|] == ms;
          return true;
        }
      }
      i := i + 1;
      g := Look(ar, afd, ms, tail, i);
    }
    assert ms[..|ms|] == ms;
    bad := g.BadFormat?;
  }

  /** Without arguments, or where none matches, all of them stay. */
  lemma LeftNone(left: seq<string>, name: string)
    ensures !Matches(left, name) ==> Consume(left, name) == left
    ensures |left| == 0 ==> !Matches(left, name)
  {
  }

  lemma LookingLocated(ar: Ar, f: File, x: Item, rest: string)
    requires Looking(ar, f, x, rest)
    ensures Located(ar, f, x, rest)
  {
  }

  /** Removes the members that arguments select.  An archive that cannot be read to its end is left
      alone. */
  method Delete(ar: Ar, afd: File, arguments: Arguments, ghost ms: seq<Item>, ghost tail: string) returns (status: Status)
    requires arguments.Valid() && Opened(Deleting, afd, ms, arguments.Args(), tail) && ar.alreadyWritten == 0
    modifies ar, afd, arguments, arguments.argv
    ensures arguments.Valid() && arguments.Args() == Left(ms, old(arguments.Args()))
    ensures status == if tail != "" then Malformed else if arguments.argc > 0 then Orphans else Done
    ensures afd.bytes == if tail != "" then old(afd.bytes)
                         else ARMAG + CopiedAll(Chosen(ms, old(arguments.Args()), 0, |ms|, false))
  {
    hide Overwrite, RawAll, CopiedAll, Left, Chosen, ReadBy;
    ghost var args, archive := arguments.Args(), afd.bytes;
    var tfd := new File("");
    HoldsNothing(tfd);
    StartOfCommand(ms, tail, args);
    var bad := Keep(ar, afd, arguments, tfd, ms, tail, args);
    NothingStuck();
    if bad {
      return Malformed;
    }
    afd.Seek(|ARMAG|);
    var size := CopyBack(ar, tfd, afd);
    Stitched(archive, |ARMAG|, tfd.bytes);
    afd.Truncate(size + |ARMAG|);
    status := if arguments.argc > 0 then Orphans else Done;
  }

  /** Passes on a member that no argument selects.  The first that has the name of the position is the
      key, and what follows goes to the file behind it. */
  method PassBy(ar: Ar, afd: File, place: Where, front: File, back: File, cur: File, searching: bool,
                ghost ms: seq<Item>, ghost tail: string, ghost i: nat, ghost before: seq<Item>, ghost behind: seq<Item>)
    returns (curfd: File, mods: bool, ok: bool)
    requires afd != front && afd != back && front != back && (cur == front || cur == back) && (searching ==> !place.AtEnd?)
    requires Standing(ar, afd, ms, tail, i) && (i < |ms| ==> Copies(ms[i])) && Holds(front, before) && Holds(back, behind)
    modifies ar`alreadyWritten, afd, front, back
    ensures afd.bytes == old(afd.bytes) && ar.alreadyWritten == 0 && ok == (i < |ms|)
    ensures ok ==>
      var here := searching && ms[i].chdr.name == Rname(place.posname);
      && afd.Rest() == RawAll(ms[i + 1..]) + tail
      && mods == (searching && !here) && curfd == (if here then back else cur)
      && Holds(front, AppendIf(before, cur == front && !(here && place.Before?), ms[i]))
      && Holds(back, AppendIf(behind, cur == back || (here && place.Before?), ms[i]))
  {
    hide Copies, Rname, Holds, Looking, Standing, RawAll, Get;
    StandingAt(ar, afd, ms, tail, i);
    curfd, mods := cur, searching;
    if mods && ar.chdr.name == Rname(place.posname) {
      mods := false;
      if place.Before? {
        curfd := back;
      }
      ok := PassOn(ar, afd, curfd, ms, tail, i, if curfd == back then behind else before);
      if place.After? {
        curfd := back;
      }
    } else {
      ok := PassOn(ar, afd, curfd, ms, tail, i, if curfd == back then behind else before);
    }
  }

  /** One turn of the loop of move. */
  method PartitionOne(ar: Ar, afd: File, arguments: Arguments, place: Where, tfd1: File, tfd2: File, tfd3: File,
                      cur: File, searching: bool, ghost ms: seq<Item>, ghost tail: string, ghost args: seq<string>,
                      ghost i: nat)
    returns (curfd: File, mods: bool, ok: bool)
    requires ReadBy(Moving, ms, args, tail) && Standing(ar, afd, ms, tail, i) && i <= |ms|
    requires arguments.Valid() && arguments.Args() == Left(ms[..i], args)
    requires afd != tfd1 && afd != tfd2 && afd != tfd3 && tfd1 != tfd2 && tfd1 != tfd3 && tfd2 != tfd3
    requires Holds(tfd1, MovedFront(ms, args, place, i)) && Holds(tfd2, Chosen(ms, args, 0, i, true))
    requires Holds(tfd3, MovedBack(ms, args, place, i))
    requires searching == (!place.AtEnd? && KeyAt(ms, args, place, 0, i) == i)
    requires cur == if KeyAt(ms, args, place, 0, i) < i then tfd3 else tfd1
    modifies ar, afd, arguments, arguments.argv, tfd1, tfd2, tfd3
    ensures afd.bytes == old(afd.bytes) && ar.alreadyWritten == 0 && arguments.Valid() && ok == (i < |ms|)
    ensures !ok ==> Get(tail).Header? && arguments.Args() == Consume(Left(ms, args), Get(tail).chdr.name)
    ensures ok ==>
      && afd.Rest() == RawAll(ms[i + 1..]) + tail && arguments.Args() == Left(ms[..i + 1], args)
      && Holds(tfd1, MovedFront(ms, args, place, i + 1)) && Holds(tfd2, Chosen(ms, args, 0, i + 1, true))
      && Holds(tfd3, MovedBack(ms, args, place, i + 1))
      && mods == (!place.AtEnd? && KeyAt(ms, args, place, 0, i + 1) == i + 1)
      && curfd == if KeyAt(ms, args, place, 0, i + 1) < i + 1 then tfd3 else tfd1
  {
    hide RawAll, Left, Chosen, Picked, KeyAt, Holds, ReadBy, Copies, Skips, Legible, CannotCopy, Get, Standing,
         MovedFront, MovedBack, Matches, FirstMatch, Consume, Rname, Looking;
    StandingAt(ar, afd, ms, tail, i);
    ReadAt(Moving, ms, args, tail, i);
    LeftNone(Left(ms[..i], args), ChdrAt(ms, tail, i).name);
    if i < |ms| {
      LeftNext(ms, args, i);
      MovedNext(ms, args, place, i);
      KeyAtNext(ms, args, place, 0, i);
    }
    ghost var held1, held3 := MovedFront(ms, args, place, i), MovedBack(ms, args, place, i);
    curfd, mods := cur, searching;
    var found, file := false, "";
    if arguments.argc > 0 {
      found, file := arguments.Files(ar.chdr.name);
    }
    if found {
      ok := PassOn(ar, afd, tfd2, ms, tail, i, Chosen(ms, args, 0, i, true));
    } else {
      curfd, mods, ok := PassBy(ar, afd, place, tfd1, tfd3, curfd, mods, ms, tail, i, held1, held3);
    }
  }

  /** Breaks the archive into the members before the key, those selected, and those after it. */
  method Partition(ar: Ar, afd: File, arguments: Arguments, place: Where, tfd1: File, tfd2: File, tfd3: File,
                   ghost ms: seq<Item>, ghost tail: string, ghost args: seq<string>)
    returns (mods: bool, bad: bool)
    requires ReadBy(Moving, ms, args, tail) && afd.Rest() == RawAll(ms) + tail && arguments.Valid() && ar.alreadyWritten == 0
    requires arguments.Args() == args && Holds(tfd1, []) && Holds(tfd2, []) && Holds(tfd3, [])
    requires afd != tfd1 && afd != tfd2 && afd != tfd3 && tfd1 != tfd2 && tfd1 != tfd3 && tfd2 != tfd3
    modifies ar, afd, arguments, arguments.argv, tfd1, tfd2, tfd3
    ensures afd.bytes == old(afd.bytes) && arguments.Valid() && bad == (tail != "")
    ensures arguments.Args() == LeftAtEnd(ms, args, tail)
    ensures !CannotCopy(tail) ==>
      && Holds(tfd1, MovedFront(ms, args, place, |ms|)) && Holds(tfd2, Chosen(ms, args, 0, |ms|, true))
      && Holds(tfd3, MovedBack(ms, args, place, |ms|))
      && mods == (!place.AtEnd? && KeyAt(ms, args, place, 0, |ms|) == |ms|)
  {
    hide RawAll, Left, Chosen, Picked, KeyAt, Holds, ReadBy, Copies, Skips, Legible, CannotCopy, Get, Standing, LeftAtEnd,
         MovedFront, MovedBack, Matches, FirstMatch, Consume, Rname, Looking;
    mods := !place.AtEnd?;
    var curfd := tfd1;
    StartOfCommand(ms, tail, args);
    StartOfMove(ms, args, place);
    ReadAt(Moving, ms, args, tail, 0);
    ghost var i := 0;
    var g := Look(ar, afd, ms, tail, i);
    while g.Header?
      invariant i <= |ms| && afd.bytes == old(afd.bytes) && ar.alreadyWritten == 0 && arguments.Valid()
      invariant (i < |ms| ==> g.Header?) && (i == |ms| ==> g == Get(tail) && (g.End? <==> tail == ""))
      invariant g.Header? ==> Standing(ar, afd, ms, tail, i)
      invariant arguments.Args() == Left(ms[..i], args)
      invariant Holds(tfd1, MovedFront(ms, args, place, i))
      invariant Holds(tfd2, Chosen(ms, args, 0, i, true))
      invariant Holds(tfd3, MovedBack(ms, args, place, i))
      invariant mods == (!place.AtEnd? && KeyAt(ms, args, place, 0, i) == i)
      invariant curfd == if KeyAt(ms, args, place, 0, i) < i then tfd3 else tfd1
      decreases |ms| - i
    {
      StandingAt(ar, afd, ms, tail, i);
      LeftAtEndIs(ms, args, tail, i);
      if i < |ms| {
        ReadAt(Moving, ms, args, tail, i + 1);
      }
      var ok;
      curfd, mods, ok := PartitionOne(ar, afd, arguments, place, tfd1, tfd2, tfd3, curfd, mods, ms, tail, args, i);
      if !ok {
        return mods, true;
      }
      i := i + 1;
      g := Look(ar, afd, ms, tail, i);
    }
    LeftAtEndIs(ms, args, tail, i);
    OnlyHeaders(tail);
    bad := g.BadFormat?;
  }

  /** The arguments left when reading ends: a member that cannot be copied may have used up one more. */
  function LeftAtEnd(ms: seq<Item>, args: seq<string>, tail: string): seq<string> {
    if CannotCopy(tail) then Consume(Left(ms, args), Get(tail).chdr.name) else Left(ms, args)
  }

  lemma OnlyHeaders(t: string)
    ensures CannotCopy(t) ==> Get(t).Header?
  {
    hide Get, CString;
  }

  lemma LeftAtEndIs(ms: seq<Item>, args: seq<string>, tail: string, i: nat)
    requires i <= |ms|
    ensures i == |ms| ==>
      && Left(ms[..i], args) == Left(ms, args)
      && (CannotCopy(tail) ==> LeftAtEnd(ms, args, tail) == Consume(Left(ms, args), Get(tail).chdr.name))
      && (!CannotCopy(tail) ==> LeftAtEnd(ms, args, tail) == Left(ms, args))
  {
    hide CannotCopy, Left, Consume, Get;
    assert ms[..|ms|] == ms;
  }

  /** Puts the archive back together from its parts. */
  method Reassemble(ar: Ar, afd: File, tfd1: File, tfd2: File, tfd3: File)
    requires afd != tfd1 && afd != tfd2 && afd != tfd3 && tfd1 != tfd2 && tfd1 != tfd3 && tfd2 != tfd3
    requires |afd.bytes| >= |ARMAG|
    requires tfd1.pos == |tfd1.bytes| && tfd2.pos == |tfd2.bytes| && tfd3.pos == |tfd3.bytes|
    modifies afd, tfd1, tfd2, tfd3
    ensures afd.bytes == old(afd.bytes)[..|ARMAG|] + old(tfd1.bytes + tfd2.bytes + tfd3.bytes)
  {
    hide Overwrite;
    ghost var archive, a, b, c := afd.bytes, tfd1.bytes, tfd2.bytes, tfd3.bytes;
    afd.Seek(|ARMAG|);
    var size := CopyBack(ar, tfd1, afd);
    var tsize := size;
    size := CopyBack(ar, tfd2, afd);
    tsize := tsize + size;
    size := CopyBack(ar, tfd3, afd);
    tsize := tsize + size;
    ThreeParts(archive, |ARMAG|, a, b, c);
    afd.Truncate(tsize + |ARMAG|);
  }

  lemma HoldsNothing(f: File)
    requires f.bytes == "" && f.pos == 0
    ensures Holds(f, [])
  {
  }

  /** No more members have the name of the position than arguments ask for. */
  ghost predicate KeyMissing(ms: seq<Item>, args: seq<string>, place: Where) {
    !place.AtEnd? && Named(ms, Rname(place.posname)) <= Asked(args, Rname(place.posname))
  }

  lemma MissingIff(ms: seq<Item>, args: seq<string>, place: Where)
    ensures KeyMissing(ms, args, place) <==> !place.AtEnd? && KeyAt(ms, args, place, 0, |ms|) == |ms|
  {
    hide KeyAt, Named, Asked, Rname;
    if !place.AtEnd? {
      KeyFoundIff(ms, args, place);
    }
  }

  /** Moves the members that arguments select to the position, or to the end.  Nothing changes if
      the position is not there or the archive is malformed. */
  method Move(ar: Ar, afd: File, arguments: Arguments, place: Where, ghost ms: seq<Item>, ghost tail: string)
    returns (status: Status)
    requires arguments.Valid() && Opened(Moving, afd, ms, arguments.Args(), tail) && ar.alreadyWritten == 0
    modifies ar, afd, arguments, arguments.argv
    ensures arguments.Valid() && arguments.Args() == LeftAtEnd(ms, old(arguments.Args()), tail)
    ensures tail == "" ==> arguments.Args() == Left(ms, old(arguments.Args()))
    ensures status == if tail != "" then Malformed else if KeyMissing(ms, old(arguments.Args()), place) then KeyNotFound
                      else if arguments.argc > 0 then Orphans else Done
    ensures afd.bytes == if status.Malformed? || status.KeyNotFound? then old(afd.bytes)
                         else ARMAG + CopiedAll(Moved(ms, old(arguments.Args()), place))
  {
    hide RawAll, CopiedAll, Left, Chosen, KeyAt, Moved, MovedFront, MovedBack, ReadBy, KeyMissing;
    ghost var args := arguments.Args();
    var tfd1 := new File("");
    var tfd2 := new File("");
    var tfd3 := new File("");
    HoldsNothing(tfd1);
    HoldsNothing(tfd2);
    HoldsNothing(tfd3);
    StartOfCommand(ms, tail, args);
    var mods, bad := Partition(ar, afd, arguments, place, tfd1, tfd2, tfd3, ms, tail, args);
    MissingIff(ms, args, place);
    NothingStuck();
    if bad {
      return Malformed;
    }
    if mods {
      return KeyNotFound;
    }
    MovedBytes(ms, args, place);
    Reassemble(ar, afd, tfd1, tfd2, tfd3);
    status := if arguments.argc > 0 then Orphans else Done;
  }

  lemma NothingStuck()
    ensures !CannotCopy("")
  {
    NothingLeft();
    hide Get;
  }

  lemma ThreeParts(archive: string, start: nat, a: string, b: string, c: string)
    requires start <= |archive|
    ensures var r := Overwrite(Overwrite(Overwrite(archive, start, a), start + |a|, b), start + |a| + |b|, c);
      |r| >= start + |a| + |b| + |c| && r[..|a| + |b| + |c| + start] == archive[..start] + (a + b + c)
  {
    OverwriteTwice(archive, start, a, b);
    OverwriteTwice(archive, start, a + b, c);
    Stitched(archive, start, a + b + c);
    hide Overwrite;
  }

  lemma MovedBytes(ms: seq<Item>, args: seq<string>, place: Where)
    ensures CopiedAll(Moved(ms, args, place))
         == CopiedAll(MovedFront(ms, args, place, |ms|)) + CopiedAll(Chosen(ms, args, 0, |ms|, true))
            + CopiedAll(MovedBack(ms, args, place, |ms|))
  {
    hide CopiedAll, MovedFront, MovedBack, Chosen;
    var a, b, c := MovedFront(ms, args, place, |ms|), Chosen(ms, args, 0, |ms|, true), MovedBack(ms, args, place, |ms|);
    CopiedConcat(a + b, c);
    CopiedConcat(a, b);
  }

  lemma StartOfMove(ms: seq<Item>, args: seq<string>, place: Where)
    ensures KeyAt(ms, args, place, 0, 0) == 0
    ensures MovedFront(ms, args, place, 0) == [] == MovedBack(ms, args, place, 0)
  {
  }

  lemma StartOfCommand(ms: seq<Item>, tail: string, args: seq<string>)
    ensures Left([], args) == args && ms[..0] == [] && ms[0..] == ms
    ensures Chosen(ms, args, 0, 0, false) == [] == Chosen(ms, args, 0, 0, true)
    ensures Drop(ARMAG + (RawAll(ms) + tail), |ARMAG|) == RawAll(ms) + tail
    ensures (ARMAG + (RawAll(ms) + tail))[..|ARMAG|] == ARMAG
  {
    hide RawAll;
  }

  lemma LeftNext(ms: seq<Item>, args: seq<string>, i: nat)
    requires i < |ms|
    ensures Left(ms[..i + 1], args) == Consume(Left(ms[..i], args), ms[i].chdr.name)
    ensures Picked(ms, args, i) == Matches(Left(ms[..i], args), ms[i].chdr.name)
    ensures |Left(ms[..i], args)| == 0 ==> !Picked(ms, args, i) && Left(ms[..i + 1], args) == Left(ms[..i], args)
  {
    assert ms[..i + 1][..i] == ms[..i];
  }

  // ---------------------------------------------------------------------
  // Replacing
  // ---------------------------------------------------------------------

  /** Every file could become a member. */
  predicate SoundDisk(disk: Disk) {
    forall path <- disk :: Fits(MemberFrom(disk, path))
  }

  /** Puts the file in the place of a member, or passes the member on. */
  method PutInPlace(ar: Ar, afd: File, tfd: File, disk: Disk, path: string, update: bool,
                    ghost ms: seq<Item>, ghost tail: string, ghost i: nat, ghost held: seq<Item>)
    returns (missing: bool, ok: bool)
    requires afd != tfd && Standing(ar, afd, ms, tail, i) && Holds(tfd, held) && SoundDisk(disk)
    requires var replaced := Replaces(disk, path, update, ChdrAt(ms, tail, i).date);
      if i < |ms| then Passes(ms[i], !replaced, RawAll(ms[i + 1..]) + tail) else !replaced
    modifies ar, afd, tfd
    ensures afd.bytes == old(afd.bytes) && ar.alreadyWritten == 0 && missing == (path !in disk) && ok == (i < |ms|)
    ensures ok ==>
      && afd.Rest() == RawAll(ms[i + 1..]) + tail
      && Holds(tfd, held + [if Replaces(disk, path, update, ms[i].chdr.date) then NewItem(disk, path) else ms[i]])
  {
    hide Fits, Copies, Skips, ItemOf, Rname, Holds, RawAll, Standing, Looking, Get;
    StandingAt(ar, afd, ms, tail, i);
    missing := path !in disk;
    if missing || (update && disk[path].date <= ar.chdr.date) {
      ok := PassOn(ar, afd, tfd, ms, tail, i, held);
    } else {
      LookingLocated(ar, afd, ms[i], RawAll(ms[i + 1..]) + tail);
      PutNew(ar, tfd, disk, path, held);
      SkipOver(ar, afd, ms[i], RawAll(ms[i + 1..]) + tail);
      ok := true;
    }
  }

  /** One turn of the loop of replace. */
  method SubstituteOne(ar: Ar, afd: File, arguments: Arguments, place: Where, disk: Disk, update: bool, tfd1: File, tfd2: File,
                       cur: File, searching: bool, ghost ms: seq<Item>, ghost tail: string, ghost args: seq<string>,
                       ghost i: nat)
    returns (curfd: File, mods: bool, absent: bool, ok: bool)
    requires ReadBy(Replacing(disk, update), ms, args, tail) && Standing(ar, afd, ms, tail, i) && i <= |ms| && SoundDisk(disk)
    requires arguments.Valid() && arguments.Args() == Left(ms[..i], args)
    requires afd != tfd1 && afd != tfd2 && tfd1 != tfd2
    requires Holds(tfd1, ReplacedFront(ms, args, place, disk, update, i))
    requires Holds(tfd2, ReplacedBack(ms, args, place, disk, update, i))
    requires searching == (!place.AtEnd? && KeyAt(ms, args, place, 0, i) == i)
    requires cur == if KeyAt(ms, args, place, 0, i) < i then tfd2 else tfd1
    modifies ar, afd, arguments, arguments.argv, tfd1, tfd2
    ensures afd.bytes == old(afd.bytes) && ar.alreadyWritten == 0 && arguments.Valid() && ok == (i < |ms|)
    ensures ok ==>
      && afd.Rest() == RawAll(ms[i + 1..]) + tail && arguments.Args() == Left(ms[..i + 1], args)
      && PlaceMissing(ms, args, disk, i + 1) == (PlaceMissing(ms, args, disk, i) || absent)
      && Holds(tfd1, ReplacedFront(ms, args, place, disk, update, i + 1))
      && Holds(tfd2, ReplacedBack(ms, args, place, disk, update, i + 1))
      && mods == (!place.AtEnd? && KeyAt(ms, args, place, 0, i + 1) == i + 1)
      && curfd == if KeyAt(ms, args, place, 0, i + 1) < i + 1 then tfd2 else tfd1
  {
    hide RawAll, Left, Chosen, Picked, KeyAt, Holds, ReadBy, Copies, Skips, Legible, CannotCopy, Get, Standing, Passes,
         ReplacedFront, ReplacedBack, Matches, FirstMatch, Consume, Rname, Looking, SoundDisk, InPlace, NewItem, PlaceMissing,
         Replaces, CopiesNext;
    ghost var cmd, left := Replacing(disk, update), Left(ms[..i], args);
    StandingAt(ar, afd, ms, tail, i);
    ReadAt(cmd, ms, args, tail, i);
    FoundOrNot(cmd, ms, tail, i, left);
    if i < |ms| {
      LeftNext(ms, args, i);
      ReplacedNext(ms, args, place, disk, update, i);
      KeyAtNext(ms, args, place, 0, i);
      InPlaceIs(ms, args, disk, update, i);
    }
    ghost var held1 := ReplacedFront(ms, args, place, disk, update, i);
    ghost var held2 := ReplacedBack(ms, args, place, disk, update, i);
    curfd, mods, absent := cur, searching, false;
    var found, file := false, "";
    if arguments.argc > 0 {
      found, file := arguments.Files(ar.chdr.name);
    }
    if found {
      absent, ok := PutInPlace(ar, afd, curfd, disk, file, update, ms, tail, i, if curfd == tfd2 then held2 else held1);
    } else {
      curfd, mods, ok := PassBy(ar, afd, place, tfd1, tfd2, curfd, mods, ms, tail, i, held1, held2);
    }
  }

  /** What reading the next member asks for, by whether an argument matches its name. */
  lemma FoundOrNot(cmd: Command, ms: seq<Item>, tail: string, i: nat, left: seq<string>)
    requires cmd.Replacing? && i <= |ms| && (i == |ms| ==> Get(tail).Header?)
    requires i < |ms| ==> Passes(ms[i], CopiesNext(cmd, left, ms[i].chdr), RawAll(ms[i + 1..]) + tail)
    requires i == |ms| ==> CopiesNext(cmd, left, Get(tail).chdr)
    ensures var c := ChdrAt(ms, tail, i);
      && (!Matches(left, c.name) ==> Consume(left, c.name) == left && (i < |ms| ==> Copies(ms[i])))
      && (|left| == 0 ==> !Matches(left, c.name))
      && (Matches(left, c.name) ==>
            var replaced := Replaces(cmd.disk, left[FirstMatch(left, c.name, 0)], cmd.update, c.date);
            if i < |ms| then Passes(ms[i], !replaced, RawAll(ms[i + 1..]) + tail) else !replaced)
  {
    hide Copies, Skips, FirstMatch, Replaces, Get, RawAll;
    LeftNone(left, ChdrAt(ms, tail, i).name);
  }

  /** Breaks the archive into the members up to the key and those after it, with files in place of
      the members that arguments select. */
  method Substitute(ar: Ar, afd: File, arguments: Arguments, place: Where, disk: Disk, update: bool, tfd1: File, tfd2: File,
                    ghost ms: seq<Item>, ghost tail: string, ghost args: seq<string>)
    returns (mods: bool, missing: bool, bad: bool)
    requires ReadBy(Replacing(disk, update), ms, args, tail) && afd.Rest() == RawAll(ms) + tail && SoundDisk(disk)
    requires arguments.Valid() && ar.alreadyWritten == 0
    requires arguments.Args() == args && Holds(tfd1, []) && Holds(tfd2, [])
    requires afd != tfd1 && afd != tfd2 && tfd1 != tfd2
    modifies ar, afd, arguments, arguments.argv, tfd1, tfd2
    ensures afd.bytes == old(afd.bytes) && arguments.Valid() && ar.alreadyWritten == 0 && bad == (tail != "")
    ensures !CannotCopy(tail) ==>
      && arguments.Args() == Left(ms, args) && missing == PlaceMissing(ms, args, disk, |ms|)
      && Holds(tfd1, ReplacedFront(ms, args, place, disk, update, |ms|))
      && Holds(tfd2, ReplacedBack(ms, args, place, disk, update, |ms|))
      && mods == (!place.AtEnd? && KeyAt(ms, args, place, 0, |ms|) == |ms|)
  {
    hide RawAll, Left, Chosen, Picked, KeyAt, Holds, ReadBy, Copies, Skips, Legible, CannotCopy, Get, Standing, Passes,
         ReplacedFront, ReplacedBack, Matches, FirstMatch, Consume, Rname, Looking, SoundDisk, InPlace, NewItem, PlaceMissing,
         Replaces;
    var cmd := Replacing(disk, update);
    mods, missing := !place.AtEnd?, false;
    var curfd := tfd1;
    StartOfCommand(ms, tail, args);
    StartOfReplace(ms, args, place, disk, update);
    ReadAt(cmd, ms, args, tail, 0);
    ghost var i := 0;
    var g := Look(ar, afd, ms, tail, i);
    while g.Header?
      invariant i <= |ms| && afd.bytes == old(afd.bytes) && ar.alreadyWritten == 0 && arguments.Valid()
      invariant (i < |ms| ==> g.Header?) && (i == |ms| ==> (g.End? <==> tail == ""))
      invariant g.Header? ==> Standing(ar, afd, ms, tail, i)
      invariant arguments.Args() == Left(ms[..i], args) && missing == PlaceMissing(ms, args, disk, i)
      invariant Holds(tfd1, ReplacedFront(ms, args, place, disk, update, i))
      invariant Holds(tfd2, ReplacedBack(ms, args, place, disk, update, i))
      invariant mods == (!place.AtEnd? && KeyAt(ms, args, place, 0, i) == i)
      invariant curfd == if KeyAt(ms, args, place, 0, i) < i then tfd2 else tfd1
      decreases |ms| - i
    {
      StandingAt(ar, afd, ms, tail, i);
      if i < |ms| {
        ReadAt(cmd, ms, args, tail, i + 1);
      }
      var absent, ok;
      curfd, mods, absent, ok :=
        SubstituteOne(ar, afd, arguments, place, disk, update, tfd1, tfd2, curfd, mods, ms, tail, args, i);
      missing := missing || absent;
      if !ok {
        return mods, missing, true;
      }
      i := i + 1;
      g := Look(ar, afd, ms, tail, i);
    }
    assert ms[..|ms|] == ms;
    bad := g.BadFormat?;
  }

  lemma StartOfReplace(ms: seq<Item>, args: seq<string>, place: Where, disk: Disk, update: bool)
    ensures KeyAt(ms, args, place, 0, 0) == 0
    ensures ReplacedFront(ms, args, place, disk, update, 0) == [] == ReplacedBack(ms, args, place, disk, update, 0)
    ensures !PlaceMissing(ms, args, disk, 0)
  {
  }

  /** What an argument that selects a member means for it. */
  lemma InPlaceIs(ms: seq<Item>, args: seq<string>, disk: Disk, update: bool, i: nat)
    requires i < |ms|
    ensures var left, m := Left(ms[..i], args), InPlace(ms, args, disk, update, i);
      && (!Picked(ms, args, i) ==> m == ms[i] && PlaceMissing(ms, args, disk, i + 1) == PlaceMissing(ms, args, disk, i))
      && (Picked(ms, args, i) ==>
            var path := left[FirstMatch(left, ms[i].chdr.name, 0)];
            && m == (if Replaces(disk, path, update, ms[i].chdr.date) then NewItem(disk, path) else ms[i])
            && PlaceMissing(ms, args, disk, i + 1) == (PlaceMissing(ms, args, disk, i) || path !in disk))
  {
    hide Left;
  }

  /** Adds the files that are left over. */
  method AddFiles(ar: Ar, tfd: File, paths: seq<string>, disk: Disk, ghost held: seq<Item>) returns (missing: bool)
    requires SoundDisk(disk) && Holds(tfd, held) && ar.alreadyWritten == 0
    modifies ar, tfd
    ensures Holds(tfd, held + Added(disk, paths)) && missing == FileMissing(disk, paths) && ar.alreadyWritten == 0
  {
    hide Fits, Holds, ItemOf, Rname, Added;
    missing := false;
    var i := 0;
    assert paths[..0] == [];
    NoneAdded(disk);
    assert held + [] == held;
    while i < |paths|
      invariant 0 <= i <= |paths| && ar.alreadyWritten == 0
      invariant Holds(tfd, held + Added(disk, paths[..i]))
      invariant missing == FileMissing(disk, paths[..i])
    {
      AddedNext(disk, paths, i);
      assert paths[..i + 1] == paths[..i] + [paths[i]];
      MissingNext(disk, paths[..i], paths[i]);
      if paths[i] !in disk {
        missing := true;
      } else {
        PutNew(ar, tfd, disk, paths[i], held + Added(disk, paths[..i]));
        assert held + Added(disk, paths[..i]) + [NewItem(disk, paths[i])]
            == held + (Added(disk, paths[..i]) + [NewItem(disk, paths[i])]);
      }
      i := i + 1;
    }
    assert paths[..|paths|] == paths;
  }

  lemma NoneAdded(disk: Disk)
    ensures Added(disk, []) == []
  {
  }

  lemma MissingNext(disk: Disk, paths: seq<string>, path: string)
    ensures FileMissing(disk, paths + [path]) == (FileMissing(disk, paths) || path !in disk)
  {
    if FileMissing(disk, paths) {
      var j :| 0 <= j < |paths| && paths[j] !in disk;
      assert (paths + [path])[j] !in disk;
    }
    if path !in disk {
      assert (paths + [path])[|paths|] !in disk;
    }
  }

  datatype Outcome = Outcome(status: Status, missing: bool)

  /** Puts files in the place of the members that arguments select, and the others at the position,
      or at the end.  Nothing changes if the position is not there or the archive is malformed. */
  method Replace(ar: Ar, afd: File, arguments: Arguments, place: Where, disk: Disk, update: bool,
                 ghost ms: seq<Item>, ghost tail: string)
    returns (outcome: Outcome)
    requires arguments.Valid() && Opened(Replacing(disk, update), afd, ms, arguments.Args(), tail)
    requires SoundDisk(disk) && ar.alreadyWritten == 0
    modifies ar, afd, arguments, arguments.argv
    ensures var args := old(arguments.Args());
      && outcome.status == (if tail != "" then Malformed else if KeyMissing(ms, args, place) then KeyNotFound else Done)
      && (outcome.status.Done? ==>
            && outcome.missing == (PlaceMissing(ms, args, disk, |ms|) || FileMissing(disk, Left(ms, args)))
            && afd.bytes == ARMAG + CopiedAll(Replaced(ms, args, place, disk, update)))
      && (!outcome.status.Done? ==> afd.bytes == old(afd.bytes))
  {
    hide RawAll, CopiedAll, Left, KeyAt, Replaced, ReplacedFront, ReplacedBack, ReadBy, SoundDisk, Added;
    hide KeyMissing, PlaceMissing, FileMissing;
    ghost var args := arguments.Args();
    var tfd1 := new File("");
    var tfd2 := new File("");
    HoldsNothing(tfd1);
    HoldsNothing(tfd2);
    StartOfCommand(ms, tail, args);
    var mods, missing, bad := Substitute(ar, afd, arguments, place, disk, update, tfd1, tfd2, ms, tail, args);
    MissingIff(ms, args, place);
    NothingStuck();
    if bad {
      return Outcome(Malformed, missing);
    }
    if mods {
      return Outcome(KeyNotFound, missing);
    }
    var absent;
    if place.AtEnd? {
      AtEndBack(ms, args, place, disk, update);
      absent := AddFiles(ar, tfd2, arguments.Args(), disk, ReplacedBack(ms, args, place, disk, update, |ms|));
    } else {
      absent := AddFiles(ar, tfd1, arguments.Args(), disk, ReplacedFront(ms, args, place, disk, update, |ms|));
    }
    ReplacedBytes(ms, args, place, disk, update);
    ReassembleTwo(ar, afd, tfd1, tfd2);
    outcome := Outcome(Done, missing || absent);
  }

  method ReassembleTwo(ar: Ar, afd: File, tfd1: File, tfd2: File)
    requires afd != tfd1 && afd != tfd2 && tfd1 != tfd2 && |afd.bytes| >= |ARMAG|
    requires tfd1.pos == |tfd1.bytes| && tfd2.pos == |tfd2.bytes|
    modifies afd, tfd1, tfd2
    ensures afd.bytes == old(afd.bytes)[..|ARMAG|] + old(tfd1.bytes + tfd2.bytes)
  {
    hide Overwrite;
    ghost var archive, a, b := afd.bytes, tfd1.bytes, tfd2.bytes;
    afd.Seek(|ARMAG|);
    var tsize := CopyBack(ar, tfd1, afd);
    var size := CopyBack(ar, tfd2, afd);
    tsize := tsize + size;
    OverwriteTwice(archive, |ARMAG|, a, b);
    Stitched(archive, |ARMAG|, a + b);
    afd.Truncate(tsize + |ARMAG|);
  }

  lemma AtEndBack(ms: seq<Item>, args: seq<string>, place: Where, disk: Disk, update: bool)
    requires place.AtEnd?
    ensures ReplacedBack(ms, args, place, disk, update, |ms|) == []
  {
  }

  lemma ReplacedBytes(ms: seq<Item>, args: seq<string>, place: Where, disk: Disk, update: bool)
    ensures var front, back, added := ReplacedFront(ms, args, place, disk, update, |ms|),
                                      ReplacedBack(ms, args, place, disk, update, |ms|), Added(disk, Left(ms, args));
      CopiedAll(Replaced(ms, args, place, disk, update))
      == if place.AtEnd? then CopiedAll(front) + CopiedAll([] + added) else CopiedAll(front + added) + CopiedAll(back)
  {
    hide CopiedAll, ReplacedFront, ReplacedBack, Added, Left;
    var front, back, added := ReplacedFront(ms, args, place, disk, update, |ms|),
                              ReplacedBack(ms, args, place, disk, update, |ms|), Added(disk, Left(ms, args));
    assert [] + added == added;
    CopiedConcat(front, added);
    CopiedConcat(front + added, back);
  }

  /** Replacing in an archive that is not there makes one with the files in order, as replacing in an
      empty archive would.  With a position there is no file open to put them in, so the program fails
      unless all of them are missing, and leaves an empty archive. */
  method Create(ar: Ar, paths: seq<string>, place: Where, disk: Disk, update: bool) returns (afd: File, outcome: Outcome)
    requires SoundDisk(disk) && ar.alreadyWritten == 0
    modifies ar
    ensures place.AtEnd? ==> afd.bytes == ARMAG + CopiedAll(Replaced([], paths, place, disk, update))
    ensures !place.AtEnd? ==> afd.bytes == ARMAG
    ensures outcome.status.Failed? <==> !place.AtEnd? && exists i :: 0 <= i < |paths| && paths[i] in disk
    ensures !outcome.status.Failed? ==> outcome == Outcome(Done, FileMissing(disk, paths))
  {
    hide SoundDisk, CopiedAll, Overwrite, Added, Replaced;
    afd := new File("");
    afd.Write(ARMAG);
    if place.AtEnd? {
      var tfd2 := new File("");
      HoldsNothing(tfd2);
      var missing := AddFiles(ar, tfd2, paths, disk, []);
      var size := CopyBack(ar, tfd2, afd);
      InEmpty(paths, place, disk, update);
      Stitched(ARMAG, |ARMAG|, tfd2.bytes);
      afd.Truncate(size + |ARMAG|);
      return afd, Outcome(Done, missing);
    }
    var i, missing := 0, false;
    while i < |paths|
      invariant 0 <= i <= |paths| && afd.bytes == ARMAG
      invariant forall j :: 0 <= j < i ==> paths[j] !in disk
      invariant missing == (i > 0)
    {
      if paths[i] in disk {
        return afd, Outcome(Failed, missing);
      }
      i, missing := i + 1, true;
    }
    assert missing ==> paths[0] !in disk;
    outcome := Outcome(Done, missing);
  }

  lemma InEmpty(paths: seq<string>, place: Where, disk: Disk, update: bool)
    requires place.AtEnd?
    ensures Replaced([], paths, place, disk, update) == [] + Added(disk, paths)
  {
    hide Added;
  }

  /** Adding a file behind a member of an archive that is not there. */
  method CreateExample() returns (afd: File, outcome: Outcome)
    ensures outcome.status.Failed? && afd.bytes == ARMAG
  {
    var ar := new Ar();
    var disk := map["f" := DiskFile(0, 0, 0, 0, "")];
    SmallFits(disk, "f");
    assert ["f"][0] in disk;
    hide SoundDisk, FileMissing;
    afd, outcome := Create(ar, ["f"], After("a"), disk, false);
  }

  lemma SmallFits(disk: Disk, path: string)
    requires path == "f" && disk == map[path := DiskFile(0, 0, 0, 0, "")]
    ensures SoundDisk(disk)
  {
    assert Rname("f") == "f";
    assert MemberFrom(disk, "f") == Member("f", 0, 0, 0, 0, "");
    LengthDigits(0);
    assert NamePart("f") == "";
    hide Digits;
  }
}
