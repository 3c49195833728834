/** The file and directory tables of a line program. */
module FileTable {
  import opened Wrappers
  import opened Paths

  /** A file name without its directory, and the directory's number, 0 for none. */
  datatype FileEntry = FileEntry(filename: Option<string>, dir: nat)

  /** The same, but a leading slash does not count as a directory. */
  function FileStart(path: string): (i: nat)
    ensures i != 1 && i <= |path|
  {
    if BaseStart(path) == 1 then 0 else BaseStart(path)
  }

  /** The name that an entry stands for. */
  function NameOf(e: FileEntry, dirs: seq<string>): Option<string> {
    if e.filename.None? then None
    else if e.dir == 0 then e.filename
    else if e.dir < |dirs| then Some(dirs[e.dir] + "/" + e.filename.value)
    else None
  }

  function NamesOf(files: seq<FileEntry>, dirs: seq<string>): (names: seq<Option<string>>)
    ensures |names| == |files| && forall i :: 0 <= i < |names| ==> names[i] == NameOf(files[i], dirs)
  {
    seq(|files|, i requires 0 <= i < |files| => NameOf(files[i], dirs))
  }

  /** An entry is what its own name is split into. */
  predicate Split(e: FileEntry, dirs: seq<string>) {
    e.filename.Some? ==>
      && e.dir < |dirs| + 1
      && (e.dir == 0 ==> FileStart(e.filename.value) == 0)
      && (e.dir > 0 ==> e.dir < |dirs| && dirs[e.dir] != "" && BaseStart(e.filename.value) == 0)
  }

  predicate DistinctDirs(dirs: seq<string>) {
    forall i, j :: 1 <= i < j < |dirs| ==> dirs[i] != dirs[j]
  }

  // ---------------------------------------------------------------------
  // Numbering by name
  // ---------------------------------------------------------------------

  /** The first number of a name, or the next free one. */
  function FirstNumber(names: seq<Option<string>>, name: string, from: nat): (n: nat)
    requires from > 0
    ensures n >= from
    ensures n < |names| ==> names[n] == Some(name)
    ensures n >= |names| ==> n == if from <= |names| then |names| else from
    ensures forall k :: from <= k < n && k < |names| ==> names[k] != Some(name)
    decreases |names| - from
  {
    if from >= |names| || names[from] == Some(name) then from else FirstNumber(names, name, from + 1)
  }

  /** The names with one more at a certain number. */
  function Stored(names: seq<Option<string>>, number: nat, name: string): (r: seq<Option<string>>)
    ensures |r| == if number < |names| then |names| else number + 1
    ensures r[number] == Some(name)
    ensures forall i :: 0 <= i < |names| && i != number ==> r[i] == names[i]
    ensures forall i :: |names| <= i < |r| && i != number ==> r[i] == None
  {
    (names + seq(if number < |names| then 0 else number + 1 - |names|, _ => None))[number := Some(name)]
  }

  predicate Distinct(names: seq<Option<string>>) {
    forall i, j :: 1 <= i < j < |names| && names[i].Some? ==> names[i] != names[j]
  }

  /** Asking for the number of a name, without wishing for one. */
  function Ask(names: seq<Option<string>>, name: string): (seq<Option<string>>, nat) {
    var n := FirstNumber(names, name, 1);
    (Stored(names, n, name), n)
  }

  /** The numbers that a run of such questions gets. */
  function Answers(names: seq<Option<string>>, asked: seq<string>): (numbers: seq<nat>)
    ensures |numbers| == |asked|
    decreases |asked|
  {
    if asked == [] then [] else
      var (names', n) := Ask(names, asked[0]);
      [n] + Answers(names', asked[1..])
  }

  /** Asking keeps all numbers, and keeps names apart. */
  lemma AskKeeps(names: seq<Option<string>>, name: string)
    requires Distinct(names)
    ensures var (names', n) := Ask(names, name);
      && n >= 1 && Distinct(names') && n < |names'| && names'[n] == Some(name) && |names| <= |names'|
      && forall i :: 0 <= i < |names| && names[i].Some? ==> i == 0 || names'[i] == names[i]
  {
  }

  /** What is at a number stays there. */
  lemma {:induction false} AnswersName(names: seq<Option<string>>, asked: seq<string>, i: nat, name: string, n: nat)
    requires Distinct(names) && i < |asked| && 1 <= n < |names| && names[n] == Some(name)
    ensures Answers(names, asked)[i] == n <==> asked[i] == name
    decreases |asked|
  {
    AskKeeps(names, asked[0]);
    var (names', k) := Ask(names, asked[0]);
    if i == 0 {
      assert names'[n] == Some(name);
    } else {
      AnswersName(names', asked[1..], i - 1, name, n);
    }
  }

  /** In any run, equal names and only they get equal numbers. */
  lemma {:induction false} AnswersDistinguish(names: seq<Option<string>>, asked: seq<string>, i: nat, j: nat)
    requires Distinct(names) && i < j < |asked|
    ensures Answers(names, asked)[i] == Answers(names, asked)[j] <==> asked[i] == asked[j]
    decreases |asked|
  {
    AskKeeps(names, asked[0]);
    var (names', n) := Ask(names, asked[0]);
    if i == 0 {
      AnswersName(names', asked[1..], j - 1, asked[0], n);
    } else {
      AnswersDistinguish(names', asked[1..], i - 1, j - 1);
    }
  }

  /** All numbers from 1 on are in use. */
  predicate Dense(names: seq<Option<string>>) {
    |names| != 1 && forall k :: 1 <= k < |names| ==> names[k].Some?
  }

  function NextFree(names: seq<Option<string>>): nat {
    if names == [] then 1 else |names|
  }

  /** Numbers are given out from 1 on, and none is left out. */
  lemma {:induction false} AnswersDense(names: seq<Option<string>>, asked: seq<string>, i: nat)
    requires Dense(names) && i < |asked|
    ensures var a := Answers(names, asked);
      1 <= a[i] && (a[i] <= NextFree(names) || exists j :: 0 <= j < i && a[j] == a[i] - 1)
    decreases |asked|
  {
    var (names', n) := Ask(names, asked[0]);
    var a, b := Answers(names, asked), Answers(names', asked[1..]);
    assert 1 <= n <= NextFree(names) && Dense(names');
    if i > 0 {
      AnswersDense(names', asked[1..], i - 1);
      assert a[i] == b[i - 1] && a[0] == n;
      if j :| 0 <= j < i - 1 && b[j] == b[i - 1] - 1 {
        assert a[j + 1] == b[j];
      }
    }
  }

  // ---------------------------------------------------------------------
  // The tables
  // ---------------------------------------------------------------------

  /** The path of a name in a directory is split into just those two. */
  lemma SplitAgain(dir: string, base: string)
    requires dir != "" && BaseStart(base) == 0
    ensures FileStart(dir + "/" + base) == |dir| + 1
    ensures (dir + "/" + base)[..|dir|] == dir && (dir + "/" + base)[|dir| + 1..] == base
  {
    BaseStartUnique(dir + "/" + base, |dir| + 1);
  }

  /** Entries in the same tables have the same name only if they are the same. */
  lemma SameName(e: FileEntry, f: FileEntry, dirs: seq<string>)
    requires Split(e, dirs) && Split(f, dirs) && DistinctDirs(dirs)
    requires NameOf(e, dirs) == NameOf(f, dirs) && e.filename.Some? && f.filename.Some?
    ensures e == f
  {
    if e.dir > 0 {
      SplitAgain(dirs[e.dir], e.filename.value);
    }
    if f.dir > 0 {
      SplitAgain(dirs[f.dir], f.filename.value);
    }
  }

  class Table {
    var files: seq<FileEntry>
    var dirs: seq<string>
    var lastUsed: nat
    var lastUsedDirLen: nat

    predicate Valid()
      reads this
    {
      && DistinctDirs(dirs)
      && (forall i :: 0 <= i < |files| ==> Split(files[i], dirs))
      && (lastUsed > 0 ==>
            && lastUsed < |files| && files[lastUsed].filename.Some?
            && (files[lastUsed].dir > 0 ==> lastUsedDirLen == |dirs[files[lastUsed].dir]|))
    }

    constructor ()
      ensures Valid() && Names() == []
    {
      files, dirs, lastUsed, lastUsedDirLen := [], [], 0, 0;
    }

    function Names(): seq<Option<string>>
      reads this
    {
      NamesOf(files, dirs)
    }

    /** The number of the file used last, if the name is its name. */
    method Shortcut(filename: string) returns (n: nat)
      requires Valid()
      ensures n == if lastUsed > 0 && Names()[lastUsed] == Some(filename) then lastUsed else 0
    {
      n := 0;
      if lastUsed > 0 {
        var e := files[lastUsed];
        if e.dir == 0 && filename == e.filename.value {
          return lastUsed;
        }
        if e.dir > 0 {
          var dir, k := dirs[e.dir], lastUsedDirLen;
          if k < |filename| && filename[..k] == dir && filename[k] == '/' && filename[k + 1..] == e.filename.value {
            assert filename == dir + "/" + e.filename.value;
            return lastUsed;
          }
        }
      }
    }

    /** The number of a directory, which is added if it is not there. */
    method FindDir(name: string) returns (dir: nat)
      requires Valid() && name != ""
      modifies this
      ensures Valid() && 1 <= dir < |dirs| && dirs[dir] == name
      ensures files == old(files) && Names() == old(Names())
      ensures lastUsed == old(lastUsed) && lastUsedDirLen == old(lastUsedDirLen)
    {
      dir := 1;
      while dir < |dirs|
        invariant 1 <= dir && (dir <= |dirs| || dir == 1)
        invariant forall i :: 1 <= i < dir && i < |dirs| ==> dirs[i] != name
      {
        if dirs[dir] == name {
          return;
        }
        dir := dir + 1;
      }
      if |dirs| == 0 {
        dirs := ["", name];
      } else {
        dirs := dirs + [name];
      }
      KeepsNames(files, old(dirs), dirs);
    }

    /** The first file that is this entry, or where the search ended. */
    method FindFile(entry: FileEntry, filename: string) returns (n: nat)
      requires Valid() && Split(entry, dirs) && NameOf(entry, dirs) == Some(filename) && entry.filename.Some?
      ensures n == FirstNumber(Names(), filename, 1)
    {
      n := 1;
      while n < |files|
        invariant n >= 1
        invariant FirstNumber(Names(), filename, n) == FirstNumber(Names(), filename, 1)
        decreases |files| - n
      {
        if files[n] == entry {
          return;
        }
        if Names()[n] == Some(filename) {
          SameName(files[n], entry, dirs);
        }
        n := n + 1;
      }
    }

    /** The number wished for, or the first that the file has, or the next free one. */
    method StoreFile(filename: string, num: nat) returns (n: nat)
      requires Valid()
      modifies this
      ensures Valid() && 1 <= n < |files|
      ensures n == if num > 0 then num else FirstNumber(old(Names()), filename, 1)
      ensures Names() == Stored(old(Names()), n, filename)
    {
      var start, dir := FileStart(filename), 0;
      if start > 0 {
        dir := FindDir(filename[..start - 1]);
      }
      var entry := FileEntry(Some(filename[start..]), dir);
      EntrySplit(filename, start, entry, dirs);
      if num == 0 {
        n := FindFile(entry, filename);
      } else {
        n := num;
      }
      lastUsed, lastUsedDirLen := n, if start > 0 then start - 1 else 0;
      if num == 0 && n < |files| {
        StoredAgain(Names(), n, filename);
        FoundEntry(files[n], entry, dirs);
      } else {
        PutNames(files, dirs, n, entry, filename);
        files := Put(files, n, entry);
      }
    }

    /** The number of a file: the one wished for, or the one used last, or the one it has, or the next
        free one.  While names are apart and nobody wishes, that is to ask for it. */
    method GetFilenum(filename: string, num: nat) returns (n: nat)
      requires Valid()
      modifies this
      ensures Valid() && n >= 1 && n < |files|
      ensures num > 0 ==> n == num
      ensures num == 0 && old(lastUsed) > 0 && old(Names()[lastUsed]) == Some(filename) ==> n == old(lastUsed)
      ensures num == 0 && !(old(lastUsed) > 0 && old(Names()[lastUsed]) == Some(filename)) ==>
        n == FirstNumber(old(Names()), filename, 1)
      ensures Names() == Stored(old(Names()), n, filename)
      ensures num == 0 && old(Distinct(Names())) ==> (Names(), n) == Ask(old(Names()), filename) && Distinct(Names())
    {
      hide Distinct, Ask;
      AskIf(Names(), lastUsed, filename);
      n := 0;
      if num == 0 && lastUsed != 0 {
        n := Shortcut(filename);
      }
      if n != 0 {
        StoredAgain(Names(), n, filename);
      } else {
        n := StoreFile(filename, num);
      }
    }

    /** The numbers of a run of files, none of which is wished for. */
    method GetFilenums(asked: seq<string>) returns (numbers: seq<nat>)
      requires Valid() && Distinct(Names())
      modifies this
      ensures Valid() && Distinct(Names())
      ensures numbers == Answers(old(Names()), asked)
    {
      hide FirstNumber, Stored;
      numbers := [];
      assert asked[0..] == asked;
      for i := 0 to |asked|
        invariant Valid() && Distinct(Names())
        invariant numbers + Answers(Names(), asked[i..]) == Answers(old(Names()), asked)
      {
        AnswersNext(Names(), asked, i);
        ghost var before := numbers;
        var n := GetFilenum(asked[i], 0);
        numbers := numbers + [n];
        Regroup(before, n, Answers(Names(), asked[i + 1..]));
      }
    }
  }

  lemma AnswersNext(names: seq<Option<string>>, asked: seq<string>, i: nat)
    requires i < |asked|
    ensures var (names', n) := Ask(names, asked[i]);
      Answers(names, asked[i..]) == [n] + Answers(names', asked[i + 1..])
  {
    assert asked[i..][1..] == asked[i + 1..];
  }

  lemma Regroup(a: seq<nat>, n: nat, b: seq<nat>)
    ensures (a + [n]) + b == a + ([n] + b)
  {
  }

  /** While names are apart, taking the number used last or searching for one is asking. */
  lemma AskIf(names: seq<Option<string>>, lastUsed: nat, name: string)
    requires lastUsed > 0 ==> lastUsed < |names|
    ensures var n := if lastUsed > 0 && names[lastUsed] == Some(name) then lastUsed else FirstNumber(names, name, 1);
      Distinct(names) ==> (Stored(names, n, name), n) == Ask(names, name) && Distinct(Stored(names, n, name))
  {
    if Distinct(names) {
      AskKeeps(names, name);
      if lastUsed > 0 && names[lastUsed] == Some(name) {
        ShortcutIsSearch(names, lastUsed, name);
      }
    }
  }

  lemma StoredAgain(names: seq<Option<string>>, n: nat, name: string)
    requires n < |names| && names[n] == Some(name)
    ensures Stored(names, n, name) == names
  {
  }

  lemma FoundEntry(e: FileEntry, f: FileEntry, dirs: seq<string>)
    requires Split(e, dirs) && Split(f, dirs) && DistinctDirs(dirs)
    requires NameOf(e, dirs) == NameOf(f, dirs) && f.filename.Some?
    ensures e == f
  {
    if f.dir < |dirs| || f.dir == 0 {
      SameName(e, f, dirs);
    }
  }

  lemma PutNames(files: seq<FileEntry>, dirs: seq<string>, n: nat, e: FileEntry, name: string)
    requires NameOf(e, dirs) == Some(name)
    ensures NamesOf(Put(files, n, e), dirs) == Stored(NamesOf(files, dirs), n, name)
  {
  }

  /** The file table with an entry at a certain number; those in front of it may be empty. */
  function Put(files: seq<FileEntry>, number: nat, e: FileEntry): (r: seq<FileEntry>)
    ensures number < |r| && |r| >= |files| && r[number] == e
    ensures |r| == if number < |files| then |files| else number + 1
    ensures forall i :: 0 <= i < |files| && i != number ==> r[i] == files[i]
    ensures forall i :: |files| <= i < |r| && i != number ==> r[i] == FileEntry(None, 0)
  {
    (files + seq(if number < |files| then 0 else number + 1 - |files|, _ => FileEntry(None, 0)))[number := e]
  }

  lemma KeepsNames(files: seq<FileEntry>, dirs: seq<string>, more: seq<string>)
    requires forall i :: 0 <= i < |files| ==> Split(files[i], dirs)
    requires |dirs| <= |more| && forall i :: 1 <= i < |dirs| ==> more[i] == dirs[i]
    ensures NamesOf(files, more) == NamesOf(files, dirs)
  {
  }

  lemma EntrySplit(filename: string, start: nat, e: FileEntry, dirs: seq<string>)
    requires start == FileStart(filename) && e.filename == Some(filename[start..])
    requires if start == 0 then e.dir == 0 else 1 <= e.dir < |dirs| && dirs[e.dir] == filename[..start - 1]
    ensures Split(e, dirs) && NameOf(e, dirs) == Some(filename)
  {
    if start > 0 {
      BaseStartUnique(filename[start..], 0);
      assert filename == filename[..start - 1] + "/" + filename[start..];
    } else {
      assert filename[0..] == filename;
    }
  }

  /** As long as nobody wishes for a number, the table answers as if it always searched. */
  lemma ShortcutIsSearch(names: seq<Option<string>>, lastUsed: nat, name: string)
    requires 1 <= lastUsed < |names| && names[lastUsed] == Some(name)
    ensures FirstNumber(names, name, 1) == lastUsed <==> forall k :: 1 <= k < lastUsed ==> names[k] != Some(name)
    ensures Distinct(names) ==> FirstNumber(names, name, 1) == lastUsed
  {
  }
}
