/** The editing commands of ar as functions on lists of members, and what is listed afterwards. */
module ArSpec {
  import opened ArFile
  import opened ArFormat
  import opened ArItems
  import opened Paths

  // ---------------------------------------------------------------------
  // Arguments
  // ---------------------------------------------------------------------

  /** The first argument from i on whose last component is this name. */
  function FirstMatch(args: seq<string>, name: string, i: nat): (k: nat)
    requires i <= |args|
    ensures i <= k <= |args| && (k < |args| ==> Rname(args[k]) == name)
    ensures forall j :: i <= j < k ==> Rname(args[j]) != name
    decreases |args| - i
  {
    if i == |args| || Rname(args[i]) == name then i else FirstMatch(args, name, i + 1)
  }

  predicate Matches(args: seq<string>, name: string) {
    FirstMatch(args, name, 0) < |args|
  }

  /** The arguments without the first that matches. */
  function Consume(args: seq<string>, name: string): (left: seq<string>)
    ensures |left| == |args| - if Matches(args, name) then 1 else 0
  {
    var k := FirstMatch(args, name, 0);
    if k < |args| then args[..k] + args[k + 1..] else args
  }

  /** The arguments left when all these members have been looked at. */
  function Left(ms: seq<Item>, args: seq<string>): seq<string> {
    if ms == [] then args else Consume(Left(ms[..|ms| - 1], args), ms[|ms| - 1].chdr.name)
  }

  /** Whether an argument selects member i; each argument selects at most one. */
  predicate Picked(ms: seq<Item>, args: seq<string>, i: nat)
    requires i < |ms|
  {
    Matches(Left(ms[..i], args), ms[i].chdr.name)
  }

  /** The argument that selects member i. */
  function PickedBy(ms: seq<Item>, args: seq<string>, i: nat): string
    requires i < |ms| && Picked(ms, args, i)
  {
    var left := Left(ms[..i], args);
    left[FirstMatch(left, ms[i].chdr.name, 0)]
  }

  /** The members from..end that are selected, or those that are not. */
  function Chosen(ms: seq<Item>, args: seq<string>, from: nat, end: nat, want: bool): seq<Item>
    requires from <= end <= |ms|
    decreases end
  {
    if from == end then []
    else Chosen(ms, args, from, end - 1, want) + if Picked(ms, args, end - 1) == want then [ms[end - 1]] else []
  }

  function AppendIf(ms: seq<Item>, c: bool, m: Item): seq<Item> {
    if c then ms + [m] else ms
  }

  lemma ChosenNext(ms: seq<Item>, args: seq<string>, from: nat, i: nat, want: bool)
    requires from <= i < |ms|
    ensures Chosen(ms, args, from, i + 1, want)
         == AppendIf(Chosen(ms, args, from, i, want), Picked(ms, args, i) == want, ms[i])
    ensures Chosen(ms, args, i, i, want) == [] == Chosen(ms, args, i + 1, i + 1, want)
    ensures Chosen(ms, args, i, i + 1, want) == if Picked(ms, args, i) == want then [ms[i]] else []
  {
    hide Picked;
  }

  lemma {:induction false} ChosenCount(ms: seq<Item>, args: seq<string>, i: nat)
    requires i <= |ms|
    ensures |Chosen(ms, args, 0, i, true)| + |Left(ms[..i], args)| == |args|
  {
    hide Matches;
    if i > 0 {
      ChosenCount(ms, args, i - 1);
      assert ms[..i][..i - 1] == ms[..i - 1];
      assert Left(ms[..i], args) == Consume(Left(ms[..i - 1], args), ms[i - 1].chdr.name);
      ChosenNext(ms, args, 0, i - 1, true);
      hide Chosen, Left, Consume;
    }
  }

  lemma {:induction false} ChosenSplit(ms: seq<Item>, args: seq<string>, from: nat, mid: nat, end: nat, want: bool)
    requires from <= mid <= end <= |ms|
    ensures Chosen(ms, args, from, end, want) == Chosen(ms, args, from, mid, want) + Chosen(ms, args, mid, end, want)
    decreases end
  {
    hide Picked;
    if mid < end {
      ChosenSplit(ms, args, from, mid, end - 1, want);
    }
  }

  /** Every member is either selected or not. */
  lemma {:induction false} ChosenAll(ms: seq<Item>, args: seq<string>, from: nat, end: nat)
    requires from <= end <= |ms|
    ensures multiset(Chosen(ms, args, from, end, true)) + multiset(Chosen(ms, args, from, end, false))
         == multiset(ms[from..end])
    decreases end
  {
    hide Picked, Chosen;
    if from < end {
      var i := end - 1;
      ChosenAll(ms, args, from, i);
      ChosenNext(ms, args, from, i, true);
      ChosenNext(ms, args, from, i, false);
      assert ms[from..end] == ms[from..i] + [ms[i]];
    } else {
      ChosenNone(ms, args, from);
      assert ms[from..end] == [];
    }
  }

  lemma ChosenNone(ms: seq<Item>, args: seq<string>, i: nat)
    requires i <= |ms|
    ensures Chosen(ms, args, i, i, true) == [] == Chosen(ms, args, i, i, false)
  {
  }

  // ---------------------------------------------------------------------
  // Positions
  // ---------------------------------------------------------------------

  /** Where members are put. */
  datatype Where = AtEnd | After(posname: string) | Before(posname: string)

  /** The first member before `end` that is not selected and has the name of the position. */
  function KeyAt(ms: seq<Item>, args: seq<string>, place: Where, from: nat, end: nat): (k: nat)
    requires from <= end <= |ms|
    ensures from <= k <= end
    ensures k < end ==> !place.AtEnd? && !Picked(ms, args, k) && ms[k].chdr.name == Rname(place.posname)
    ensures forall j :: from <= j < k && !place.AtEnd? ==> Picked(ms, args, j) || ms[j].chdr.name != Rname(place.posname)
    ensures place.AtEnd? ==> k == end
    decreases |ms| - from
  {
    if from == end || (!place.AtEnd? && !Picked(ms, args, from) && ms[from].chdr.name == Rname(place.posname)) then from
    else KeyAt(ms, args, place, from + 1, end)
  }

  lemma {:induction false} KeyAtNext(ms: seq<Item>, args: seq<string>, place: Where, from: nat, i: nat)
    requires from <= i < |ms|
    ensures var k := KeyAt(ms, args, place, from, i);
      KeyAt(ms, args, place, from, i + 1)
      == if k < i then k
         else if !place.AtEnd? && !Picked(ms, args, i) && ms[i].chdr.name == Rname(place.posname) then i
         else i + 1
    decreases |ms| - from
  {
    if from < i {
      KeyAtNext(ms, args, place, from + 1, i);
    }
  }

  /** How many arguments have this last component. */
  function Asked(args: seq<string>, name: string): nat {
    if args == [] then 0 else (if Rname(args[0]) == name then 1 else 0) + Asked(args[1..], name)
  }

  /** How many members have this name. */
  function Named(ms: seq<Item>, name: string): nat {
    if ms == [] then 0 else Named(ms[..|ms| - 1], name) + if ms[|ms| - 1].chdr.name == name then 1 else 0
  }

  lemma {:induction false} AskedConcat(a: seq<string>, b: seq<string>, name: string)
    ensures Asked(a + b, name) == Asked(a, name) + Asked(b, name)
  {
    hide Rname;
    if a == [] {
      assert a + b == b;
    } else {
      assert (a + b)[1..] == a[1..] + b;
      AskedConcat(a[1..], b, name);
    }
  }

  lemma {:induction false} AskedNone(args: seq<string>, name: string)
    requires forall j :: 0 <= j < |args| ==> Rname(args[j]) != name
    ensures Asked(args, name) == 0
  {
    hide Rname;
    if args != [] {
      AskedNone(args[1..], name);
    }
  }

  /** An argument matches a name if one asks for it, and then one of those is used up. */
  lemma ConsumeAsked(args: seq<string>, name: string, other: string)
    ensures Matches(args, name) <==> Asked(args, name) > 0
    ensures Asked(Consume(args, name), other)
         == if other == name && Asked(args, other) > 0 then Asked(args, other) - 1 else Asked(args, other)
  {
    hide Rname;
    var k := FirstMatch(args, name, 0);
    AskedNone(args[..k], name);
    if k < |args| {
      AskedWithout(args, k, name);
      AskedWithout(args, k, other);
    } else {
      assert args[..k] == args;
    }
  }

  lemma AskedWithout(args: seq<string>, k: nat, name: string)
    requires k < |args|
    ensures Asked(args, name) == Asked(args[..k] + args[k + 1..], name) + if Rname(args[k]) == name then 1 else 0
  {
    hide Rname;
    var front, back := args[..k], args[k + 1..];
    assert args == front + ([args[k]] + back);
    AskedConcat(front, [args[k]] + back, name);
    AskedConcat(front, back, name);
    assert ([args[k]] + back)[1..] == back;
  }

  /** Members use up the arguments that ask for them, as far as there are any. */
  lemma {:induction false} LeftAsked(ms: seq<Item>, args: seq<string>, name: string)
    ensures Asked(Left(ms, args), name)
         == if Named(ms, name) <= Asked(args, name) then Asked(args, name) - Named(ms, name) else 0
  {
    hide Consume, Matches;
    if ms != [] {
      var n := |ms| - 1;
      LeftAsked(ms[..n], args, name);
      ConsumeAsked(Left(ms[..n], args), ms[n].chdr.name, name);
    }
  }

  /** A member is selected exactly if more arguments ask for its name than there are members of that
      name in front of it. */
  lemma PickedIff(ms: seq<Item>, args: seq<string>, i: nat)
    requires i < |ms|
    ensures Picked(ms, args, i) <==> Named(ms[..i], ms[i].chdr.name) < Asked(args, ms[i].chdr.name)
  {
    hide Consume, Matches, Left, Asked, Named;
    LeftAsked(ms[..i], args, ms[i].chdr.name);
    ConsumeAsked(Left(ms[..i], args), ms[i].chdr.name, ms[i].chdr.name);
  }

  lemma NamedNext(ms: seq<Item>, name: string, i: nat)
    requires i < |ms|
    ensures Named(ms[..i + 1], name) == Named(ms[..i], name) + if ms[i].chdr.name == name then 1 else 0
    ensures Named(ms[..0], name) == 0 && ms[..|ms|] == ms
  {
    assert ms[..i + 1][..i] == ms[..i];
  }

  lemma {:induction false} NamedGrows(ms: seq<Item>, name: string, i: nat)
    requires i <= |ms|
    ensures Named(ms[..i], name) <= Named(ms, name)
    decreases |ms| - i
  {
    hide Named;
    if i < |ms| {
      NamedNext(ms, name, i);
      NamedGrows(ms, name, i + 1);
    } else {
      assert ms[..i] == ms;
    }
  }

  lemma {:induction false} AllPicked(ms: seq<Item>, args: seq<string>, name: string, i: nat)
    requires i <= |ms| && forall j :: 0 <= j < i ==> Picked(ms, args, j) || ms[j].chdr.name != name
    ensures Named(ms[..i], name) <= Asked(args, name)
  {
    hide Named, Asked, Picked;
    if i > 0 {
      AllPicked(ms, args, name, i - 1);
      NamedNext(ms, name, i - 1);
      PickedIff(ms, args, i - 1);
    } else {
      NoneNamed(ms, name);
    }
  }

  lemma NoneNamed(ms: seq<Item>, name: string)
    ensures Named(ms[..0], name) == 0
  {
  }

  /** The key is found if and only if more members have its name than arguments ask for, and then it is
      the one behind as many others of that name as there are such arguments. */
  lemma KeyFoundIff(ms: seq<Item>, args: seq<string>, place: Where)
    requires !place.AtEnd?
    ensures var k, name := KeyAt(ms, args, place, 0, |ms|), Rname(place.posname);
      && (k < |ms| <==> Asked(args, name) < Named(ms, name))
      && (k < |ms| ==> ms[k].chdr.name == name && Named(ms[..k], name) == Asked(args, name))
  {
    hide Named, Asked, Picked, KeyAt, Rname;
    var k, name := KeyAt(ms, args, place, 0, |ms|), Rname(place.posname);
    AllPicked(ms, args, name, k);
    if k < |ms| {
      PickedIff(ms, args, k);
      NamedNext(ms, name, k);
      NamedGrows(ms, name, k + 1);
    } else {
      assert ms[..k] == ms;
    }
  }

  /** A key that is the only member of its name and is moved itself is not found, but a second member
      of that name is. */
  lemma KeyExamples(m: Item)
    requires m.chdr.name == "a"
    ensures KeyAt([m], ["a"], After("a"), 0, 1) == 1
    ensures KeyAt([m, m], ["a"], After("a"), 0, 2) == 1
  {
    assert Rname("a") == "a";
    assert Asked(["a"], "a") == 1;
    assert [m][..0] == [] && [m, m][..0] == [] && [m, m][..1] == [m];
    assert Named([m], "a") == 1;
    PickedIff([m], ["a"], 0);
    PickedIff([m, m], ["a"], 0);
    PickedIff([m, m], ["a"], 1);
  }

  // ---------------------------------------------------------------------
  // Moving
  // ---------------------------------------------------------------------

  /** The unselected members up to the key, with the key itself if the others go after it. */
  function MovedFront(ms: seq<Item>, args: seq<string>, place: Where, i: nat): seq<Item>
    requires i <= |ms|
  {
    var k := KeyAt(ms, args, place, 0, i);
    Chosen(ms, args, 0, k, false) + if k < i && place.After? then [ms[k]] else []
  }

  /** The key if the others go before it, and the unselected members behind it. */
  function MovedBack(ms: seq<Item>, args: seq<string>, place: Where, i: nat): seq<Item>
    requires i <= |ms|
  {
    var k := KeyAt(ms, args, place, 0, i);
    if k == i then [] else (if place.Before? then [ms[k]] else []) + Chosen(ms, args, k + 1, i, false)
  }

  function Moved(ms: seq<Item>, args: seq<string>, place: Where): seq<Item> {
    MovedFront(ms, args, place, |ms|) + Chosen(ms, args, 0, |ms|, true) + MovedBack(ms, args, place, |ms|)
  }

  /** The unselected members keep their order. */
  lemma MovedKeepsOrder(ms: seq<Item>, args: seq<string>, place: Where)
    ensures MovedFront(ms, args, place, |ms|) + MovedBack(ms, args, place, |ms|) == Chosen(ms, args, 0, |ms|, false)
  {
    hide Chosen, Picked, KeyAt;
    var n := |ms|;
    var k := KeyAt(ms, args, place, 0, n);
    if k < n {
      ChosenSplit(ms, args, 0, k, n, false);
      ChosenSplit(ms, args, k, k + 1, n, false);
      ChosenNext(ms, args, k, k, false);
    }
  }

  /** Moving only changes the order. */
  lemma MovedPermutes(ms: seq<Item>, args: seq<string>, place: Where)
    ensures multiset(Moved(ms, args, place)) == multiset(ms)
  {
    hide Chosen, MovedFront, MovedBack;
    var n := |ms|;
    ChosenAll(ms, args, 0, n);
    assert ms[0..n] == ms;
    MovedKeepsOrder(ms, args, place);
    Shuffled(MovedFront(ms, args, place, n), Chosen(ms, args, 0, n, true), MovedBack(ms, args, place, n));
  }

  lemma Shuffled<T>(a: seq<T>, b: seq<T>, c: seq<T>)
    ensures multiset(a + b + c) == multiset(b) + multiset(a + c)
  {
  }

  /** What the reading loop of move does with one member. */
  lemma MovedNext(ms: seq<Item>, args: seq<string>, place: Where, i: nat)
    requires i < |ms|
    ensures var found, here := KeyAt(ms, args, place, 0, i) < i, KeyAt(ms, args, place, 0, i + 1) == i;
      && (here <==> !found && !place.AtEnd? && !Picked(ms, args, i) && ms[i].chdr.name == Rname(place.posname))
      && Chosen(ms, args, 0, i + 1, true) == AppendIf(Chosen(ms, args, 0, i, true), Picked(ms, args, i), ms[i])
      && MovedFront(ms, args, place, i + 1)
         == AppendIf(MovedFront(ms, args, place, i),
                     !Picked(ms, args, i) && !found && !(here && place.Before?), ms[i])
      && MovedBack(ms, args, place, i + 1)
         == AppendIf(MovedBack(ms, args, place, i),
                     !Picked(ms, args, i) && (found || (here && place.Before?)), ms[i])
  {
    hide Chosen, Picked, KeyAt, Rname;
    KeyAtNext(ms, args, place, 0, i);
    var k := KeyAt(ms, args, place, 0, i);
    ChosenNext(ms, args, 0, i, true);
    ChosenNext(ms, args, 0, i, false);
    if k < i {
      ChosenNext(ms, args, k + 1, i, false);
    }
  }

  // ---------------------------------------------------------------------
  // Replacing
  // ---------------------------------------------------------------------

  datatype DiskFile = DiskFile(date: int, uid: nat, gid: nat, mode: nat, data: string)

  type Disk = map<string, DiskFile>

  /** A file as a member. */
  function MemberFrom(disk: Disk, path: string): Member
    requires path in disk
  {
    var f := disk[path];
    Member(Rname(path), f.date, f.uid, f.gid, f.mode, f.data)
  }

  function NewItem(disk: Disk, path: string): Item
    requires path in disk
  {
    ItemOf(MemberFrom(disk, path))
  }

  /** Whether the file that selects a member takes its place: it can be opened and, if only newer
      files are wanted, is newer than the member. */
  predicate Replaces(disk: Disk, path: string, update: bool, present: int) {
    path in disk && !(update && disk[path].date <= present)
  }

  /** What stands in the place of member i. */
  function InPlace(ms: seq<Item>, args: seq<string>, disk: Disk, update: bool, i: nat): Item
    requires i < |ms|
  {
    if Picked(ms, args, i) && Replaces(disk, PickedBy(ms, args, i), update, ms[i].chdr.date) then
      NewItem(disk, PickedBy(ms, args, i))
    else ms[i]
  }

  function InPlaces(ms: seq<Item>, args: seq<string>, disk: Disk, update: bool, from: nat, end: nat): (r: seq<Item>)
    requires from <= end <= |ms|
    ensures |r| == end - from
    decreases end
  {
    if from == end then []
    else InPlaces(ms, args, disk, update, from, end - 1) + [InPlace(ms, args, disk, update, end - 1)]
  }

  lemma AddedNext(disk: Disk, paths: seq<string>, i: nat)
    requires i < |paths|
    ensures Added(disk, paths[..i + 1])
         == if paths[i] in disk then Added(disk, paths[..i]) + [NewItem(disk, paths[i])] else Added(disk, paths[..i])
    ensures Added(disk, []) == []
  {
    hide NewItem;
    assert paths[..i + 1][..i] == paths[..i];
  }

  lemma InPlacesNext(ms: seq<Item>, args: seq<string>, disk: Disk, update: bool, from: nat, i: nat)
    requires from <= i < |ms|
    ensures InPlaces(ms, args, disk, update, from, i + 1)
         == InPlaces(ms, args, disk, update, from, i) + [InPlace(ms, args, disk, update, i)]
    ensures InPlaces(ms, args, disk, update, i, i) == [] == InPlaces(ms, args, disk, update, i + 1, i + 1)
  {
    hide InPlace;
  }

  /** The files that are there, as members. */
  function Added(disk: Disk, paths: seq<string>): seq<Item> {
    if paths == [] then []
    else
      var n := |paths| - 1;
      Added(disk, paths[..n]) + if paths[n] in disk then [NewItem(disk, paths[n])] else []
  }

  function ReplacedFront(ms: seq<Item>, args: seq<string>, place: Where, disk: Disk, update: bool, i: nat): seq<Item>
    requires i <= |ms|
  {
    var k := KeyAt(ms, args, place, 0, i);
    InPlaces(ms, args, disk, update, 0, if k < i && place.After? then k + 1 else k)
  }

  function ReplacedBack(ms: seq<Item>, args: seq<string>, place: Where, disk: Disk, update: bool, i: nat): seq<Item>
    requires i <= |ms|
  {
    var k := KeyAt(ms, args, place, 0, i);
    InPlaces(ms, args, disk, update, if k < i && place.After? then k + 1 else k, i)
  }

  /** Every member in its place, and the files that selected none put at the position. */
  function Replaced(ms: seq<Item>, args: seq<string>, place: Where, disk: Disk, update: bool): seq<Item> {
    var n, added := |ms|, Added(disk, Left(ms, args));
    if place.AtEnd? then ReplacedFront(ms, args, place, disk, update, n) + added
    else ReplacedFront(ms, args, place, disk, update, n) + added + ReplacedBack(ms, args, place, disk, update, n)
  }

  /** Whether a file that should have taken a place is missing. */
  predicate PlaceMissing(ms: seq<Item>, args: seq<string>, disk: Disk, i: nat)
    requires i <= |ms|
  {
    exists j :: 0 <= j < i && Picked(ms, args, j) && PickedBy(ms, args, j) !in disk
  }

  predicate FileMissing(disk: Disk, paths: seq<string>) {
    exists j :: 0 <= j < |paths| && paths[j] !in disk
  }

  lemma ReplacedNext(ms: seq<Item>, args: seq<string>, place: Where, disk: Disk, update: bool, i: nat)
    requires i < |ms|
    ensures var found, here := KeyAt(ms, args, place, 0, i) < i, KeyAt(ms, args, place, 0, i + 1) == i;
      var m := InPlace(ms, args, disk, update, i);
      && (here <==> !found && !place.AtEnd? && !Picked(ms, args, i) && ms[i].chdr.name == Rname(place.posname))
      && ReplacedFront(ms, args, place, disk, update, i + 1)
         == AppendIf(ReplacedFront(ms, args, place, disk, update, i), !found && !(here && place.Before?), m)
      && ReplacedBack(ms, args, place, disk, update, i + 1)
         == AppendIf(ReplacedBack(ms, args, place, disk, update, i), found || (here && place.Before?), m)
  {
    hide InPlaces, InPlace, Picked, KeyAt, Rname;
    KeyAtNext(ms, args, place, 0, i);
    var k := KeyAt(ms, args, place, 0, i);
    InPlacesNext(ms, args, disk, update, 0, i);
    InPlacesNext(ms, args, disk, update, i, i);
    InPlacesNext(ms, args, disk, update, if k < i && place.After? then k + 1 else k, i);
  }

  lemma {:induction false} InPlacesSplit(ms: seq<Item>, args: seq<string>, disk: Disk, update: bool, from: nat, mid: nat, end: nat)
    requires from <= mid <= end <= |ms|
    ensures InPlaces(ms, args, disk, update, from, end)
         == InPlaces(ms, args, disk, update, from, mid) + InPlaces(ms, args, disk, update, mid, end)
    decreases end
  {
    hide InPlace;
    if mid < end {
      InPlacesSplit(ms, args, disk, update, from, mid, end - 1);
    }
  }

  lemma {:induction false} InPlacesAt(ms: seq<Item>, args: seq<string>, disk: Disk, update: bool, end: nat, i: nat)
    requires i < end <= |ms|
    ensures InPlaces(ms, args, disk, update, 0, end)[i] == InPlace(ms, args, disk, update, i)
  {
    hide InPlace;
    if i < end - 1 {
      InPlacesAt(ms, args, disk, update, end - 1, i);
    }
  }

  /** Apart from the files put at the position, which stand together, replacing leaves a member with
      the same name in every place. */
  lemma ReplacedKeepsPlaces(ms: seq<Item>, args: seq<string>, place: Where, disk: Disk, update: bool, i: nat)
    requires i < |ms|
    ensures var r, k, added := Replaced(ms, args, place, disk, update),
                               |ReplacedFront(ms, args, place, disk, update, |ms|)|, |Added(disk, Left(ms, args))|;
      var at := if i < k then i else i + added;
      at < |r| && r[at] == InPlace(ms, args, disk, update, i) && r[at].chdr.name == ms[i].chdr.name && |r| == |ms| + added
  {
    hide InPlaces, Added, Left, KeyAt, InPlace;
    InPlaceName(ms, args, disk, update, i);
    var n := |ms|;
    var k := |ReplacedFront(ms, args, place, disk, update, n)|;
    InPlacesSplit(ms, args, disk, update, 0, k, n);
    InPlacesAt(ms, args, disk, update, n, i);
    if i < k {
      InPlacesAt(ms, args, disk, update, k, i);
    }
  }

  lemma InPlaceName(ms: seq<Item>, args: seq<string>, disk: Disk, update: bool, i: nat)
    requires i < |ms|
    ensures InPlace(ms, args, disk, update, i).chdr.name == ms[i].chdr.name
  {
  }

  // ---------------------------------------------------------------------
  // What each command reads
  // ---------------------------------------------------------------------

  datatype Command = Moving | Deleting | Replacing(disk: Disk, update: bool)

  /** Whether a command copies the next member, with these arguments left; otherwise it goes over it. */
  predicate CopiesNext(cmd: Command, left: seq<string>, c: Chdr) {
    match cmd
    case Moving => true
    case Deleting => !Matches(left, c.name)
    case Replacing(disk, update) =>
      Matches(left, c.name) ==> !Replaces(disk, left[FirstMatch(left, c.name, 0)], update, c.date)
  }

  predicate Passes(x: Item, copied: bool, rest: string) {
    if copied then Copies(x) else Skips(x, rest)
  }

  /** A header that cannot be copied with what is behind it. */
  predicate CannotCopy(t: string) {
    var g := Get(t);
    && g.Header?
    && !(|CString(g.hb)| == 60 && g.chdr.size >= 0
         && g.chdr.size + ReadPad(g.chdr.size, g.chdr.lname) <= |Drop(t, 60 + g.chdr.lname)|)
  }

  /** Where reading ends: there is nothing, or no header, or a member that has to be copied and cannot. */
  predicate Stops(cmd: Command, left: seq<string>, t: string) {
    t == "" || Get(t).BadFormat? || (CannotCopy(t) && CopiesNext(cmd, left, Get(t).chdr))
  }

  predicate AllPass(cmd: Command, ms: seq<Item>, args: seq<string>, tail: string) {
    forall i :: 0 <= i < |ms| ==>
      Passes(ms[i], CopiesNext(cmd, Left(ms[..i], args), ms[i].chdr), RawAll(ms[i + 1..]) + tail)
  }

  /** With these arguments, a command reads these members, and then this. */
  predicate ReadBy(cmd: Command, ms: seq<Item>, args: seq<string>, tail: string) {
    AllPass(cmd, ms, args, tail) && Stops(cmd, Left(ms, args), tail)
  }

  /** Well-formed members are read by every command. */
  lemma OrdinaryRead(cmd: Command, ms: seq<Item>, args: seq<string>, tail: string)
    requires AllWellFormed(ms) && (tail == "" || Get(tail).BadFormat?)
    ensures ReadBy(cmd, ms, args, tail)
  {
    hide WellFormed, Copies, Skips, CopiesNext, Left, RawAll, Get;
    forall i | 0 <= i < |ms|
      ensures Passes(ms[i], CopiesNext(cmd, Left(ms[..i], args), ms[i].chdr), RawAll(ms[i + 1..]) + tail)
    {
      BothPass(ms[i], RawAll(ms[i + 1..]) + tail);
    }
  }

  lemma {:induction false} LeftFront(x: Item, ms: seq<Item>, args: seq<string>)
    ensures Left([x] + ms, args) == Left(ms, Consume(args, x.chdr.name))
  {
    hide Consume;
    if ms == [] {
      assert [x] + ms == [x] && [x][..0] == [];
    } else {
      var n := |ms| - 1;
      LeftFront(x, ms[..n], args);
      assert ([x] + ms)[..n + 1] == [x] + ms[..n];
    }
  }

  /** One more member in front. */
  lemma AllPassFront(cmd: Command, x: Item, ms: seq<Item>, args: seq<string>, tail: string)
    requires Passes(x, CopiesNext(cmd, args, x.chdr), RawAll(ms) + tail)
    requires AllPass(cmd, ms, Consume(args, x.chdr.name), tail)
    ensures AllPass(cmd, [x] + ms, args, tail)
  {
    hide Passes, CopiesNext, Consume, RawAll;
    var all := [x] + ms;
    assert all[..0] == [] && all[1..] == ms && Left([], args) == args;
    forall i | 1 <= i < |all|
      ensures Passes(all[i], CopiesNext(cmd, Left(all[..i], args), all[i].chdr), RawAll(all[i + 1..]) + tail)
    {
      assert all[..i] == [x] + ms[..i - 1] && all[i + 1..] == ms[i..];
      LeftFront(x, ms[..i - 1], args);
    }
  }

  /** A member that would be gone over backwards. */
  predicate GoesBack(cmd: Command, left: seq<string>, t: string) {
    var g := Get(t);
    g.Header? && g.chdr.size < 0 && !CopiesNext(cmd, left, g.chdr)
  }

  /** The first member of t, as a command reads it, and what is behind it. */
  lemma NextMember(cmd: Command, args: seq<string>, t: string) returns (x: Item, rest: string)
    requires !Stops(cmd, args, t) && !GoesBack(cmd, args, t)
    ensures t == Raw(x) + rest && |rest| < |t| && Passes(x, CopiesNext(cmd, args, x.chdr), rest)
  {
    hide CString, FromHeader, CopiesNext, Raw, Copies, Skips, ReadPad;
    GetEnd(t);
    var c, hb := Get(t).chdr, Get(t).hb;
    HeaderParts(t, c, hb);
    var after := t[60 + c.lname..];
    assert Drop(t, 60 + c.lname) == after;
    hide Get, Drop;
    if CopiesNext(cmd, args, c) {
      x, rest := CopiedFirst(hb, c, after);
    } else {
      x, rest := SkippedFirst(hb, c, after);
    }
    RawParts(x, rest, after);
  }

  lemma CopiedFirst(hb: string, c: Chdr, after: string) returns (x: Item, rest: string)
    requires |hb| == 60 && |c.raw| == c.lname && FromHeader(hb, c.raw) == Header(c, hb)
    requires |CString(hb)| == 60 && c.size >= 0 && c.size + ReadPad(c.size, c.lname) <= |after|
    ensures Copies(x) && x.header == hb && x.chdr == c && x.data + x.pad + rest == after
  {
    hide CString, FromHeader;
    SixtyNoNul(hb);
    var n := c.size + ReadPad(c.size, c.lname);
    x, rest := Item(hb, c, after[..c.size], after[c.size..n]), after[n..];
  }

  lemma SkippedFirst(hb: string, c: Chdr, after: string) returns (x: Item, rest: string)
    requires |hb| == 60 && |c.raw| == c.lname && FromHeader(hb, c.raw) == Header(c, hb) && c.size >= 0
    ensures Skips(x, rest) && x.header == hb && x.chdr == c && x.data + x.pad + rest == after
  {
    hide FromHeader;
    var n := c.size + (c.size + c.lname) % 2;
    if n <= |after| {
      x, rest := Item(hb, c, after[..c.size], after[c.size..n]), after[n..];
    } else {
      x, rest := Item(hb, c, after, ""), "";
    }
  }

  lemma SixtyNoNul(hb: string)
    requires |hb| == 60 && |CString(hb)| == 60
    ensures CString(hb) == hb
  {
    assert hb[..60] == hb;
  }

  lemma RawParts(x: Item, rest: string, after: string)
    requires x.data + x.pad + rest == after
    ensures Raw(x) + rest == x.header + x.chdr.raw + after && |Raw(x)| >= |x.header|
  {
    assert Raw(x) + rest == x.header + x.chdr.raw + (x.data + x.pad + rest);
  }

  /** Every archive is read by every command as some members and an end, unless a member is gone over
      whose size is negative. */
  lemma {:induction false} AnyArchive(cmd: Command, args: seq<string>, t: string) returns (ms: seq<Item>, tail: string)
    ensures t == RawAll(ms) + tail && AllPass(cmd, ms, args, tail)
    ensures Stops(cmd, Left(ms, args), tail) || GoesBack(cmd, Left(ms, args), tail)
    decreases |t|
  {
    hide Passes, CopiesNext, Consume, Raw, Get, CannotCopy, Stops, GoesBack, AllPass, Left, RawAll;
    if Stops(cmd, args, t) || GoesBack(cmd, args, t) {
      ms, tail := [], t;
      NothingPasses(cmd, args, t);
    } else {
      var x, rest := NextMember(cmd, args, t);
      var more;
      more, tail := AnyArchive(cmd, Consume(args, x.chdr.name), rest);
      ms := [x] + more;
      AllPassFront(cmd, x, more, args, tail);
      LeftFront(x, more, args);
      RawFront(x, more);
    }
  }

  lemma NothingPasses(cmd: Command, args: seq<string>, t: string)
    ensures AllPass(cmd, [], args, t) && Left([], args) == args && RawAll([]) + t == t
  {
  }

  lemma RawFront(x: Item, more: seq<Item>)
    ensures RawAll([x] + more) == Raw(x) + RawAll(more)
  {
    hide Raw;
    assert ([x] + more)[1..] == more;
  }

  // ---------------------------------------------------------------------
  // What is listed afterwards
  // ---------------------------------------------------------------------

  lemma AllAmong(xs: seq<Item>, ms: seq<Item>)
    requires AllFaithful(ms) && multiset(xs) <= multiset(ms)
    ensures AllFaithful(xs)
  {
    hide WellFormed;
    forall i | 0 <= i < |xs| ensures WellFormed(xs[i]) && |xs[i].chdr.raw| % 4 == 0 {
      assert xs[i] in multiset(xs);
      assert xs[i] in ms;
    }
  }

  /** After moving, the archive lists the members as moved. */
  lemma MovedListed(ms: seq<Item>, args: seq<string>, place: Where)
    requires AllFaithful(ms)
    ensures List(CopiedAll(Moved(ms, args, place))) == Listing(ShownAll(Moved(ms, args, place)))
  {
    hide AllFaithful, List, Moved, ShownAll, CopiedAll;
    MovedPermutes(ms, args, place);
    AllAmong(Moved(ms, args, place), ms);
    ListCopies(Moved(ms, args, place));
  }

  /** After deleting, it lists those that were not selected. */
  lemma KeptListed(ms: seq<Item>, args: seq<string>)
    requires AllFaithful(ms)
    ensures var kept := Chosen(ms, args, 0, |ms|, false); List(CopiedAll(kept)) == Listing(ShownAll(kept))
  {
    hide AllFaithful, List, Chosen, ShownAll, CopiedAll;
    ChosenAll(ms, args, 0, |ms|);
    assert ms[0..|ms|] == ms;
    AllAmong(Chosen(ms, args, 0, |ms|, false), ms);
    ListCopies(Chosen(ms, args, 0, |ms|, false));
  }

  /** Every file could become a member, and one whose name can be read back. */
  predicate ReadableDisk(disk: Disk) {
    forall path <- disk :: Fits(MemberFrom(disk, path)) && Readable(Rname(path))
  }

  predicate Faithful(x: Item) {
    WellFormed(x) && |x.chdr.raw| % 4 == 0
  }

  lemma NewFaithful(disk: Disk, path: string)
    requires ReadableDisk(disk) && path in disk
    ensures Faithful(NewItem(disk, path))
  {
    hide WellFormed, Fits, Readable, ItemOf, Rname;
    assert MemberFrom(disk, path).name == Rname(path);
    ItemOfMember(MemberFrom(disk, path));
  }

  lemma {:induction false} AddedFaithful(disk: Disk, paths: seq<string>)
    requires ReadableDisk(disk)
    ensures forall x <- Added(disk, paths) :: Faithful(x)
  {
    hide Faithful, NewItem, ReadableDisk;
    if paths != [] {
      var n := |paths| - 1;
      AddedFaithful(disk, paths[..n]);
      if paths[n] in disk {
        NewFaithful(disk, paths[n]);
      }
    }
  }

  lemma {:induction false} InPlacesFaithful(ms: seq<Item>, args: seq<string>, disk: Disk, update: bool, from: nat, end: nat)
    requires ReadableDisk(disk) && from <= end <= |ms| && forall i :: 0 <= i < |ms| ==> Faithful(ms[i])
    ensures forall x <- InPlaces(ms, args, disk, update, from, end) :: Faithful(x)
    decreases end
  {
    hide Faithful, NewItem, ReadableDisk, Picked, PickedBy;
    if from < end {
      InPlacesFaithful(ms, args, disk, update, from, end - 1);
      if Picked(ms, args, end - 1) && PickedBy(ms, args, end - 1) in disk {
        NewFaithful(disk, PickedBy(ms, args, end - 1));
      }
    }
  }

  /** After replacing, the archive lists the members as replaced, with the new ones. */
  lemma ReplacedListed(ms: seq<Item>, args: seq<string>, place: Where, disk: Disk, update: bool)
    requires AllFaithful(ms) && ReadableDisk(disk)
    ensures var r := Replaced(ms, args, place, disk, update); List(CopiedAll(r)) == Listing(ShownAll(r))
  {
    hide List, ShownAll, CopiedAll, InPlaces, Added, Left, KeyAt, WellFormed, ReadableDisk;
    var n, r := |ms|, Replaced(ms, args, place, disk, update);
    var k := KeyAt(ms, args, place, 0, n);
    var mid := if k < n && place.After? then k + 1 else k;
    AddedFaithful(disk, Left(ms, args));
    InPlacesFaithful(ms, args, disk, update, 0, mid);
    InPlacesFaithful(ms, args, disk, update, mid, n);
    forall i | 0 <= i < |r| ensures Faithful(r[i]) {
      assert r[i] in r;
    }
    ListCopies(r);
  }

  // ---------------------------------------------------------------------
  // Member by member
  // ---------------------------------------------------------------------

  lemma {:induction false} ShownAt(xs: seq<Item>, i: nat)
    requires i < |xs|
    ensures |ShownAll(xs)| == |xs| && ShownAll(xs)[i] == Shown(xs[i])
    decreases |xs|
  {
    hide Shown;
    if i > 0 {
      ShownAt(xs[1..], i - 1);
    } else if |xs| > 1 {
      ShownAt(xs[1..], 0);
    }
  }

  /** A file as a member is listed: its last component, what the disk knows of it, and its data. */
  predicate ListsFile(m: Member, disk: Disk, path: string) {
    && path in disk && m.name == Rname(path) && m.date == disk[path].date && m.uid == disk[path].uid
    && m.gid == disk[path].gid && m.mode == disk[path].mode && m.data == disk[path].data
  }

  lemma NewListed(disk: Disk, path: string)
    requires path in disk
    ensures ListsFile(Shown(NewItem(disk, path)), disk, path)
  {
  }

  /** What stands in the place of a member: the file that an argument puts there if it is on the disk
      and, where only newer files are wanted, its date is later than the member's; otherwise the member. */
  lemma PlaceShows(ms: seq<Item>, args: seq<string>, disk: Disk, update: bool, i: nat)
    requires i < |ms|
    ensures var x := InPlace(ms, args, disk, update, i);
      if Picked(ms, args, i) && PickedBy(ms, args, i) in disk
         && (!update || disk[PickedBy(ms, args, i)].date > ms[i].chdr.date)
      then ListsFile(Shown(x), disk, PickedBy(ms, args, i))
      else x == ms[i]
  {
    hide Picked, PickedBy, NewItem, ListsFile, Shown;
    if Picked(ms, args, i) && PickedBy(ms, args, i) in disk {
      NewListed(disk, PickedBy(ms, args, i));
    }
  }

  /** The files that are added stand in the order of their arguments, without those that are missing. */
  lemma {:induction false} AddedShow(disk: Disk, paths: seq<string>, i: nat)
    requires i < |paths|
    ensures var k, added := |Added(disk, paths[..i])|, Added(disk, paths);
      if paths[i] in disk then k < |added| && ListsFile(Shown(added[k]), disk, paths[i]) else k <= |added|
    decreases |paths|
  {
    hide NewItem, ListsFile, Shown;
    var n := |paths| - 1;
    if i < n {
      assert paths[..n][..i] == paths[..i];
      AddedShow(disk, paths[..n], i);
    } else {
      assert paths[..i] == paths[..n];
      if paths[i] in disk {
        NewListed(disk, paths[i]);
      }
    }
  }

  /** How many of the files are there. */
  function Present(disk: Disk, paths: seq<string>): nat {
    if paths == [] then 0 else Present(disk, paths[..|paths| - 1]) + if paths[|paths| - 1] in disk then 1 else 0
  }

  lemma {:induction false} AddedCount(disk: Disk, paths: seq<string>)
    ensures |Added(disk, paths)| == Present(disk, paths)
  {
    hide NewItem;
    if paths != [] {
      AddedCount(disk, paths[..|paths| - 1]);
    }
  }

  /** Where the files go that are added: to the end, behind the key or in front of it. */
  function AddedFrom(ms: seq<Item>, args: seq<string>, place: Where): nat {
    var k := KeyAt(ms, args, place, 0, |ms|);
    if place.After? && k < |ms| then k + 1 else k
  }

  lemma FrontLength(ms: seq<Item>, args: seq<string>, place: Where, disk: Disk, update: bool)
    ensures |ReplacedFront(ms, args, place, disk, update, |ms|)| == AddedFrom(ms, args, place) <= |ms|
    ensures place.AtEnd? ==> AddedFrom(ms, args, place) == |ms|
  {
    hide KeyAt;
  }

  lemma AddedAt(ms: seq<Item>, args: seq<string>, place: Where, disk: Disk, update: bool, k: nat)
    requires k < |Added(disk, Left(ms, args))|
    ensures var at := AddedFrom(ms, args, place) + k; var r := Replaced(ms, args, place, disk, update);
      at < |r| && r[at] == Added(disk, Left(ms, args))[k]
  {
    hide Added, Left, AddedFrom, InPlaces;
    FrontLength(ms, args, place, disk, update);
    hide ReplacedFront, ReplacedBack;
  }

  /** Replacing, as it is listed afterwards.  Member i shows the file put in its place or itself, file j of
      those left over shows where the files are added, and there is nothing else. */
  lemma ReplacedMembers(ms: seq<Item>, args: seq<string>, place: Where, disk: Disk, update: bool, i: nat, j: nat)
    requires AllFaithful(ms) && ReadableDisk(disk)
    ensures var left, from, list := Left(ms, args), AddedFrom(ms, args, place), List(CopiedAll(Replaced(ms, args, place, disk, update)));
      var added := Present(disk, left);
      && list.Listing? && |list.members| == |ms| + added
      && (i < |ms| ==>
            var m := list.members[if i < from then i else i + added];
            if Picked(ms, args, i) && PickedBy(ms, args, i) in disk
               && (!update || disk[PickedBy(ms, args, i)].date > ms[i].chdr.date)
            then ListsFile(m, disk, PickedBy(ms, args, i))
            else m == Shown(ms[i]))
      && (j < |left| && left[j] in disk ==>
            from + Present(disk, left[..j]) < |list.members|
            && ListsFile(list.members[from + Present(disk, left[..j])], disk, left[j]))
  {
    hide AllFaithful, ReadableDisk, List, CopiedAll, Replaced, Left, AddedFrom, Picked, PickedBy, ListsFile, Shown, ShownAll, Added;
    var left, r, from := Left(ms, args), Replaced(ms, args, place, disk, update), AddedFrom(ms, args, place);
    ReplacedListed(ms, args, place, disk, update);
    AddedCount(disk, left);
    FrontLength(ms, args, place, disk, update);
    ReplacedLength(ms, args, place, disk, update);
    if i < |ms| {
      ReplacedKeepsPlaces(ms, args, place, disk, update, i);
      PlaceShows(ms, args, disk, update, i);
      ShownAt(r, if i < from then i else i + |Added(disk, left)|);
    }
    if j < |left| && left[j] in disk {
      AddedCount(disk, left[..j]);
      AddedShow(disk, left, j);
      AddedAt(ms, args, place, disk, update, |Added(disk, left[..j])|);
      ShownAt(r, from + |Added(disk, left[..j])|);
    }
  }

  lemma ReplacedLength(ms: seq<Item>, args: seq<string>, place: Where, disk: Disk, update: bool)
    ensures var r := Replaced(ms, args, place, disk, update);
      |r| == |ms| + |Added(disk, Left(ms, args))| == |ShownAll(r)|
  {
    var r := Replaced(ms, args, place, disk, update);
    hide InPlaces, Added, Left, KeyAt;
    assert |r| == |ms| + |Added(disk, Left(ms, args))|;
    if r != [] {
      hide Replaced;
      ShownAt(r, 0);
    }
  }

  /** Moving puts the members that are selected behind the key, in front of it, or to the end. */
  lemma MovedPlaces(ms: seq<Item>, args: seq<string>, place: Where)
    ensures var n, k := |ms|, KeyAt(ms, args, place, 0, |ms|);
      var selected := Chosen(ms, args, 0, n, true);
      && (place.AtEnd? ==> Moved(ms, args, place) == Chosen(ms, args, 0, n, false) + selected)
      && (place.After? && k < n ==>
            Moved(ms, args, place) == Chosen(ms, args, 0, k, false) + [ms[k]] + selected + Chosen(ms, args, k + 1, n, false))
      && (place.Before? && k < n ==>
            Moved(ms, args, place) == Chosen(ms, args, 0, k, false) + selected + [ms[k]] + Chosen(ms, args, k + 1, n, false))
  {
    hide Chosen, Picked, Rname;
  }
}
