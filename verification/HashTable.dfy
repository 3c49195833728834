/** A hash table with chains, whose lookups move what they find to the front of its chain. */
module HashTable {

  /** A C pointer, of which only the identity matters; 0 is NULL. */
  type Pointer = nat

  const NULL: Pointer := 0

  /** The bytes of a C string. */
  type Key = seq<bv8>

  /** A plain char as an unsigned int. */
  function Widen(c: bv8): bv32 {
    if c < 0x80 then c as bv32 else (c as bv32) | 0xffff_ff00
  }

  function Mix(hash: bv32, c: bv32): bv32 {
    var h := hash + (c + (c << 17));
    h ^ (h >> 2)
  }

  function HashBytes(key: Key): bv32 {
    if key == [] then 0 else Mix(HashBytes(key[..|key| - 1]), Widen(key[|key| - 1]))
  }

  /** The hash code of a key: its bytes, and then its length. */
  function HashOf(key: Key): bv32 {
    Mix(HashBytes(key), (|key| % 0x1_0000_0000) as bv32)
  }

  method Hash(key: Key) returns (hash: bv32)
    ensures hash == HashOf(key)
  {
    hide Mix, Widen;
    hash := 0;
    var n := 0;
    assert key[..0] == [];
    while n < |key|
      invariant 0 <= n <= |key| && hash == HashBytes(key[..n])
    {
      assert key[..n + 1][..n] == key[..n];
      hash := Mix(hash, Widen(key[n]));
      n := n + 1;
    }
    assert key[..|key|] == key;
    hash := Mix(hash, (|key| % 0x1_0000_0000) as bv32);
  }

  /** The hashes of the empty key, of "mov", and of a character that is negative as a plain char. */
  lemma HashExamples()
    ensures HashOf([]) == 0 && HashOf([0x6d, 0x6f, 0x76]) == 0x0297_e34b && HashOf([0xe9]) == 0xf02e_6011
  {
    var key: Key := [0x6d, 0x6f, 0x76];
    assert key[..2] == [0x6d, 0x6f] && key[..2][..1] == [0x6d] && key[..1][..0] == [];
    assert HashBytes([0x6d]) == Mix(0, 0x6d);
    assert HashBytes([0x6d, 0x6f]) == Mix(Mix(0, 0x6d), 0x6f);
    assert HashBytes([0xe9]) == Mix(0, 0xffff_ffe9);
  }

  class Entry {
    const key: Key
    const hash: bv32
    var data: Pointer
    var next: Entry?

    constructor (key: Key, hash: bv32, data: Pointer, next: Entry?)
      ensures this.key == key && this.hash == hash && this.data == data && this.next == next
    {
      this.key, this.hash, this.data, this.next := key, hash, data, next;
    }
  }

  /** Entry k of a chain, or null behind its end. */
  ghost function At(chain: seq<Entry>, k: nat): Entry? {
    if k < |chain| then chain[k] else null
  }

  /** A list of entries linked by their next fields. */
  ghost predicate Linked(head: Entry?, chain: seq<Entry>)
    reads chain`next
  {
    head == At(chain, 0) && forall k :: 0 <= k < |chain| ==> chain[k].next == At(chain, k + 1)
  }

  ghost predicate HasKey(chain: seq<Entry>, key: Key) {
    exists k :: 0 <= k < |chain| && chain[k].key == key
  }

  function BucketOf(hash: bv32, size: nat): (i: nat)
    requires size > 0
    ensures i < size
  {
    hash as int % size
  }

  /** The keys of a chain are distinct and belong there. */
  ghost predicate KeysValid(i: nat, size: nat, chain: seq<Entry>)
    requires size > 0
  {
    && (forall k :: 0 <= k < |chain| ==> chain[k].hash == HashOf(chain[k].key) && BucketOf(chain[k].hash, size) == i)
    && (forall k, l :: 0 <= k < l < |chain| ==> chain[k].key != chain[l].key)
  }

  /** A chain holds part of the contents. */
  ghost predicate HoldsPart(contents: map<Key, Pointer>, chain: seq<Entry>)
    reads chain`data
  {
    forall k :: 0 <= k < |chain| ==> chain[k].key in contents && contents[chain[k].key] == chain[k].data
  }

  /** The chain with its entry j in front. */
  ghost function ToFront(chain: seq<Entry>, j: nat): (r: seq<Entry>)
    requires j < |chain|
    ensures |r| == |chain| && r[0] == chain[j]
    ensures forall k :: 1 <= k <= j ==> r[k] == chain[k - 1]
    ensures forall k :: j < k < |chain| ==> r[k] == chain[k]
  {
    [chain[j]] + chain[..j] + chain[j + 1..]
  }

  /** The same entries in another order. */
  lemma FrontKeys(i: nat, size: nat, chain: seq<Entry>, j: nat)
    requires size > 0 && j < |chain| && KeysValid(i, size, chain)
    ensures KeysValid(i, size, ToFront(chain, j))
    ensures forall key :: HasKey(chain, key) ==> HasKey(ToFront(chain, j), key)
    ensures forall e :: e in ToFront(chain, j) ==> e in chain
  {
    hide ToFront, HashOf;
    var r := ToFront(chain, j);
    forall key | HasKey(chain, key) ensures HasKey(r, key) {
      var k :| 0 <= k < |chain| && chain[k].key == key;
      assert r[if k < j then k + 1 else if k == j then 0 else k].key == key;
    }
  }

  /** Relinks entry j of a chain to be the first. */
  method Relink(head: Entry, p: Entry, prev: Entry, ghost chain: seq<Entry>, ghost j: nat)
    requires 0 < j < |chain| && p == chain[j] && prev == chain[j - 1] && Linked(head, chain)
    requires forall k, l :: 0 <= k < l < |chain| ==> chain[k] != chain[l]
    modifies p`next, prev`next
    ensures Linked(p, ToFront(chain, j))
  {
    hide ToFront;
    ghost var r := ToFront(chain, j);
    prev.next := p.next;
    p.next := head;
    forall k | 0 <= k < |r| ensures r[k].next == At(r, k + 1) {
      if k == 0 {
        assert At(r, 1) == chain[0];
      } else if k < j {
        assert r[k] == chain[k - 1] && At(r, k + 1) == chain[k];
      } else if k == j {
        assert r[k] == prev && At(r, k + 1) == At(chain, j + 1);
      } else {
        assert r[k] == chain[k] && At(r, k + 1) == At(chain, k + 1);
      }
    }
  }

  class Table {
    const table: array<Entry?>
    ghost var chains: seq<seq<Entry>>
    ghost var contents: map<Key, Pointer>
    ghost var repr: set<Entry>

    ghost predicate Valid()
      reads this, table, repr
    {
      && table.Length > 0 && |chains| == table.Length
      && (forall i :: 0 <= i < |chains| ==> (forall e <- chains[i] :: e in repr))
      && (forall i :: 0 <= i < |chains| ==> Linked(table[i], chains[i]))
      && (forall i :: 0 <= i < |chains| ==> KeysValid(i, table.Length, chains[i]))
      && (forall i :: 0 <= i < |chains| ==> HoldsPart(contents, chains[i]))
      && (forall key <- contents :: HasKey(chains[BucketOf(HashOf(key), table.Length)], key))
    }

    constructor (size: nat)
      requires size > 0
      ensures Valid() && contents == map[] && fresh(table) && repr == {}
    {
      table := new Entry?[size](_ => null);
      chains := seq(size, _ => []);
      contents, repr := map[], {};
    }

    /** Walks down a chain to the entry of a key, and remembers the entry in front of it. */
    method Walk(key: Key, hash: bv32, index: nat) returns (p: Entry?, prev: Entry?, ghost j: nat)
      requires Valid() && hash == HashOf(key) && index == BucketOf(hash, table.Length)
      ensures p == null <==> key !in contents
      ensures p != null ==>
        && j < |chains[index]| && p == chains[index][j] && p.key == key
        && prev == if j > 0 then chains[index][j - 1] else null
    {
      hide HashOf;
      ghost var chain := chains[index];
      assert Linked(table[index], chain) && KeysValid(index, table.Length, chain) && HoldsPart(contents, chain);
      prev, j := null, 0;
      p := table[index];
      while p != null
        invariant 0 <= j <= |chain| && p == At(chain, j)
        invariant prev == if j > 0 then chain[j - 1] else null
        invariant forall k :: 0 <= k < j ==> chain[k].key != key
        decreases |chain| - j
      {
        if p.hash == hash && p.key == key {
          return;
        }
        prev := p;
        p := p.next;
        j := j + 1;
      }
    }

    /** An entry of one chain is in no other. */
    lemma OnlyHere(index: nat, p: Entry)
      requires Valid() && index < |chains| && p in chains[index]
      ensures forall i :: 0 <= i < |chains| && i != index ==> p !in chains[i]
    {
      hide Linked, HoldsPart, HasKey, HashOf, BucketOf;
      assert KeysValid(index, table.Length, chains[index]);
      forall i | 0 <= i < |chains| && i != index ensures p !in chains[i] {
        assert KeysValid(i, table.Length, chains[i]);
      }
    }

    /** Puts entry j of a chain in front of it. */
    method MoveToFront(p: Entry, prev: Entry?, index: nat, ghost j: nat)
      requires Valid() && index < |chains| && j < |chains[index]| && p == chains[index][j]
      requires prev == if j > 0 then chains[index][j - 1] else null
      modifies table, repr`next, this`chains
      ensures Valid() && chains == old(chains)[index := ToFront(old(chains[index]), j)]
      ensures table[index] == p && p.data == old(p.data)
    {
      hide HashOf, BucketOf, HasKey, KeysValid, ToFront, Linked, HoldsPart;
      ghost var chain := chains[index];
      assert Linked(table[index], chain) && KeysValid(index, table.Length, chain) && HoldsPart(contents, chain);
      FrontKeys(index, table.Length, chain, j);
      DistinctEntries(index, table.Length, chain);
      OnlyHere(index, p);
      FirstOf(table[index], chain);
      if prev != null {
        OnlyHere(index, prev);
        Relink(table[index], p, prev, chain, j);
        table[index] := p;
      } else {
        FirstStays(chain);
      }
      FrontHolds(contents, chain, j);
      chains := chains[index := ToFront(chain, j)];
      assert forall i :: 0 <= i < |chains| && i != index ==> Linked(table[i], chains[i]);
      assert forall i :: 0 <= i < |chains| ==> HoldsPart(contents, chains[i]);
    }

    /** Finds the entry of a key, and moves it to the front of its chain. */
    method Lookup(key: Key) returns (p: Entry?, index: nat, hash: bv32)
      requires Valid()
      modifies table, repr`next, this`chains
      ensures Valid()
      ensures hash == HashOf(key) && index == BucketOf(hash, table.Length)
      ensures p == null <==> key !in contents
      ensures p != null ==> p in repr && p.key == key && p == table[index] && p.data == contents[key]
      ensures p != null ==> |chains[index]| > 0 && p == chains[index][0]
      ensures p == null ==> chains == old(chains)
      ensures p != null ==> exists j :: 0 <= j < |old(chains[index])| && old(chains[index])[j].key == key
                                        && chains == old(chains)[index := ToFront(old(chains[index]), j)]
    {
      hide HashOf, BucketOf, HasKey, KeysValid, ToFront, Linked;
      hash := Hash(key);
      index := BucketOf(hash, table.Length);
      var prev;
      ghost var j;
      p, prev, j := Walk(key, hash, index);
      if p != null {
        assert HoldsPart(contents, chains[index]);
        MoveToFront(p, prev, index, j);
      }
    }

    /** A key is in no chain but that of its bucket. */
    lemma KeyOnlyHere(key: Key, index: nat)
      requires Valid() && index == BucketOf(HashOf(key), table.Length)
      ensures forall i :: 0 <= i < |chains| && i != index ==> !HasKey(chains[i], key)
    {
      hide HashOf, BucketOf, Linked, HoldsPart;
      forall i | 0 <= i < |chains| && i != index ensures !HasKey(chains[i], key) {
        assert KeysValid(i, table.Length, chains[i]);
      }
    }

    /** Links a new entry in front of a chain. */
    method Add(key: Key, value: Pointer, index: nat, hash: bv32)
      requires Valid() && key !in contents && hash == HashOf(key) && index == BucketOf(hash, table.Length)
      modifies table, this`chains, this`contents, this`repr
      ensures Valid() && contents == old(contents)[key := value] && fresh(repr - old(repr))
    {
      hide HashOf, BucketOf, HasKey, KeysValid, Linked, HoldsPart;
      ghost var chain := chains[index];
      assert Linked(table[index], chain) && KeysValid(index, table.Length, chain) && HoldsPart(contents, chain);
      KeyOnlyHere(key, index);
      NotHeld(contents, chain, key);
      var p := new Entry(key, hash, value, table[index]);
      LinkedMore(p, table[index], chain);
      KeysMore(index, table.Length, p, chain);
      forall i | 0 <= i < |chains| && i != index ensures HoldsPart(contents[key := value], chains[i]) {
        HoldsOther(contents, chains[i], key, value);
      }
      HoldsMore(contents, chain, p);
      table[index] := p;
      chains := chains[index := [p] + chain];
      contents := contents[key := value];
      repr := repr + {p};
      KeysFound(old(chains), chains, index, table.Length, p);
      assert forall i :: 0 <= i < |chains| && i != index ==> Linked(table[i], chains[i]);
    }

    /** Stores a value in the entry of a key, which is in front of its chain. */
    method SetData(p: Entry, value: Pointer, index: nat)
      requires Valid() && index == BucketOf(HashOf(p.key), table.Length) && p.key in contents
      requires |chains[index]| > 0 && p == chains[index][0]
      modifies p`data, this`contents
      ensures Valid() && contents == old(contents)[p.key := value]
    {
      hide HashOf, BucketOf, HasKey, Linked, HoldsPart;
      ghost var chain := chains[index];
      KeyOnlyHere(p.key, index);
      OnlyHere(index, p);
      assert KeysValid(index, table.Length, chain) && HoldsPart(contents, chain);
      forall i | 0 <= i < |chains| && i != index ensures HoldsPart(contents[p.key := value], chains[i]) {
        HoldsOther(contents, chains[i], p.key, value);
      }
      HoldsTail(contents, chain, p, value);
      p.data := value;
      contents := contents[p.key := value];
      HoldsChanged(contents, chain, p);
      assert forall i :: 0 <= i < |chains| && i != index ==> HoldsPart(contents, chains[i]);
      assert forall i :: 0 <= i < |chains| ==> Linked(table[i], chains[i]);
    }

    /** Unlinks the entry of a key, which is in front of its chain. */
    method RemoveFirst(p: Entry, index: nat)
      requires Valid() && index == BucketOf(HashOf(p.key), table.Length)
      requires |chains[index]| > 0 && p == chains[index][0]
      modifies table, this`chains, this`contents
      ensures Valid() && contents == old(contents) - {p.key}
    {
      hide HashOf, BucketOf, HasKey, Linked, HoldsPart;
      ghost var chain := chains[index];
      assert Linked(table[index], chain) && KeysValid(index, table.Length, chain) && HoldsPart(contents, chain);
      KeyOnlyHere(p.key, index);
      forall i | 0 <= i < |chains| && i != index ensures HoldsPart(contents - {p.key}, chains[i]) {
        HoldsWithout(contents, chains[i], p.key);
      }
      LinkedRest(p, table[index], chain);
      HoldsRest(contents, chain, p);
      assert chain == [p] + chain[1..];
      table[index] := p.next;
      chains := chains[index := chain[1..]];
      contents := contents - {p.key};
      KeysFound(chains, old(chains), index, table.Length, p);
      assert forall i :: 0 <= i < |chains| && i != index ==> Linked(table[i], chains[i]);
    }

    /** Adds a key that is not there yet. */
    method HashInsert(key: Key, value: Pointer) returns (present: bool)
      requires Valid()
      modifies table, repr`next, this`chains, this`contents, this`repr
      ensures Valid() && fresh(repr - old(repr)) && present == (key in old(contents))
      ensures contents == if present then old(contents) else old(contents)[key := value]
    {
      hide *;
      var p, index, hash := Lookup(key);
      if p != null {
        return true;
      }
      Add(key, value, index, hash);
      present := false;
    }

    /** Adds a key, or changes its value. */
    method HashJam(key: Key, value: Pointer)
      requires Valid()
      modifies table, repr, this`chains, this`contents, this`repr
      ensures Valid() && fresh(repr - old(repr)) && contents == old(contents)[key := value]
    {
      hide *;
      var p, index, hash := Lookup(key);
      if p != null {
        SetData(p, value, index);
      } else {
        Add(key, value, index, hash);
      }
    }

    /** Changes the value of a key that is there, and returns the one before. */
    method HashReplace(key: Key, value: Pointer) returns (r: Pointer)
      requires Valid()
      modifies table, repr, this`chains, this`contents
      ensures Valid()
      ensures r == if key in old(contents) then old(contents)[key] else NULL
      ensures contents == if key in old(contents) then old(contents)[key := value] else old(contents)
    {
      hide *;
      var p, index, hash := Lookup(key);
      if p == null {
        return NULL;
      }
      r := p.data;
      SetData(p, value, index);
    }

    /** The value of a key. */
    method HashFind(key: Key) returns (r: Pointer)
      requires Valid()
      modifies table, repr`next, this`chains
      ensures Valid()
      ensures r == if key in contents then contents[key] else NULL
    {
      hide *;
      var p, index, hash := Lookup(key);
      r := if p == null then NULL else p.data;
    }

    /** The value of the key that the first len bytes are. */
    method HashFindN(key: Key, len: nat) returns (r: Pointer)
      requires Valid() && len <= |key|
      modifies table, repr`next, this`chains
      ensures Valid()
      ensures r == if key[..len] in contents then contents[key[..len]] else NULL
    {
      hide *;
      var p, index, hash := Lookup(key[..len]);
      r := if p == null then NULL else p.data;
    }

    /** Takes a key out.  Were its entry not in front of the chain, the program would abort. */
    method HashDelete(key: Key) returns (r: Pointer)
      requires Valid()
      modifies table, repr`next, this`chains, this`contents
      ensures Valid() && contents == old(contents) - {key}
      ensures r == if key in old(contents) then old(contents)[key] else NULL
    {
      hide *;
      var p, index, hash := Lookup(key);
      if p == null {
        assert contents - {key} == contents;
        return NULL;
      }
      assert p == table[index];
      r := p.data;
      RemoveFirst(p, index);
    }
  }

  lemma HoldsWithout(contents: map<Key, Pointer>, chain: seq<Entry>, key: Key)
    requires HoldsPart(contents, chain) && !HasKey(chain, key)
    ensures HoldsPart(contents - {key}, chain)
  {
  }

  lemma LinkedRest(p: Entry, head: Entry?, chain: seq<Entry>)
    requires Linked(head, chain) && chain != [] && p == chain[0]
    ensures Linked(p.next, chain[1..])
  {
    var r := chain[1..];
    assert p.next == At(chain, 1) == At(r, 0);
    forall k | 0 <= k < |r| ensures r[k].next == At(r, k + 1) {
      assert r[k] == chain[k + 1] && At(r, k + 1) == At(chain, k + 2);
    }
  }

  lemma HoldsRest(contents: map<Key, Pointer>, chain: seq<Entry>, p: Entry)
    requires HoldsPart(contents, chain) && chain != [] && p == chain[0]
    requires forall k :: 1 <= k < |chain| ==> chain[k].key != p.key
    ensures HoldsPart(contents - {p.key}, chain[1..])
  {
  }

  /** Every key that was there still is. */
  lemma KeysFound(before: seq<seq<Entry>>, after: seq<seq<Entry>>, index: nat, size: nat, p: Entry)
    requires |before| == |after| && index < |before|
    requires after == before[index := [p] + before[index]]
    ensures forall i, key {:trigger HasKey(before[i], key)} {:trigger HasKey(after[i], key)} ::
      0 <= i < |before| ==> (HasKey(after[i], key) <==> HasKey(before[i], key) || (i == index && key == p.key))
  {
    forall i, key | 0 <= i < |before|
      ensures HasKey(after[i], key) <==> HasKey(before[i], key) || (i == index && key == p.key)
    {
      if i == index {
        FrontKey(p, before[index], key);
      }
    }
  }

  lemma FrontKey(p: Entry, chain: seq<Entry>, key: Key)
    ensures HasKey([p] + chain, key) <==> HasKey(chain, key) || key == p.key
  {
    if HasKey(chain, key) {
      var k :| 0 <= k < |chain| && chain[k].key == key;
      assert ([p] + chain)[k + 1].key == key;
    }
    if key == p.key {
      assert ([p] + chain)[0].key == key;
    }
    if HasKey([p] + chain, key) {
      var k :| 0 <= k < |[p] + chain| && ([p] + chain)[k].key == key;
      assert k > 0 ==> chain[k - 1].key == key;
    }
  }

  lemma NotHeld(contents: map<Key, Pointer>, chain: seq<Entry>, key: Key)
    requires HoldsPart(contents, chain) && key !in contents
    ensures !HasKey(chain, key)
  {
  }

  lemma LinkedMore(p: Entry, head: Entry?, chain: seq<Entry>)
    requires Linked(head, chain) && p.next == head
    ensures Linked(p, [p] + chain)
  {
    var r := [p] + chain;
    forall k | 0 <= k < |r| ensures r[k].next == At(r, k + 1) {
      if k > 0 {
        assert r[k] == chain[k - 1];
      }
    }
  }

  lemma KeysMore(i: nat, size: nat, p: Entry, chain: seq<Entry>)
    requires size > 0 && KeysValid(i, size, chain) && !HasKey(chain, p.key)
    requires p.hash == HashOf(p.key) && BucketOf(p.hash, size) == i
    ensures KeysValid(i, size, [p] + chain)
  {
    hide HashOf, BucketOf;
  }

  lemma HoldsOther(contents: map<Key, Pointer>, chain: seq<Entry>, key: Key, value: Pointer)
    requires HoldsPart(contents, chain) && !HasKey(chain, key)
    ensures HoldsPart(contents[key := value], chain)
  {
  }

  lemma HoldsMore(contents: map<Key, Pointer>, chain: seq<Entry>, p: Entry)
    requires HoldsPart(contents, chain) && !HasKey(chain, p.key)
    ensures HoldsPart(contents[p.key := p.data], [p] + chain)
  {
  }

  lemma HoldsTail(contents: map<Key, Pointer>, chain: seq<Entry>, p: Entry, value: Pointer)
    requires HoldsPart(contents, chain) && chain != [] && p == chain[0]
    requires forall k :: 1 <= k < |chain| ==> chain[k].key != p.key
    ensures HoldsPart(contents[p.key := value], chain[1..])
  {
  }

  lemma HoldsChanged(contents: map<Key, Pointer>, chain: seq<Entry>, p: Entry)
    requires chain != [] && p == chain[0] && HoldsPart(contents, chain[1..])
    requires p.key in contents && contents[p.key] == p.data
    ensures HoldsPart(contents, chain)
  {
    forall k | 0 <= k < |chain| ensures chain[k].key in contents && contents[chain[k].key] == chain[k].data {
      assert k > 0 ==> chain[k] == chain[1..][k - 1];
    }
  }

  lemma FirstOf(head: Entry?, chain: seq<Entry>)
    requires Linked(head, chain) && chain != []
    ensures head == chain[0]
  {
  }

  lemma FrontHolds(contents: map<Key, Pointer>, chain: seq<Entry>, j: nat)
    requires j < |chain| && HoldsPart(contents, chain)
    ensures HoldsPart(contents, ToFront(chain, j))
  {
  }

  lemma DistinctEntries(i: nat, size: nat, chain: seq<Entry>)
    requires size > 0 && KeysValid(i, size, chain)
    ensures forall k, l :: 0 <= k < l < |chain| ==> chain[k] != chain[l]
  {
  }

  lemma FirstStays(chain: seq<Entry>)
    requires chain != []
    ensures ToFront(chain, 0) == chain
  {
  }
}
