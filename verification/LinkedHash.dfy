/**
 The linked hash map: a hash table whose records are also linked in a list, which keeps the order of
 use for the caches built on it.
 */
module LinkedHash {
  import opened Basics
  import opened LinkedRecords

  /** The memory records live in, one map for each field. */
  class Memory<K, V> {
    var key: map<Addr, K>
    var value: map<Addr, V>
    var child: Links
    var prev: Links
    var next: Links

    constructor ()
      ensures key == map[]
    {
      key, value, child, prev, next := map[], map[], map[], map[], map[];
    }

    /** Some address at which nothing is stored. */
    method Allocate() returns (rec: Addr)
      ensures rec != 0 && rec !in key && rec !in value && rec !in child && rec !in prev && rec !in next
    {
      FreshAddr(key.Keys + value.Keys + child.Keys + prev.Keys + next.Keys);
      rec :| rec != 0 && rec !in key && rec !in value && rec !in child && rec !in prev && rec !in next;
    }
  }

  datatype Entry<K, V> = Entry(key: K, value: V)

  datatype MoveMode = MoveCurrent | MoveFirst | MoveLast

  // ---------------------------------------------------------------- what the operations do to the list

  ghost function IndexFrom<K, V>(s: seq<Entry<K, V>>, k: K, n: nat): (i: nat)
    requires n <= |s|
    ensures n <= i <= |s| && (i < |s| ==> s[i].key == k)
    ensures forall j :: n <= j < i ==> s[j].key != k
    decreases |s| - n
  {
    if n == |s| || s[n].key == k then n else IndexFrom(s, k, n + 1)
  }

  /** The index of the entry with a key, the length if there is none. */
  ghost function IndexOf<K, V>(s: seq<Entry<K, V>>, k: K): (i: nat)
    ensures i <= |s| && (i < |s| ==> s[i].key == k)
    ensures forall j :: 0 <= j < i ==> s[j].key != k
  {
    IndexFrom(s, k, 0)
  }

  ghost predicate Has<K, V>(s: seq<Entry<K, V>>, k: K) {
    IndexOf(s, k) < |s|
  }

  ghost function Moved<T>(s: seq<T>, i: nat, mode: MoveMode): seq<T>
    requires i < |s|
  {
    match mode
    case MoveCurrent => s
    case MoveFirst => [s[i]] + Without(s, i)
    case MoveLast => Without(s, i) + [s[i]]
  }

  ghost function Attached<T>(s: seq<T>, e: T, mode: MoveMode): seq<T> {
    if mode == MoveFirst then [e] + s else s + [e]
  }

  ghost function AfterGet<K, V>(s: seq<Entry<K, V>>, k: K, mode: MoveMode): seq<Entry<K, V>> {
    if Has(s, k) then Moved(s, IndexOf(s, k), mode) else s
  }

  ghost function AfterSet<K, V>(s: seq<Entry<K, V>>, k: K, v: V, overwrite: bool, mode: MoveMode): seq<Entry<K, V>> {
    if !Has(s, k) then Attached(s, Entry(k, v), mode)
    else if overwrite then Moved(s[IndexOf(s, k) := Entry(k, v)], IndexOf(s, k), mode)
    else s
  }

  lemma AfterHit<K, V>(s: seq<Entry<K, V>>, k: K, v: V, i: nat, mode: MoveMode)
    requires i < |s| && IndexOf(s, k) == i
    ensures AfterGet(s, k, mode) == Moved(s, i, mode)
    ensures AfterSet(s, k, v, true, mode) == Moved(s[i := Entry(k, v)], i, mode)
  {
  }

  ghost function AfterRemove<K, V>(s: seq<Entry<K, V>>, k: K): seq<Entry<K, V>> {
    if Has(s, k) then Without(s, IndexOf(s, k)) else s
  }

  /** An entry comes from another map: it takes the place of one with its key, or is attached. */
  ghost function AfterArrival<K, V>(s: seq<Entry<K, V>>, e: Entry<K, V>, mode: MoveMode): seq<Entry<K, V>> {
    AfterSet(s, e.key, e.value, true, mode)
  }

  // What these are, place by place: where the entry of the key is, and that the others keep their order.

  lemma AfterSetIs<K, V>(s: seq<Entry<K, V>>, k: K, v: V, overwrite: bool, mode: MoveMode) returns (j: nat)
    ensures var t, i := AfterSet(s, k, v, overwrite, mode), IndexOf(s, k);
            && j < |t| && t[j].key == k && t[j].value == (if i < |s| && !overwrite then s[i].value else v)
            && t[..j] + t[j + 1..] == (if i < |s| then s[..i] + s[i + 1..] else s)
            && (i < |s| && !overwrite ==> j == i)
            && (i == |s| || overwrite ==>
                  match mode
                  case MoveFirst => j == 0
                  case MoveLast => j == |t| - 1
                  case MoveCurrent => j == i)
  {
    var t, i := AfterSet(s, k, v, overwrite, mode), IndexOf(s, k);
    j := if i < |s| && !overwrite then i
         else if mode == MoveFirst then 0
         else if mode == MoveLast then |t| - 1
         else i;
    if i < |s| && !overwrite { assert t[..i] + t[i + 1..] == s[..i] + s[i + 1..]; }
  }

  lemma AfterGetIs<K, V>(s: seq<Entry<K, V>>, k: K, mode: MoveMode) returns (j: nat)
    ensures var t, i := AfterGet(s, k, mode), IndexOf(s, k);
            && (i == |s| ==> t == s)
            && (i < |s| ==>
                  && j < |t| && t[j] == s[i] && t[..j] + t[j + 1..] == s[..i] + s[i + 1..]
                  && match mode
                     case MoveFirst => j == 0
                     case MoveLast => j == |t| - 1
                     case MoveCurrent => j == i)
  {
    var t, i := AfterGet(s, k, mode), IndexOf(s, k);
    j := if i == |s| || mode == MoveFirst then 0 else if mode == MoveLast then |t| - 1 else i;
  }

  lemma AfterRemoveIs<K, V>(s: seq<Entry<K, V>>, k: K)
    ensures var i := IndexOf(s, k);
            AfterRemove(s, k) == if i < |s| then s[..i] + s[i + 1..] else s
  {
  }

  /** The entries of the first `n` records of a list. */
  ghost function EntriesTo<K, V>(list: seq<Addr>, key: map<Addr, K>, value: map<Addr, V>, n: nat): (s: seq<Entry<K, V>>)
    requires n <= |list| && Alive(list, key, value)
    ensures |s| == n && forall i {:trigger s[i]} :: 0 <= i < n ==> s[i] == Entry(key[list[i]], value[list[i]])
  {
    if n == 0 then [] else EntriesTo(list, key, value, n - 1) + [Entry(key[list[n - 1]], value[list[n - 1]])]
  }

  ghost function Entries<K, V>(list: seq<Addr>, key: map<Addr, K>, value: map<Addr, V>): (s: seq<Entry<K, V>>)
    requires Alive(list, key, value)
    ensures |s| == |list| && forall i {:trigger s[i]} :: 0 <= i < |s| ==> s[i] == Entry(key[list[i]], value[list[i]])
  {
    EntriesTo(list, key, value, |list|)
  }

  lemma IndexOfIs<K, V>(s: seq<Entry<K, V>>, k: K, i: nat)
    requires i < |s| && s[i].key == k && forall j :: 0 <= j < |s| && j != i ==> s[j].key != k
    ensures IndexOf(s, k) == i
  {
  }

  class LinkedHashMap<K(==), V> {
    const mem: Memory<K, V>
    const hash: K -> nat
    var buckets: seq<Addr>
    var first: Addr
    var last: Addr
    var numRecords: int
    ghost var list: seq<Addr>
    ghost var chains: seq<seq<Addr>>

    ghost predicate Stored()
      reads this, mem
    {
      && Linked(list, mem.prev, mem.next, first, last)
      && ChainsOK(chains, buckets, mem.child)
      && Indexed(list, chains, mem.key, hash)
      && forall a :: a in list ==> a in mem.key && a in mem.value && a != 0
    }

    ghost predicate Valid()
      reads this, mem
    {
      Stored() && numRecords == |list|
    }

    /** The entries in the order of the list. */
    ghost function Items(): seq<Entry<K, V>>
      requires Stored()
      reads this, mem
    {
      Entries(list, mem.key, mem.value)
    }

    constructor (mem: Memory<K, V>, hash: K -> nat, numBuckets: nat)
      requires numBuckets > 0
      ensures Valid() && Items() == [] && this.mem == mem && this.hash == hash && list == [] && |buckets| == numBuckets
    {
      this.mem, this.hash := mem, hash;
      buckets := seq(numBuckets, i => 0);
      first, last, numRecords := 0, 0, 0;
      list, chains := [], seq(numBuckets, i => []);
    }

    /** The record of a key, with the one before it in its chain. */
    method Find(key: K) returns (rec: Addr, parent: Addr, b: nat, ghost j: nat)
      requires Stored()
      ensures b == Slot(hash(key), |buckets|)
      ensures rec != 0 ==> j < |chains[b]| && rec == chains[b][j] && rec in list && mem.key[rec] == key
      ensures rec != 0 ==> parent == At(chains[b], j - 1)
      ensures rec == 0 ==> parent == At(chains[b], |chains[b]| - 1)
      ensures rec == 0 <==> forall a :: a in list ==> mem.key[a] != key
    {
      b := Slot(hash(key), |buckets|);
      rec, parent, j := buckets[b], 0, 0;
      ghost var c := chains[b];
      assert Chained(c, mem.child, buckets[b]);
      forall i | 0 <= i < |c| ensures InList(list, mem.key, hash, |chains|, b, c[i])
          && c[i] != 0 { assert c[i] in chains[b]; }
      while rec != 0
        invariant 0 <= j <= |c| && rec == At(c, j) && parent == At(c, j - 1) && (j < |c| ==> rec != 0)
        invariant forall i :: 0 <= i < j ==> mem.key[c[i]] != key
        decreases |c| - j
      {
        if mem.key[rec] == key {
          return;
        }
        assert Hop(c, mem.child, j);
        parent, rec, j := rec, mem.child[rec], j + 1;
      }
      forall a | a in list ensures mem.key[a] != key {
        assert InChain(chains, mem.key, hash, a);
      }
    }

    /** The record is taken out of the list; its neighbours are linked with each other. */
    method Detach(rec: Addr, ghost i: nat)
      requires Linked(list, mem.prev, mem.next, first, last) && i < |list| && rec == list[i]
      modifies this`first, this`last, this`list, mem`prev, mem`next
      ensures Linked(list, mem.prev, mem.next, first, last) && list == Without(old(list), i)
      ensures Outside(old(list), old(mem.prev), mem.prev) && Outside(old(list), old(mem.next), mem.next)
    {
      assert Place(list, mem.prev, mem.next, i);
      if i > 0 { assert Place(list, mem.prev, mem.next, i - 1); }
      if i + 1 < |list| { assert Place(list, mem.prev, mem.next, i + 1); }
      var p, n := mem.prev[rec], mem.next[rec];
      var first', last' := if rec == first then n else first, if rec == last then p else last;
      var next' := if p != 0 then mem.next[p := n] else mem.next;
      var prev' := if n != 0 then mem.prev[n := p] else mem.prev;
      Detached(list, mem.prev, mem.next, first, last, i, rec, Without(list, i), prev', next', first', last');
      mem.prev, mem.next, first, last := prev', next', first', last';
      list := Without(list, i);
    }

    method AttachLast(rec: Addr)
      requires Linked(list, mem.prev, mem.next, first, last) && rec != 0 && rec !in list
      modifies this`first, this`last, this`list, mem`prev, mem`next
      ensures Linked(list, mem.prev, mem.next, first, last) && list == old(list) + [rec]
      ensures Outside(list, old(mem.prev), mem.prev) && Outside(list, old(mem.next), mem.next)
    {
      LastNotNull();
      var prev', next' := mem.prev[rec := last], (if last != 0 then mem.next[last := rec] else mem.next)[rec := 0];
      var first' := if first == 0 then rec else first;
      AttachedLast(list, mem.prev, mem.next, first, last, rec, list + [rec], prev', next', first', rec);
      mem.prev, mem.next, first, last := prev', next', first', rec;
      list := list + [rec];
    }

    method AttachFirst(rec: Addr)
      requires Linked(list, mem.prev, mem.next, first, last) && rec != 0 && rec !in list
      modifies this`first, this`last, this`list, mem`prev, mem`next
      ensures Linked(list, mem.prev, mem.next, first, last) && list == [rec] + old(list)
      ensures Outside(list, old(mem.prev), mem.prev) && Outside(list, old(mem.next), mem.next)
    {
      LastNotNull();
      var next', prev' := mem.next[rec := first], (if first != 0 then mem.prev[first := rec] else mem.prev)[rec := 0];
      var last' := if last == 0 then rec else last;
      AttachedFirst(list, mem.prev, mem.next, first, last, rec, [rec] + list, prev', next', rec, last');
      mem.prev, mem.next, first, last := prev', next', rec, last';
      list := [rec] + list;
    }

    lemma LastNotNull()
      requires Linked(list, mem.prev, mem.next, first, last)
      ensures |list| > 0 ==> first in list && last in list && first != 0 && last != 0
      ensures |list| == 0 ==> first == 0 && last == 0
    {
      if |list| > 0 {
        assert Place(list, mem.prev, mem.next, 0) && Place(list, mem.prev, mem.next, |list| - 1);
      }
    }

    /** A record just used goes to an end of the list, if it is not there already. */
    method Move(rec: Addr, ghost i: nat, mode: MoveMode)
      requires Linked(list, mem.prev, mem.next, first, last) && i < |list| && rec == list[i]
      modifies this`first, this`last, this`list, mem`prev, mem`next
      ensures Linked(list, mem.prev, mem.next, first, last) && list == Moved(old(list), i, mode)
      ensures Outside(list, old(mem.prev), mem.prev) && Outside(list, old(mem.next), mem.next)
    {
      WithoutMembers(list, i, rec);
      assert Place(list, mem.prev, mem.next, i);
      if mode == MoveFirst && first != rec {
        Detach(rec, i);
        AttachFirst(rec);
      } else if mode == MoveLast && last != rec {
        Detach(rec, i);
        AttachLast(rec);
      } else if mode != MoveCurrent {
        assert i == if mode == MoveFirst then 0 else |list| - 1;
        assert list == Moved(list, i, mode);
      }
    }

    /** What the entries have to do with the records. */
    lemma EntryAt(i: nat, k: K)
      requires Stored() && i < |list| && mem.key[list[i]] == k
      ensures IndexOf(Items(), k) == i && Has(Items(), k) && Items()[i] == Entry(k, mem.value[list[i]])
    {
      forall j | 0 <= j < |list| && j != i ensures Items()[j].key != k {
        assert list[j] in list && list[i] in list;
      }
      IndexOfIs(Items(), k, i);
    }

    lemma Whereabouts(rec: Addr, k: K) returns (i: nat)
      requires Stored() && rec in list && mem.key[rec] == k
      ensures i < |list| && list[i] == rec
      ensures IndexOf(Items(), k) == i && Has(Items(), k) && Items()[i] == Entry(k, mem.value[rec])
    {
      i :| 0 <= i < |list| && list[i] == rec;
      EntryAt(i, k);
    }

    lemma NoEntry(k: K)
      requires Stored() && forall a :: a in list ==> mem.key[a] != k
      ensures !Has(Items(), k)
    {
      forall i | 0 <= i < |list| ensures Items()[i].key != k { assert list[i] in list; }
    }

    /** The record of a key, moved as asked. */
    method Get(key: K, mode: MoveMode) returns (rec: Addr)
      requires Valid()
      modifies this`first, this`last, this`list, mem`prev, mem`next
      ensures Valid() && Items() == AfterGet(old(Items()), key, mode) && SameMembers(old(list), list)
      ensures rec != 0 <==> Has(old(Items()), key)
      ensures rec != 0 ==>
                rec in list && Entry(mem.key[rec], mem.value[rec]) == old(Items())[IndexOf(old(Items()), key)]
      ensures Outside(old(list), old(mem.prev), mem.prev) && Outside(old(list), old(mem.next), mem.next)
    {
      var parent, b; ghost var j;
      rec, parent, b, j := Find(key);
      if rec == 0 {
        NoEntry(key);
      } else {
        GetFound(key, rec, mode);
      }
    }

    method GetFound(key: K, rec: Addr, mode: MoveMode)
      requires Valid() && rec in list && mem.key[rec] == key
      modifies this`first, this`last, this`list, mem`prev, mem`next
      ensures Valid() && Items() == AfterGet(old(Items()), key, mode) && SameMembers(old(list), list)
      ensures Has(old(Items()), key) && Entry(mem.key[rec], mem.value[rec]) == old(Items())[IndexOf(old(Items()), key)]
      ensures rec in list && Outside(old(list), old(mem.prev), mem.prev) && Outside(old(list), old(mem.next), mem.next)
    {
      ghost var i := Whereabouts(rec, key);
      AfterHit(Items(), key, mem.value[rec], i, mode);
      Use(rec, i, mode);
    }

    method Attach(rec: Addr, mode: MoveMode)
      requires Linked(list, mem.prev, mem.next, first, last) && rec != 0 && rec !in list
      modifies this`first, this`last, this`list, mem`prev, mem`next
      ensures Linked(list, mem.prev, mem.next, first, last) && list == Attached(old(list), rec, mode)
      ensures Outside(list, old(mem.prev), mem.prev) && Outside(list, old(mem.next), mem.next)
    {
      if mode == MoveFirst {
        AttachFirst(rec);
      } else {
        AttachLast(rec);
      }
    }

    /** A new record is linked into the list and put before its bucket's chain. */
    method Insert(b: nat, key: K, value: V, mode: MoveMode) returns (rec: Addr)
      requires Stored() && b == Slot(hash(key), |buckets|) && forall a :: a in list ==> mem.key[a] != key
      modifies this`first, this`last, this`list, this`buckets, this`chains, mem
      ensures Stored() && Items() == Attached(old(Items()), Entry(key, value), mode)
              && list == Attached(old(list), rec, mode)
      ensures |buckets| == |old(buckets)|
      ensures rec !in old(mem.key) && rec in mem.key && mem.key[rec] == key && mem.value[rec] == value
      ensures Spared(old(list), old(mem.key), old(mem.value), old(mem.child), old(mem.prev), old(mem.next),
                     mem.key, mem.value, mem.child, mem.prev, mem.next)
    {
      rec := mem.Allocate();
      ghost var list0, key0, value0 := list, mem.key, mem.value;
      mem.key, mem.value := mem.key[rec := key], mem.value[rec := value];
      Attach(rec, mode);
      EntriesAttached(list0, rec, mode, list, key0, value0, mem.key, mem.value);
      Enchain(rec, b, list0, key0);
    }

    /** A record that has come to the list is put before its bucket's chain. */
    method Enchain(rec: Addr, b: nat, ghost list0: seq<Addr>, ghost key0: map<Addr, K>)
      requires ChainsOK(chains, buckets, mem.child) && Indexed(list0, chains, key0, hash) && b < |chains|
               && rec !in list0 && rec != 0
      requires rec in mem.key && Slot(hash(mem.key[rec]), |chains|) == b
      requires forall a :: a in list0 && a in key0 ==> a in mem.key && mem.key[a] == key0[a] && key0[a] != mem.key[rec]
      requires forall a :: a in list <==> a in list0 || a == rec
      requires Linked(list, mem.prev, mem.next, first, last)
               && forall a :: a in list ==> a in mem.key && a in mem.value && a != 0
      modifies this`buckets, this`chains, mem`child
      ensures Stored() && |buckets| == |old(buckets)| && Outside([rec], old(mem.child), mem.child)
    {
      var head := buckets[b];
      JoinedBefore(list0, chains, buckets, mem.child, key0, hash, b, rec, list, chains[b := [rec] + chains[b]],
                   buckets[b := rec],
                   mem.child[rec := head], mem.key);
      mem.child := mem.child[rec := head];
      buckets := buckets[b := rec];
      chains := chains[b := [rec] + chains[b]];
    }

    /** The value of a key is set; without `overwrite` one that is there stays. */
    method Set(key: K, value: V, overwrite: bool, mode: MoveMode) returns (rec: Addr)
      requires Valid()
      modifies this`first, this`last, this`list, this`buckets, this`chains, this`numRecords, mem
      ensures Valid() && Items() == AfterSet(old(Items()), key, value, overwrite, mode)
      ensures rec in list && mem.key[rec] == key
      ensures forall a :: a in list ==> a in old(list) || a !in old(mem.key)
      ensures Spared(old(list), old(mem.key), old(mem.value), old(mem.child), old(mem.prev), old(mem.next),
                     mem.key, mem.value, mem.child, mem.prev, mem.next)
    {
      var parent, b; ghost var j;
      rec, parent, b, j := Find(key);
      if rec == 0 {
        rec := InsertNew(b, key, value, overwrite, mode);
      } else if overwrite {
        UpdateFound(rec, key, value, mode);
      } else {
        ghost var i := Whereabouts(rec, key);
      }
    }

    method InsertNew(b: nat, key: K, value: V, ghost overwrite: bool, mode: MoveMode) returns (rec: Addr)
      requires Valid() && b == Slot(hash(key), |buckets|) && forall a :: a in list ==> mem.key[a] != key
      modifies this`first, this`last, this`list, this`buckets, this`chains, this`numRecords, mem
      ensures Valid() && Items() == AfterSet(old(Items()), key, value, overwrite, mode)
      ensures rec in list && mem.key[rec] == key
      ensures forall a :: a in list ==> a in old(list) || a !in old(mem.key)
      ensures Spared(old(list), old(mem.key), old(mem.value), old(mem.child), old(mem.prev), old(mem.next),
                     mem.key, mem.value, mem.child, mem.prev, mem.next)
    {
      NoEntry(key);
      rec := Insert(b, key, value, mode);
      numRecords := numRecords + 1;
    }

    method UpdateFound(rec: Addr, key: K, value: V, mode: MoveMode)
      requires Valid() && rec in list && mem.key[rec] == key
      modifies this`first, this`last, this`list, mem`prev, mem`next, mem`value
      ensures Valid() && Items() == AfterSet(old(Items()), key, value, true, mode) && SameMembers(old(list), list)
      ensures Outside(old(list), old(mem.value), mem.value)
      ensures Outside(old(list), old(mem.prev), mem.prev) && Outside(old(list), old(mem.next), mem.next)
    {
      ghost var i := Whereabouts(rec, key);
      AfterHit(Items(), key, value, i, mode);
      Update(rec, i, value, mode);
    }

    method Overwrite(rec: Addr, ghost i: nat, value: V)
      requires Stored() && i < |list| && rec == list[i]
      modifies mem`value
      ensures Stored() && Items() == old(Items())[i := Entry(mem.key[rec], value)]
      ensures Outside(list, old(mem.value), mem.value)
    {
      ghost var items := Items();
      mem.value := mem.value[rec := value];
      forall p | 0 <= p < |list| ensures Items()[p] == items[i := Entry(mem.key[rec], value)][p] {
        assert p != i ==> list[p] != rec;
      }
    }

    /** A record leaves the list and its chain, but not memory. */
    method Leave(rec: Addr, parent: Addr, b: nat, ghost i: nat, ghost j: nat)
      requires Stored() && i < |list| && b < |chains| && j < |chains[b]| && list[i] == rec == chains[b][j]
      requires parent == At(chains[b], j - 1)
      modifies this`first, this`last, this`list, this`buckets, this`chains, mem`child, mem`prev, mem`next
      ensures Stored() && Items() == Without(old(Items()), i) && list == Without(old(list), i) && rec !in list
      ensures |buckets| == |old(buckets)|
      ensures Outside(old(list), old(mem.child), mem.child)
      ensures Outside(old(list), old(mem.prev), mem.prev) && Outside(old(list), old(mem.next), mem.next)
    {
      ghost var list0 := list;
      Leaving(rec, parent, b, i, j);
      Detach(rec, i);
      Unchain(rec, parent, b, j, list0, i);
    }

    lemma Leaving(rec: Addr, parent: Addr, b: nat, i: nat, j: nat)
      requires Stored() && i < |list| && b < |chains| && j < |chains[b]| && list[i] == rec == chains[b][j]
      requires parent == At(chains[b], j - 1)
      ensures rec in mem.child && Distinct(list) && (parent != 0 ==> parent in list) && rec !in Without(list, i)
      ensures Alive(Without(list, i), mem.key, mem.value)
      ensures forall a :: a in Without(list, i) ==> a in mem.key && a in mem.value && a != 0
      ensures Entries(Without(list, i), mem.key, mem.value) == Without(Items(), i)
    {
      assert Chained(chains[b], mem.child, buckets[b]) && Hop(chains[b], mem.child, j);
      WithoutMembers(list, i, rec);
      EntriesWithout(list, i, Without(list, i), mem.key, mem.value);
      ParentInList(b, j);
    }

    /** Its chain closes behind a record that has left the list. */
    method Unchain(rec: Addr, parent: Addr, b: nat, ghost j: nat, ghost list0: seq<Addr>, ghost i: nat)
      requires ChainsOK(chains, buckets, mem.child) && Indexed(list0, chains, mem.key, hash) && Distinct(list0)
      requires i < |list0| && b < |chains| && j < |chains[b]| && list0[i] == rec == chains[b][j] && rec in mem.child
      requires list == Without(list0, i) && parent == At(chains[b], j - 1) && (parent != 0 ==> parent in list0)
      requires Linked(list, mem.prev, mem.next, first, last)
               && forall a :: a in list ==> a in mem.key && a in mem.value && a != 0
      modifies this`buckets, this`chains, mem`child
      ensures Stored() && |buckets| == |old(buckets)| && Outside(list0, old(mem.child), mem.child)
    {
      var child := mem.child[rec];
      Departed(list0, chains, buckets, mem.child, mem.key, hash, i, b, j, rec, parent, list,
               chains[b := Without(chains[b], j)],
               if parent != 0 then buckets else buckets[b := child],
               if parent != 0 then mem.child[parent := child] else mem.child);
      buckets := if parent != 0 then buckets else buckets[b := child];
      mem.child := if parent != 0 then mem.child[parent := child] else mem.child;
      chains := chains[b := Without(chains[b], j)];
    }

    lemma ParentInList(b: nat, j: nat)
      requires Stored() && b < |chains| && j < |chains[b]|
      ensures chains[b][j] in list && (At(chains[b], j - 1) != 0 ==> At(chains[b], j - 1) in list)
    {
      assert InList(list, mem.key, hash, |chains|, b, chains[b][j]);
      if j > 0 { assert InList(list, mem.key, hash, |chains|, b, chains[b][j - 1]); }
    }

    method Remove(key: K) returns (removed: bool)
      requires Valid()
      modifies this`first, this`last, this`list, this`buckets, this`chains, this`numRecords, mem
      ensures Valid() && Items() == AfterRemove(old(Items()), key) && removed == Has(old(Items()), key)
      ensures forall a :: a in list ==> a in old(list)
      ensures Spared(old(list), old(mem.key), old(mem.value), old(mem.child), old(mem.prev), old(mem.next),
                     mem.key, mem.value, mem.child, mem.prev, mem.next)
    {
      var rec, parent, b; ghost var j;
      rec, parent, b, j := Find(key);
      if rec == 0 {
        NoEntry(key);
        return false;
      }
      ghost var i := Whereabouts(rec, key);
      Erase(rec, parent, b, i, j);
      removed := true;
    }

    /** A record leaves list and chain, and its memory is given back. */
    method Erase(rec: Addr, parent: Addr, b: nat, ghost i: nat, ghost j: nat)
      requires Valid() && i < |list| && b < |chains| && j < |chains[b]| && list[i] == rec == chains[b][j]
      requires parent == At(chains[b], j - 1)
      modifies this`first, this`last, this`list, this`buckets, this`chains, this`numRecords, mem
      ensures Valid() && Items() == Without(old(Items()), i) && list == Without(old(list), i)
              && |buckets| == |old(buckets)|
      ensures forall a :: a in list ==> a in old(list)
      ensures Spared(old(list), old(mem.key), old(mem.value), old(mem.child), old(mem.prev), old(mem.next),
                     mem.key, mem.value, mem.child, mem.prev, mem.next)
    {
      WithoutMembers(list, i, rec);
      Leave(rec, parent, b, i, j);
      numRecords := numRecords - 1;
      Delete(rec);
    }

    /** A record that is linked nowhere is given back to memory. */
    method Delete(rec: Addr)
      requires Stored() && rec !in list
      modifies mem
      ensures Stored() && Items() == old(Items())
      ensures mem.key == old(mem.key) - {rec} && mem.value == old(mem.value) - {rec}
              && mem.child == old(mem.child) - {rec}
      ensures mem.prev == old(mem.prev) - {rec} && mem.next == old(mem.next) - {rec}
    {
      SparedKeeps(list, chains, buckets, first, last, hash, [rec], mem.key, mem.value, mem.child, mem.prev, mem.next,
                  mem.key - {rec}, mem.value - {rec}, mem.child - {rec}, mem.prev - {rec}, mem.next - {rec});
      mem.key, mem.value := mem.key - {rec}, mem.value - {rec};
      mem.child, mem.prev, mem.next := mem.child - {rec}, mem.prev - {rec}, mem.next - {rec};
    }

    /** A record that is linked nowhere joins the list, and its chain behind the last record there. */
    method Join(rec: Addr, parent: Addr, b: nat, mode: MoveMode)
      requires Stored() && rec != 0 && rec !in list && rec in mem.key && rec in mem.value
      requires b == Slot(hash(mem.key[rec]), |buckets|) && parent == At(chains[b], |chains[b]| - 1)
      requires forall a :: a in list ==> mem.key[a] != mem.key[rec]
      modifies this`first, this`last, this`list, this`buckets, this`chains, mem`child, mem`prev, mem`next
      ensures Stored() && list == Attached(old(list), rec, mode)
      ensures Items() == Attached(old(Items()), Entry(mem.key[rec], mem.value[rec]), mode)
      ensures Outside(list, old(mem.child), mem.child)
      ensures Outside(list, old(mem.prev), mem.prev) && Outside(list, old(mem.next), mem.next)
    {
      ghost var list0 := list;
      if |chains[b]| > 0 { ParentInList(b, |chains[b]| - 1); }
      Attach(rec, mode);
      EntriesAttached(list0, rec, mode, list, mem.key, mem.value, mem.key, mem.value);
      EnchainBehind(rec, parent, b, list0);
    }

    /** A record that has come to the list is put behind the last one of its bucket's chain. */
    method EnchainBehind(rec: Addr, parent: Addr, b: nat, ghost list0: seq<Addr>)
      requires ChainsOK(chains, buckets, mem.child) && Indexed(list0, chains, mem.key, hash) && b < |chains|
      requires rec !in list0 && rec != 0 && rec in mem.key && Slot(hash(mem.key[rec]), |chains|) == b
      requires forall a :: a in list0 && a in mem.key ==> mem.key[a] != mem.key[rec]
      requires forall a :: a in list <==> a in list0 || a == rec
      requires parent == At(chains[b], |chains[b]| - 1) && (parent != 0 ==> parent in list0)
      requires Linked(list, mem.prev, mem.next, first, last)
               && forall a :: a in list ==> a in mem.key && a in mem.value && a != 0
      modifies this`buckets, this`chains, mem`child
      ensures Stored() && Outside(list, old(mem.child), mem.child)
    {
      JoinedBehind(list0, chains, buckets, mem.child, mem.key, hash, b, rec, parent, list,
                   chains[b := chains[b] + [rec]], if parent != 0 then buckets else buckets[b := rec],
                   (if parent != 0 then mem.child[parent := rec] else mem.child)[rec := 0]);
      mem.child := (if parent != 0 then mem.child[parent := rec] else mem.child)[rec := 0];
      buckets := if parent != 0 then buckets else buckets[b := rec];
      chains := chains[b := chains[b] + [rec]];
    }

    /** A record that is linked nowhere takes the place of the one with its key. */
    method Relieve(former: Addr, rec: Addr, parent: Addr, b: nat, ghost i: nat, ghost j: nat)
      requires Stored() && i < |list| && b < |chains| && j < |chains[b]| && list[i] == former == chains[b][j]
      requires rec != 0 && rec !in list && rec in mem.key && rec in mem.value && mem.key[rec] == mem.key[former]
      requires parent == At(chains[b], j - 1)
      modifies this`first, this`last, this`list, this`buckets, this`chains, mem`child, mem`prev, mem`next
      ensures Stored() && list == old(list)[i := rec] && former !in list && |buckets| == |old(buckets)|
      ensures Items() == old(Items())[i := Entry(mem.key[rec], mem.value[rec])]
      ensures Outside(list, old(mem.child), mem.child)
      ensures Outside(list, old(mem.prev), mem.prev) && Outside(list, old(mem.next), mem.next)
    {
      ghost var list0, chains0, buckets0, child0 := list, chains, buckets, mem.child;
      assert Chained(chains[b], mem.child, buckets[b]) && Hop(chains[b], mem.child, j);
      ParentInList(b, j);
      Substitute(former, rec, i);
      var child := mem.child[former];
      mem.child := (if parent != 0 then mem.child[parent := rec] else mem.child)[rec := child];
      buckets := if parent != 0 then buckets else buckets[b := rec];
      chains := chains[b := chains[b][j := rec]];
      assert parent != former && (parent != 0 ==> parent in list) by {
        if j > 0 { assert Hop(chains0[b], child0, j - 1); }
      }
      Relieved(list0, chains0, buckets0, child0, mem.key, hash, i, b, j, former, rec, parent, list, chains, buckets,
               mem.child);
      EntriesInstead(list0, i, rec, list, mem.key, mem.value);
    }

    /** In the list a record takes the place of another one. */
    method Substitute(former: Addr, rec: Addr, ghost i: nat)
      requires Linked(list, mem.prev, mem.next, first, last) && i < |list| && list[i] == former && rec != 0
               && rec !in list
      modifies this`first, this`last, this`list, mem`prev, mem`next
      ensures Linked(list, mem.prev, mem.next, first, last) && list == old(list)[i := rec]
      ensures forall a :: a in list <==> (a in old(list) && a != former) || a == rec
      ensures Outside(list, old(mem.prev), mem.prev) && Outside(list, old(mem.next), mem.next)
    {
      assert Place(list, mem.prev, mem.next, i);
      if i > 0 { assert Place(list, mem.prev, mem.next, i - 1); }
      if i + 1 < |list| { assert Place(list, mem.prev, mem.next, i + 1); }
      var p, n := mem.prev[former], mem.next[former];
      var prev' := (if n != 0 then mem.prev[n := rec] else mem.prev)[rec := p];
      var next' := (if p != 0 then mem.next[p := rec] else mem.next)[rec := n];
      var first', last' := if first == former then rec else first, if last == former then rec else last;
      Substituted(list, mem.prev, mem.next, first, last, i, former, rec, list[i := rec], prev', next', first', last');
      InsteadMembers(list, i, rec);
      WithoutMembers(list, i, former);
      NeighboursStay(list, i, rec);
      mem.prev, mem.next, first, last := prev', next', first', last';
      list := list[i := rec];
    }

    method Update(rec: Addr, ghost i: nat, value: V, mode: MoveMode)
      requires Stored() && i < |list| && rec == list[i]
      modifies this`first, this`last, this`list, mem`prev, mem`next, mem`value
      ensures Stored() && Items() == Moved(old(Items())[i := Entry(mem.key[rec], value)], i, mode)
      ensures SameMembers(old(list), list) && |list| == |old(list)|
      ensures Outside(old(list), old(mem.value), mem.value)
      ensures Outside(old(list), old(mem.prev), mem.prev) && Outside(old(list), old(mem.next), mem.next)
    {
      Overwrite(rec, i, value);
      Use(rec, i, mode);
    }

    /** A record from elsewhere is taken in; one of the same key makes way for it and is deleted. */
    method Arrive(rec: Addr, mode: MoveMode)
      requires Valid() && rec != 0 && rec !in list && rec in mem.key && rec in mem.value
      modifies this`first, this`last, this`list, this`buckets, this`chains, this`numRecords, mem
      ensures Valid() && Items() == AfterArrival(old(Items()), Entry(old(mem.key[rec]), old(mem.value[rec])), mode)
      ensures rec in list && (forall a :: a in list ==> a in old(list) || a == rec)
      ensures mem.key[rec] == old(mem.key[rec]) && mem.value[rec] == old(mem.value[rec])
      ensures Spared(old(list) + [rec], old(mem.key), old(mem.value), old(mem.child), old(mem.prev), old(mem.next),
                     mem.key, mem.value, mem.child, mem.prev, mem.next)
    {
      ghost var key := mem.key[rec];
      var former, parent, b; ghost var j;
      former, parent, b, j := Find(mem.key[rec]);
      if former == 0 {
        NoEntry(key);
        Join(rec, parent, b, mode);
        numRecords := numRecords + 1;
      } else {
        ArriveInstead(former, rec, parent, b, j, mode);
      }
    }

    method ArriveInstead(former: Addr, rec: Addr, parent: Addr, b: nat, ghost j: nat, mode: MoveMode)
      requires Valid() && rec != 0 && rec !in list && rec in mem.key && rec in mem.value
      requires former in list && b < |chains| && j < |chains[b]| && former == chains[b][j]
               && parent == At(chains[b], j - 1)
      requires mem.key[rec] == mem.key[former]
      modifies this`first, this`last, this`list, this`buckets, this`chains, mem
      ensures Valid() && Items() == AfterArrival(old(Items()), Entry(old(mem.key[rec]), old(mem.value[rec])), mode)
      ensures rec in list && (forall a :: a in list ==> a in old(list) || a == rec)
      ensures mem.key[rec] == old(mem.key[rec]) && mem.value[rec] == old(mem.value[rec])
      ensures Spared(old(list) + [rec], old(mem.key), old(mem.value), old(mem.child), old(mem.prev), old(mem.next),
                     mem.key, mem.value, mem.child, mem.prev, mem.next)
    {
      ghost var i := Whereabouts(former, mem.key[rec]);
      AfterHit(Items(), mem.key[rec], mem.value[rec], i, mode);
      Supersede(former, rec, parent, b, i, j, mode);
    }

    /** A record makes way for one of the same key, is deleted, and the new one is moved as asked. */
    method Supersede(former: Addr, rec: Addr, parent: Addr, b: nat, ghost i: nat, ghost j: nat, mode: MoveMode)
      requires Stored() && i < |list| && b < |chains| && j < |chains[b]| && list[i] == former == chains[b][j]
      requires rec != 0 && rec !in list && rec in mem.key && rec in mem.value && mem.key[rec] == mem.key[former]
      requires parent == At(chains[b], j - 1)
      modifies this`first, this`last, this`list, this`buckets, this`chains, mem
      ensures Stored() && |list| == |old(list)|
      ensures Items() == Moved(old(Items())[i := Entry(old(mem.key[rec]), old(mem.value[rec]))], i, mode)
      ensures rec in list && (forall a :: a in list ==> a in old(list) || a == rec)
      ensures mem.key[rec] == old(mem.key[rec]) && mem.value[rec] == old(mem.value[rec])
      ensures Spared(old(list) + [rec], old(mem.key), old(mem.value), old(mem.child), old(mem.prev), old(mem.next),
                     mem.key, mem.value, mem.child, mem.prev, mem.next)
    {
      ghost var list0, key0, value0, child0, prev0, next0 := list + [rec], mem.key, mem.value, mem.child, mem.prev,
          mem.next;
      RelieveAndDelete(former, rec, parent, b, i, j);
      ghost var list1, key1, value1, child1, prev1, next1 := list, mem.key, mem.value, mem.child, mem.prev, mem.next;
      Use(rec, i, mode);
      SparedTwice(list0, list0, key0, value0, child0, prev0, next0, key1, value1, child1, prev1, next1, list1,
                  mem.key, mem.value, mem.child, mem.prev, mem.next);
    }

    method RelieveAndDelete(former: Addr, rec: Addr, parent: Addr, b: nat, ghost i: nat, ghost j: nat)
      requires Stored() && i < |list| && b < |chains| && j < |chains[b]| && list[i] == former == chains[b][j]
      requires rec != 0 && rec !in list && rec in mem.key && rec in mem.value && mem.key[rec] == mem.key[former]
      requires parent == At(chains[b], j - 1)
      modifies this`first, this`last, this`list, this`buckets, this`chains, mem
      ensures Stored() && list == old(list)[i := rec] && |buckets| == |old(buckets)| && rec in mem.key
              && mem.key[rec] == old(mem.key[rec])
      ensures rec in mem.value && mem.value[rec] == old(mem.value[rec])
      ensures Items() == old(Items())[i := Entry(old(mem.key[rec]), old(mem.value[rec]))]
      ensures forall a :: a in list ==> a in old(list) || a == rec
      ensures Spared(old(list) + [rec], old(mem.key), old(mem.value), old(mem.child), old(mem.prev), old(mem.next),
                     mem.key, mem.value, mem.child, mem.prev, mem.next)
    {
      Relieve(former, rec, parent, b, i, j);
      Delete(former);
    }

    /** The record of a key goes over to another map in the same memory. */
    method Migrate(key: K, dest: LinkedHashMap<K, V>, mode: MoveMode) returns (rec: Addr)
      requires Valid() && dest.Valid() && dest != this && dest.mem == mem && Apart(list, dest.list)
      modifies this`first, this`last, this`list, this`buckets, this`chains, this`numRecords, mem
      modifies dest`first, dest`last, dest`list, dest`buckets, dest`chains, dest`numRecords
      ensures Valid() && dest.Valid() && Apart(list, dest.list)
      ensures rec != 0 <==> Has(old(Items()), key)
      ensures Items() == AfterRemove(old(Items()), key)
      ensures rec == 0 ==> dest.Items() == old(dest.Items())
      ensures rec != 0 ==> dest.Items() == AfterArrival(old(dest.Items()), old(Items())[IndexOf(old(Items()), key)],
                                                        mode)
      ensures rec != 0 ==>
                rec in dest.list && Entry(mem.key[rec], mem.value[rec]) == old(Items())[IndexOf(old(Items()), key)]
    {
      var parent, b; ghost var j;
      rec, parent, b, j := Find(key);
      if rec == 0 {
        NoEntry(key);
        return;
      }
      ghost var i := Whereabouts(rec, key);
      HandOver(rec, parent, b, i, j, dest, mode);
    }

    method HandOver(rec: Addr, parent: Addr, b: nat, ghost i: nat, ghost j: nat, dest: LinkedHashMap<K, V>,
                    mode: MoveMode)
      requires Valid() && dest.Valid() && dest != this && dest.mem == mem && Apart(list, dest.list)
      requires i < |list| && b < |chains| && j < |chains[b]| && list[i] == rec == chains[b][j]
      requires parent == At(chains[b], j - 1)
      modifies this`first, this`last, this`list, this`buckets, this`chains, this`numRecords, mem
      modifies dest`first, dest`last, dest`list, dest`buckets, dest`chains, dest`numRecords
      ensures Valid() && dest.Valid() && Apart(list, dest.list)
      ensures Items() == Without(old(Items()), i)
      ensures dest.Items() == AfterArrival(old(dest.Items()), old(Items())[i], mode)
      ensures rec in dest.list && mem.key[rec] == old(mem.key[rec]) && mem.value[rec] == old(mem.value[rec])
    {
      LeaveBeside(rec, parent, b, i, j, dest);
      dest.ArriveBeside(rec, mode, this);
    }

    /** Leaving disturbs no other map in the same memory. */
    method LeaveBeside(rec: Addr, parent: Addr, b: nat, ghost i: nat, ghost j: nat, ghost other: LinkedHashMap<K, V>)
      requires Valid() && other.Valid() && other != this && other.mem == mem && Apart(list, other.list)
      requires i < |list| && b < |chains| && j < |chains[b]| && list[i] == rec == chains[b][j]
      requires parent == At(chains[b], j - 1)
      modifies this`first, this`last, this`list, this`buckets, this`chains, this`numRecords, mem`child, mem`prev,
               mem`next
      ensures Valid() && other.Valid() && Apart(list, other.list) && rec !in list && rec !in other.list
      ensures Items() == Without(old(Items()), i) && other.Items() == old(other.Items())
      ensures rec != 0 && rec in mem.key && rec in mem.value && Entry(mem.key[rec], mem.value[rec]) == old(Items())[i]
    {
      WithoutMembers(list, i, rec);
      ghost var list0 := list;
      Leave(rec, parent, b, i, j);
      numRecords := numRecords - 1;
      other.SparedStays(list0);
    }

    /** A map whose records are spared is what it was. */
    twostate lemma SparedStays(new moved: seq<Addr>)
      requires old(Valid()) && unchanged(this) && forall a :: a in list ==> a !in moved
      requires Spared(moved, old(mem.key), old(mem.value), old(mem.child), old(mem.prev), old(mem.next),
                      mem.key, mem.value, mem.child, mem.prev, mem.next)
      ensures Valid() && Items() == old(Items())
    {
      SparedKeeps(list, chains, buckets, first, last, hash, moved, old(mem.key), old(mem.value), old(mem.child),
                  old(mem.prev),
                  old(mem.next), mem.key, mem.value, mem.child, mem.prev, mem.next);
    }

    /** Nor does arriving. */
    method ArriveBeside(rec: Addr, mode: MoveMode, ghost other: LinkedHashMap<K, V>)
      requires Valid() && other.Valid() && other != this && other.mem == mem && Apart(list, other.list)
      requires rec != 0 && rec !in list && rec !in other.list && rec in mem.key && rec in mem.value
      modifies this`first, this`last, this`list, this`buckets, this`chains, this`numRecords, mem
      ensures Valid() && other.Valid() && Apart(list, other.list) && rec in list
      ensures Items() == AfterArrival(old(Items()), Entry(old(mem.key[rec]), old(mem.value[rec])), mode)
      ensures other.Items() == old(other.Items())
      ensures mem.key[rec] == old(mem.key[rec]) && mem.value[rec] == old(mem.value[rec])
    {
      ghost var list0 := list + [rec];
      Arrive(rec, mode);
      ApartStill(old(list), list, rec, other.list);
      other.SparedStays(list0);
    }

    /** The chains are built anew for another number of buckets, by going through the list. */
    method Rehash(numBuckets: nat)
      requires Valid() && numBuckets > 0
      modifies this`buckets, this`chains, mem`child
      ensures Valid() && Items() == old(Items()) && |buckets| == numBuckets
      ensures Outside(list, old(mem.child), mem.child)
    {
      buckets := seq(numBuckets, i => 0);
      chains := seq(numBuckets, i => []);
      var rec := first;
      ghost var n := 0;
      forall i | 0 <= i < |list| ensures list[i] != 0 { assert list[i] in list; }
      while rec != 0
        invariant 0 <= n <= |list| && rec == At(list, n) && (n < |list| ==> rec != 0)
        invariant |buckets| == numBuckets && ChainsOK(chains, buckets, mem.child)
        invariant Indexed(list[..n], chains, mem.key, hash)
        invariant Outside(list, old(mem.child), mem.child)
        decreases |list| - n
      {
        ghost var m := n + 1;
        TakeUp(rec, n, m);
        assert Place(list, mem.prev, mem.next, n);
        rec, n := mem.next[rec], m;
      }
      assert list[..n] == list;
    }

    method TakeUp(rec: Addr, ghost n: nat, ghost m: nat)
      requires Distinct(list) && KeysDistinct(list, mem.key) && (forall a :: a in list ==> a in mem.key)
      requires n < |list| && m == n + 1 && rec == list[n] && rec != 0
      requires |buckets| > 0 && ChainsOK(chains, buckets, mem.child) && Indexed(list[..n], chains, mem.key, hash)
      modifies this`buckets, this`chains, mem`child
      ensures |buckets| == |old(buckets)| && ChainsOK(chains, buckets, mem.child)
              && Indexed(list[..m], chains, mem.key, hash)
      ensures Outside(list, old(mem.child), mem.child)
    {
      var b := Slot(hash(mem.key[rec]), |buckets|);
      ghost var chains0, buckets0, child0 := chains, buckets, mem.child;
      mem.child := mem.child[rec := buckets[b]];
      buckets := buckets[b := rec];
      chains := chains[b := [rec] + chains[b]];
      TakenUp(list, n, m, rec, mem.key);
      JoinedBefore(list[..n], chains0, buckets0, child0, mem.key, hash, b, rec, list[..m], chains, buckets, mem.child,
                   mem.key);
    }

    /** A move keeps everything in order. */
    method Use(rec: Addr, ghost i: nat, mode: MoveMode)
      requires Stored() && i < |list| && rec == list[i]
      modifies this`first, this`last, this`list, mem`prev, mem`next
      ensures Stored() && Items() == Moved(old(Items()), i, mode)
      ensures SameMembers(old(list), list) && |list| == |old(list)| && (mode == MoveLast ==> last == rec)
      ensures Outside(old(list), old(mem.prev), mem.prev) && Outside(old(list), old(mem.next), mem.next)
    {
      ghost var list0 := list;
      MovedMembers(list0, i, mode);
      Move(rec, i, mode);
      IndexReordered(list0, chains, mem.key, hash, list);
      EntriesMoved(list0, i, mode, list, mem.key, mem.value);
    }
  }

  ghost predicate Alive<K, V>(list: seq<Addr>, key: map<Addr, K>, value: map<Addr, V>) {
    forall i :: 0 <= i < |list| ==> list[i] in key && list[i] in value
  }

  lemma EntriesMoved<K, V>(list: seq<Addr>, i: nat, mode: MoveMode, list': seq<Addr>, key: map<Addr, K>,
                           value: map<Addr, V>)
    requires i < |list| && list' == Moved(list, i, mode) && Alive(list, key, value) && Alive(list', key, value)
    ensures Entries(list', key, value) == Moved(Entries(list, key, value), i, mode)
  {
    EntriesWithout(list, i, Without(list, i), key, value);
    var s, t := Entries(list, key, value), Entries(list', key, value);
    if mode == MoveFirst {
      forall p | 0 <= p < |t| ensures t[p] == ([s[i]] + Without(s, i))[p] { }
    } else if mode == MoveLast {
      forall p | 0 <= p < |t| ensures t[p] == (Without(s, i) + [s[i]])[p] { }
    }
  }

  lemma EntriesAttached<K, V>(list: seq<Addr>, rec: Addr, mode: MoveMode, list': seq<Addr>, key: map<Addr, K>,
                              value: map<Addr, V>,
                              key': map<Addr, K>, value': map<Addr, V>)
    requires Alive(list, key, value) && list' == Attached(list, rec, mode) && rec in key' && rec in value'
    requires forall a :: a in list && a in key ==> a in key' && key'[a] == key[a]
    requires forall a :: a in list && a in value ==> a in value' && value'[a] == value[a]
    ensures Alive(list', key', value')
    ensures Entries(list', key', value') == Attached(Entries(list, key, value), Entry(key'[rec], value'[rec]), mode)
  {
    if mode == MoveFirst {
      EntriesBefore(list, rec, list', key, value, key', value');
    } else {
      EntriesBehind(list, rec, list', key, value, key', value');
    }
  }

  lemma {:induction false} EntriesBefore<K, V>(list: seq<Addr>, rec: Addr, list': seq<Addr>,
                                               key: map<Addr, K>, value: map<Addr, V>,
                                               key': map<Addr, K>, value': map<Addr, V>)
    requires Alive(list, key, value) && rec in key' && rec in value' && list' == [rec] + list
    requires forall a :: a in list && a in key ==> a in key' && key'[a] == key[a]
    requires forall a :: a in list && a in value ==> a in value' && value'[a] == value[a]
    ensures Alive(list', key', value') && Entries(list', key', value')
            == [Entry(key'[rec], value'[rec])] + Entries(list, key, value)
  {
    forall p | 0 <= p < |list'| ensures list'[p] in key' && list'[p] in value' {
      assert p > 0 ==> list'[p] == list[p - 1];
    }
    var t := [Entry(key'[rec], value'[rec])] + Entries(list, key, value);
    forall p | 0 <= p < |t| ensures Entries(list', key', value')[p] == t[p] {
      assert p > 0 ==> list'[p] == list[p - 1] && t[p] == Entries(list, key, value)[p - 1];
    }
  }

  lemma {:induction false} EntriesBehind<K, V>(list: seq<Addr>, rec: Addr, list': seq<Addr>,
                                               key: map<Addr, K>, value: map<Addr, V>,
                                               key': map<Addr, K>, value': map<Addr, V>)
    requires Alive(list, key, value) && rec in key' && rec in value' && list' == list + [rec]
    requires forall a :: a in list && a in key ==> a in key' && key'[a] == key[a]
    requires forall a :: a in list && a in value ==> a in value' && value'[a] == value[a]
    ensures Alive(list', key', value') && Entries(list', key', value')
            == Entries(list, key, value) + [Entry(key'[rec], value'[rec])]
  {
    forall p | 0 <= p < |list'| ensures list'[p] in key' && list'[p] in value' {
      assert p < |list| ==> list'[p] == list[p];
    }
    var t := Entries(list, key, value) + [Entry(key'[rec], value'[rec])];
    forall p | 0 <= p < |t| ensures Entries(list', key', value')[p] == t[p] {
      assert p < |list| ==> list'[p] == list[p] && t[p] == Entries(list, key, value)[p];
    }
  }

  /** Records outside of the list are spared by a change. */
  ghost predicate Spared<K, V>(list: seq<Addr>, key: map<Addr, K>, value: map<Addr, V>, child: Links, prev: Links,
                               next: Links,
                               key': map<Addr, K>, value': map<Addr, V>, child': Links, prev': Links, next': Links)
  {
    && Outside(list, key, key') && Outside(list, value, value') && Outside(list, child, child')
    && Outside(list, prev, prev') && Outside(list, next, next')
  }

  /** A change that spares the records of a map leaves it in order. */
  lemma SparedKeeps<K, V>(list: seq<Addr>, chains: seq<seq<Addr>>, buckets: seq<Addr>, first: Addr, last: Addr,
                          hash: K -> nat,
                          other: seq<Addr>, key: map<Addr, K>, value: map<Addr, V>, child: Links, prev: Links,
                          next: Links,
                          key': map<Addr, K>, value': map<Addr, V>, child': Links, prev': Links, next': Links)
    requires Linked(list, prev, next, first, last) && ChainsOK(chains, buckets, child)
             && Indexed(list, chains, key, hash)
    requires forall a :: a in list ==> a in key && a in value && a !in other
    requires Spared(other, key, value, child, prev, next, key', value', child', prev', next')
    ensures Linked(list, prev', next', first, last) && ChainsOK(chains, buckets, child')
            && Indexed(list, chains, key', hash)
    ensures forall a :: a in list ==> a in key' && a in value'
    ensures Entries(list, key', value') == Entries(list, key, value)
  {
    ListFrame(list, prev, next, first, last, prev', next');
    ChainsKnown(list, chains, key, hash);
    forall b | 0 <= b < |chains| ensures Chained(chains[b], child', buckets[b]) {
      assert Chained(chains[b], child, buckets[b]);
      ChainFrame(chains[b], child, buckets[b], child');
    }
    forall a | a in list ensures InChain(chains, key', hash, a) { assert InChain(chains, key, hash, a); }
    forall b, a | 0 <= b < |chains| && a in chains[b] ensures InList(list, key', hash, |chains|, b, a) { }
  }

  lemma EntriesInstead<K, V>(list: seq<Addr>, i: nat, rec: Addr, list': seq<Addr>, key: map<Addr, K>,
                             value: map<Addr, V>)
    requires i < |list| && list' == list[i := rec] && Alive(list, key, value) && rec in key && rec in value
    ensures Alive(list', key, value)
    ensures Entries(list', key, value) == Entries(list, key, value)[i := Entry(key[rec], value[rec])]
  {
  }

  lemma NeighboursStay(list: seq<Addr>, i: nat, rec: Addr)
    requires i < |list|
    ensures i > 0 ==> At(list, i - 1) in list[i := rec]
    ensures i + 1 < |list| ==> At(list, i + 1) in list[i := rec]
  {
    if i > 0 { assert list[i := rec][i - 1] == list[i - 1]; }
    if i + 1 < |list| { assert list[i := rec][i + 1] == list[i + 1]; }
  }

  lemma SparedTwice<K, V>(list: seq<Addr>, first: seq<Addr>, k0: map<Addr, K>, v0: map<Addr, V>, c0: Links, p0: Links,
                          n0: Links,
                          k1: map<Addr, K>, v1: map<Addr, V>, c1: Links, p1: Links, n1: Links, second: seq<Addr>,
                          k2: map<Addr, K>, v2: map<Addr, V>, c2: Links, p2: Links, n2: Links)
    requires Spared(first, k0, v0, c0, p0, n0, k1, v1, c1, p1, n1)
             && Spared(second, k1, v1, c1, p1, n1, k2, v2, c2, p2, n2)
    requires forall a :: a in first || a in second ==> a in list
    ensures Spared(list, k0, v0, c0, p0, n0, k2, v2, c2, p2, n2)
  {
  }

  lemma EntriesWithout<K, V>(list: seq<Addr>, i: nat, list': seq<Addr>, key: map<Addr, K>, value: map<Addr, V>)
    requires i < |list| && list' == Without(list, i) && Alive(list, key, value)
    ensures Alive(list', key, value) && Entries(list', key, value) == Without(Entries(list, key, value), i)
  {
    forall p | 0 <= p < |list'|
      ensures list'[p] in key && list'[p] in value
    {
      assert list'[p] == list[if p < i then p else p + 1];
    }
    var s, t := Entries(list, key, value), Entries(list', key, value);
    forall p | 0 <= p < |t| ensures t[p] == Without(s, i)[p] {
      assert list'[p] == list[if p < i then p else p + 1];
    }
  }

  ghost predicate Apart(s: seq<Addr>, t: seq<Addr>) {
    forall a :: a in s ==> a !in t
  }

  lemma ApartStill(before: seq<Addr>, after: seq<Addr>, rec: Addr, other: seq<Addr>)
    requires Apart(before, other) && rec !in other && forall a :: a in after ==> a in before || a == rec
    ensures Apart(after, other) && forall a :: a in other ==> a !in before + [rec]
  {
  }

  /** The next record of the list has a key none of the records before it has. */
  lemma TakenUp<K>(list: seq<Addr>, n: nat, m: nat, rec: Addr, key: map<Addr, K>)
    requires Distinct(list) && KeysDistinct(list, key) && n < |list| && m == n + 1 && rec == list[n]
    requires forall a :: a in list ==> a in key
    ensures rec !in list[..n] && forall a :: a in list[..n] ==> key[a] != key[rec]
    ensures forall a :: a in list[..m] <==> a in list[..n] || a == rec
  {
    assert list[..m] == list[..n] + [rec];
    forall a | a in list[..n] ensures key[a] != key[rec] && a != rec {
      var i :| 0 <= i < n && list[i] == a;
      assert rec in list;
    }
  }

  ghost predicate SameMembers(s: seq<Addr>, t: seq<Addr>) {
    forall a :: a in s <==> a in t
  }

  lemma MovedMembers(s: seq<Addr>, i: nat, mode: MoveMode)
    requires Distinct(s) && i < |s|
    ensures SameMembers(s, Moved(s, i, mode)) && |Moved(s, i, mode)| == |s|
  {
    WithoutMembers(s, i, s[i]);
  }

  /** Nothing changes in the cells of records that are not in the list. */
  ghost predicate Outside<X>(list: seq<Addr>, m: map<Addr, X>, m': map<Addr, X>) {
    forall a :: a in m && a !in list ==> a in m' && m'[a] == m[a]
  }
}
