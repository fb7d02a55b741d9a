/**
 The double LRU cache: records used again are promoted from a warm map to a hot one of limited size,
 whose least recently used record goes back to the warm one.
 */
module LruCache {
  import opened Basics
  import opened LinkedRecords
  import opened LinkedHash

  type Id = int

  type Items<V> = seq<Entry<Id, V>>

  /** No id is in both sequences, nor twice in one. */
  ghost predicate IdsDistinct<V>(s: Items<V>) {
    forall i, j :: 0 <= i < j < |s| ==> s[i].key != s[j].key
  }

  /** The value of an id in a sequence of entries. */
  ghost function Lookup<V>(s: Items<V>, id: Id): Option<V> {
    if Has(s, id) then Some(s[IndexOf(s, id)].value) else None
  }

  /** Entries that were all there before are as distinct as they were. */
  lemma DistinctStill<V>(s: Items<V>, t: Items<V>)
    requires IdsDistinct(s) && multiset(t) <= multiset(s)
    ensures IdsDistinct(t)
  {
    forall i, j | 0 <= i < j < |t| ensures t[i].key != t[j].key {
      var e, f := t[i], t[j];
      if e == f {
        assert t == t[..i] + [e] + t[i + 1..j] + [e] + t[j + 1..];
        assert multiset(t)[e] >= 2;
        OnlyOnce(s, e);
      } else {
        assert e in multiset(t) && f in multiset(t) && e in multiset(s) && f in multiset(s);
        var x :| 0 <= x < |s| && s[x] == e;
        var y :| 0 <= y < |s| && s[y] == f;
      }
    }
  }

  lemma {:induction false} OnlyOnce<V>(s: Items<V>, e: Entry<Id, V>)
    requires IdsDistinct(s)
    ensures multiset(s)[e] <= 1
  {
    if |s| > 0 {
      assert s == [s[0]] + s[1..];
      OnlyOnce(s[1..], e);
      if s[0] == e {
        assert e !in s[1..];
      }
    }
  }

  /** The hot entries after room has been made for one more, and what the warm ones get then. */
  ghost function Cooled<V>(hot: Items<V>, capacity: nat): Items<V>
    requires capacity > 0
  {
    if |hot| >= capacity then hot[1..] else hot
  }

  ghost function Demoted<V>(hot: Items<V>, capacity: nat): Items<V>
    requires capacity > 0
  {
    if |hot| >= capacity then [hot[0]] else []
  }

  /**
   What a lookup does: a hot entry moves to the end; otherwise a warm one does, to the end of the
   hot ones on promotion.
   */
  ghost function HotAfterGet<V>(hot: Items<V>, warm: Items<V>, capacity: nat, id: Id, promotion: bool): Items<V>
    requires capacity > 0
  {
    if Has(hot, id) then Moved(hot, IndexOf(hot, id), MoveLast)
    else if !promotion then hot
    else Cooled(hot, capacity) + if Has(warm, id) then [warm[IndexOf(warm, id)]] else []
  }

  ghost function WarmAfterGet<V>(hot: Items<V>, warm: Items<V>, capacity: nat, id: Id, promotion: bool): Items<V>
    requires capacity > 0
  {
    if Has(hot, id) then warm
    else if !promotion then AfterGet(warm, id, MoveLast)
    else AfterRemove(warm, id) + Demoted(hot, capacity)
  }

  lemma WithoutBag<T>(s: seq<T>, i: nat)
    requires i < |s|
    ensures multiset(Without(s, i)) + multiset{s[i]} == multiset(s)
  {
    assert s == s[..i] + [s[i]] + s[i + 1..];
  }

  /** A lookup loses no entry and makes no second one of it. */
  lemma GetKeepsAll<V>(hot: Items<V>, warm: Items<V>, capacity: nat, id: Id, promotion: bool)
    requires capacity > 0
    ensures multiset(HotAfterGet(hot, warm, capacity, id, promotion) + WarmAfterGet(hot, warm, capacity, id, promotion))
         == multiset(hot + warm)
    ensures |hot| <= capacity ==> |HotAfterGet(hot, warm, capacity, id, promotion)| <= capacity
  {
    if Has(hot, id) {
      MovedBag(hot, IndexOf(hot, id));
    } else if !promotion {
      if Has(warm, id) { MovedBag(warm, IndexOf(warm, id)); }
    } else {
      CooledBag(hot, capacity);
      PromotionKeepsAll(hot, warm, Cooled(hot, capacity), Demoted(hot, capacity), id);
    }
  }

  lemma PromotionKeepsAll<V>(hot: Items<V>, warm: Items<V>, cooled: Items<V>, demoted: Items<V>, id: Id)
    requires multiset(cooled) + multiset(demoted) == multiset(hot)
    ensures multiset((cooled + if Has(warm, id) then [warm[IndexOf(warm, id)]]
                      else []) + (AfterRemove(warm, id) + demoted))
         == multiset(hot + warm)
  {
    if Has(warm, id) {
      WithoutBag(warm, IndexOf(warm, id));
      RaisedBag(hot, warm, cooled, demoted, warm[IndexOf(warm, id)], Without(warm, IndexOf(warm, id)));
    } else {
      assert cooled + [] == cooled;
    }
  }

  /** Where everything is after a lookup, with and without promotion. */
  lemma GetOrders<V>(hot: Items<V>, warm: Items<V>, capacity: nat, id: Id, promotion: bool)
    requires capacity > 0
    ensures var hot', warm' := HotAfterGet(hot, warm, capacity, id, promotion),
    WarmAfterGet(hot, warm, capacity, id, promotion);
            var i, j := IndexOf(hot, id), IndexOf(warm, id);
            var full := |hot| >= capacity;
            && (i < |hot| ==> hot' == hot[..i] + hot[i + 1..] + [hot[i]] && warm' == warm)
            && (i == |hot| && !promotion ==>
                  hot' == hot && warm' == if j < |warm| then warm[..j] + warm[j + 1..] + [warm[j]] else warm)
            && (i == |hot| && promotion && j < |warm| ==>
                  && hot' == (if full then hot[1..] else hot) + [warm[j]]
                  && warm' == warm[..j] + warm[j + 1..] + (if full then [hot[0]] else []))
            && (i == |hot| && promotion && j == |warm| ==>
                  hot' == (if full then hot[1..] else hot) && warm' == warm + (if full then [hot[0]] else []))
  {
  }

  /** What is found is the most recent entry of the hot ones, or without promotion of its own map. */
  lemma FoundIsLast<V>(hot: Items<V>, warm: Items<V>, capacity: nat, id: Id, promotion: bool, found: Option<V>)
    requires capacity > 0 && found == Lookup(hot + warm, id) && found.Some?
    ensures var hot' := HotAfterGet(hot, warm, capacity, id, promotion);
            promotion || IndexOf(hot, id) < |hot| ==> |hot'| > 0 && hot'[|hot'| - 1] == Entry(id, found.value)
    ensures var warm' := WarmAfterGet(hot, warm, capacity, id, promotion);
            !promotion && IndexOf(hot, id) == |hot| ==> |warm'| > 0 && warm'[|warm'| - 1] == Entry(id, found.value)
  {
    LookupConcat(hot, warm, id);
    GetOrders(hot, warm, capacity, id, promotion);
  }

  lemma GetIsRight<V>(hot0: Items<V>, warm0: Items<V>, capacity: nat, id: Id, promotion: bool, found: Option<V>,
                      hot: Items<V>, warm: Items<V>)
    requires capacity > 0 && |hot0| <= capacity && found == Lookup(hot0 + warm0, id)
    requires hot == HotAfterGet(hot0, warm0, capacity, id, promotion)
    requires warm == WarmAfterGet(hot0, warm0, capacity, id, promotion) && IdsDistinct(hot + warm)
    ensures found.Some? && (promotion || IndexOf(hot0, id) < |hot0|) ==>
              |hot| > 0 && hot[|hot| - 1] == Entry(id, found.value)
    ensures found.Some? && !promotion && IndexOf(hot0, id) == |hot0| ==>
              |warm| > 0 && warm[|warm| - 1] == Entry(id, found.value)
    ensures |hot| <= capacity && multiset(hot + warm) == multiset(hot0 + warm0)
    ensures var all := hot + warm; forall i, j :: 0 <= i < j < |all| ==> all[i].key != all[j].key
  {
    if found.Some? { FoundIsLast(hot0, warm0, capacity, id, promotion, found); }
    GetKeepsAll(hot0, warm0, capacity, id, promotion);
  }

  lemma CooledBag<V>(hot: Items<V>, capacity: nat)
    requires capacity > 0
    ensures multiset(Cooled(hot, capacity)) + multiset(Demoted(hot, capacity)) == multiset(hot)
  {
    if |hot| >= capacity { assert hot == [hot[0]] + hot[1..]; }
  }

  lemma RaisedBag<T>(hot: seq<T>, warm: seq<T>, cooled: seq<T>, demoted: seq<T>, e: T, rest: seq<T>)
    requires multiset(cooled) + multiset(demoted) == multiset(hot) && multiset(rest) + multiset{e} == multiset(warm)
    ensures multiset((cooled + [e]) + (rest + demoted)) == multiset(hot + warm)
  {
  }

  lemma MovedBag<T>(s: seq<T>, i: nat)
    requires i < |s|
    ensures multiset(Moved(s, i, MoveLast)) == multiset(s) && |Moved(s, i, MoveLast)| == |s|
  {
    WithoutBag(s, i);
  }

  class DoubleLRUCache<V> {
    const hotCapacity: nat
    const warmCapacity: nat
    const mem: Memory<Id, V>
    const hot: LinkedHashMap<Id, V>
    const warm: LinkedHashMap<Id, V>

    /** Two maps in one memory, with records of their own. */
    ghost predicate Stored()
      reads this, mem, hot, warm
    {
      && hot != warm && hot.mem == mem && warm.mem == mem && hotCapacity > 0
      && hot.Valid() && warm.Valid() && Apart(hot.list, warm.list) && |hot.Items()| <= hotCapacity
    }

    /** And with ids of their own. */
    ghost predicate Valid()
      reads this, mem, hot, warm
    {
      Stored() && IdsDistinct(hot.Items() + warm.Items())
    }

    constructor (hotCapacity: nat, warmCapacity: nat, hash: Id -> nat)
      requires hotCapacity > 0
      ensures Valid() && hot.Items() == [] && warm.Items() == []
      ensures this.hotCapacity == hotCapacity && fresh(mem) && fresh(hot) && fresh(warm)
    {
      this.hotCapacity, this.warmCapacity := hotCapacity, warmCapacity;
      var m := new Memory<Id, V>();
      mem := m;
      hot := new LinkedHashMap<Id, V>(m, hash, hotCapacity * 2 + 1);
      warm := new LinkedHashMap<Id, V>(m, hash, warmCapacity * 2 + 1);
    }

    /** A value is added to the warm entries unless its id is there already. */
    method Add(id: Id, value: V) returns (kept: V)
      requires Valid()
      modifies hot, warm, mem
      ensures Valid() && hot.Items() == old(hot.Items())
      ensures warm.Items() == if Has(old(hot.Items()), id) then old(warm.Items())
              else AfterSet(old(warm.Items()), id, value, false, MoveLast)
      ensures Some(kept) == Lookup(hot.Items() + warm.Items(), id)
    {
      var there := GetBeside(hot, id, MoveCurrent, warm);
      if there.Some? {
        LookupConcat(hot.Items(), warm.Items(), id);
        return there.value;
      }
      ghost var hot0, warm0 := hot.Items(), warm.Items();
      kept := SetBeside(warm, id, value, false, MoveLast, hot);
      LookupConcat(hot.Items(), warm.Items(), id);
      DistinctWith(hot0, warm0, id, value);
    }

    /**
     A value taken out before is given back: it becomes the last warm one, unless its id is warm
     already. The ids stay distinct if and only if this one is not hot.
     */
    method GiveBack(id: Id, value: V)
      requires Valid()
      modifies hot, warm, mem
      ensures Stored() && hot.Items() == old(hot.Items())
      ensures warm.Items() == AfterSet(old(warm.Items()), id, value, false, MoveLast)
      ensures Valid() <==> !Has(old(hot.Items()), id)
    {
      ghost var hot0, warm0 := hot.Items(), warm.Items();
      var _ := SetBeside(warm, id, value, false, MoveLast, hot);
      DistinctJust(hot0, warm0, id, value);
    }

    /** A lookup, which makes its entry the most recent of the hot or, without promotion, of its own map. */
    method Get(id: Id, promotion: bool) returns (found: Option<V>)
      requires Valid()
      modifies hot, warm, mem
      ensures Valid()
      ensures hot.Items() == HotAfterGet(old(hot.Items()), old(warm.Items()), hotCapacity, id, promotion)
      ensures warm.Items() == WarmAfterGet(old(hot.Items()), old(warm.Items()), hotCapacity, id, promotion)
      ensures found == Lookup(old(hot.Items()) + old(warm.Items()), id)
      ensures found.Some? && (promotion || IndexOf(old(hot.Items()), id) < |old(hot.Items())|) ==>
                |hot.Items()| > 0 && hot.Items()[|hot.Items()| - 1] == Entry(id, found.value)
      ensures found.Some? && !promotion && IndexOf(old(hot.Items()), id) == |old(hot.Items())| ==>
                |warm.Items()| > 0 && warm.Items()[|warm.Items()| - 1] == Entry(id, found.value)
      ensures |hot.Items()| <= hotCapacity
      ensures var all := hot.Items() + warm.Items(); forall i, j :: 0 <= i < j < |all| ==> all[i].key != all[j].key
      ensures multiset(hot.Items() + warm.Items()) == multiset(old(hot.Items()) + old(warm.Items()))
    {
      ghost var hot0, warm0 := hot.Items(), warm.Items();
      found := LookUp(id, promotion);
      GetIsRight(hot0, warm0, hotCapacity, id, promotion, found, hot.Items(), warm.Items());
    }

    /** Hot entries are looked through first. */
    method LookUp(id: Id, promotion: bool) returns (found: Option<V>)
      requires Valid()
      modifies hot, warm, mem
      ensures Valid()
      ensures hot.Items() == HotAfterGet(old(hot.Items()), old(warm.Items()), hotCapacity, id, promotion)
      ensures warm.Items() == WarmAfterGet(old(hot.Items()), old(warm.Items()), hotCapacity, id, promotion)
      ensures found == Lookup(old(hot.Items()) + old(warm.Items()), id)
    {
      ghost var hot0, warm0 := hot.Items(), warm.Items();
      LookupConcat(hot0, warm0, id);
      GetKeepsAll(hot0, warm0, hotCapacity, id, promotion);
      found := GetBeside(hot, id, MoveLast, warm);
      if found.Some? {
        DistinctStill(hot0 + warm0, hot.Items() + warm.Items());
        return;
      }
      assert hot.Items() == hot0 && warm.Items() == warm0;
      if promotion {
        found := Promote(id);
      } else {
        found := GetBeside(warm, id, MoveLast, hot);
        DistinctStill(hot0 + warm0, hot.Items() + warm.Items());
      }
    }

    /** Room is made among the hot entries, and a warm one with the id gets it. */
    method Promote(id: Id) returns (found: Option<V>)
      requires Valid() && !Has(hot.Items(), id)
      modifies hot, warm, mem
      ensures Valid()
      ensures hot.Items() == HotAfterGet(old(hot.Items()), old(warm.Items()), hotCapacity, id, true)
      ensures warm.Items() == WarmAfterGet(old(hot.Items()), old(warm.Items()), hotCapacity, id, true)
      ensures found == Lookup(old(warm.Items()), id)
    {
      ghost var hot0, warm0 := hot.Items(), warm.Items();
      if hot.numRecords >= hotCapacity {
        Demote();
      }
      found := Raise(id);
      PromotionIs(hot0, warm0, hotCapacity, id);
    }

    /** The least recently used hot entry goes to the end of the warm ones. */
    method Demote()
      requires Valid() && hot.numRecords > 0
      modifies hot, warm, mem
      ensures Valid() && hot.Items() == old(hot.Items())[1..]
              && warm.Items() == old(warm.Items()) + [old(hot.Items())[0]]
    {
      var front, _ := Front(hot);
      DemotedIs(hot.Items(), warm.Items(), front);
      var _ := MigrateBeside(hot, front, warm, MoveLast);
    }

    method Raise(id: Id) returns (found: Option<V>)
      requires Valid() && !Has(hot.Items(), id) && |hot.Items()| < hotCapacity
      modifies hot, warm, mem
      ensures Valid() && warm.Items() == AfterRemove(old(warm.Items()), id)
      ensures hot.Items() == old(hot.Items()) +
                if Has(old(warm.Items()), id) then [old(warm.Items())[IndexOf(old(warm.Items()), id)]] else []
      ensures found == Lookup(old(warm.Items()), id)
    {
      RaisedIs(hot.Items(), warm.Items(), id);
      found := MigrateBeside(warm, id, hot, MoveLast);
    }

    method Remove(id: Id)
      requires Valid()
      modifies hot, warm, mem
      ensures Valid()
      ensures hot.Items() == AfterRemove(old(hot.Items()), id) && warm.Items() == AfterRemove(old(warm.Items()), id)
    {
      RemovedIs(hot.Items(), warm.Items(), id);
      var removed := RemoveBeside(hot, id, warm);
      if !removed {
        removed := RemoveBeside(warm, id, hot);
      }
    }

    /** The least recently used entry is taken out: the first warm one, or the first hot one if none is warm. */
    method RemoveLRU() returns (res: Option<Entry<Id, V>>)
      requires Valid()
      modifies hot, warm, mem
      ensures Valid()
      ensures warm.Items() == if |old(warm.Items())| > 0 then old(warm.Items())[1..] else []
      ensures hot.Items() == if |old(warm.Items())| > 0 || |old(hot.Items())| == 0
                              then old(hot.Items()) else old(hot.Items())[1..]
      ensures res == if |old(warm.Items())| > 0 then Some(old(warm.Items())[0])
                     else if |old(hot.Items())| > 0 then Some(old(hot.Items())[0]) else None
    {
      res := None;
      if warm.numRecords > 0 {
        var id, value := Front(warm);
        FrontTaken(hot.Items(), warm.Items(), id, false);
        var _ := RemoveBeside(warm, id, hot);
        res := Some(Entry(id, value));
      } else if hot.numRecords > 0 {
        var id, value := Front(hot);
        FrontTaken(hot.Items(), warm.Items(), id, true);
        var _ := RemoveBeside(hot, id, warm);
        res := Some(Entry(id, value));
      }
    }
  }

  /** Migration to the hot entries, as far as the entries go. */
  lemma RaisedIs<V>(hot: Items<V>, warm: Items<V>, id: Id)
    requires IdsDistinct(hot + warm) && !Has(hot, id)
    ensures var rest := AfterRemove(warm, id);
            if Has(warm, id) then
              var e := warm[IndexOf(warm, id)];
              AfterArrival(hot, e, MoveLast) == hot + [e] && IdsDistinct(hot + [e] + rest)
            else hot + [] == hot && IdsDistinct(hot + rest)
  {
    if Has(warm, id) {
      var i := IndexOf(warm, id);
      WithoutBag(warm, i);
      DistinctStill(hot + warm, hot + [warm[i]] + Without(warm, i));
    } else {
      assert hot + [] == hot;
    }
  }

  lemma RemovedIs<V>(hot: Items<V>, warm: Items<V>, id: Id)
    requires IdsDistinct(hot + warm)
    ensures Has(hot, id) ==> AfterRemove(warm, id) == warm
    ensures IdsDistinct(AfterRemove(hot, id) + AfterRemove(warm, id))
  {
    if Has(hot, id) {
      AbsentBeyond(hot, warm, id);
      WithoutBag(hot, IndexOf(hot, id));
    }
    if Has(warm, id) { WithoutBag(warm, IndexOf(warm, id)); }
    DistinctStill(hot + warm, AfterRemove(hot, id) + AfterRemove(warm, id));
  }

  lemma DemotedIs<V>(hot: Items<V>, warm: Items<V>, front: Id)
    requires IdsDistinct(hot + warm) && |hot| > 0 && front == hot[0].key
    ensures Has(hot, front) && IndexOf(hot, front) == 0 && AfterRemove(hot, front) == hot[1..]
    ensures AfterArrival(warm, hot[0], MoveLast) == warm + [hot[0]] && IdsDistinct(hot[1..] + (warm + [hot[0]]))
  {
    AbsentBeyond(hot, warm, front);
    assert hot == [hot[0]] + hot[1..];
    DistinctStill(hot + warm, hot[1..] + (warm + [hot[0]]));
  }

  lemma FrontTaken<V>(hot: Items<V>, warm: Items<V>, id: Id, fromHot: bool)
    requires IdsDistinct(hot + warm)
    requires if fromHot then |hot| > 0 && id == hot[0].key else |warm| > 0 && id == warm[0].key
    ensures fromHot ==> AfterRemove(hot, id) == hot[1..] && IdsDistinct(hot[1..] + warm)
    ensures !fromHot ==> AfterRemove(warm, id) == warm[1..] && IdsDistinct(hot + warm[1..])
  {
    if fromHot {
      assert hot == [hot[0]] + hot[1..];
      DistinctStill(hot + warm, hot[1..] + warm);
    } else {
      assert warm == [warm[0]] + warm[1..];
      DistinctStill(hot + warm, hot + warm[1..]);
    }
  }

  lemma LookupConcat<V>(hot: Items<V>, warm: Items<V>, id: Id)
    ensures Lookup(hot + warm, id) == if Has(hot, id) then Lookup(hot, id) else Lookup(warm, id)
  {
    if Has(hot, id) {
      FirstIndex(hot + warm, id, IndexOf(hot, id));
    } else if Has(warm, id) {
      FirstIndex(hot + warm, id, |hot| + IndexOf(warm, id));
    } else {
      var i := IndexOf(hot + warm, id);
      forall j | 0 <= j < |hot + warm| ensures (hot + warm)[j].key != id {
        assert (hot + warm)[j] == if j < |hot| then hot[j] else warm[j - |hot|];
      }
    }
  }

  /** An id that is hot is not warm too. */
  lemma AbsentBeyond<V>(hot: Items<V>, warm: Items<V>, id: Id)
    requires IdsDistinct(hot + warm) && Has(hot, id)
    ensures !Has(warm, id)
  {
    var i := IndexOf(hot, id);
    forall j | 0 <= j < |warm| ensures warm[j].key != id {
      assert (hot + warm)[i] == hot[i] && (hot + warm)[|hot| + j] == warm[j];
    }
  }

  /** A new id among the warm entries is one more. */
  lemma DistinctWith<V>(hot: Items<V>, warm: Items<V>, id: Id, value: V)
    requires IdsDistinct(hot + warm) && !Has(hot, id)
    ensures IdsDistinct(hot + AfterSet(warm, id, value, false, MoveLast))
  {
    if !Has(warm, id) {
      var all := hot + (warm + [Entry(id, value)]);
      forall i, j | 0 <= i < j < |all| ensures all[i].key != all[j].key {
        assert i < |hot + warm| ==> all[i] == (hot + warm)[i];
        assert j < |hot + warm| ==> all[j] == (hot + warm)[j];
      }
    }
  }

  lemma DistinctJust<V>(hot: Items<V>, warm: Items<V>, id: Id, value: V)
    requires IdsDistinct(hot + warm)
    ensures IdsDistinct(hot + AfterSet(warm, id, value, false, MoveLast)) <==> !Has(hot, id)
  {
    if Has(hot, id) {
      var after := AfterSet(warm, id, value, false, MoveLast);
      var i := IndexOf(hot, id);
      var j := if Has(warm, id) then IndexOf(warm, id) else |warm|;
      assert (hot + after)[i].key == id && (hot + after)[|hot| + j].key == id;
    } else {
      DistinctWith(hot, warm, id, value);
    }
  }

  lemma FirstIndex<V>(s: Items<V>, id: Id, i: nat)
    requires i < |s| && s[i].key == id && forall j :: 0 <= j < i ==> s[j].key != id
    ensures IndexOf(s, id) == i
  {
  }

  /** Demotion and promotion together are what a lookup with promotion does. */
  lemma PromotionIs<V>(hot: Items<V>, warm: Items<V>, capacity: nat, id: Id)
    requires capacity > 0 && !Has(hot, id)
    ensures var warm1 := warm + Demoted(hot, capacity);
            && Has(warm1, id) == Has(warm, id)
            && (Has(warm, id) ==>
                  IndexOf(warm1, id) == IndexOf(warm, id) && warm1[IndexOf(warm1, id)] == warm[IndexOf(warm, id)])
            && AfterRemove(warm1, id) == AfterRemove(warm, id) + Demoted(hot, capacity)
  {
    var warm1 := warm + Demoted(hot, capacity);
    if Has(warm, id) {
      FirstIndex(warm1, id, IndexOf(warm, id));
    } else {
      var i := IndexOf(warm1, id);
      if |hot| >= capacity {
        var j := IndexOf(hot, id);
        assert hot[0].key != id;
      }
      assert i == |warm1|;
    }
  }

  /** Operations on one of two maps in a memory leave the other one as it is. */
  method GetBeside<V>(lru: LinkedHashMap<Id, V>, id: Id, mode: MoveMode, ghost other: LinkedHashMap<Id, V>)
    returns (found: Option<V>)
    requires lru.Valid() && other.Valid() && lru != other && lru.mem == other.mem && Apart(lru.list, other.list)
    modifies lru`first, lru`last, lru`list, lru.mem`prev, lru.mem`next
    ensures lru.Valid() && other.Valid() && Apart(lru.list, other.list)
    ensures lru.Items() == AfterGet(old(lru.Items()), id, mode) && other.Items() == old(other.Items())
    ensures found == Lookup(old(lru.Items()), id)
  {
    ghost var list0, prev0, next0 := lru.list, lru.mem.prev, lru.mem.next;
    ghost var m := lru.mem;
    var rec := lru.Get(id, mode);
    SparedKeeps(other.list, other.chains, other.buckets, other.first, other.last, other.hash, list0,
                m.key, m.value, m.child, prev0, next0, m.key, m.value, m.child, m.prev, m.next);
    found := if rec != 0 then Some(lru.mem.value[rec]) else None;
  }

  method SetBeside<V>(lru: LinkedHashMap<Id, V>, id: Id, value: V, overwrite: bool, mode: MoveMode,
                      ghost other: LinkedHashMap<Id, V>)
    returns (kept: V)
    requires lru.Valid() && other.Valid() && lru != other && lru.mem == other.mem && Apart(lru.list, other.list)
    modifies lru`first, lru`last, lru`list, lru`buckets, lru`chains, lru`numRecords, lru.mem
    ensures lru.Valid() && other.Valid() && Apart(lru.list, other.list)
    ensures lru.Items() == AfterSet(old(lru.Items()), id, value, overwrite, mode) && other.Items() == old(other.Items())
    ensures Lookup(lru.Items(), id) == Some(kept)
  {
    ghost var m := lru.mem;
    ghost var list0, key0, value0, child0, prev0, next0 := lru.list, m.key, m.value, m.child, m.prev, m.next;
    var rec := lru.Set(id, value, overwrite, mode);
    SparedKeeps(other.list, other.chains, other.buckets, other.first, other.last, other.hash, list0,
                key0, value0, child0, prev0, next0, m.key, m.value, m.child, m.prev, m.next);
    kept := lru.mem.value[rec];
    ghost var i :| 0 <= i < |lru.list| && lru.list[i] == rec;
    lru.EntryAt(i, id);
  }

  method RemoveBeside<V>(lru: LinkedHashMap<Id, V>, id: Id, ghost other: LinkedHashMap<Id, V>) returns (removed: bool)
    requires lru.Valid() && other.Valid() && lru != other && lru.mem == other.mem && Apart(lru.list, other.list)
    modifies lru`first, lru`last, lru`list, lru`buckets, lru`chains, lru`numRecords, lru.mem
    ensures lru.Valid() && other.Valid() && Apart(lru.list, other.list)
    ensures lru.Items() == AfterRemove(old(lru.Items()), id) && other.Items() == old(other.Items())
    ensures removed == Has(old(lru.Items()), id)
  {
    ghost var m := lru.mem;
    ghost var list0, key0, value0, child0, prev0, next0 := lru.list, m.key, m.value, m.child, m.prev, m.next;
    removed := lru.Remove(id);
    SparedKeeps(other.list, other.chains, other.buckets, other.first, other.last, other.hash, list0,
                key0, value0, child0, prev0, next0, m.key, m.value, m.child, m.prev, m.next);
  }

  /** The first entry of a map that is not empty, as its `first` pointer finds it. */
  method Front<V>(lru: LinkedHashMap<Id, V>) returns (id: Id, value: V)
    requires lru.Valid() && lru.numRecords > 0
    ensures Entry(id, value) == lru.Items()[0] && IndexOf(lru.Items(), id) == 0
  {
    lru.LastNotNull();
    id, value := lru.mem.key[lru.first], lru.mem.value[lru.first];
    lru.EntryAt(0, id);
  }

  method MigrateBeside<V>(source: LinkedHashMap<Id, V>, id: Id, dest: LinkedHashMap<Id, V>, mode: MoveMode)
    returns (found: Option<V>)
    requires source.Valid() && dest.Valid() && source != dest && source.mem == dest.mem && Apart(source.list, dest.list)
    modifies source, dest, source.mem
    ensures source.Valid() && dest.Valid() && Apart(source.list, dest.list)
    ensures source.Items() == AfterRemove(old(source.Items()), id)
    ensures dest.Items() == if Has(old(source.Items()), id)
                            then AfterArrival(old(dest.Items()),
                                              old(source.Items())[IndexOf(old(source.Items()), id)], mode)
                            else old(dest.Items())
    ensures found == Lookup(old(source.Items()), id)
  {
    ghost var source0 := source.Items();
    var rec := source.Migrate(id, dest, mode);
    found := if rec != 0 then Some(dest.mem.value[rec]) else None;
  }
}
