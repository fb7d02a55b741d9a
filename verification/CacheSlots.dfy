/**
 A slot of the on-memory cache database: records in hash chains and in the order of use, of which the
 least recently used one goes when there are too many or they take too much memory.
 */
module CacheSlots {
  import opened Basics
  import opened LinkedRecords
  import opened LinkedHash
  import opened Processing

  type Key = string

  type Value = string

  type Items = seq<Entry<Key, Value>>

  const BUCKET_FOOTPRINT := 8
  const RECORD_FOOTPRINT := 8 * 3 + 1 * 2
  const ALLOC_FOOTPRINT := 8

  ghost function BytesTo(s: Items, n: nat): nat
    requires n <= |s|
  {
    if n == 0 then 0 else BytesTo(s, n - 1) + |s[n - 1].key| + |s[n - 1].value|
  }

  ghost function BytesOf(s: Items): nat {
    BytesTo(s, |s|)
  }

  function MemoryUsage(numBuckets: int, numRecords: int, effDataSize: int): int {
    numBuckets * BUCKET_FOOTPRINT + numRecords * (RECORD_FOOTPRINT + ALLOC_FOOTPRINT) + effDataSize
  }

  lemma {:induction false} BytesToPrefix(s: Items, t: Items, n: nat)
    requires n <= |s| && n <= |t| && forall i :: 0 <= i < n ==> s[i] == t[i]
    ensures BytesTo(s, n) == BytesTo(t, n)
  {
    if n > 0 { BytesToPrefix(s, t, n - 1); }
  }

  lemma BytesOfAppend(s: Items, e: Entry<Key, Value>)
    ensures BytesOf(s + [e]) == BytesOf(s) + |e.key| + |e.value|
  {
    BytesToPrefix(s + [e], s, |s|);
  }

  lemma BytesOfPrefix(s: Items, n: nat)
    requires n <= |s|
    ensures BytesOf(s[..n]) == BytesTo(s, n) && |s[..n]| == n
  {
    BytesToPrefix(s[..n], s, n);
  }

  lemma {:induction false} BytesToWithout(s: Items, t: Items, i: nat, n: nat)
    requires i < n <= |s| && t == Without(s, i)
    ensures BytesTo(t, n - 1) == BytesTo(s, n) - |s[i].key| - |s[i].value|
  {
    if n - 1 == i {
      BytesToPrefix(s, t, i);
    } else {
      BytesToWithout(s, t, i, n - 1);
      assert t[n - 2] == s[n - 1];
    }
  }

  lemma BytesOfWithout(s: Items, i: nat)
    requires i < |s|
    ensures BytesOf(Without(s, i)) == BytesOf(s) - |s[i].key| - |s[i].value|
  {
    BytesToWithout(s, Without(s, i), i, |s|);
  }

  /** One record too many, or too much memory, and the first record goes. */
  ghost function Evicted(s: Items, capRecNum: int, capMemSize: int, numBuckets: int): Items {
    if |s| > 0 && (|s| > capRecNum || MemoryUsage(numBuckets, |s|, BytesOf(s)) > capMemSize) then s[1..] else s
  }

  /** A call with a processor, as a change of the sequence of records in the order of use. */
  ghost function AfterProcess(s: Items, key: Key, proc: Processor<Key, Value>, writable: bool,
                              capRecNum: int, capMemSize: int, numBuckets: int): Items
  {
    if Has(s, key) then
      var i := IndexOf(s, key);
      var action := if writable then proc.full(key, s[i].value) else Noop;
      match action
      case Noop => Without(s, i) + [s[i]]
      case Remove => Without(s, i)
      case Set(v) => Without(s, i) + [Entry(key, v)]
    else
      var action := if writable then proc.empty(key) else Noop;
      if action.Set? then Evicted(s + [Entry(key, action.value)], capRecNum, capMemSize, numBuckets) else s
  }

  /** The last entry is removed, or gets a new value. */
  ghost function Answered(s: Items, key: Key, action: Action<Value>): Items
    requires |s| > 0
  {
    var e := |s| - 1;
    match action
    case Noop => s
    case Remove => Without(s, e)
    case Set(v) => s[e := Entry(key, v)]
  }

  lemma AnsweredIs(s: Items, e: nat, key: Key, value: Value, action: Action<Value>)
    requires |s| > 0 && e == |s| - 1 && s[e] == Entry(key, value)
    ensures action == Noop ==> Answered(s, key, action) == s
    ensures action == Remove ==> Answered(s, key, action) == Without(s, e)
                                 && BytesOf(Without(s, e)) == BytesOf(s) - (|key| + |value|)
    ensures action.Set? ==> Answered(s, key, action) == s[e := Entry(key, action.value)]
                            && BytesOf(s[e := Entry(key, action.value)]) == BytesOf(s) + (|action.value| - |value|)
    ensures |Answered(s, key, action)| <= |s|
  {
    BytesOfWithout(s, e);
    if action.Set? {
      var t := s[e := Entry(key, action.value)];
      BytesOfWithout(t, e);
      assert Without(t, e) == Without(s, e);
    }
  }

  lemma MovedSize(s: Items, i: nat)
    requires i < |s|
    ensures BytesOf(Moved(s, i, MoveLast)) == BytesOf(s) && |Moved(s, i, MoveLast)| == |s|
  {
    BytesOfWithout(s, i);
    BytesOfAppend(Without(s, i), s[i]);
  }

  /** Moved to the end and answered there, an entry is where the specification has it. */
  lemma HitIs(s: Items, key: Key, proc: Processor<Key, Value>, writable: bool, capRecNum: int, capMemSize: int,
              numBuckets: int)
    requires Has(s, key)
    ensures var i := IndexOf(s, key);
            var action := if writable then proc.full(key, s[i].value) else Noop;
            AfterProcess(s, key, proc, writable, capRecNum, capMemSize, numBuckets)
                == Answered(Moved(s, i, MoveLast), key, action)
  {
    var i := IndexOf(s, key);
    assert Without(Without(s, i) + [s[i]], |s| - 1) == Without(s, i);
  }

  ghost function Found(s: Items, key: Key): Option<Value> {
    if Has(s, key) then Some(s[IndexOf(s, key)].value) else None
  }

  /** What a call does, place by place and by the sizes before and after. */
  lemma AfterProcessIs(s: Items, key: Key, proc: Processor<Key, Value>, writable: bool,
                       capRecNum: int, capMemSize: int, numBuckets: int, t: Items, told: Option<Value>)
    requires t == AfterProcess(s, key, proc, writable, capRecNum, capMemSize, numBuckets) && told == Found(s, key)
    ensures told.Some? ==>
              var i := IndexOf(s, key);
              && i < |s| && s[i] == Entry(key, told.value)
              && t == s[..i] + s[i + 1..] + match if writable then proc.full(key, told.value) else Noop
                                            case Noop => [s[i]]
                                            case Remove => []
                                            case Set(v) => [Entry(key, v)]
    ensures told.None? ==>
              && (forall i :: 0 <= i < |s| ==> s[i].key != key)
              && match if writable then proc.empty(key) else Noop
                 case Set(v) =>
                   var all := s + [Entry(key, v)];
                   t == if |all| > capRecNum || numBuckets * 8 + |all| * 34 + BytesOf(all) > capMemSize then all[1..]
                       else all
                 case _ => t == s
  {
    if Has(s, key) {
      var i := IndexOf(s, key);
      assert Without(s, i) + [] == Without(s, i);
    }
  }

  /** Whether one record more may be kept behind the first `n`. */
  ghost predicate MayKeep(s: Items, n: nat, capRecNum: int, capMemSize: int, numBuckets: int)
    requires n <= |s|
  {
    n < |s| && n < capRecNum && MemoryUsage(numBuckets, n, BytesTo(s, n)) < capMemSize
  }

  /** How many records are kept, when the first `n` are. */
  ghost function KeptFrom(s: Items, n: nat, capRecNum: int, capMemSize: int, numBuckets: int): (k: nat)
    requires n <= |s|
    ensures n <= k <= |s| && !MayKeep(s, k, capRecNum, capMemSize, numBuckets)
    ensures forall j :: n <= j < k ==> MayKeep(s, j, capRecNum, capMemSize, numBuckets)
    decreases |s| - n
  {
    if MayKeep(s, n, capRecNum, capMemSize, numBuckets) then KeptFrom(s, n + 1, capRecNum, capMemSize, numBuckets)
        else n
  }

  /** How many that is, by the limits. */
  lemma KeptFromIs(s: Items, capRecNum: int, capMemSize: int, numBuckets: int, kept: nat)
    requires kept == KeptFrom(s, 0, capRecNum, capMemSize, numBuckets)
    ensures kept <= |s| && forall n :: 0 <= n < kept ==>
              n < capRecNum && numBuckets * 8 + n * 34 + BytesTo(s, n) < capMemSize
    ensures kept < |s| ==> kept >= capRecNum || numBuckets * 8 + kept * 34 + BytesTo(s, kept) >= capMemSize
  {
    forall n | 0 <= n < kept
      ensures n < capRecNum && numBuckets * 8 + n * 34 + BytesTo(s, n) < capMemSize
    {
      assert MayKeep(s, n, capRecNum, capMemSize, numBuckets);
    }
  }

  /** The fields of the first `n` records of a list, and of those from the m-th on, are as they were. */
  ghost predicate Intact<X>(list: seq<Addr>, n: nat, m: nat, field: map<Addr, X>, field': map<Addr, X>) {
    forall i :: 0 <= i < |list| && (i < n || i >= m) && list[i] in field ==>
        list[i] in field' && field'[list[i]] == field[list[i]]
  }

  lemma KeptEntries(list: seq<Addr>, n: nat, key: map<Addr, Key>, value: map<Addr, Value>,
                    key': map<Addr, Key>, value': map<Addr, Value>)
    requires n <= |list| && Alive(list, key, value)
    requires Intact(list, n, |list|, key, key') && Intact(list, n, |list|, value, value')
    ensures Alive(list[..n], key', value') && Entries(list[..n], key', value') == Entries(list, key, value)[..n]
    ensures forall a :: a in list[..n] ==> a in key' && a in value'
  {
  }

  class CacheSlot {
    const records: LinkedHashMap<Key, Value>
    var capRecNum: nat
    var capMemSize: int
    var effDataSize: int

    ghost predicate Valid()
      reads this, records, records.mem
    {
      Counted() && |records.Items()| <= capRecNum
    }

    ghost predicate Counted()
      reads this, records, records.mem
    {
      records.Valid() && effDataSize == BytesOf(records.Items())
    }

    constructor (hash: Key -> nat, capRecNum: nat, capMemSize: int, numBuckets: nat)
      requires numBuckets > 0
      ensures Valid() && records.Items() == [] && this.capRecNum == capRecNum && this.capMemSize == capMemSize
      ensures fresh(records) && fresh(records.mem) && |records.buckets| == numBuckets
    {
      var mem := new Memory<Key, Value>();
      records := new LinkedHashMap<Key, Value>(mem, hash, numBuckets);
      this.capRecNum, this.capMemSize, effDataSize := capRecNum, capMemSize, 0;
    }

    /** A value is overwritten in place, or the record moves to new memory because it does not fit. */
    method Rewrite(rec: Addr, parent: Addr, b: nat, ghost i: nat, ghost j: nat, value: Value, moves: bool)
      requires records.Valid() && i < |records.list| && b < |records.chains| && j < |records.chains[b]|
      requires records.list[i] == rec == records.chains[b][j] && parent == At(records.chains[b], j - 1)
      modifies records, records.mem
      ensures records.Valid() && |records.buckets| == |old(records.buckets)|
      ensures records.Items() == old(records.Items())[i := Entry(old(records.mem.key[rec]), value)]
    {
      if moves {
        var mem := records.mem;
        var moved := mem.Allocate();
        ghost var list, key0, value0 := records.list, mem.key, mem.value;
        var key1, value1 := mem.key[moved := mem.key[rec]], mem.value[moved := value];
        SparedKeeps(list, records.chains, records.buckets, records.first, records.last, records.hash, [moved],
                    key0, value0, mem.child, mem.prev, mem.next, key1, value1, mem.child, mem.prev, mem.next);
        mem.key, mem.value := key1, value1;
        records.RelieveAndDelete(rec, moved, parent, b, i, j);
      } else {
        records.Overwrite(rec, i, value);
      }
    }

    /** A record found becomes the last one in the order of use, and gets the processor's answer. */
    method Hit(rec: Addr, parent: Addr, b: nat, ghost j: nat, key: Key, proc: Processor<Key, Value>, writable: bool,
               moves: bool)
      returns (told: Value)
      requires Valid() && rec in records.list && records.mem.key[rec] == key
      requires b < |records.chains| && j < |records.chains[b]| && records.chains[b][j] == rec
      requires parent == At(records.chains[b], j - 1)
      modifies this`effDataSize, records, records.mem
      ensures Valid() && |records.buckets| == |old(records.buckets)|
      ensures Some(told) == Found(old(records.Items()), key)
      ensures records.Items() == AfterProcess(old(records.Items()), key, proc, writable, capRecNum, capMemSize,
                                              |records.buckets|)
    {
      ghost var i :| 0 <= i < |records.list| && records.list[i] == rec;
      records.EntryAt(i, key);
      told := records.mem.value[rec];
      var action := if writable then proc.full(key, told) else Noop;
      HitIs(records.Items(), key, proc, writable, capRecNum, capMemSize, |records.buckets|);
      UseAndAnswer(rec, parent, b, i, j, key, told, action, moves, Moved(records.Items(), i, MoveLast));
    }

    method UseAndAnswer(rec: Addr, parent: Addr, b: nat, ghost i: nat, ghost j: nat, key: Key, value: Value,
                        action: Action<Value>, moves: bool, ghost used: Items)
      requires Valid() && i < |records.list| && used == Moved(records.Items(), i, MoveLast) && b < |records.chains|
               && j < |records.chains[b]|
      requires records.list[i] == rec == records.chains[b][j] && parent == At(records.chains[b], j - 1)
      requires records.mem.key[rec] == key && records.mem.value[rec] == value
      modifies this`effDataSize, records, records.mem
      ensures Valid() && |records.buckets| == |old(records.buckets)|
      ensures |used| > 0 && records.Items() == Answered(used, key, action)
    {
      MovedSize(records.Items(), i);
      records.Use(rec, i, MoveLast);
      Answer(rec, parent, b, j, key, value, action, moves);
    }

    /** The last record in the order of use gets the processor's answer. */
    method Answer(rec: Addr, parent: Addr, b: nat, ghost j: nat, key: Key, value: Value, action: Action<Value>,
                  moves: bool)
      requires Valid() && |records.list| > 0 && b < |records.chains| && j < |records.chains[b]|
      requires records.last == rec == records.chains[b][j] && parent == At(records.chains[b], j - 1)
      requires records.mem.key[rec] == key && records.mem.value[rec] == value
      modifies this`effDataSize, records, records.mem
      ensures Valid() && |records.buckets| == |old(records.buckets)|
      ensures records.Items() == Answered(old(records.Items()), key, action)
    {
      ghost var e := |records.list| - 1;
      records.EntryAt(e, key);
      AnsweredIs(records.Items(), e, key, value, action);
      if action == Remove {
        records.Erase(rec, parent, b, e, j);
        effDataSize := effDataSize - (|key| + |value|);
      } else if action.Set? {
        Rewrite(rec, parent, b, e, j, action.value, moves);
        effDataSize := effDataSize + (|action.value| - |value|);
      }
    }

    /** A key not found gets a record at the end of the order of use; if that is too much the first one goes. */
    method Miss(b: nat, key: Key, proc: Processor<Key, Value>, writable: bool)
      requires Valid() && b == Slot(records.hash(key), |records.buckets|)
      requires forall a :: a in records.list ==> records.mem.key[a] != key
      modifies this`effDataSize, records, records.mem
      ensures Valid() && |records.buckets| == |old(records.buckets)|
      ensures records.Items() == AfterProcess(old(records.Items()), key, proc, writable, capRecNum, capMemSize,
                                              |records.buckets|)
      ensures !Has(old(records.Items()), key)
    {
      records.NoEntry(key);
      var action := if writable then proc.empty(key) else Noop;
      if action.Set? {
        Append(b, key, action.value);
        Evict();
      }
    }

    /** One record goes if there are too many of them or they take too much memory. */
    method Evict()
      requires Counted() && |records.Items()| <= capRecNum + 1
      modifies this`effDataSize, records, records.mem
      ensures Valid() && |records.buckets| == |old(records.buckets)|
      ensures records.Items() == Evicted(old(records.Items()), capRecNum, capMemSize, |records.buckets|)
    {
      if records.numRecords > 0 &&
         (records.numRecords > capRecNum
          || MemoryUsage(|records.buckets|, records.numRecords, effDataSize) > capMemSize)
      {
        RemoveLRU();
      }
    }

    method Append(b: nat, key: Key, value: Value)
      requires Counted() && b == Slot(records.hash(key), |records.buckets|)
      requires forall a :: a in records.list ==> records.mem.key[a] != key
      modifies this`effDataSize, records, records.mem
      ensures Counted() && |records.buckets| == |old(records.buckets)|
      ensures records.Items() == old(records.Items()) + [Entry(key, value)]
    {
      BytesOfAppend(records.Items(), Entry(key, value));
      var _ := records.Insert(b, key, value, MoveLast);
      records.numRecords := records.numRecords + 1;
      effDataSize := effDataSize + (|key| + |value|);
    }

    /** A call with a processor, which is told the value of the key. */
    method ProcessImpl(key: Key, proc: Processor<Key, Value>, writable: bool, moves: bool) returns (told: Option<Value>)
      requires Valid()
      modifies this`effDataSize, records, records.mem
      ensures Valid() && |records.buckets| == |old(records.buckets)|
      ensures |records.Items()| <= capRecNum && records.numRecords == |records.Items()|
      ensures effDataSize == BytesOf(records.Items())
      ensures told == Found(old(records.Items()), key)
      ensures records.Items() == AfterProcess(old(records.Items()), key, proc, writable, capRecNum, capMemSize,
                                              |records.buckets|)
      ensures told.Some? ==>
                var i := IndexOf(old(records.Items()), key);
                && i < |old(records.Items())| && old(records.Items())[i] == Entry(key, told.value)
                && records.Items() == old(records.Items())[..i] + old(records.Items())[i + 1..] + match if writable
                   then proc.full(key, told.value) else Noop
                                              case Noop => [old(records.Items())[i]]
                                              case Remove => []
                                              case Set(v) => [Entry(key, v)]
      ensures told.None? ==>
                && (forall i :: 0 <= i < |old(records.Items())| ==> old(records.Items())[i].key != key)
                && match if writable then proc.empty(key) else Noop
                   case Set(v) =>
                     var all := old(records.Items()) + [Entry(key, v)];
                     records.Items() == if |all| > capRecNum || |records.buckets| * 8 + |all| * 34
                         + BytesOf(all) > capMemSize then all[1..] else all
                   case _ => records.Items() == old(records.Items())
    {
      ghost var s, cap, mem := records.Items(), capRecNum, capMemSize;
      told := ProcessRecord(key, proc, writable, moves);
      AfterProcessIs(s, key, proc, writable, cap, mem, |records.buckets|, records.Items(), told);
    }

    /** The chain of the key is searched, and a record found is used and answered, or a new one made. */
    method ProcessRecord(key: Key, proc: Processor<Key, Value>, writable: bool, moves: bool)
      returns (told: Option<Value>)
      requires Valid()
      modifies this`effDataSize, records, records.mem
      ensures Valid() && |records.buckets| == |old(records.buckets)|
      ensures told == Found(old(records.Items()), key)
      ensures records.Items() == AfterProcess(old(records.Items()), key, proc, writable, capRecNum, capMemSize,
                                              |records.buckets|)
    {
      var rec, parent, b; ghost var j;
      rec, parent, b, j := records.Find(key);
      told := None;
      if rec != 0 {
        var value := Hit(rec, parent, b, j, key, proc, writable, moves);
        told := Some(value);
      } else {
        Miss(b, key, proc, writable);
      }
    }

    /** A record is kept: it is put into its new chain and counted. */
    method KeepOne(ptr: Addr, ghost s: Items, ghost n: nat, ghost m: nat, ghost key: map<Addr, Key>,
                   ghost value: map<Addr, Value>)
      requires n < |records.list| && m == n + 1 && ptr == records.list[n] && ptr != 0 && |s| == |records.list|
      requires Distinct(records.list) && KeysDistinct(records.list, key) && Alive(records.list, key, value)
      requires s == Entries(records.list, key, value)
      requires Intact(records.list, n, n, key, records.mem.key) && Intact(records.list, n, n, value, records.mem.value)
      requires |records.buckets| > 0 && ChainsOK(records.chains, records.buckets, records.mem.child)
      requires Indexed(records.list[..n], records.chains, records.mem.key, records.hash)
      requires records.numRecords == n && effDataSize == BytesTo(s, n)
      modifies this`effDataSize, records`buckets, records`chains, records`numRecords, records`last, records.mem`child
      ensures records.numRecords == m && effDataSize == BytesTo(s, m) && records.last == ptr
      ensures |records.buckets| == |old(records.buckets)|
              && ChainsOK(records.chains, records.buckets, records.mem.child)
      ensures Indexed(records.list[..m], records.chains, records.mem.key, records.hash)
    {
      ghost var list := records.list;
      forall a | a in list ensures a in records.mem.key && a in key && records.mem.key[a] == key[a] {
        var i :| 0 <= i < |list| && list[i] == a;
      }
      records.TakeUp(ptr, n, m);
      effDataSize := effDataSize + (|records.mem.key[ptr]| + |records.mem.value[ptr]|);
      records.numRecords := records.numRecords + 1;
      records.last := ptr;
    }

    /** A record is deleted; the ones kept and the ones to come stay as they are. */
    method FreeOne(ptr: Addr, ghost list: seq<Addr>, ghost n: nat, ghost m: nat, ghost k: nat,
                   ghost key: map<Addr, Key>,
                   ghost value: map<Addr, Value>, ghost prev: Links, ghost next: Links)
      requires n <= m < |list| && k == m + 1 && ptr == list[m] && Distinct(list)
      requires Intact(list, n, m, key, records.mem.key) && Intact(list, n, m, value, records.mem.value)
      requires Intact(list, n, m, prev, records.mem.prev) && Intact(list, n, m, next, records.mem.next)
      requires ChainsOK(records.chains, records.buckets, records.mem.child)
      requires Indexed(list[..n], records.chains, records.mem.key, records.hash)
      modifies records.mem
      ensures Intact(list, n, k, key, records.mem.key) && Intact(list, n, k, value, records.mem.value)
      ensures Intact(list, n, k, prev, records.mem.prev) && Intact(list, n, k, next, records.mem.next)
      ensures ChainsOK(records.chains, records.buckets, records.mem.child)
      ensures Indexed(list[..n], records.chains, records.mem.key, records.hash)
    {
      var mem := records.mem;
      forall a | a in list[..n] ensures a != ptr { }
      IndexSpared(list[..n], records.chains, records.buckets, mem.child, mem.key, records.hash, mem.child - {ptr},
                  mem.key - {ptr});
      mem.key, mem.value := mem.key - {ptr}, mem.value - {ptr};
      mem.child, mem.prev, mem.next := mem.child - {ptr}, mem.prev - {ptr}, mem.next - {ptr};
    }

    /**
     For new limits the records are gone through from the least recently used one on and kept as long
     as the limits allow; the others are deleted.
     */
    method Rebuild(capRecNum: nat, capMemSize: int, numBuckets: nat)
      requires Valid() && numBuckets > 0
      modifies this, records, records.mem
      ensures Valid() && this.capRecNum == capRecNum && this.capMemSize == capMemSize && |records.buckets| == numBuckets
      ensures KeptFrom(old(records.Items()), 0, capRecNum, capMemSize, numBuckets) <= |old(records.Items())|
      ensures records.Items() == old(records.Items())[..KeptFrom(old(records.Items()), 0, capRecNum, capMemSize,
                                                                 numBuckets)]
      ensures forall n :: 0 <= n < |records.Items()| ==>
                n < capRecNum && numBuckets * 8 + n * 34 + BytesTo(old(records.Items()), n) < capMemSize
      ensures var n := |records.Items()|;
              n < |old(records.Items())| ==>
                n >= capRecNum || numBuckets * 8 + n * 34 + BytesTo(old(records.Items()), n) >= capMemSize
    {
      ghost var s, list, mem := records.Items(), records.list, records.mem;
      ghost var key, value, prev, next, first, last := mem.key, mem.value, mem.prev, mem.next, records.first,
          records.last;
      this.capRecNum, this.capMemSize := capRecNum, capMemSize;
      records.buckets, records.chains := seq(numBuckets, i => 0), seq(numBuckets, i => []);
      records.numRecords, effDataSize, records.last := 0, 0, 0;
      var ptr := records.first;
      ghost var n, m := 0, 0;
      forall i | 0 <= i < |list| ensures list[i] != 0 { assert list[i] in list; }
      assert list[..0] == [];
      while ptr != 0
        invariant 0 <= n <= m <= |list| && ptr == At(list, m) && (m < |list| ==> ptr != 0)
        invariant Rebuilding(s, list, n, m, key, value, prev, next, first, last)
        invariant |records.buckets| == numBuckets && this.capRecNum == capRecNum && this.capMemSize == capMemSize
        decreases |list| - m
      {
        ptr, n, m := RebuildOne(ptr, s, list, n, m, m + 1, key, value, prev, next, first, last);
      }
      CutOff(s, list, n, m, key, value, prev, next, first, last);
      KeptFromIs(s, capRecNum, capMemSize, numBuckets, |records.Items()|);
    }

    /** The rebuild has gone through `m` records and kept `n`: all of them, unless the limits were reached before. */
    ghost predicate Rebuilding(s: Items, list: seq<Addr>, n: nat, m: nat, key: map<Addr, Key>, value: map<Addr, Value>,
                               prev: Links, next: Links, first: Addr, last: Addr)
      reads this, records, records.mem
    {
      && n <= m <= |list| && Linked(list, prev, next, first, last) && KeysDistinct(list, key)
      && Alive(list, key, value) && s == Entries(list, key, value) && 0 !in list
      && records.list == list && records.first == first && records.last == At(list, n - 1)
      && records.numRecords == n <= capRecNum && effDataSize == BytesTo(s, n)
      && (n < m ==> !MayKeep(s, n, capRecNum, capMemSize, |records.buckets|))
      && KeptFrom(s, 0, capRecNum, capMemSize, |records.buckets|)
         == KeptFrom(s, n, capRecNum, capMemSize, |records.buckets|)
      && Intact(list, n, m, key, records.mem.key) && Intact(list, n, m, value, records.mem.value)
      && Intact(list, n, m, prev, records.mem.prev) && Intact(list, n, m, next, records.mem.next)
      && ChainsOK(records.chains, records.buckets, records.mem.child)
      && Indexed(list[..n], records.chains, records.mem.key, records.hash)
    }

    method RebuildOne(ptr: Addr, ghost s: Items, ghost list: seq<Addr>, ghost n: nat, ghost m: nat, ghost k: nat,
                      ghost key: map<Addr, Key>, ghost value: map<Addr, Value>, ghost prev: Links, ghost next: Links,
                      ghost first: Addr, ghost last: Addr)
      returns (following: Addr, ghost n': nat, ghost m': nat)
      requires Rebuilding(s, list, n, m, key, value, prev, next, first, last) && m < |list| && k == m + 1
               && ptr == list[m]
      modifies this`effDataSize, records`buckets, records`chains, records`numRecords, records`last, records.mem
      ensures Rebuilding(s, list, n', m', key, value, prev, next, first, last) && m' == k
      ensures following == At(list, m') && (m' < |list| ==> following != 0)
              && |records.buckets| == |old(records.buckets)|
    {
      assert Place(list, prev, next, m);
      following := records.mem.next[ptr];
      m' := k;
      if records.numRecords < capRecNum
         && MemoryUsage(|records.buckets|, records.numRecords, effDataSize) < capMemSize {
        assert n == m;
        KeepOne(ptr, s, n, k, key, value);
        n' := k;
      } else {
        FreeOne(ptr, list, n, m, k, key, value, prev, next);
        n' := n;
      }
    }

    /** Behind the last record kept the list ends. */
    method CutOff(ghost s: Items, ghost list: seq<Addr>, ghost n: nat, ghost m: nat, ghost key: map<Addr, Key>,
                  ghost value: map<Addr, Value>, ghost prev: Links, ghost next: Links, ghost first: Addr,
                  ghost last: Addr)
      requires Rebuilding(s, list, n, m, key, value, prev, next, first, last) && m == |list|
      modifies records`first, records`list, records.mem`next
      ensures Valid() && KeptFrom(s, 0, capRecNum, capMemSize, |records.buckets|) == n <= |s|
              && records.Items() == s[..n]
    {
      if records.last == 0 {
        records.first := 0;
      } else {
        records.mem.next := records.mem.next[records.last := 0];
      }
      records.list := list[..n];
      Truncated(list, prev, next, first, last, n, records.mem.prev, records.mem.next, records.first, records.last);
      KeptEntries(list, n, key, value, records.mem.key, records.mem.value);
      BytesOfPrefix(s, n);
    }

    /** The record at the front of the order of use is found in its bucket's chain, by its address, and deleted. */
    method RemoveLRU()
      requires Counted() && records.numRecords > 0
      modifies this`effDataSize, records, records.mem
      ensures Counted() && records.Items() == old(records.Items())[1..]
      ensures |records.buckets| == |old(records.buckets)|
    {
      var front := records.first;
      records.LastNotNull();
      var key, value := records.mem.key[front], records.mem.value[front];
      records.EntryAt(0, key);
      BytesOfWithout(records.Items(), 0);
      assert Without(records.Items(), 0) == records.Items()[1..];
      var parent, b; ghost var j;
      parent, b, j := FindFront(front);
      records.Erase(front, parent, b, 0, j);
      effDataSize := effDataSize - (|key| + |value|);
    }

    /** The way along the chain to the front record: it is always there. */
    method FindFront(front: Addr) returns (parent: Addr, b: nat, ghost j: nat)
      requires records.Valid() && |records.list| > 0 && front == records.first
      ensures b < |records.chains| && j < |records.chains[b]| && records.chains[b][j] == front
              && parent == At(records.chains[b], j - 1)
    {
      b := Slot(records.hash(records.mem.key[front]), |records.buckets|);
      var ptr := records.buckets[b];
      parent, j := 0, 0;
      ghost var c := records.chains[b];
      assert Chained(c, records.mem.child, records.buckets[b]);
      assert InChain(records.chains, records.mem.key, records.hash, front);
      ghost var at :| 0 <= at < |c| && c[at] == front;
      forall i | 0 <= i < |c| ensures c[i] != 0 { assert Hop(c, records.mem.child, i); }
      while ptr != 0
        invariant 0 <= j <= at && ptr == c[j] && parent == At(c, j - 1)
        decreases at - j
      {
        if ptr == front {
          return;
        }
        assert Hop(c, records.mem.child, j);
        parent, ptr, j := ptr, records.mem.child[ptr], j + 1;
      }
      assert false;
    }
  }
}
