/**
 The hash database object: a file of records reached through chains hanging off a bucket array,
 updated in place with a pool of free blocks, or by appending records that shadow older ones.
 */
module HashDatabase {
  import opened Basics
  import opened HashFormat
  import opened HashStore
  import opened HashUpdate
  import opened FreeBlocks
  import opened Processing

  /** Every pooled block is one void record, and covers it exactly. */
  ghost predicate PoolOK(blocks: set<FreeBlock>, records: Records) {
    forall b :: b in blocks ==> b.offset > 0 && b.offset in records
                                && records[b.offset].op == OpVoid && records[b.offset].size == b.size
  }

  /** Relinking one live record and voiding another leaves the free blocks as they were. */
  lemma PoolUntouched(blocks: set<FreeBlock>, records: Records, parent: Offset, child: Offset, current: Offset,
                      v: HashRecord)
    requires PoolOK(blocks, records) && current in records && records[current].op != OpVoid
    requires parent > 0 ==> parent in records && records[parent].op != OpVoid
    ensures PoolOK(blocks, Relinked(records, parent, child)[current := v])
  {
  }

  /** A processor that must not read values gets an empty one instead. */
  function Shown(proc: Processor<Key, Value>, readable: bool): Processor<Key, Value> {
    if readable then proc else Processor((k, v) => proc.full(k, ""), proc.empty)
  }

  /** One processing step on the log: nothing happens, or one record is appended that tells the change of the map. */
  ghost predicate Logged(order: seq<Offset>, records: Records, end: Offset, live: map<Key, Value>,
                         order': seq<Offset>, records': Records, end': Offset, live': map<Key, Value>)
  {
    || (order' == order && records' == records && end' == end && live' == live)
    || (&& order' == order + [end] && end !in records && end in records' && records' == records[end := records'[end]]
        && end' == end + records'[end].size && live' == Applied(live, records'[end]))
  }

  ghost predicate Counted(numRecords: int, effDataSize: int, live: map<Key, Value>) {
    numRecords == |live| && effDataSize == DataSize(live)
  }

  class HashDBMImpl {
    const f: Format
    const hash: Key -> nat
    const recordBase: Offset
    const fbp: FreeBlockPool
    var records: Records
    var fileSize: Offset
    var buckets: seq<Offset>
    var inPlace: bool
    var numRecords: int
    var effDataSize: int
    ghost var order: seq<Offset>
    ghost var chains: seq<seq<Offset>>
    ghost var live: map<Key, Value>

    /** The file, its index and the stored map agree, and the pool holds free blocks only. */
    ghost predicate Stored()
      reads this, fbp
    {
      && Consistent(f, recordBase, order, records, fileSize, buckets, chains, hash, live, inPlace)
      && fbp.Valid()
      && (inPlace ==> PoolOK(fbp.Blocks(), records))
    }

    ghost predicate Valid()
      reads this, fbp
    {
      Stored() && Counted(numRecords, effDataSize, live)
    }

    constructor (f: Format, hash: Key -> nat, recordBase: Offset, numBuckets: nat, fbpCapacity: nat, inPlace: bool)
      requires f.align >= 1 && recordBase > 0 && numBuckets > 0 && fbpCapacity > 0
      ensures Valid() && live == map[] && order == [] && this.inPlace == inPlace && fresh(fbp)
      ensures this.f == f && this.recordBase == recordBase && fileSize == recordBase
    {
      this.f, this.hash, this.recordBase := f, hash, recordBase;
      fbp := new FreeBlockPool(fbpCapacity);
      records, fileSize := map[], recordBase;
      buckets := seq(numBuckets, i => 0);
      this.inPlace, numRecords, effDataSize := inPlace, 0, 0;
      order, chains, live := [], seq(numBuckets, i => []), map[];
      new;
      forall k ensures Agree(order, records, chains, hash, live, k) { }
    }

    /** The search for `key` in bucket `b` has come to the record at `current`, the i-th of the chain. */
    ghost predicate At(b: nat, i: nat, key: Key, current: Offset, parent: Offset)
      reads this
    {
      && b < |chains| && i < |chains[b]| && chains[b][i] == current && current in records && records[current].key == key
      && parent == Parent(chains[b], i) && (i > 0 ==> parent > 0 && parent in records)
      && forall j :: 0 <= j < i ==> chains[b][j] in records && records[chains[b][j]].key != key
    }

    /** What the record found in the chain has to do with the map. */
    lemma FoundInChain(b: nat, i: nat, key: Key, current: Offset, parent: Offset)
      requires Stored() && At(b, i, key, current, parent)
      ensures Slot(hash(key), |buckets|) == b && Told(records, current) == Get(live, key)
      ensures records[current].op != OpVoid && records[current].size > 0 && Fits(records[current], f)
      ensures inPlace ==> records[current].op == OpSet || records[current].op == OpAdd
      ensures records[current].child == Link(chains[b][i + 1..]) && buckets[b] == Link(chains[b]) && current > 0
      ensures parent > 0 ==> records[parent].op != OpVoid && parent != current
      ensures ChainLinked(chains[b], records, Link(chains[b])) && (inPlace ==> KeysDistinct(chains[b], records))
    {
      var c := chains[b];
      assert ChainOK(c, records, buckets[b], hash, |buckets|, b) && LinkOK(c, records, i);
      forall j | 0 <= j < |c| ensures c[j] in records && records[c[j]].op != OpVoid { assert LinkOK(c, records, j); }
      FirstAt(c, records, key, i);
      assert Agree(order, records, chains, hash, live, key);
      OffsetsPositive(order, records, recordBase, fileSize, f);
      assert inPlace ==> Reached(current, records, chains, hash);
    }

    /** A void record of the section becomes a free block. */
    method Release(current: Offset, size: int)
      requires Stored() && current > 0 && current in records
      requires records[current].op == OpVoid && records[current].size == size
      modifies fbp
      ensures Stored()
    {
      fbp.InsertFreeBlock(current, size);
    }

    /** The record is taken out of its chain and becomes a free block. */
    method EraseInPlace(b: nat, ghost i: nat, key: Key, current: Offset, parent: Offset)
      requires Stored() && inPlace && At(b, i, key, current, parent)
      modifies this`records, this`buckets, this`chains, this`live, fbp
      ensures Stored() && live == old(live - {key})
    {
      FoundInChain(b, i, key, current, parent);
      ghost var records0, c := records, chains[b];
      var child, size := records[current].child, records[current].size;
      if parent > 0 {
        records := Relinked(records, parent, child);
      } else {
        buckets := buckets[b := child];
      }
      records := records[current := VoidRecord(f, size)];
      EraseKeeps(f, recordBase, order, records0, fileSize, old(buckets), chains, hash, live, b, i, records);
      chains := chains[b := SpliceOf(c, i, [])];
      live := live - {key};
      assert buckets == old(buckets)[b := Link(chains[b])];
      PoolUntouched(fbp.Blocks(), records0, parent, child, current, VoidRecord(f, size));
      Release(current, size);
    }

    /** The record is overwritten by one of the same size. */
    method RewriteInPlace(b: nat, ghost i: nat, key: Key, current: Offset, ghost parent: Offset, rec: HashRecord)
      requires Stored() && inPlace && At(b, i, key, current, parent)
      requires rec.key == key && rec.size == records[current].size && rec.child == records[current].child
      requires Fits(rec, f) && (rec.op == OpSet || rec.op == OpAdd)
      modifies this`records, this`live
      ensures Stored() && live == old(live)[key := rec.value]
    {
      FoundInChain(b, i, key, current, parent);
      ghost var records0, c := records, chains[b];
      RewrittenSplice(order, records, recordBase, fileSize, f, c, i, rec);
      records := records[current := rec];
      SpliceKeeps(f, recordBase, order, records0, fileSize, buckets, chains, hash, live,
                  b, i, [current], order, records, fileSize);
      assert buckets[b := Link(c)] == buckets && chains[b := c] == chains;
      live := live[key := rec.value];
    }

    /** A record is written: in place over the best fitting free block if there is one, else at the end of the file. */
    method WriteRecord(op: OperationType, key: Key, value: Value, child: Offset) returns (p: Offset)
      requires f.align >= 1 && Tiled(order, records, recordBase, fileSize, f)
      requires fbp.Valid() && (inPlace ==> PoolOK(fbp.Blocks(), records)) && op != OpVoid
      modifies this`records, this`fileSize, this`order, fbp
      ensures p in records && records == old(records)[p := records[p]]
      ensures var r := records[p]; r.op == op && r.key == key && r.value == value && r.child == child && Fits(r, f)
      ensures Placed(old(order), old(records), old(fileSize), p, records[p], order, fileSize)
      ensures fbp.Valid() && (inPlace ==> PoolOK(fbp.Blocks(), records))
      ensures !inPlace ==> p == old(fileSize) && order == old(order) + [p] && fileSize == p + records[p].size
      ensures p == old(fileSize) ==> records[p].size == WholeSize(f, |key|, |value|, 0)
    {
      var rec := MakeRecord(f, op, 0, key, value, child);
      OffsetsPositive(order, records, recordBase, fileSize, f);
      if inPlace {
        var fb := fbp.FetchFreeBlock(rec.size);
        if fb.Some? {
          p := fb.value.offset;
          rec := MakeRecord(f, op, fb.value.size, key, value, child);
          assert Fits(old(records)[p], f);
          records := records[p := rec];
          return;
        }
      }
      p := fileSize;
      records := records[p := rec];
      fileSize := fileSize + rec.size;
      order := order + [p];
    }

    /** The value moves to another place, and the record's old place becomes a free block. */
    method MoveInPlace(b: nat, ghost i: nat, key: Key, current: Offset, parent: Offset, op: OperationType, value: Value)
      requires Stored() && inPlace && At(b, i, key, current, parent) && (op == OpSet || op == OpAdd)
      modifies this`records, this`fileSize, this`buckets, this`order, this`chains, this`live, fbp
      ensures Stored() && live == old(live)[key := value]
    {
      FoundInChain(b, i, key, current, parent);
      ghost var records0, order0, end0, c := records, order, fileSize, chains[b];
      var child, size := records[current].child, records[current].size;
      var p := WriteRecord(op, key, value, child);
      ghost var rec := records[p];
      if parent > 0 {
        records := Relinked(records, parent, p);
      } else {
        buckets := buckets[b := p];
      }
      records := records[current := VoidRecord(f, size)];
      MoveKeeps(f, recordBase, order0, records0, end0, old(buckets), chains, hash, live, b, i,
                p, rec, order, fileSize, records);
      chains := chains[b := SpliceOf(c, i, [p])];
      live := live[key := value];
      assert buckets == old(buckets)[b := Link(chains[b])];
      PoolUntouched(fbp.Blocks(), records0[p := rec], parent, p, current, VoidRecord(f, size));
      Release(current, size);
    }

    /** A record is appended in front of the chain, shadowing the older ones of its key. */
    method AppendShadow(b: nat, ghost i: nat, key: Key, current: Offset, parent: Offset, op: OperationType,
                        value: Value)
      requires Stored() && !inPlace && At(b, i, key, current, parent) && op != OpVoid
      modifies this`records, this`fileSize, this`buckets, this`order, this`chains, this`live, fbp
      ensures Stored() && live == if op == OpRemove then old(live) - {key} else old(live)[key := value]
      ensures Logged(old(order), old(records), old(fileSize), old(live), order, records, fileSize, live)
    {
      FoundInChain(b, i, key, current, parent);
      ghost var records0, order0, end0, c := records, order, fileSize, chains[b];
      OffsetsPositive(order, records, recordBase, fileSize, f);
      var newChild := if parent == 0 then records[current].child else buckets[b];
      var p := WriteRecord(op, key, value, newChild);
      buckets := buckets[b := p];
      ghost var rest := if i == 0 then c[1..] else c;
      AppendKeeps(f, recordBase, order0, records0, end0, old(buckets), chains, hash, live, b, records[p], rest);
      chains := chains[b := [p] + rest];
      live := Applied(live, records[p]);
    }

    /** A new key's record is put in front of the chain. */
    method AddRecord(b: nat, key: Key, value: Value)
      requires Stored() && b == Slot(hash(key), |buckets|) && First(chains[b], records, key) == 0
      modifies this`records, this`fileSize, this`buckets, this`order, this`chains, this`live, fbp
      ensures Stored() && live == Acted(old(live), key, Set(value))
      ensures !inPlace ==> Logged(old(order), old(records), old(fileSize), old(live), order, records, fileSize, live)
    {
      ghost var records0, order0, end0, c := records, order, fileSize, chains[b];
      OffsetsPositive(order, records, recordBase, fileSize, f);
      var p := WriteRecord(OpAdd, key, value, buckets[b]);
      buckets := buckets[b := p];
      AddKeeps(f, recordBase, order0, records0, end0, old(buckets), chains, hash, live, inPlace,
               b, p, records[p], order, fileSize);
      chains := chains[b := [p] + c];
      live := live[key := value];
    }

    /** The record found gets the processor's answer, in whichever way the update mode and the sizes ask for. */
    method RewriteFound(b: nat, ghost i: nat, key: Key, current: Offset, parent: Offset, action: Action<Value>)
      requires Stored() && At(b, i, key, current, parent) && action != Noop
      modifies this`records, this`fileSize, this`buckets, this`order, this`chains, this`live, fbp
      ensures Stored() && live == Acted(old(live), key, action)
      ensures !inPlace ==> Logged(old(order), old(records), old(fileSize), old(live), order, records, fileSize, live)
    {
      FoundInChain(b, i, key, current, parent);
      VoidedTiled(order, records, recordBase, fileSize, f, 0, 0, current);
      var oldRec := records[current];
      var oldIsSet := oldRec.op == OpSet || oldRec.op == OpAdd;
      var op := if action == Remove then OpRemove else if oldIsSet then OpSet else OpAdd;
      var value := if action.Set? then action.value else "";
      var newRecSize := 0;
      if inPlace {
        newRecSize := if action == Remove then VoidRecord(f, oldRec.size).size
                      else WholeSize(f, |key|, |value|, oldRec.size);
      }
      if newRecSize == oldRec.size {
        if action == Remove {
          EraseInPlace(b, i, key, current, parent);
        } else {
          RewriteInPlace(b, i, key, current, parent, MakeRecord(f, op, oldRec.size, key, value, oldRec.child));
        }
      } else if inPlace {
        MoveInPlace(b, i, key, current, parent, op, value);
      } else {
        AppendShadow(b, i, key, current, parent, op, value);
      }
    }

    /** Where the search for a key ended: at its first record, or at the end of a chain without one. */
    ghost predicate Ended(b: nat, i: nat, key: Key, current: Offset, parent: Offset)
      requires Stored()
      reads this, fbp
    {
      && b == Slot(hash(key), |buckets|)
      && if current > 0 then At(b, i, key, current, parent) else First(chains[b], records, key) == 0 && key !in live
    }

    method RewriteRecord(b: nat, ghost i: nat, key: Key, current: Offset, parent: Offset, action: Action<Value>)
      requires Stored() && Ended(b, i, key, current, parent) && action != Noop && (current > 0 || action.Set?)
      modifies this`records, this`fileSize, this`buckets, this`order, this`chains, this`live, fbp
      ensures Stored() && live == Acted(old(live), key, action)
      ensures !inPlace ==> Logged(old(order), old(records), old(fileSize), old(live), order, records, fileSize, live)
    {
      if current > 0 {
        RewriteFound(b, i, key, current, parent, action);
      } else {
        AddRecord(b, key, action.value);
      }
    }

    /** The record is written and the counts follow. */
    method UpdateRecord(b: nat, ghost i: nat, key: Key, current: Offset, parent: Offset, action: Action<Value>)
      requires Valid() && Ended(b, i, key, current, parent) && action != Noop && (current > 0 || action.Set?)
      modifies this`records, this`fileSize, this`buckets, this`order, this`chains, this`live, fbp
      modifies this`numRecords, this`effDataSize
      ensures Valid() && live == Acted(old(live), key, action)
      ensures !inPlace ==> Logged(old(order), old(records), old(fileSize), old(live), order, records, fileSize, live)
    {
      var countChange, sizeChange := WhatChanges(b, i, key, current, parent, action);
      RewriteRecord(b, i, key, current, parent, action);
      Count(countChange, sizeChange, old(live), key, action);
    }

    method WhatChanges(b: nat, ghost i: nat, key: Key, current: Offset, ghost parent: Offset, action: Action<Value>)
      returns (countChange: int, sizeChange: int)
      requires Stored() && Ended(b, i, key, current, parent) && action != Noop && (current > 0 || action.Set?)
      ensures countChange == CountChange(live, key, action) && sizeChange == SizeChange(live, key, action)
    {
      countChange, sizeChange := 0, 0;
      if current > 0 {
        FoundInChain(b, i, key, current, parent);
        var rec := records[current];
        var oldIsSet := rec.op == OpSet || rec.op == OpAdd;
        if action == Remove {
          if oldIsSet {
            countChange, sizeChange := -1, -(|key| + |rec.value|);
          }
        } else if oldIsSet {
          sizeChange := |action.value| - |rec.value|;
        } else {
          countChange, sizeChange := 1, |key| + |action.value|;
        }
      } else {
        countChange, sizeChange := 1, |key| + |action.value|;
      }
    }

    method Count(countChange: int, sizeChange: int, ghost before: map<Key, Value>, ghost key: Key,
                 ghost action: Action<Value>)
      requires Stored() && live == Acted(before, key, action)
      requires Counted(numRecords, effDataSize, before)
      requires countChange == CountChange(before, key, action) && sizeChange == SizeChange(before, key, action)
      modifies this`numRecords, this`effDataSize
      ensures Valid()
    {
      Account(before, key, action);
      numRecords, effDataSize := numRecords + countChange, effDataSize + sizeChange;
    }

    /** Every block in the pool is exactly one void record, and no live one is in it. */
    lemma PoolIs()
      requires Valid() && inPlace
      ensures forall b :: b in fbp.Blocks() ==>
                b.offset in records && records[b.offset].op == OpVoid && records[b.offset].size == b.size
      ensures forall b, o :: b in fbp.Blocks() && o in records && records[o].op != OpVoid ==>
                b.offset + b.size <= o || o + records[o].size <= b.offset
    {
      forall b, o | b in fbp.Blocks() && o in records && records[o].op != OpVoid
        ensures b.offset + b.size <= o || o + records[o].size <= b.offset
      {
        RecordsDisjoint(order, records, recordBase, fileSize, f, b.offset, o);
      }
    }

    /** A chain begins at its bucket's offset, and its records are there. */
    lemma ChainThere(b: nat)
      requires Stored() && b < |chains|
      ensures |chains| == |buckets| && ChainOK(chains[b], records, buckets[b], hash, |buckets|, b)
      ensures 0 !in records && forall j :: 0 <= j < |chains[b]| ==> chains[b][j] in records && chains[b][j] > 0
    {
      var c := chains[b];
      assert ChainOK(c, records, buckets[b], hash, |buckets|, b);
      OffsetsPositive(order, records, recordBase, fileSize, f);
      forall j | 0 <= j < |c| ensures c[j] in records && c[j] > 0 { assert LinkOK(c, records, j); }
    }

    /** The chain is followed to the first record of the key. */
    method Search(key: Key, b: nat) returns (current: Offset, parent: Offset, ghost i: nat)
      requires Stored() && b == Slot(hash(key), |buckets|)
      ensures Ended(b, i, key, current, parent)
    {
      current, parent, i := buckets[b], 0, 0;
      ghost var c := chains[b];
      ChainThere(b);
      assert Agree(order, records, chains, hash, live, key);
      while current > 0
        invariant 0 <= i <= |c| && current == Link(c[i..])
        invariant parent == if i > 0 then c[i - 1] else 0
        invariant forall j :: 0 <= j < i ==> records[c[j]].key != key
        decreases |c| - i
      {
        var rec := records[current];
        if rec.key == key {
          return;
        }
        assert LinkOK(c, records, i);
        parent, current := current, rec.child;
        i := i + 1;
      }
      FirstAt(c, records, key, i);
    }

    /**
     The whole of a call: the chain of the key's bucket is searched, the processor is told what the
     map holds, and its answer becomes the change of the map.
     */
    method ProcessImpl(key: Key, bucketIndex: nat, proc: Processor<Key, Value>, readable: bool, writable: bool)
      returns (told: Option<Value>)
      requires Valid() && bucketIndex == Slot(hash(key), |buckets|)
      modifies this`records, this`fileSize, this`buckets, this`order, this`chains, this`live, fbp
      modifies this`numRecords, this`effDataSize
      ensures Valid()
      ensures told == if key !in old(live) then None else Some(if readable then old(live)[key] else "")
      ensures live == Processed(old(live), key, Shown(proc, readable), writable)
      ensures !writable ==> live == old(live)
      ensures writable && told.Some? ==>
                live == match proc.full(key, told.value)
                            case Noop => old(live)
                            case Remove => old(live) - {key}
                            case Set(v) => old(live)[key := v]
      ensures writable && told.None? ==>
                live == match proc.empty(key)
                            case Set(v) => old(live)[key := v]
                            case _ => old(live)
      ensures !inPlace ==> Logged(old(order), old(records), old(fileSize), old(live), order, records, fileSize, live)
    {
      var current, parent; ghost var i;
      current, parent, i := Search(key, bucketIndex);
      ProcessedActs(live, key, Shown(proc, readable), writable);
      ActedAbsent(live, key);
      told := None;
      if current > 0 {
        FoundInChain(bucketIndex, i, key, current, parent);
        var rec := records[current];
        if rec.op == OpSet || rec.op == OpAdd {
          told := Some(if readable then rec.value else "");
        }
      }
      var action := if told.Some? then proc.full(key, told.value) else proc.empty(key);
      assert action == Answer(live, key, Shown(proc, readable));
      if action != Noop && writable && (current > 0 || action.Set?) {
        UpdateRecord(bucketIndex, i, key, current, parent, action);
      }
    }

    method Process(key: Key, proc: Processor<Key, Value>, readable: bool, writable: bool) returns (told: Option<Value>)
      requires Valid()
      modifies this, fbp
      ensures Valid()
      ensures numRecords == |live| && effDataSize == DataSize(live)
      ensures told == if key !in old(live) then None else Some(if readable then old(live)[key] else "")
      ensures live == Processed(old(live), key, Shown(proc, readable), writable) && inPlace == old(inPlace)
      ensures !writable ==> live == old(live)
      ensures writable && told.Some? ==>
                live == match proc.full(key, told.value)
                            case Noop => old(live)
                            case Remove => old(live) - {key}
                            case Set(v) => old(live)[key := v]
      ensures writable && told.None? ==>
                live == match proc.empty(key)
                            case Set(v) => old(live)[key := v]
                            case _ => old(live)
      ensures !inPlace ==> Logged(old(order), old(records), old(fileSize), old(live), order, records, fileSize, live)
    {
      told := ProcessImpl(key, Slot(hash(key), |buckets|), proc, readable, writable);
    }

    /**
     The keys an iterator collects from a bucket: removed ones are remembered so that older records
     do not revive them.
     */
    method ReadBucketKeys(b: nat) returns (keys: set<Key>)
      requires Valid() && b < |buckets|
      ensures keys == set k | k in live && Slot(hash(k), |buckets|) == b
    {
      keys := {};
      var dead: set<Key> := {};
      var current := buckets[b];
      ghost var i, c := 0, chains[b];
      ChainThere(b);
      while current > 0
        invariant 0 <= i <= |c| && current == Link(c[i..])
        invariant Collected(c, records, i, keys, dead)
        decreases |c| - i
      {
        var rec := records[current];
        assert LinkOK(c, records, i) && c[i] == current;
        ghost var keys0, dead0, m := keys, dead, i + 1;
        if rec.key !in dead {
          if rec.op == OpSet || rec.op == OpAdd {
            keys := keys + {rec.key};
          } else if rec.op == OpRemove {
            dead := dead + {rec.key};
          }
        }
        CollectStep(c, records, i, m, keys0, dead0, keys, dead);
        current, i := rec.child, m;
      }
      forall k ensures k in keys <==> k in live && Slot(hash(k), |buckets|) == b {
        assert Agree(order, records, chains, hash, live, k);
        CollectEnd(c, records, keys, dead, k);
        FirstMember(c, records, k);
        if k in keys { var j :| 0 <= j < |c| && c[j] == First(c, records, k); }
      }
    }
  }
}
