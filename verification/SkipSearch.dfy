/**
 Searching the static skip list by key or by index, through a cache of records.

 The ghost numbers `n` and `next` are those of the records at `until` and at the next offset, and
 `i'`, `n'` theirs after a step: contracts name them, so that what one step ensures is literally
 what the next one requires.
 */
module SkipSearch {
  import opened Basics
  import opened Multiples
  import opened SkipLevels
  import opened StringOrder
  import opened HashFormat
  import opened SkipFile
  import opened SkipRecords

  /** A serialised record. */
  datatype Cached = Cached(offset: Offset, slots: seq<Offset>, key: Key, valueSize: nat, value: Option<Value>)

  /** What is cached is the record of the file at the index it is cached for. */
  ghost predicate Serialised(c: Cached, file: RecordFile, i: nat)
    reads file
  {
    && i < |file.order| && file.order[i] in file.records && c.offset == file.order[i]
    && var r := file.records[c.offset];
       c.slots == r.slots && c.key == r.key && c.valueSize == |r.value| && (c.value.Some? ==> c.value.value == r.value)
  }

  /** Keeps every `cacheUnit`-th record, as it comes by. */
  class SkipRecordCache {
    const cacheUnit: nat
    var records: seq<Option<Cached>>

    ghost predicate Of(file: RecordFile)
      reads this, file
    {
      && cacheUnit > 0
      && forall j :: 0 <= j < |records| && records[j].Some? ==> Serialised(records[j].value, file, Times(cacheUnit, j))
    }

    constructor (step: nat, capacity: nat, numRecords: nat)
      requires step >= 2
      ensures cacheUnit > 0 && |records| > 0 && forall j :: 0 <= j < |records| ==> records[j] == None
    {
      var unit := 1;
      while numRecords / unit > capacity
        invariant unit > 0
        decreases numRecords - unit
      {
        Divided(numRecords, unit);
        TimesIsProduct(unit, step);
        TimesMonotone(unit, 2, step);
        unit := unit * step;
      }
      cacheUnit := unit;
      Divided(numRecords, unit);
      var size := if numRecords / unit > 1 then numRecords / unit else 1;
      records := seq(size, j => None);
    }

    method PrepareRecord(index: nat, record: SkipRecord) returns (ready: bool)
      requires Of(record.file) && record.file.Valid()
      modifies record
      ensures ready ==> record.Holds(index)
    {
      Divided(index, cacheUnit);
      if index % cacheUnit != 0 || index / cacheUnit >= |records| {
        return false;
      }
      var cached := records[index / cacheUnit];
      if cached == None {
        return false;
      }
      var c := cached.value;
      record.offset, record.level, record.index := c.offset, |c.slots|, index;
      record.skipOffsets, record.key, record.valueSize, record.value := c.slots, c.key, c.valueSize, c.value;
      record.wholeSize := HeaderSize(record.file.width, |c.slots|, |c.key|, c.valueSize) + |c.key| + c.valueSize;
      ready := true;
    }

    /** The record is cached unless there is one already. */
    method Add(record: SkipRecord)
      requires Of(record.file) && record.Holds(record.index)
      modifies this
      ensures Of(record.file)
    {
      Divided(record.index, cacheUnit);
      var slot := record.index / cacheUnit;
      if record.index % cacheUnit != 0 || slot >= |records| {
        return;
      }
      if records[slot] == None {
        records := records[slot := Some(Cached(record.offset, record.skipOffsets, record.key, record.valueSize,
                                               record.value))];
      }
    }
  }

  /** A new cache serves any file. */
  lemma NewCacheServes(cache: SkipRecordCache, file: RecordFile)
    requires cache.cacheUnit > 0 && forall j :: 0 <= j < |cache.records| ==> cache.records[j] == None
    ensures cache.Of(file)
  {
  }

  /** The keys of the file do not descend. */
  ghost predicate Sorted(file: RecordFile)
    reads file
  {
    forall i, j :: 0 <= i < j < |file.order| && file.order[i] in file.records && file.order[j] in file.records ==>
      AtMost(file.records[file.order[i]].key, file.records[file.order[j]].key)
  }

  ghost function KeyAt(file: RecordFile, i: nat): Key
    requires i < |file.order|
    reads file
  {
    if file.order[i] in file.records then file.records[file.order[i]].key else ""
  }

  /** Every key before the i-th record is below the one looked for. */
  ghost predicate AllBelow(file: RecordFile, key: Key, i: nat)
    reads file
  {
    i <= |file.order| && forall p :: 0 <= p < i ==> Less(KeyAt(file, p), key)
  }

  /** Every key from the i-th record on is above the one looked for. */
  ghost predicate AllAbove(file: RecordFile, key: Key, i: nat)
    reads file
  {
    i <= |file.order| && forall p :: i <= p < |file.order| ==> Less(key, KeyAt(file, p))
  }

  lemma BelowUpTo(file: RecordFile, key: Key, i: nat)
    requires file.Valid() && Sorted(file) && i < |file.order| && Less(KeyAt(file, i), key)
    ensures AllBelow(file, key, i + 1)
  {
    LaidHas(file.order, file.records, file.base, file.size, file.width, file.step, file.max);
    forall p | 0 <= p < i + 1 ensures Less(KeyAt(file, p), key) {
      LessAtMost(KeyAt(file, p), KeyAt(file, i), key);
    }
  }

  lemma AboveFrom(file: RecordFile, key: Key, i: nat)
    requires file.Valid() && Sorted(file) && i < |file.order| && Less(key, KeyAt(file, i))
    ensures AllAbove(file, key, i)
  {
    LaidHas(file.order, file.records, file.base, file.size, file.width, file.step, file.max);
    forall p | i <= p < |file.order| ensures Less(key, KeyAt(file, p)) {
      LessAtMost(key, KeyAt(file, i), KeyAt(file, p));
    }
  }

  /** What a linear scan finds: the first record whose key is not below the one looked for. */
  ghost predicate ScanFinds(file: RecordFile, key: Key, i: nat)
    reads file
  {
    AllBelow(file, key, i) && (i < |file.order| ==> AtMost(key, KeyAt(file, i)))
  }

  lemma AboveScans(file: RecordFile, key: Key, i: nat)
    requires AllBelow(file, key, i) && AllAbove(file, key, i)
    ensures ScanFinds(file, key, i)
    ensures i < |file.order| ==> key != KeyAt(file, i)
  {
    if i < |file.order| { LessAsymmetric(key, KeyAt(file, i)); }
  }

  /** The record at an index comes from the cache if it is there, else from the file. */
  method Prepare(rec: SkipRecord, cache: SkipRecordCache, offset: Offset, index: nat)
    requires rec.file.Valid() && cache.Of(rec.file) && index < |rec.file.order| && offset == rec.file.order[index]
    modifies rec, cache
    ensures rec.Holds(index) && cache.Of(rec.file)
  {
    var ready := cache.PrepareRecord(index, rec);
    if !ready {
      rec.ReadMetadataKey(offset, index);
      cache.Add(rec);
    }
  }

  /** Where a link leads: to the record a span ahead, if there is one. */
  lemma LinkLeads(rec: SkipRecord, i: nat, level: nat, until: Offset, n: nat, next: nat)
    requires rec.file.Complete() && rec.Holds(i) && 0 < level <= rec.level && n <= |rec.file.order|
    requires until == Edge(rec.file.order, rec.file.size, n) && next == i + Span(rec.file.step, level)
    ensures var o := rec.skipOffsets[level - 1];
            (0 < o < until <==> next < n) && (next < n ==> o == rec.file.order[next])
  {
    var file := rec.file;
    LaidIn(file.order, file.records, file.base, file.size, file.width, file.step, file.max);
    var m := |file.order|;
    assert SlotOK(file.order, file.records, file.step, i, level - 1, m);
    if next < m {
      if next < n {
        LaidAscends(file.order, file.records, file.base, file.size, file.width, file.step, file.max, next, n);
      }
      if n < next {
        LaidAscends(file.order, file.records, file.base, file.size, file.width, file.step, file.max, n, next);
      }
      LaidAscends(file.order, file.records, file.base, file.size, file.width, file.step, file.max, next, m);
    }
  }

  /** The record at an index before the i-th is where the search stands; from the n-th on the keys are too large. */
  ghost predicate Between(file: RecordFile, key: Key, i: nat, until: Offset, n: nat)
    reads file
  {
    && i <= n <= |file.order| && AllBelow(file, key, i) && AllAbove(file, key, n)
    && until == Edge(file.order, file.size, n)
  }

  /**
   One level of the skip list: the search moves to the record a span ahead if its key is still too
   small, and does not look at or behind it any more if its key is too large.
   */
  method TryLevel(rec: SkipRecord, cache: SkipRecordCache, key: Key, level: nat, until: Offset, ghost i: nat,
                  ghost n: nat)
    returns (skipped: bool, until': Offset, ghost n': nat)
    requires rec.file.Complete() && Sorted(rec.file) && cache.Of(rec.file)
    requires rec.Holds(i) && 0 < level <= rec.level && i < n
    requires Between(rec.file, key, i, until, n) && Less(KeyAt(rec.file, i), key)
    modifies rec, cache
    ensures cache.Of(rec.file) && i < n'
    ensures !skipped ==> rec.Holds(i) && rec.level == old(rec.level) && Between(rec.file, key, i, until', n')
    ensures skipped ==> i < rec.index < n' && rec.Holds(rec.index) && Between(rec.file, key, rec.index, until', n')
  {
    skipped, until', n' := false, until, n;
    var nextOffset := rec.skipOffsets[level - 1];
    ghost var next := i + Span(rec.file.step, level);
    LinkLeads(rec, i, level, until, n, next);
    if nextOffset <= 0 || nextOffset >= until {
      return;
    }
    var diff := FindSpan(rec.file.step, level);
    var nextRec := new SkipRecord(rec.file);
    Prepare(nextRec, cache, nextOffset, rec.index + diff);
    if Less(nextRec.key, key) {
      BelowUpTo(rec.file, key, next);
      rec.Assign(nextRec);
      skipped := true;
    } else if Less(key, nextRec.key) {
      AboveFrom(rec.file, key, next);
      until', n' := nextOffset, next;
    }
  }

  method SkipAhead(rec: SkipRecord, cache: SkipRecordCache, key: Key, until: Offset, ghost i: nat, ghost n: nat)
    returns (skipped: bool, until': Offset, ghost n': nat)
    requires rec.file.Complete() && Sorted(rec.file) && cache.Of(rec.file) && rec.Holds(i) && i < n
    requires Between(rec.file, key, i, until, n) && Less(KeyAt(rec.file, i), key)
    modifies rec, cache
    ensures cache.Of(rec.file) && i < n'
    ensures !skipped ==> rec.Holds(i) && Between(rec.file, key, i, until', n')
    ensures skipped ==> i < rec.index < n' && rec.Holds(rec.index) && Between(rec.file, key, rec.index, until', n')
  {
    skipped, until', n' := false, until, n;
    var level := rec.level;
    while level > 0 && !skipped
      invariant cache.Of(rec.file) && i < n'
      invariant !skipped ==> level <= rec.level && rec.Holds(i) && Between(rec.file, key, i, until', n')
      invariant skipped ==> i < rec.index < n' && rec.Holds(rec.index) && Between(rec.file, key, rec.index, until', n')
      decreases level
    {
      skipped, until', n' := TryLevel(rec, cache, key, level, until', i, n');
      level := level - 1;
    }
  }

  /**
   The search by key refines a linear scan, whatever the cache holds: `at` is the first record whose
   key is not below the one looked for. It is found if its key is that key, or with `upper` if it is
   there at all.
   */
  method Seek(rec: SkipRecord, cache: SkipRecordCache, key: Key, upper: bool) returns (found: bool, ghost at: nat)
    requires rec.file.Complete() && Sorted(rec.file) && cache.Of(rec.file)
    modifies rec, cache
    ensures cache.Of(rec.file) && ScanFinds(rec.file, key, at)
    ensures found <==> at < |rec.file.order| && (upper || KeyAt(rec.file, at) == key)
    ensures found ==> rec.Holds(at)
  {
    var file := rec.file;
    var offset, index, until := file.base, 0, file.size;
    ghost var n := |file.order|;
    LaidIn(file.order, file.records, file.base, file.size, file.width, file.step, file.max);
    if n > 0 { LaidAscends(file.order, file.records, file.base, file.size, file.width, file.step, file.max, 0, n); }
    var ready := false;
    at := 0;
    while offset < until
      invariant 0 <= index <= n
      invariant cache.Of(file) && Between(file, key, index, until, n)
      invariant offset == Edge(file.order, file.size, index) && (offset < until <==> index < n)
      invariant ready ==> rec.Holds(index)
      decreases |file.order| - index
    {
      if !ready {
        Prepare(rec, cache, offset, index);
      }
      if key == rec.key {
        at := index;
        LessIrreflexive(key);
        return true, at;
      }
      LessTotal(key, rec.key);
      if Less(key, rec.key) {
        AboveFrom(file, key, index);
        n := index;
        break;
      }
      ready, until, offset, index, n := MoveAhead(rec, cache, key, until, offset, index, n);
    }
    at := index;
    AboveScans(file, key, index);
    found := false;
    EdgeOrder(file, index, |file.order|);
    if upper && offset < file.size {
      Prepare(rec, cache, offset, index);
      found := true;
    }
  }

  /** What is found, by the contents of the file: the first record whose key is not less than the one looked for. */
  method Search(rec: SkipRecord, cache: SkipRecordCache, key: Key, upper: bool) returns (found: bool, ghost at: nat)
    requires rec.file.Complete() && Sorted(rec.file) && cache.Of(rec.file)
    modifies rec, cache
    ensures cache.Of(rec.file) && at <= |rec.file.Contents()|
    ensures forall p :: 0 <= p < at ==> Less(rec.file.Contents()[p].key, key)
    ensures forall p :: at <= p < |rec.file.Contents()| ==> AtMost(key, rec.file.Contents()[p].key)
    ensures found <==> at < |rec.file.Contents()| && (upper || rec.file.Contents()[at].key == key)
    ensures found ==> rec.Holds(at) && rec.index == at && rec.key == rec.file.Contents()[at].key
    ensures found ==> rec.value.Some? ==> rec.value.value == rec.file.Contents()[at].value
  {
    found, at := Seek(rec, cache, key, upper);
    ScanIs(rec.file, key, at);
  }

  lemma ScanIs(file: RecordFile, key: Key, at: nat)
    requires file.Complete() && Sorted(file) && ScanFinds(file, key, at)
    ensures at <= |file.Contents()| == |file.order|
    ensures forall p :: 0 <= p < |file.order| ==>
              KeyAt(file, p) == file.Contents()[p].key && file.order[p] in file.records
              && file.records[file.order[p]].value == file.Contents()[p].value
    ensures forall p :: 0 <= p < at ==> Less(file.Contents()[p].key, key)
    ensures forall p :: at <= p < |file.order| ==> AtMost(key, file.Contents()[p].key)
  {
    LaidHas(file.order, file.records, file.base, file.size, file.width, file.step, file.max);
    forall p | at < p < |file.order|
      ensures AtMost(key, KeyAt(file, p))
    {
      LessAtMost(key, KeyAt(file, at), KeyAt(file, p));
    }
  }

  method MoveAhead(rec: SkipRecord, cache: SkipRecordCache, key: Key, until: Offset, offset: Offset, index: nat,
                   ghost n: nat)
    returns (ready: bool, until': Offset, offset': Offset, index': nat, ghost n': nat)
    requires rec.file.Complete() && Sorted(rec.file) && cache.Of(rec.file) && rec.Holds(index) && index < n
    requires Between(rec.file, key, index, until, n) && Less(KeyAt(rec.file, index), key)
             && offset == rec.file.order[index]
    modifies rec, cache
    ensures cache.Of(rec.file) && index < index' && Between(rec.file, key, index', until', n')
    ensures offset' == Edge(rec.file.order, rec.file.size, index') && (offset' < until' <==> index' < n')
    ensures ready ==> rec.Holds(index')
  {
    ready, until', n' := SkipAhead(rec, cache, key, until, index, n);
    offset', index' := Advance(rec, key, ready, offset, index);
    EdgeOrder(rec.file, index', n');
  }

  /** If no level helped, the search goes on with the record right behind. */
  method Advance(rec: SkipRecord, ghost key: Key, skipped: bool, offset: Offset, index: nat)
    returns (offset': Offset, index': nat)
    requires rec.file.Valid() && Sorted(rec.file) && index < |rec.file.order| && offset == rec.file.order[index]
    requires if skipped then index < rec.index && rec.Holds(rec.index) && AllBelow(rec.file, key, rec.index)
             else rec.Holds(index) && Less(KeyAt(rec.file, index), key)
    ensures skipped ==> index' == rec.index
    ensures !skipped ==> index' == index + 1
    ensures index < index' <= |rec.file.order| && offset' == Edge(rec.file.order, rec.file.size, index')
    ensures AllBelow(rec.file, key, index')
  {
    if skipped {
      return rec.offset, rec.index;
    }
    var file := rec.file;
    index' := index + 1;
    BelowUpTo(file, key, index);
    assert PlaceOK(file.order, file.records, file.size, file.width, file.step, file.max, index, index');
    offset' := offset + rec.wholeSize;
  }

  lemma EdgeOrder(file: RecordFile, i: nat, n: nat)
    requires file.Valid() && i <= n <= |file.order|
    ensures Edge(file.order, file.size, i) < Edge(file.order, file.size, n) <==> i < n
  {
    if i < n { LaidAscends(file.order, file.records, file.base, file.size, file.width, file.step, file.max, i, n); }
  }

  // ---------------------------------------------------------------- by index

  /** On the way to an index the search is always at a record that takes part in every level it still needs. */
  ghost predicate OnTheWay(step: nat, max: nat, index: nat, i: nat)
    requires step >= 2
  {
    && i <= index
    && forall l {:trigger Span(step, l)} :: 0 <= l <= max && Span(step, l) <= index - i ==> Aligned(i, Span(step, l))
  }

  /** The largest level whose span fits in what is left. */
  ghost predicate Largest(step: nat, max: nat, left: nat, l: nat)
    requires step >= 2
  {
    l <= max && Span(step, l) <= left && (l < max ==> left < Span(step, l + 1))
  }

  lemma WayStep(step: nat, max: nat, index: nat, i: nat, l: nat, i': nat)
    requires step >= 2 && OnTheWay(step, max, index, i) && Largest(step, max, index - i, l) && i' == i + Span(step, l)
    ensures OnTheWay(step, max, index, i')
  {
    forall k {:trigger Span(step, k)} | 0 <= k <= max && Span(step, k) <= index - i'
      ensures Aligned(i', Span(step, k))
    {
      if k > l {
        SpanAligned(step, l + 1, k);
      } else {
        SpanAligned(step, k, l);
        AlignedSum(i, Span(step, l), Span(step, k));
      }
    }
  }

  /** Above its own level a record on the way needs none. */
  lemma WayLevel(step: nat, max: nat, index: nat, i: nat)
    requires step >= 2 && OnTheWay(step, max, index, i)
    ensures Level(i, step, max) < max ==> index - i < Span(step, Level(i, step, max) + 1)
  {
    var l := Level(i, step, max);
    if l < max && Span(step, l + 1) <= index - i {
      LevelDivides(i, step, max, l + 1);
      assert false;
    }
  }

  /** One level of the search by index: it moves a span ahead unless that leads past the index. */
  method TryLevelTo(rec: SkipRecord, cache: SkipRecordCache, index: nat, level: nat, until: Offset, ghost i: nat,
                    ghost n: nat)
    returns (skipped: bool, until': Offset, ghost n': nat)
    requires rec.file.Complete() && cache.Of(rec.file) && rec.Holds(i) && 0 < level <= rec.level
    requires i <= index && i < n <= |rec.file.order| && until == Edge(rec.file.order, rec.file.size, n)
    requires index < |rec.file.order| ==> index < n
    modifies rec, cache
    ensures cache.Of(rec.file) && i < n' <= |rec.file.order| && until' == Edge(rec.file.order, rec.file.size, n')
    ensures index < |rec.file.order| ==> index < n'
    ensures !skipped ==> rec.Holds(i) && rec.level == old(rec.level)
                         && (index < |rec.file.order| ==> index - i < Span(rec.file.step, level))
    ensures skipped ==> rec.index == i + Span(rec.file.step, level) <= index && rec.index < n' && rec.Holds(rec.index)
  {
    skipped, until', n' := false, until, n;
    var nextOffset := rec.skipOffsets[level - 1];
    ghost var next := i + Span(rec.file.step, level);
    LinkLeads(rec, i, level, until, n, next);
    if nextOffset <= 0 || nextOffset >= until {
      return;
    }
    var nextIndex := FindSpan(rec.file.step, level);
    nextIndex := rec.index + nextIndex;
    var nextRec := new SkipRecord(rec.file);
    Prepare(nextRec, cache, nextOffset, nextIndex);
    if nextIndex <= index {
      rec.Assign(nextRec);
      skipped := true;
    } else {
      until', n' := nextOffset, next;
    }
  }

  method SkipTo(rec: SkipRecord, cache: SkipRecordCache, index: nat, until: Offset, ghost i: nat, ghost n: nat)
    returns (skipped: bool, until': Offset, ghost n': nat, ghost used: nat)
    requires rec.file.Complete() && cache.Of(rec.file) && rec.Holds(i)
    requires i < index && i < n <= |rec.file.order| && until == Edge(rec.file.order, rec.file.size, n)
    requires index < |rec.file.order| ==> index < n && OnTheWay(rec.file.step, rec.file.max, index, i)
    modifies rec, cache
    ensures cache.Of(rec.file) && i < n' <= |rec.file.order| && until' == Edge(rec.file.order, rec.file.size, n')
    ensures index < |rec.file.order| ==> index < n' && Largest(rec.file.step, rec.file.max, index - i, used)
    ensures !skipped ==> rec.Holds(i) && used == 0
    ensures skipped ==> rec.index == i + Span(rec.file.step, used) <= index && rec.index < n' && rec.Holds(rec.index)
  {
    var file := rec.file;
    skipped, until', n', used := false, until, n, 0;
    LaidIn(file.order, file.records, file.base, file.size, file.width, file.step, file.max);
    if index < |file.order| { WayLevel(file.step, file.max, index, i); }
    var level := rec.level;
    while level > 0 && !skipped
      invariant 0 <= level && cache.Of(file) && i < n' <= |file.order| && until' == Edge(file.order, file.size, n')
      invariant index < |file.order| ==> index < n'
      invariant !skipped ==> used == 0 && level <= rec.level <= file.max && rec.Holds(i)
                             && (index < |file.order| && level < file.max ==> index - i < Span(file.step, level + 1))
      invariant skipped ==> rec.index == i + Span(file.step, used) <= index && rec.index < n' && rec.Holds(rec.index)
                            && (index < |file.order| ==> Largest(file.step, file.max, index - i, used))
      decreases level
    {
      ghost var tried := level;
      skipped, until', n' := TryLevelTo(rec, cache, index, level, until', i, n');
      if skipped { used := tried; }
      level := level - 1;
    }
  }

  /** The search stands before the i-th record, and the moves made and the ones to come add up. */
  ghost predicate Heading(file: RecordFile, index: nat, i: nat, n: nat, moves: nat)
    requires file.step >= 2
    reads file
  {
    && i <= n <= |file.order|
    && (i <= index || |file.order| <= index)
    && (index < |file.order| ==>
          && index < n && OnTheWay(file.step, file.max, index, i)
          && moves + DigitSum(index - i, file.step, file.max) == DigitSum(index, file.step, file.max))
  }

  lemma HeadingStep(file: RecordFile, index: nat, i: nat, n: nat, moves: nat, l: nat, i': nat, n': nat)
    requires file.step >= 2 && Heading(file, index, i, n, moves) && i' == i + Span(file.step, l)
             && i' <= n' <= |file.order|
    requires index < |file.order| ==> index < n' && Largest(file.step, file.max, index - i, l)
    ensures Heading(file, index, i', n', moves + 1)
  {
    if index < |file.order| {
      WayStep(file.step, file.max, index, i, l, i');
      var left, left' := index - i, index - i';
      assert left' == left - Span(file.step, l);
      DigitSumSpan(left, file.step, l, file.max);
    }
  }

  /** One move: as far ahead as a level allows, or to the record right behind. */
  method Move(rec: SkipRecord, cache: SkipRecordCache, index: nat, until: Offset, offset: Offset, current: nat,
              ghost n: nat, ghost moves: nat)
    returns (ready: bool, until': Offset, offset': Offset, current': nat, ghost n': nat, ghost moves': nat)
    requires rec.file.Complete() && cache.Of(rec.file) && rec.Holds(current) && current != index
    requires Heading(rec.file, index, current, n, moves) && current < n && offset == rec.file.order[current]
    requires until == Edge(rec.file.order, rec.file.size, n)
    modifies rec, cache
    ensures cache.Of(rec.file) && Heading(rec.file, index, current', n', moves') && current < current'
    ensures until' == Edge(rec.file.order, rec.file.size, n')
            && offset' == Edge(rec.file.order, rec.file.size, current')
    ensures offset' < until' <==> current' < n'
    ensures ready ==> rec.Holds(current')
  {
    ghost var used;
    ready, until', n', used := SkipTo(rec, cache, index, until, current, n);
    offset', current' := AdvanceTo(rec, ready, offset, current);
    HeadingStep(rec.file, index, current, n, moves, used, current', n');
    moves' := moves + 1;
    EdgeOrder(rec.file, current', n');
  }

  /**
   The search by index finds exactly the record with that index, if there is one, whatever the cache
   holds, and gets there with as many moves as the digits of the index in base `step` add up to.
   */
  method SeekIndex(rec: SkipRecord, cache: SkipRecordCache, index: nat) returns (found: bool, ghost moves: nat)
    requires rec.file.Complete() && cache.Of(rec.file)
    modifies rec, cache
    ensures cache.Of(rec.file)
    ensures found <==> index < |rec.file.order|
    ensures found ==> rec.Holds(index) && moves == DigitSum(index, rec.file.step, rec.file.max)
  {
    var file := rec.file;
    var offset, current, until, ready := file.base, 0, file.size, false;
    ghost var n := |file.order|;
    moves := 0;
    LaidIn(file.order, file.records, file.base, file.size, file.width, file.step, file.max);
    EdgeOrder(file, 0, n);
    DigitSumZero(file.step, file.max);
    while offset < until
      invariant cache.Of(file) && 0 <= current <= n && 0 <= moves && Heading(file, index, current, n, moves)
      invariant until == Edge(file.order, file.size, n) && offset == Edge(file.order, file.size, current)
      invariant offset < until <==> current < n
      invariant ready ==> rec.Holds(current)
      decreases |file.order| - current
    {
      if !ready {
        Prepare(rec, cache, offset, current);
      }
      if current == index {
        return true, moves;
      }
      ready, until, offset, current, n, moves := Move(rec, cache, index, until, offset, current, n, moves);
    }
    found := false;
  }

  /** What is found, by the contents of the file: exactly the record of the index. */
  method SearchByIndex(rec: SkipRecord, cache: SkipRecordCache, index: nat) returns (found: bool, ghost moves: nat)
    requires rec.file.Complete() && cache.Of(rec.file)
    modifies rec, cache
    ensures cache.Of(rec.file)
    ensures found <==> index < |rec.file.Contents()|
    ensures found ==> rec.Holds(index) && rec.index == index && rec.key == rec.file.Contents()[index].key
    ensures found ==> rec.value.Some? ==> rec.value.value == rec.file.Contents()[index].value
    ensures found ==> moves == DigitSum(index, rec.file.step, rec.file.max)
  {
    found, moves := SeekIndex(rec, cache, index);
  }

  method AdvanceTo(rec: SkipRecord, skipped: bool, offset: Offset, index: nat) returns (offset': Offset, index': nat)
    requires rec.file.Valid() && index < |rec.file.order| && offset == rec.file.order[index]
    requires if skipped then index < rec.index && rec.Holds(rec.index) else rec.Holds(index)
    ensures index' == if skipped then rec.index else index + Span(rec.file.step, 0)
    ensures index < index' <= |rec.file.order| && offset' == Edge(rec.file.order, rec.file.size, index')
  {
    if skipped {
      return rec.offset, rec.index;
    }
    var file := rec.file;
    index' := index + 1;
    assert PlaceOK(file.order, file.records, file.size, file.width, file.step, file.max, index, index');
    offset' := offset + rec.wholeSize;
  }
}
