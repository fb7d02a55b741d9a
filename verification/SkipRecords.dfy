/**
 Records of the static skip list as objects: written one after the other with the slots of past
 records filled in, read back, and searched for by key or by index through a cache.
 */
module SkipRecords {
  import opened Basics
  import opened Multiples
  import opened SkipLevels
  import opened HashFormat
  import opened SkipFile

  /** The keys and values of the records in file order. */
  ghost function Pairs(order: seq<Offset>, records: Records): (s: seq<Pair>)
    ensures |s| == |order|
    ensures forall i {:trigger s[i]} :: 0 <= i < |order| && order[i] in records ==>
            s[i] == Pair(records[order[i]].key, records[order[i]].value)
  {
    if |order| == 0 then []
    else
      var o := order[|order| - 1];
      Pairs(order[..|order| - 1], records) + [if o in records then Pair(records[o].key, records[o].value)
                                              else Pair("", "")]
  }

  lemma {:induction false} PairsFrame(order: seq<Offset>, records: Records, records': Records)
    requires forall i :: 0 <= i < |order| ==>
               order[i] in records && order[i] in records'
               && records'[order[i]].key == records[order[i]].key && records'[order[i]].value == records[order[i]].value
    ensures Pairs(order, records') == Pairs(order, records)
  {
    forall i | 0 <= i < |order| ensures Pairs(order, records')[i] == Pairs(order, records)[i] { }
  }

  lemma PairsAppend(order: seq<Offset>, records: Records, o: Offset, r: Stored)
    requires o !in records && forall i :: 0 <= i < |order| ==> order[i] in records
    ensures Pairs(order + [o], records[o := r]) == Pairs(order, records) + [Pair(r.key, r.value)]
  {
    assert (order + [o])[..|order|] == order;
    PairsFrame(order, records, records[o := r]);
  }

  lemma RecordAppended(order: seq<Offset>, records: Records, base: Offset, size: Offset, width: nat, step: nat,
                       max: nat,
                       r: Stored, order': seq<Offset>, records': Records, size': Offset)
    requires step >= 2 && Laid(order, records, base, size, width, step, max)
             && Linked(order, records, step, max, |order|, max)
    requires |r.slots| == Level(|order|, step, max) && forall i :: 0 <= i < |r.slots| ==> r.slots[i] == 0
    requires order' == order + [size] && records' == records[size := r] && size' == size + RecordSize(width, r)
    ensures Laid(order', records', base, size', width, step, max) && Linked(order', records', step, max, |order'|, 0)
    ensures Pairs(order', records') == Pairs(order, records) + [Pair(r.key, r.value)]
  {
    LaidHas(order, records, base, size, width, step, max);
    LaidAppend(order, records, base, size, width, step, max, r, order', records', size');
    LinkAppended(order, records, step, max, size, r, order', records');
    PairsAppend(order, records, size, r);
  }

  /** The size of the data to be read at first. */
  const READ_DATA_SIZE := 32

  /** The file: its record section, to which records are appended and in which slots are overwritten. */
  class RecordFile {
    const base: Offset
    const width: nat
    const step: nat
    const max: nat
    var records: Records
    var size: Offset
    ghost var order: seq<Offset>

    ghost predicate Valid()
      reads this
    {
      step >= 2 && Laid(order, records, base, size, width, step, max)
    }

    /** Every slot is as it has to be for all the records there are. */
    ghost predicate Complete()
      reads this
    {
      Valid() && Linked(order, records, step, max, |order|, max)
    }

    ghost function Contents(): seq<Pair>
      reads this
    {
      Pairs(order, records)
    }

    /** That is: a slot has the offset of the record a span ahead, or 0 if that is not yet there. */
    lemma SlotsAre(p: nat, i: nat)
      requires Complete() && p < |order|
      ensures order[p] in records && |records[order[p]].slots| == Level(p, step, max)
      ensures i < Level(p, step, max) ==>
                records[order[p]].slots[i] == if p + Span(step, i + 1) < |order| then order[p + Span(step, i + 1)]
                    else 0
    {
      LaidHas(order, records, base, size, width, step, max);
      if i < Level(p, step, max) { assert SlotOK(order, records, step, p, i, |order|); }
      assert PlaceOK(order, records, size, width, step, max, p, p + 1);
    }

    constructor (base: Offset, width: nat, step: nat, max: nat)
      requires base > 0 && step >= 2
      ensures Complete() && Contents() == [] && size == base
      ensures this.base == base && this.step == step && this.max == max && this.width == width
    {
      this.base, this.width, this.step, this.max := base, width, step, max;
      records, size, order := map[], base, [];
    }

    method Append(r: Stored) returns (offset: Offset)
      requires Complete() && |r.slots| == Level(|order|, step, max)
               && forall i :: 0 <= i < |r.slots| ==> r.slots[i] == 0
      modifies this
      ensures Valid() && offset == old(size) && order == old(order) + [offset]
      ensures Linked(order, records, step, max, |order|, 0)
      ensures Contents() == old(Contents()) + [Pair(r.key, r.value)]
    {
      ghost var order' := order + [size];
      var records', size' := records[size := r], size + RecordSize(width, r);
      RecordAppended(order, records, base, size, width, step, max, r, order', records', size');
      offset := size;
      records, size, order := records', size', order';
    }

    /** The bytes of slot `i` of the record at `past` are overwritten. */
    method WriteSlot(past: Offset, i: nat, offset: Offset)
      requires Valid() && past in records && i < |records[past].slots|
      modifies this`records
      ensures Valid() && records == old(records)[past := WithSlot(old(records)[past], i, offset)]
      ensures Contents() == old(Contents())
    {
      LaidSlot(order, records, base, size, width, step, max, past, i, offset);
      LaidHas(order, records, base, size, width, step, max);
      PairsFrame(order, records, records[past := WithSlot(records[past], i, offset)]);
      records := records[past := WithSlot(records[past], i, offset)];
    }
  }

  class SkipRecord {
    const file: RecordFile
    var level: nat
    var index: nat
    var offset: Offset
    var wholeSize: nat
    var skipOffsets: seq<Offset>
    var key: Key
    var valueSize: nat
    var value: Option<Value>

    constructor (file: RecordFile)
      ensures this.file == file
    {
      this.file := file;
      level, index, offset, wholeSize, skipOffsets, key, valueSize, value := 0, 0, 0, 0, [], "", 0, None;
    }

    /** The object is the i-th record of the file, with or without its value. */
    ghost predicate Holds(i: nat)
      reads this, file
    {
      && i < |file.order| && file.order[i] in file.records && index == i && offset == file.order[i]
      && var r := file.records[offset];
         && key == r.key && valueSize == |r.value| && (value.Some? ==> value.value == r.value)
         && skipOffsets == r.slots && level == |r.slots| && wholeSize == RecordSize(file.width, r)
    }

    /** The record at an offset is read; the value too if it lies within the bytes read at first. */
    method ReadMetadataKey(offset: Offset, index: nat)
      requires file.Valid() && index < |file.order| && offset == file.order[index]
      modifies this
      ensures Holds(index)
    {
      LaidIn(file.order, file.records, file.base, file.size, file.width, file.step, file.max);
      var r := file.records[offset];
      this.offset, this.index := offset, index;
      level := FindLevel(index, file.step, file.max);
      skipOffsets, key, valueSize := r.slots, r.key, |r.value|;
      var header := HeaderSize(file.width, level, |key|, valueSize);
      wholeSize := header + |key| + valueSize;
      var readSize := 1 + SlotBytes(file.width, level) + 2 + READ_DATA_SIZE;
      var available := (if file.size - offset < readSize then file.size - offset else readSize) - header;
      value := if |key| <= available < |key| + valueSize then None else Some(r.value);
    }

    /** The value is read if it was not. */
    method ReadBody()
      requires file.Valid() && Holds(index)
      modifies this`value
      ensures Holds(index) && value.Some?
    {
      value := Some(file.records[offset].value);
    }

    method Assign(rhs: SkipRecord)
      requires rhs.file == file && rhs != this && rhs.Holds(rhs.index)
      modifies this
      ensures index == rhs.index && Holds(index)
    {
      level, index, offset, wholeSize := rhs.level, rhs.index, rhs.offset, rhs.wholeSize;
      skipOffsets, key, valueSize, value := rhs.skipOffsets, rhs.key, rhs.valueSize, rhs.value;
    }

    method SetData(index: nat, key: Key, value: Value)
      requires file.step >= 2
      modifies this
      ensures this.index == index && this.key == key && this.value == Some(value)
              && level == Level(index, file.step, file.max)
    {
      this.index := index;
      level := FindLevel(index, file.step, file.max);
      wholeSize := HeaderSize(file.width, level, |key|, |value|) + |key| + |value|;
      this.key, this.valueSize, this.value := key, |value|, Some(value);
    }

    /** The record is appended with empty slots. */
    method Write()
      requires file.Complete() && value.Some? && level == Level(|file.order|, file.step, file.max)
      modifies this`offset, file
      ensures file.Valid() && offset == old(file.size) && file.order == old(file.order) + [offset]
      ensures Linked(file.order, file.records, file.step, file.max, |file.order|, 0)
      ensures file.Contents() == old(file.Contents()) + [Pair(key, value.value)]
    {
      offset := file.Append(Stored(seq(level, i => 0), key, value.value));
    }

    /** The last record of level `j` before this one gets its offset in slot `i`, if there is such a record. */
    method UpdatePast(index: nat, offset: Offset, past: seq<Offset>, i: nat, diff: nat, ghost j: nat)
      returns (broken: bool)
      requires file.Valid() && |file.order| == index + 1 && file.order[index] == offset
      requires i < j == i + 1 <= Level(index, file.step, file.max) && diff == Span(file.step, j)
      requires Linked(file.order, file.records, file.step, file.max, index + 1, i)
      requires PastOK(file.order[..index], past, file.step, file.max)
      modifies file`records
      ensures !broken && file.Valid() && file.Contents() == old(file.Contents())
      ensures Linked(file.order, file.records, file.step, file.max, index + 1, j)
    {
      ghost var order := file.order;
      LevelDivides(index, file.step, file.max, j);
      LastMultipleStep(index, diff);
      broken := false;
      if index > 0 {
        LaidAscends(order, file.records, file.base, file.size, file.width, file.step, file.max, index - diff, index);
      }
      assert past[i] == if index == 0 then 0 else order[index - diff];
      if past[i] <= 0 {
        LinkFirst(order, file.records, file.step, file.max, i, j);
      } else {
        LinkStep(order, file.records, file.base, file.size, file.width, file.step, file.max, i, j);
        var pastLevel := FindLevel(index - diff, file.step, file.max);
        if i > pastLevel {
          return true;
        }
        file.WriteSlot(past[i], i, offset);
      }
    }

    /**
     The last record of each level of this one gets its offset as the record a span ahead, and the
     record becomes the last one of those levels. The way out kept for a record without such a slot
     is never taken.
     */
    method UpdatePastRecords(index: nat, offset: Offset, past: seq<Offset>) returns (past': seq<Offset>)
      requires file.Valid() && |file.order| == index + 1 && file.order[index] == offset
      requires level == Level(index, file.step, file.max)
      requires Linked(file.order, file.records, file.step, file.max, index + 1, 0)
      requires PastOK(file.order[..index], past, file.step, file.max)
      modifies file`records
      ensures file.Complete() && file.Contents() == old(file.Contents())
      ensures PastOK(file.order, past', file.step, file.max)
    {
      ghost var order := file.order;
      var diff := 1;
      var i := 0;
      while i < level
        invariant 0 <= i <= level && diff == Span(file.step, i)
        invariant file.Valid() && file.Contents() == old(file.Contents())
        invariant Linked(order, file.records, file.step, file.max, index + 1, i)
        decreases level - i
      {
        TimesIsProduct(file.step, diff);
        diff := file.step * diff;
        var broken := UpdatePast(index, offset, past, i, diff, i + 1);
        if broken {
          break;
        }
        i := i + 1;
      }
      LinkDone(order, file.records, file.step, file.max);
      past' := past;
      i := 0;
      while i < level
        invariant 0 <= i <= level && |past'| == file.max
        invariant forall l :: 0 <= l < file.max ==> past'[l] == if l < i then offset else past[l]
      {
        past' := past'[i := offset];
        i := i + 1;
      }
      PastStep(order[..index], past, file.step, file.max, offset, past');
      assert order[..index] + [offset] == order;
    }
  }

  /** A file read from front to end, each record where the one before ends. */
  method ReadAll(file: RecordFile) returns (pairs: seq<Pair>)
    requires file.Valid()
    ensures pairs == file.Contents()
  {
    pairs := [];
    var rec := new SkipRecord(file);
    var offset, index := file.base, 0;
    LaidHas(file.order, file.records, file.base, file.size, file.width, file.step, file.max);
    FileEnds(file, 0);
    while offset < file.size
      invariant 0 <= index <= |file.order| && offset == Edge(file.order, file.size, index)
      invariant offset < file.size <==> index < |file.order|
      invariant pairs == file.Contents()[..index]
      decreases |file.order| - index
    {
      var pair;
      ghost var next := index + 1;
      pair, offset := ReadOne(rec, offset, index, next);
      pairs, index := pairs + [pair], index + 1;
    }
  }

  method ReadOne(rec: SkipRecord, offset: Offset, index: nat, ghost next: nat) returns (pair: Pair, offset': Offset)
    requires rec.file.Valid() && index < |rec.file.order| && offset == rec.file.order[index] && next == index + 1
    modifies rec
    ensures pair == rec.file.Contents()[index]
    ensures offset' == Edge(rec.file.order, rec.file.size, next)
            && (offset' < rec.file.size <==> next < |rec.file.order|)
  {
    rec.ReadMetadataKey(offset, index);
    if rec.value == None {
      rec.ReadBody();
    }
    var file := rec.file;
    assert PlaceOK(file.order, file.records, file.size, file.width, file.step, file.max, index, next);
    FileEnds(file, next);
    pair, offset' := Pair(rec.key, rec.value.value), offset + rec.wholeSize;
  }

  lemma FileEnds(file: RecordFile, i: nat)
    requires file.Valid() && i <= |file.order|
    ensures Edge(file.order, file.size, i) < file.size <==> i < |file.order|
    ensures file.base == Edge(file.order, file.size, 0)
  {
    if i < |file.order| {
      LaidAscends(file.order, file.records, file.base, file.size, file.width, file.step, file.max, i, |file.order|);
    }
  }

  /**
   What the database keeps while it writes: the number of the next record, the last record of each
   level, the counts.
   */
  class SkipWriter {
    var recordIndex: nat
    var pastOffsets: seq<Offset>
    var numRecords: int
    var effDataSize: int

    ghost predicate Writing(file: RecordFile)
      reads this, file
    {
      file.Complete() && recordIndex == |file.order| && PastOK(file.order, pastOffsets, file.step, file.max)
    }

    constructor ()
      ensures numRecords == 0 && effDataSize == 0
    {
      recordIndex, pastOffsets, numRecords, effDataSize := 0, [], 0, 0;
    }

    /** Starting on an empty file. */
    method Begin(file: RecordFile)
      requires file.Complete() && file.order == []
      modifies this
      ensures Writing(file) && numRecords == 0 && effDataSize == 0
    {
      recordIndex, numRecords, effDataSize := 0, 0, 0;
      pastOffsets := seq(file.max, i => 0);
    }

    method WriteRecord(key: Key, value: Value, file: RecordFile)
      requires Writing(file)
      modifies this, file
      ensures Writing(file) && file.Contents() == old(file.Contents()) + [Pair(key, value)]
      ensures numRecords == old(numRecords) + 1 && effDataSize == old(effDataSize) + |key| + |value|
    {
      var rec := new SkipRecord(file);
      rec.SetData(recordIndex, key, value);
      rec.Write();
      assert file.order[..recordIndex] == old(file.order);
      pastOffsets := rec.UpdatePastRecords(recordIndex, rec.offset, pastOffsets);
      numRecords := numRecords + 1;
      effDataSize := effDataSize + |key| + |value|;
      recordIndex := recordIndex + 1;
    }
  }
}
