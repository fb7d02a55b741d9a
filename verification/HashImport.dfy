/**
 Importing the record section of one hash database into another: forward as a replay of operations,
 or backward through a file of offsets and a database of dead keys.

 `m` is the number after `n` wherever both occur: contracts name it, so that what one call ensures
 about record `m` is literally what the next one requires.
 */
module HashImport {
  import opened Basics
  import opened HashFormat
  import opened HashStore
  import opened HashUpdate
  import opened HashReplay
  import opened HashDatabase
  import opened Processing

  lemma EdgeStep(order: seq<Offset>, records: Records, base: Offset, end: Offset, f: Format, i: nat, j: nat)
    requires f.align >= 1 && Tiled(order, records, base, end, f) && i <= j <= |order|
    ensures i < j <==> Edge(order, end, i) < Edge(order, end, j)
    ensures i < |order| ==> order[i] in records && records[order[i]].size > 0
                            && Edge(order, end, i) + records[order[i]].size == Edge(order, end, i + 1)
  {
    if i < |order| {
      assert TileOK(order, records, end, f, i);
      OffsetBelowEnd(order, records, base, end, f, i);
    }
    if i < j < |order| { OrderAscends(order, records, base, end, f, i, j); }
  }

  function Setter(value: Value, overwrite: bool): Processor<Key, Value> {
    Processor((k, v) => if overwrite then Set(value) else Noop, k => Set(value))
  }

  function Remover(): Processor<Key, Value> {
    Processor((k, v) => Remove, k => Noop)
  }

  function Getter(): Processor<Key, Value> {
    Processor((k, v) => Noop, k => Noop)
  }

  lemma ReplayedNext(m: map<Key, Value>, order: seq<Offset>, records: Records, i: nat, n: nat)
    requires InFile(order, records)
    requires i <= n < |order|
    ensures Replayed(m, Log(order, records)[i..n + 1])
            == Applied(Replayed(m, Log(order, records)[i..n]), records[order[n]])
  {
    var log := Log(order, records);
    assert log[i..n + 1] == log[i..n] + [records[order[n]]];
    assert log[i..n + 1][..n - i] == log[i..n];
  }

  /** The record at the n-th edge is the next one to be replayed, and the m-th edge is behind it. */
  lemma NextRecord(m0: map<Key, Value>, order: seq<Offset>, records: Records, base: Offset, end: Offset, f: Format,
                   i: nat, n: nat, m: nat, j: nat)
    requires f.align >= 1 && Tiled(order, records, base, end, f) && i <= n < m == n + 1 <= j <= |order|
    requires InFile(order, records)
    ensures var o := Edge(order, end, n);
            && o in records && o + records[o].size == Edge(order, end, m)
            && Replayed(m0, Log(order, records)[i..m]) == Applied(Replayed(m0, Log(order, records)[i..n]), records[o])
    ensures m < j <==> Edge(order, end, m) < Edge(order, end, j)
  {
    EdgeStep(order, records, base, end, f, n, j);
    EdgeStep(order, records, base, end, f, m, j);
    ReplayedNext(m0, order, records, i, n);
  }

  method RemoveKey(db: HashDBMImpl, key: Key)
    requires db.Valid()
    modifies db, db.fbp
    ensures db.Valid() && db.live == old(db.live) - {key}
  {
    ghost var live0 := db.live;
    var _ := db.Process(key, Remover(), false, true);
    if key !in live0 { assert live0 - {key} == live0; }
  }

  method SetKey(db: HashDBMImpl, key: Key, value: Value)
    requires db.Valid()
    modifies db, db.fbp
    ensures db.Valid() && db.live == old(db.live)[key := value]
  {
    var _ := db.Process(key, Setter(value, true), false, true);
  }

  /** One record: a value is set, a removed key is removed, a void record is passed over. */
  method ImportRecord(db: HashDBMImpl, rec: HashRecord)
    requires db.Valid()
    modifies db, db.fbp
    ensures db.Valid() && db.live == Applied(old(db.live), rec)
  {
    if rec.op == OpRemove {
      RemoveKey(db, rec.key);
    } else if rec.op != OpVoid {
      SetKey(db, rec.key, rec.value);
    }
  }

  /** The record at the n-th edge is applied, and the edge behind it is the m-th. */
  method ImportNext(db: HashDBMImpl, file: Records, offset: Offset, end: Offset, ghost live0: map<Key, Value>,
                    ghost order: seq<Offset>, ghost base: Offset, ghost size: Offset, ghost f: Format,
                    ghost i: nat, ghost n: nat, ghost j: nat)
    returns (next: Offset, ghost m: nat)
    requires db.Valid() && f.align >= 1 && Tiled(order, file, base, size, f) && InFile(order, file)
    requires i <= n < j <= |order| && offset == Edge(order, size, n) && end == Edge(order, size, j)
    requires db.live == Replayed(live0, Log(order, file)[i..n])
    modifies db, db.fbp
    ensures m == n + 1
    ensures db.Valid() && db.live == Replayed(live0, Log(order, file)[i..m])
    ensures next == Edge(order, size, m) && (m < j <==> next < end)
  {
    m := n + 1;
    NextRecord(live0, order, file, base, size, f, i, n, m, j);
    var rec := file[offset];
    next := offset + rec.size;
    assert next == Edge(order, size, m);
    ImportRecord(db, rec);
  }

  /** The records between two places of a file are applied one by one. */
  method ImportFromFileForward(db: HashDBMImpl, file: Records, begin: Offset, end: Offset,
                               ghost order: seq<Offset>, ghost base: Offset, ghost size: Offset, ghost f: Format,
                               ghost i: nat, ghost j: nat)
    requires db.Valid() && f.align >= 1 && Tiled(order, file, base, size, f)
    requires i <= j <= |order| && begin == Edge(order, size, i) && end == Edge(order, size, j)
    modifies db, db.fbp
    ensures InFile(order, file)
    ensures db.Valid() && db.live == Replayed(old(db.live), Log(order, file)[i..j])
  {
    AllInFile(order, file, base, size, f);
    ghost var n, live0 := i, db.live;
    var offset := begin;
    EdgeStep(order, file, base, size, f, i, j);
    assert Log(order, file)[i..i] == [];
    while offset < end
      invariant i <= n <= j && offset == Edge(order, size, n) && (n < j <==> offset < end)
      invariant db.Valid() && db.live == Replayed(live0, Log(order, file)[i..n])
      decreases j - n
    {
      offset, n := ImportNext(db, file, offset, end, live0, order, base, size, f, i, n, j);
    }
    assert n == j;
  }

  lemma AllInFile(order: seq<Offset>, records: Records, base: Offset, end: Offset, f: Format)
    requires f.align >= 1 && Tiled(order, records, base, end, f)
    ensures InFile(order, records)
  {
    forall i | 0 <= i < |order| ensures order[i] in records { assert TileOK(order, records, end, f, i); }
  }

  // ---------------------------------------------------------------- offsets in reverse

  /** The offsets of the records that are not void, in file order. */
  ghost function Busy(order: seq<Offset>, records: Records): seq<Offset> {
    if |order| == 0 then []
    else
      var e := |order| - 1;
      Busy(order[..e], records) + (if order[e] in records && records[order[e]].op != OpVoid then [order[e]] else [])
  }

  /** The offsets go to a file through a buffer that is flushed when another one would not fit. */
  method ExtractOffsets(file: Records, begin: Offset, end: Offset, width: nat, bufferSize: nat,
                        ghost order: seq<Offset>, ghost base: Offset, ghost size: Offset, ghost f: Format, ghost j: nat)
    returns (out: seq<Offset>)
    requires f.align >= 1 && Tiled(order, file, base, size, f) && 0 < width <= bufferSize
    requires j <= |order| && begin == Edge(order, size, 0) && end == Edge(order, size, j)
    ensures out == Busy(order[..j], file)
  {
    out := [];
    var buf: seq<Offset>, wp := [], 0;
    var ep := bufferSize - width;
    var offset := begin;
    ghost var n := 0;
    EdgeStep(order, file, base, size, f, 0, j);
    while offset < end
      invariant 0 <= n <= j && offset == Edge(order, size, n) && (n < j <==> offset < end)
      invariant out + buf == Busy(order[..n], file) && 0 <= wp <= ep && (wp == 0 <==> buf == [])
      decreases j - n
    {
      EdgeStep(order, file, base, size, f, n, j);
      EdgeStep(order, file, base, size, f, n + 1, j);
      assert order[..n + 1][..n] == order[..n];
      var rec := file[offset];
      if rec.op != OpVoid {
        buf := buf + [offset];
        wp := wp + width;
        if wp > ep {
          out := out + buf;
          buf, wp := [], 0;
        }
      }
      offset := offset + rec.size;
      n := n + 1;
    }
    if wp > 0 {
      out := out + buf;
    }
  }

  /** Reads a file of offsets block by block, from the front or from the back. */
  class OffsetReader {
    const file: seq<Offset>
    const reversal: bool
    const perBuffer: nat
    var buffer: seq<Offset>
    var currentPtr: nat
    var endPtr: nat
    var currentOffset: nat
    ghost var read: nat

    /** The blocks before `currentOffset` are unread when going backward, those behind it when going forward. */
    ghost predicate Valid()
      reads this
    {
      && perBuffer > 0 && currentPtr <= endPtr <= |buffer| && currentOffset <= |file| && read <= |file|
      && if reversal then
           && currentPtr == 0 && currentOffset + endPtr + read == |file|
           && forall x :: 0 <= x < endPtr ==> buffer[x] == file[currentOffset + x]
         else
           && currentOffset == read + endPtr - currentPtr
           && forall x :: currentPtr <= x < endPtr ==> buffer[x] == file[currentOffset - endPtr + x]
    }

    constructor (file: seq<Offset>, perBuffer: nat, reversal: bool)
      requires perBuffer > 0
      ensures Valid() && read == 0 && this.file == file && this.reversal == reversal
    {
      this.file, this.perBuffer, this.reversal := file, perBuffer, reversal;
      buffer, currentPtr, endPtr, read := [], 0, 0, 0;
      currentOffset := if reversal then |file| else 0;
    }

    method FillBackward()
      requires Valid() && reversal && endPtr == 0 && read < |file|
      modifies this`buffer, this`currentOffset, this`endPtr
      ensures Valid() && endPtr > 0
    {
      var size := if currentOffset < perBuffer then currentOffset else perBuffer;
      currentOffset := currentOffset - size;
      buffer, endPtr := file[currentOffset..currentOffset + size], size;
    }

    method FillForward()
      requires Valid() && !reversal && currentPtr == endPtr && read < |file|
      modifies this`buffer, this`currentOffset, this`currentPtr, this`endPtr
      ensures Valid() && currentPtr < endPtr
    {
      var size := if |file| - currentOffset < perBuffer then |file| - currentOffset else perBuffer;
      buffer := file[currentOffset..currentOffset + size];
      currentPtr, endPtr, currentOffset := 0, size, currentOffset + size;
    }

    /** The next offset from the chosen end of the file, until all have been read. */
    method ReadOffset() returns (offset: Option<Offset>)
      requires Valid()
      modifies this
      ensures Valid()
      ensures old(read) == |file| ==> offset == None && read == old(read)
      ensures old(read) < |file| ==>
                read == old(read) + 1 && offset == Some(if reversal then file[|file| - read] else file[old(read)])
    {
      if reversal {
        if currentPtr == endPtr {
          if currentOffset < 1 {
            return None;
          }
          FillBackward();
        }
        endPtr := endPtr - 1;
        offset := Some(buffer[endPtr]);
      } else {
        if currentPtr == endPtr {
          if currentOffset >= |file| {
            return None;
          }
          FillForward();
        }
        offset := Some(buffer[currentPtr]);
        currentPtr := currentPtr + 1;
      }
      read := read + 1;
    }
  }

  // ---------------------------------------------------------------- the backward import

  lemma {:induction false} BusyInFile(order: seq<Offset>, records: Records)
    ensures InFile(Busy(order, records), records)
    ensures forall o :: o in Busy(order, records) ==> records[o].op != OpVoid
  {
    if |order| > 0 {
      BusyInFile(order[..|order| - 1], records);
    }
  }

  /** Void records do not count in a replay. */
  lemma {:induction false} BusyReplay(order: seq<Offset>, records: Records)
    requires InFile(order, records) && InFile(Busy(order, records), records)
    ensures Replayed(map[], Log(Busy(order, records), records)) == Replayed(map[], Log(order, records))
  {
    if |order| > 0 {
      var e := |order| - 1;
      BusyInFile(order[..e], records);
      BusyReplay(order[..e], records);
      LogSplit(order, records);
      if records[order[e]].op != OpVoid {
        assert Busy(order, records)[..|Busy(order, records)| - 1] == Busy(order[..e], records);
        LogSplit(Busy(order, records), records);
      } else {
        assert Busy(order, records) == Busy(order[..e], records);
      }
    }
  }

  lemma LogSplit(order: seq<Offset>, records: Records)
    requires InFile(order, records) && |order| > 0
    ensures Replayed(map[], Log(order, records))
         == Applied(Replayed(map[], Log(order[..|order| - 1], records)), records[order[|order| - 1]])
  {
    assert Log(order, records)[..|order| - 1] == Log(order[..|order| - 1], records);
  }

  method Has(db: HashDBMImpl, key: Key) returns (found: bool)
    requires db.Valid()
    modifies db, db.fbp
    ensures db.Valid() && db.live == old(db.live) && found == (key in db.live)
  {
    var told := db.Process(key, Getter(), false, false);
    found := told.Some?;
  }

  method SetIfAbsent(db: HashDBMImpl, key: Key, value: Value)
    requires db.Valid()
    modifies db, db.fbp
    ensures db.Valid() && db.live == if key in old(db.live) then old(db.live) else old(db.live)[key := value]
  {
    var _ := db.Process(key, Setter(value, false), false, true);
  }

  /** One record going backward: the last value of a key counts, unless a later record removed the key. */
  method ImportRecordBack(db: HashDBMImpl, dead: HashDBMImpl, rec: HashRecord)
    requires db.Valid() && dead.Valid() && db != dead && db.fbp != dead.fbp && rec.op != OpVoid
    modifies db, db.fbp, dead, dead.fbp
    ensures db.Valid() && db.live == BackLive(old(db.live), old(dead.live).Keys, rec)
    ensures dead.Valid() && dead.live.Keys == BackDead(old(db.live), old(dead.live).Keys, rec)
  {
    if rec.op == OpRemove {
      var setted := Has(db, rec.key);
      if !setted {
        SetIfAbsent(dead, rec.key, "");
      }
    } else {
      var removed := Has(dead, rec.key);
      if !removed {
        SetIfAbsent(db, rec.key, rec.value);
      }
    }
  }

  ghost predicate BackTo(log: seq<HashRecord>, read: nat, live: map<Key, Value>, dead: set<Key>) {
    read <= |log| && ReadBack(log[|log| - read..], live, dead)
  }

  lemma BackStep(log: seq<HashRecord>, read: nat, read': nat, live: map<Key, Value>, dead: set<Key>, r: HashRecord)
    requires read < read' == read + 1 <= |log| && BackTo(log, read, live, dead) && r == log[|log| - read']
    ensures BackTo(log, read', BackLive(live, dead, r), BackDead(live, dead, r))
  {
    assert log[|log| - read'..] == [r] + log[|log| - read..];
    ReadBackStep(r, log[|log| - read..], live, dead);
  }

  /** Into an empty database, the backward import brings what replaying the same records forward does. */
  method ImportFromFileBackward(db: HashDBMImpl, file: Records, begin: Offset, end: Offset, width: nat,
                                writeBuffer: nat, readBuffer: nat, deadFormat: Format, deadBase: Offset,
                                ghost order: seq<Offset>, ghost base: Offset, ghost size: Offset, ghost f: Format,
                                ghost j: nat)
    requires db.Valid() && db.live == map[] && f.align >= 1 && Tiled(order, file, base, size, f)
    requires 0 < width <= writeBuffer && width <= readBuffer && deadFormat.align >= 1 && deadBase > 0
    requires j <= |order| && begin == Edge(order, size, 0) && end == Edge(order, size, j)
    modifies db, db.fbp
    ensures InFile(order[..j], file)
    ensures db.Valid() && db.live == Replayed(map[], Log(order[..j], file))
  {
    AllInFile(order, file, base, size, f);
    var offsets := ExtractOffsets(file, begin, end, width, writeBuffer, order, base, size, f, j);
    BusyInFile(order[..j], file);
    BusyReplay(order[..j], file);
    var dead := new HashDBMImpl(deadFormat, db.hash, deadBase, 1, 1, true);
    var reader := new OffsetReader(offsets, BlockEntries(readBuffer, width), true);
    ImportAllBack(db, dead, reader, file);
  }

  /** The records are imported as the reader gives their offsets. */
  method ImportAllBack(db: HashDBMImpl, dead: HashDBMImpl, reader: OffsetReader, file: Records)
    requires db.Valid() && dead.Valid() && db != dead && db.fbp != dead.fbp && db.live == map[] && dead.live == map[]
    requires reader.Valid() && reader.reversal && reader.read == 0
    requires InFile(reader.file, file) && forall o :: o in reader.file ==> file[o].op != OpVoid
    modifies db, db.fbp, dead, dead.fbp, reader
    ensures db.Valid() && exists keys :: ReadBack(Log(reader.file, file), db.live, keys)
  {
    ghost var log := Log(reader.file, file);
    LogEnds(log);
    var offset := reader.ReadOffset();
    while offset.Some?
      invariant db.Valid() && dead.Valid() && Pending(reader, offset)
      invariant BackTo(log, Imported(reader, offset), db.live, dead.live.Keys)
      decreases |reader.file| - reader.read, offset.Some?
    {
      offset := ImportNextBack(db, dead, reader, offset.value, file);
    }
    assert ReadBack(log, db.live, dead.live.Keys);
  }

  lemma LogEnds(log: seq<HashRecord>)
    ensures log[|log|..] == [] && log[0..] == log
  {
  }

  /** An offset just read is the one of the record the reader is at; without one the reader is through. */
  ghost predicate Pending(reader: OffsetReader, offset: Option<Offset>)
    reads reader
  {
    && reader.Valid() && reader.reversal
    && if offset.Some? then reader.read > 0 && offset.value == reader.file[|reader.file| - reader.read]
       else reader.read == |reader.file|
  }

  /** How many records have been imported. */
  ghost function Imported(reader: OffsetReader, offset: Option<Offset>): nat
    requires Pending(reader, offset)
    reads reader
  {
    if offset.Some? then reader.read - 1 else reader.read
  }

  method ImportNextBack(db: HashDBMImpl, dead: HashDBMImpl, reader: OffsetReader, offset: Offset, file: Records)
    returns (next: Option<Offset>)
    requires db.Valid() && dead.Valid() && db != dead && db.fbp != dead.fbp && Pending(reader, Some(offset))
    requires InFile(reader.file, file) && forall o :: o in reader.file ==> file[o].op != OpVoid
    requires BackTo(Log(reader.file, file), Imported(reader, Some(offset)), db.live, dead.live.Keys)
    modifies db, db.fbp, dead, dead.fbp, reader
    ensures db.Valid() && dead.Valid() && Pending(reader, next)
    ensures BackTo(Log(reader.file, file), Imported(reader, next), db.live, dead.live.Keys)
    ensures next.Some? ==> reader.read == old(reader.read) + 1
    ensures next.None? ==> reader.read == old(reader.read)
  {
    assert offset in reader.file;
    ghost var read := reader.read;
    BackStep(Log(reader.file, file), read - 1, read, db.live, dead.live.Keys, file[offset]);
    next := reader.ReadOffset();
    assert Imported(reader, next) == read;
    ImportRecordBack(db, dead, file[offset]);
  }

  function BlockEntries(bytes: nat, width: nat): (n: nat)
    requires 0 < width <= bytes
    ensures n > 0
  {
    bytes / width
  }
}
