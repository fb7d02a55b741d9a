/**
 Rewriting a skip database: old and new records are merged by the sorter, the values of each key are
 reduced, and the result is written to a new file.

 `m` is `i + 1` wherever both occur, and `g` the number of the first record of the current key:
 contracts name them, so that what one step ensures is literally what the next one requires.
 */
module SkipStorage {
  import opened Basics
  import opened StringOrder
  import opened HashFormat
  import opened SkipFile
  import opened SkipRecords
  import opened SkipSort
  import SkipSearch
  import opened Processing

  type Reducer = (Key, seq<Value>) -> seq<Value>

  /** The value that stands for the removal of a key. */
  const REMOVING_VALUE := [0xDE as char, 0xAD as char, 0x00 as char, 0x19 as char, 0x78 as char, 0x02 as char,
                           0x11 as char]

  // ---------------------------------------------------------------- removal

  /** Where the values behind the last removal begin. */
  ghost function BehindRemovals(values: seq<Value>): (n: nat)
    ensures n <= |values|
  {
    if |values| == 0 then 0
    else if values[|values| - 1] == REMOVING_VALUE then |values|
    else BehindRemovals(values[..|values| - 1])
  }

  ghost function AfterRemovals(values: seq<Value>): seq<Value> {
    values[BehindRemovals(values)..]
  }

  /** The values behind the last removal are left, all of them if there is none. */
  method ReduceRemove(values: seq<Value>) returns (result: seq<Value>, ghost n: nat)
    ensures result == AfterRemovals(values)
    ensures n <= |values| && result == values[n..] && (n > 0 ==> values[n - 1] == REMOVING_VALUE)
    ensures forall i :: n <= i < |values| ==> values[i] != REMOVING_VALUE
  {
    n := BehindRemovals(values);
    AfterRemovalsIs(values);
    result := [];
    for i := 0 to |values|
      invariant result == values[BehindRemovals(values[..i])..i]
    {
      assert values[..i + 1][..i] == values[..i];
      if values[i] == REMOVING_VALUE {
        result := [];
      } else {
        result := result + [values[i]];
      }
    }
    assert values[..|values|] == values;
  }

  /** No removal is among them, and they begin behind one unless there is none at all. */
  lemma {:induction false} AfterRemovalsIs(values: seq<Value>)
    ensures forall i :: BehindRemovals(values) <= i < |values| ==> values[i] != REMOVING_VALUE
    ensures BehindRemovals(values) > 0 ==> values[BehindRemovals(values) - 1] == REMOVING_VALUE
  {
    if |values| > 0 && values[|values| - 1] != REMOVING_VALUE {
      var front := values[..|values| - 1];
      AfterRemovalsIs(front);
      forall i | BehindRemovals(values) <= i < |values| ensures values[i] != REMOVING_VALUE {
        if i < |front| { assert values[i] == front[i]; }
      }
    }
  }

  // ---------------------------------------------------------------- reduction

  /** What is written for a key with these values, oldest first. */
  ghost function Reduced(k: Key, values: seq<Value>, reducer: Option<Reducer>, removed: bool): seq<Value> {
    var live := if removed then AfterRemovals(values) else values;
    if live == [] then [] else if reducer == None then live else reducer.value(k, live)
  }

  lemma {:induction false} BehindRemovalsIs(values: seq<Value>, n: nat)
    requires n <= |values| && (n > 0 ==> values[n - 1] == REMOVING_VALUE)
    requires forall i :: n <= i < |values| ==> values[i] != REMOVING_VALUE
    ensures BehindRemovals(values) == n
  {
    if n < |values| {
      var front := values[..|values| - 1];
      BehindRemovalsIs(front, n);
    }
  }

  /** The place behind the last removal tells what is written. */
  lemma ReducedIs(k: Key, values: seq<Value>, reducer: Option<Reducer>, removed: bool, n: nat)
    requires n <= |values| && (n > 0 ==> values[n - 1] == REMOVING_VALUE)
    requires forall i :: n <= i < |values| ==> values[i] != REMOVING_VALUE
    ensures removed && n == |values| ==> Reduced(k, values, reducer, removed) == []
    ensures removed && n < |values| ==>
              Reduced(k, values, reducer, removed) == if reducer
                  == None then values[n..] else reducer.value(k, values[n..])
    ensures !removed && values != [] ==>
              Reduced(k, values, reducer, removed) == if reducer == None then values else reducer.value(k, values)
  {
    BehindRemovalsIs(values, n);
  }

  function WithKey(k: Key, values: seq<Value>): (s: seq<Pair>)
    ensures |s| == |values| && forall i {:trigger s[i]} :: 0 <= i < |s| ==> s[i] == Pair(k, values[i])
  {
    if |values| == 0 then [] else [Pair(k, values[0])] + WithKey(k, values[1..])
  }

  lemma {:induction false} WithKeyOfKey(k: Key, values: seq<Value>, q: Key)
    ensures OfKey(WithKey(k, values), q) == if q == k then values else []
  {
    if |values| > 0 {
      WithKeyOfKey(k, values[1..], q);
      assert [values[0]] + values[1..] == values;
    }
  }

  /** What is written of the sorted records so far: in order, and for each key what its values reduce to. */
  ghost predicate Written(contents: seq<Pair>, done: seq<Pair>, reducer: Option<Reducer>, removed: bool) {
    Ascending(contents) && forall k :: OfKey(contents, k) == Reduced(k, OfKey(done, k), reducer, removed)
  }

  lemma GroupOfKey(contents: seq<Pair>, done: seq<Pair>, reducer: Option<Reducer>, removed: bool,
                   k: Key, values: seq<Value>, news: seq<Value>, q: Key)
    requires OfKey(contents, q) == Reduced(q, OfKey(done, q), reducer, removed)
    requires OfKey(done, k) == [] && news == Reduced(k, values, reducer, removed)
    ensures OfKey(contents + WithKey(k, news), q) == Reduced(q, OfKey(done + WithKey(k, values), q), reducer, removed)
  {
    OfKeyConcat(done, WithKey(k, values), q);
    OfKeyConcat(contents, WithKey(k, news), q);
    WithKeyOfKey(k, values, q);
    WithKeyOfKey(k, news, q);
    if q == k {
      assert OfKey(contents, k) == [] && [] + values == values && [] + news == news;
    } else {
      assert OfKey(done, q) + [] == OfKey(done, q) && OfKey(contents, q) + [] == OfKey(contents, q);
    }
  }

  /** A key greater than all that are done, with all its values, is reduced and written behind them. */
  lemma GroupWritten(contents: seq<Pair>, done: seq<Pair>, reducer: Option<Reducer>, removed: bool,
                     k: Key, values: seq<Value>, done': seq<Pair>, contents': seq<Pair>)
    requires Written(contents, done, reducer, removed)
    requires forall i :: 0 <= i < |done| ==> Less(done[i].key, k)
    requires done' == done + WithKey(k, values)
    requires contents' == contents + WithKey(k, Reduced(k, values, reducer, removed))
    ensures Written(contents', done', reducer, removed)
  {
    OfKeyNone(done, k);
    forall i | 0 <= i < |done| ensures done[i].key != k { LessAsymmetric(done[i].key, k); }
    forall q ensures OfKey(contents', q) == Reduced(q, OfKey(done', q), reducer, removed) {
      GroupOfKey(contents, done, reducer, removed, k, values, Reduced(k, values, reducer, removed), q);
    }
    forall i | 0 <= i < |contents| ensures Less(contents[i].key, k) {
      var q := contents[i].key;
      OfKeyNone(contents, q);
      OfKeyNone(done, q);
      assert OfKey(done, q) != [];
    }
    forall i, j | 0 <= i < j < |contents'| ensures AtMost(contents'[i].key, contents'[j].key) {
      if i < |contents| <= j { LessAsymmetric(contents[i].key, k); }
      if |contents| <= i { LessIrreflexive(k); }
    }
  }

  /** Without reducer and removals the sorted records are written as they are. */
  lemma CopyWritten(s: seq<Pair>)
    requires Ascending(s)
    ensures Written(s, s, None, false)
  {
  }

  /** All records in the order that decides which value of a key is older. */
  ghost function AllGiven(file: RecordFile, sortedFile: RecordFile?, added: seq<Pair>): seq<Pair>
    reads file, sortedFile
  {
    file.Contents() + (if sortedFile != null then sortedFile.Contents() else []) + added
  }

  class SkipDBMImpl {
    const writer: SkipWriter
    var removed: bool

    constructor ()
      ensures fresh(writer) && !removed
    {
      writer := new SkipWriter();
      removed := false;
    }

    /** An update is added to the sorter; a removal is added as a value of its own. */
    method UpdateRecord(sorter: RecordSorter, key: Key, action: Action<Value>)
      requires sorter.Valid() && !sorter.finished
      modifies this`removed, sorter
      ensures sorter.Valid() && !sorter.finished && sorter.skipRecords == old(sorter.skipRecords)
      ensures sorter.added == old(sorter.added) + match action
                                                  case Noop => []
                                                  case Remove => [Pair(key, REMOVING_VALUE)]
                                                  case Set(v) => [Pair(key, v)]
      ensures removed == (old(removed) || action == Remove)
    {
      if action != Noop {
        var value := REMOVING_VALUE;
        if action == Remove {
          removed := true;
        } else {
          value := action.value;
        }
        sorter.Add(key, value);
      }
    }

    /** The values of a key are reduced and what is left of them written. */
    method WriteGroup(key: Key, values: seq<Value>, reducer: Option<Reducer>, removed: bool, file: RecordFile)
      requires writer.Writing(file) && Counts(file)
      modifies writer, file
      ensures writer.Writing(file) && Counts(file)
      ensures file.Contents() == old(file.Contents()) + WithKey(key, Reduced(key, values, reducer, removed))
    {
      var live := values;
      ghost var n;
      if removed {
        live, n := ReduceRemove(values);
      }
      if |live| > 0 {
        var news := if reducer == None then live else reducer.value(key, live);
        WriteValues(key, news, file);
      }
    }

    method WriteOne(key: Key, value: Value, file: RecordFile)
      requires writer.Writing(file) && Counts(file)
      modifies writer, file
      ensures writer.Writing(file) && Counts(file)
      ensures file.Contents() == old(file.Contents()) + [Pair(key, value)]
    {
      CountOne(file.Contents(), Pair(key, value));
      writer.WriteRecord(key, value, file);
    }

    method WriteValues(key: Key, news: seq<Value>, file: RecordFile)
      requires writer.Writing(file) && Counts(file)
      modifies writer, file
      ensures writer.Writing(file) && Counts(file)
      ensures file.Contents() == old(file.Contents()) + WithKey(key, news)
    {
      ghost var contents := file.Contents();
      for i := 0 to |news|
        invariant writer.Writing(file) && Counts(file)
        invariant file.Contents() == contents + WithKey(key, news[..i])
      {
        NextValue(contents, key, news, i, i + 1);
        WriteOne(key, news[i], file);
      }
      assert news[..|news|] == news;
    }

    /** One sorted record is taken in, and the group before it written if its key is another. */
    method TakeIn(rec: Pair, lastKey: Key, lastValues: seq<Value>, reducer: Option<Reducer>, removed: bool,
                  merged: RecordFile,
                  ghost out: seq<Pair>, ghost g: nat, ghost i: nat, ghost m: nat)
      returns (lastKey': Key, lastValues': seq<Value>, ghost g': nat)
      requires writer.Writing(merged) && Counts(merged) && Ascending(out) && i < |out| && m == i + 1 && out[i] == rec
      requires Gathering(merged.Contents(), out, g, i, lastKey, lastValues, reducer, removed)
               && (lastValues == [] ==> g == 0)
      modifies writer, merged
      ensures writer.Writing(merged) && Counts(merged)
      ensures Gathering(merged.Contents(), out, g', m, lastKey', lastValues', reducer, removed) && lastValues' != []
    {
      if |lastValues| > 0 && rec.key == lastKey {
        GatherSame(merged.Contents(), out, g, i, lastKey, lastValues, reducer, removed, m);
        return lastKey, lastValues + [rec.value], g;
      }
      ghost var contents := merged.Contents();
      if |lastValues| > 0 {
        WriteGroup(lastKey, lastValues, reducer, removed, merged);
      }
      GatherNext(contents, out, g, i, lastKey, lastValues, reducer, removed, merged.Contents(), m);
      lastKey', lastValues', g' := rec.key, [rec.value], i;
    }

    /** The sorted records are taken in one by one, and each key's values reduced and written. */
    method MergeGroups(sorter: RecordSorter, reducer: Option<Reducer>, removed: bool, merged: RecordFile)
      requires sorter.Valid() && sorter.finished && Ascending(sorter.Remaining())
      requires writer.Writing(merged) && Counts(merged) && merged.Contents() == []
      modifies sorter, writer, merged
      ensures writer.Writing(merged) && Counts(merged)
      ensures Written(merged.Contents(), old(sorter.Remaining()), reducer, removed)
    {
      ghost var out, g, i := sorter.Remaining(), 0, 0;
      var lastKey, lastValues: seq<Value> := "", [];
      assert out[..0] == [];
      var more := true;
      while more
        invariant sorter.Valid() && sorter.finished && writer.Writing(merged) && Counts(merged)
        invariant 0 <= g <= i <= |out| && sorter.Remaining() == out[i..] && (!more ==> i == |out|)
        invariant Gathering(merged.Contents(), out, g, i, lastKey, lastValues, reducer, removed)
        invariant lastValues == [] ==> g == 0
        decreases |out| - i, more
      {
        more, lastKey, lastValues, g, i := GetIn(sorter, lastKey, lastValues, reducer, removed, merged, out, g, i,
                                                 i + 1);
      }
      ghost var contents := merged.Contents();
      if |lastValues| > 0 {
        WriteGroup(lastKey, lastValues, reducer, removed, merged);
      }
      GatherEnd(contents, out, g, lastKey, lastValues, reducer, removed, merged.Contents());
    }

    method GetIn(sorter: RecordSorter, lastKey: Key, lastValues: seq<Value>, reducer: Option<Reducer>, removed: bool,
                 merged: RecordFile, ghost out: seq<Pair>, ghost g: nat, ghost i: nat, ghost m: nat)
      returns (more: bool, lastKey': Key, lastValues': seq<Value>, ghost g': nat, ghost i': nat)
      requires sorter.Valid() && sorter.finished && writer.Writing(merged) && Counts(merged) && Ascending(out)
      requires i <= |out| && m == i + 1 && sorter.Remaining() == out[i..]
      requires Gathering(merged.Contents(), out, g, i, lastKey, lastValues, reducer, removed)
               && (lastValues == [] ==> g == 0)
      modifies sorter, writer, merged
      ensures sorter.Valid() && sorter.finished && writer.Writing(merged) && Counts(merged)
      ensures i' == if more then m else i
      ensures i' <= |out| && sorter.Remaining() == out[i'..] && (!more ==> i' == |out|)
      ensures Gathering(merged.Contents(), out, g', i', lastKey', lastValues', reducer, removed)
              && (lastValues' == [] ==> g' == 0)
    {
      var rec := sorter.Get();
      more, lastKey', lastValues', g', i' := rec.Some?, lastKey, lastValues, g, i;
      if more {
        assert out[i] == rec.value && out[i..][1..] == out[m..];
        lastKey', lastValues', g' := TakeIn(rec.value, lastKey, lastValues, reducer, removed, merged, out, g, i, m);
        i' := m;
      }
    }

    /** Without reducer and removals every sorted record is written as it is. */
    method MergeCopies(sorter: RecordSorter, merged: RecordFile)
      requires sorter.Valid() && sorter.finished
      requires writer.Writing(merged) && Counts(merged) && merged.Contents() == []
      modifies sorter, writer, merged
      ensures writer.Writing(merged) && Counts(merged) && merged.Contents() == old(sorter.Remaining())
    {
      ghost var out, i := sorter.Remaining(), 0;
      while true
        invariant sorter.Valid() && sorter.finished && writer.Writing(merged) && Counts(merged)
        invariant 0 <= i <= |out| && sorter.Remaining() == out[i..] && merged.Contents() == out[..i]
        decreases |out| - i
      {
        var rec := sorter.Get();
        if rec == None {
          break;
        }
        assert out[i..][1..] == out[i + 1..] && out[..i] + [out[i]] == out[..i + 1];
        WriteOne(rec.value.key, rec.value.value, merged);
        i := i + 1;
      }
      assert out[..i] == out;
    }

    /**
     The rewrite by merging: for every key the new file holds the reduction of the old values followed
     by the new ones in the order they were added, with the keys in order.
     */
    method FinishStorage(file: RecordFile, sortedFile: RecordFile?, sorter: RecordSorter, reducer: Option<Reducer>)
      returns (merged: RecordFile)
      requires file.Complete() && Ascending(file.Contents())
      requires sortedFile != null ==> sortedFile.Complete() && Ascending(sortedFile.Contents())
      requires sorter.Valid() && !sorter.finished && sorter.skipRecords == []
      modifies sorter, writer
      ensures writer.numRecords == |merged.Contents()| && writer.effDataSize == BytesOf(merged.Contents())
      ensures fresh(merged) && merged.Complete() && Counts(merged) && Ascending(merged.Contents())
      ensures merged.step == file.step && merged.max == file.max && merged.base == file.base
      ensures forall k :: OfKey(merged.Contents(), k)
                       == Reduced(k, OfKey(old(AllGiven(file, sortedFile, sorter.added)), k), reducer, removed)
      ensures removed && reducer == None ==>
                forall i :: 0 <= i < |merged.Contents()| ==> merged.Contents()[i].value != REMOVING_VALUE
      ensures removed ==>
                var all := old(file.Contents() + (if sortedFile != null then sortedFile.Contents()
                                                  else []) + sorter.added);
                forall g :: 0 <= g < |all| && all[g].value == REMOVING_VALUE
                            && (forall h :: g < h < |all| ==> all[h].key != all[g].key) ==>
                  forall i :: 0 <= i < |merged.Contents()| ==> merged.Contents()[i].key != all[g].key
      ensures !removed && reducer == None ==>
                var all := old(file.Contents() + (if sortedFile != null then sortedFile.Contents()
                                                  else []) + sorter.added);
                forall k :: OfKey(merged.Contents(), k) == OfKey(all, k)
    {
      AddFiles(file, sortedFile, sorter);
      ghost var all := sorter.Given();
      sorter.Finish();
      StableSortedIs(all);
      merged := new RecordFile(file.base, file.width, file.step, file.max);
      writer.Begin(merged);
      Rewrite(sorter, reducer, removed, merged);
      FinishedIs(merged.Contents(), all, reducer, removed);
    }

    method Rewrite(sorter: RecordSorter, reducer: Option<Reducer>, removed: bool, merged: RecordFile)
      requires sorter.Valid() && sorter.finished && Ascending(sorter.Remaining())
      requires writer.Writing(merged) && Counts(merged) && merged.Contents() == []
      modifies sorter, writer, merged
      ensures writer.Writing(merged) && Counts(merged)
      ensures Written(merged.Contents(), old(sorter.Remaining()), reducer, removed)
    {
      if reducer == None && !removed {
        CopyWritten(sorter.Remaining());
        MergeCopies(sorter, merged);
      } else {
        MergeGroups(sorter, reducer, removed, merged);
      }
    }

    /** The old records and the ones inserted in order come before the ones added, if there are any. */
    method AddFiles(file: RecordFile, sortedFile: RecordFile?, sorter: RecordSorter)
      requires file.Complete() && Ascending(file.Contents())
      requires sortedFile != null ==> sortedFile.Complete() && Ascending(sortedFile.Contents())
      requires sorter.Valid() && !sorter.finished && sorter.skipRecords == []
      modifies sorter`skipRecords
      ensures sorter.Valid() && sorter.Given() == AllGiven(file, sortedFile, sorter.added)
    {
      ghost var first := file.Contents();
      AddFile(file, sorter);
      assert Flat(sorter.skipRecords) == first by { assert [] + first == first; }
      if sortedFile == null {
        assert first + [] == first;
      } else {
        AddFile(sortedFile, sorter);
      }
    }

    method AddFile(file: RecordFile, sorter: RecordSorter)
      requires file.Complete() && Ascending(file.Contents()) && sorter.Valid() && !sorter.finished
      modifies sorter`skipRecords
      ensures sorter.Valid() && Flat(sorter.skipRecords) == old(Flat(sorter.skipRecords)) + file.Contents()
    {
      FileEnds(file, 0);
      if file.size > file.base {
        var contents := ReadAll(file);
        sorter.AddSkipRecord(contents);
        assert sorter.skipRecords[..|sorter.skipRecords| - 1] == old(sorter.skipRecords);
      }
    }

    /** The record count and the data size are those of what has been written. */
    ghost predicate Counts(file: RecordFile)
      reads writer, file
    {
      writer.numRecords == |file.Contents()| && writer.effDataSize == BytesOf(file.Contents())
    }
  }

  /** The last value given for a key is its removal. */
  ghost predicate LastRemoved(all: seq<Pair>, g: nat)
    requires g < |all|
  {
    all[g].value == REMOVING_VALUE && forall h :: g < h < |all| ==> all[h].key != all[g].key
  }

  /** Without a reducer no removal is written, */
  lemma {:induction false} NoRemovalWritten(contents: seq<Pair>, all: seq<Pair>, i: nat)
    requires forall k :: OfKey(contents, k) == Reduced(k, OfKey(all, k), None, true)
    requires i < |contents|
    ensures contents[i].value != REMOVING_VALUE
  {
    AfterRemovalsIs(OfKey(all, contents[i].key));
    ValueIsThere(contents, i);
  }

  /** and with or without one nothing of a key that was removed last. */
  lemma {:induction false} RemovedIsGone(contents: seq<Pair>, all: seq<Pair>, reducer: Option<Reducer>, g: nat)
    requires forall k :: OfKey(contents, k) == Reduced(k, OfKey(all, k), reducer, true)
    requires g < |all| && LastRemoved(all, g)
    ensures forall i :: 0 <= i < |contents| ==> contents[i].key != all[g].key
  {
    LastOfKey(all, g);
    OfKeyNone(contents, all[g].key);
  }

  lemma {:induction false} FinishedIs(contents: seq<Pair>, all: seq<Pair>, reducer: Option<Reducer>, removed: bool)
    requires forall k :: OfKey(contents, k) == Reduced(k, OfKey(all, k), reducer, removed)
    ensures removed && reducer == None ==> forall i :: 0 <= i < |contents| ==> contents[i].value != REMOVING_VALUE
    ensures removed ==>
              forall g :: 0 <= g < |all| && all[g].value == REMOVING_VALUE
                          && (forall h :: g < h < |all| ==> all[h].key != all[g].key) ==>
              forall i :: 0 <= i < |contents| ==> contents[i].key != all[g].key
    ensures !removed && reducer == None ==> forall k :: OfKey(contents, k) == OfKey(all, k)
  {
    if removed && reducer == None {
      forall i | 0 <= i < |contents|
        ensures contents[i].value != REMOVING_VALUE
      {
        NoRemovalWritten(contents, all, i);
      }
    }
    if removed {
      forall g | 0 <= g < |all| && all[g].value == REMOVING_VALUE
                 && forall h :: g < h < |all| ==> all[h].key != all[g].key
        ensures forall i :: 0 <= i < |contents| ==> contents[i].key != all[g].key
      {
        RemovedIsGone(contents, all, reducer, g);
      }
    }
  }

  /**
   The merge is under way: the sorted records up to the g-th are written, those up to the i-th are the
   values gathered for one greater key.
   */
  ghost predicate Gathering(contents: seq<Pair>, out: seq<Pair>, g: nat, i: nat, lastKey: Key, lastValues: seq<Value>,
                            reducer: Option<Reducer>, removed: bool)
  {
    && g <= i <= |out| && Written(contents, out[..g], reducer, removed)
    && |lastValues| == i - g && (forall j :: g <= j < i ==> out[j] == Pair(lastKey, lastValues[j - g]))
    && (lastValues != [] ==> forall j :: 0 <= j < g ==> Less(out[j].key, lastKey))
  }

  lemma GatherSame(contents: seq<Pair>, out: seq<Pair>, g: nat, i: nat, lastKey: Key, lastValues: seq<Value>,
                   reducer: Option<Reducer>, removed: bool, m: nat)
    requires Gathering(contents, out, g, i, lastKey, lastValues, reducer, removed) && lastValues != []
    requires i < |out| && m == i + 1 && out[i].key == lastKey
    ensures Gathering(contents, out, g, m, lastKey, lastValues + [out[i].value], reducer, removed)
  {
  }

  lemma GroupSplits(out: seq<Pair>, g: nat, i: nat, key: Key, values: seq<Value>)
    requires g <= i <= |out| && |values| == i - g && forall j :: g <= j < i ==> out[j] == Pair(key, values[j - g])
    ensures out[..i] == out[..g] + WithKey(key, values)
  {
  }

  lemma KeysBelow(out: seq<Pair>, g: nat, i: nat, key: Key, values: seq<Value>)
    requires g < i < |out| && |values| == i - g && forall j :: g <= j < i ==> out[j] == Pair(key, values[j - g])
    requires forall j :: 0 <= j < g ==> Less(out[j].key, key)
    requires Ascending(out) && out[i].key != key
    ensures forall j :: 0 <= j < i ==> Less(out[j].key, out[i].key)
  {
    assert AtMost(out[i - 1].key, out[i].key);
    LessTotal(key, out[i].key);
    forall j | 0 <= j < i ensures Less(out[j].key, out[i].key) {
      if j < g { LessTransitive(out[j].key, key, out[i].key); }
    }
  }

  /** After the group is written the next key starts a new one. */
  lemma GatherNext(contents: seq<Pair>, out: seq<Pair>, g: nat, i: nat, lastKey: Key, lastValues: seq<Value>,
                   reducer: Option<Reducer>, removed: bool, contents': seq<Pair>, m: nat)
    requires Gathering(contents, out, g, i, lastKey, lastValues, reducer, removed) && Ascending(out)
    requires i < |out| && m == i + 1 && (lastValues == [] ==> g == 0) && (lastValues != [] ==> out[i].key != lastKey)
    requires contents' == contents + WithKey(lastKey, Reduced(lastKey, lastValues, reducer, removed))
    ensures Gathering(contents', out, i, m, out[i].key, [out[i].value], reducer, removed)
  {
    if lastValues == [] {
      assert contents' == contents;
    } else {
      GroupSplits(out, g, i, lastKey, lastValues);
      GroupWritten(contents, out[..g], reducer, removed, lastKey, lastValues, out[..i], contents');
      KeysBelow(out, g, i, lastKey, lastValues);
    }
  }

  lemma GatherEnd(contents: seq<Pair>, out: seq<Pair>, g: nat, lastKey: Key, lastValues: seq<Value>,
                  reducer: Option<Reducer>, removed: bool, contents': seq<Pair>)
    requires Gathering(contents, out, g, |out|, lastKey, lastValues, reducer, removed) && Ascending(out)
    requires contents' == contents + WithKey(lastKey, Reduced(lastKey, lastValues, reducer, removed))
    ensures Written(contents', out, reducer, removed)
  {
    assert out[..|out|] == out;
    if lastValues == [] {
      assert contents' == contents;
    } else {
      GroupSplits(out, g, |out|, lastKey, lastValues);
      GroupWritten(contents, out[..g], reducer, removed, lastKey, lastValues, out, contents');
    }
  }

  /** A file whose contents ascend can be searched. */
  lemma MergedCanBeSearched(file: RecordFile)
    requires file.Valid() && Ascending(file.Contents())
    ensures SkipSearch.Sorted(file)
  {
    var s := file.Contents();
    forall i, j | 0 <= i < j < |file.order| && file.order[i] in file.records && file.order[j] in file.records
      ensures AtMost(file.records[file.order[i]].key, file.records[file.order[j]].key)
    {
      assert AtMost(s[i].key, s[j].key);
    }
  }

  lemma NextValue(contents: seq<Pair>, key: Key, news: seq<Value>, i: nat, m: nat)
    requires m == i + 1 <= |news|
    ensures contents + WithKey(key, news[..i]) + [Pair(key, news[i])] == contents + WithKey(key, news[..m])
  {
  }

  ghost function BytesOf(s: seq<Pair>): nat {
    if |s| == 0 then 0 else BytesOf(s[..|s| - 1]) + |s[|s| - 1].key| + |s[|s| - 1].value|
  }

  lemma CountOne(s: seq<Pair>, p: Pair)
    ensures BytesOf(s + [p]) == BytesOf(s) + |p.key| + |p.value|
  {
    assert (s + [p])[..|s|] == s;
  }
}
