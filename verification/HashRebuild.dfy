/**
 The non-blocking rebuild as a protocol: one thread copies the record section into a temporary
 database, catches up with what was appended meanwhile and at last shuts the writers out for the
 rest, while any number of writers go on in every interleaving.
 */
module HashRebuild {
  import opened Basics
  import opened Processing
  import opened HashFormat
  import opened HashStore
  import opened HashUpdate
  import opened HashReplay
  import opened HashImport
  import opened HashDatabase

  const REBUILD_NONBLOCKING_MAX_TRIES := 3
  const REBUILD_BLOCKING_ALLOWANCE := 65536

  /** The file being rebuilt: its record section, and the map its users see. */
  datatype File = File(order: seq<Offset>, records: Records, end: Offset, live: map<Key, Value>)

  /**
   Where the rebuilding thread is. The offsets are what it knows; `i` and `n` number the records at
   them. `tries` counts the attempts to catch up without blocking the writers.
   */
  datatype Phase =
    | Idle(inPlace: bool)
    | Forward(at: Offset, i: nat, until: Offset, n: nat, tries: nat)
    | Extracting(at: Offset, i: nat, until: Offset, n: nat, offsets: seq<Offset>)
    | Backward(left: seq<Offset>, until: Offset, n: nat)
    | Between(begin: Offset, n: nat, tries: nat)
    | Waiting(begin: Offset, n: nat)
    | Final(at: Offset, i: nat)
    | Done

  datatype State = State(file: File, tmp: map<Key, Value>, dead: set<Key>, phase: Phase)

  /** The section is tiled by its records and replays to what the users see. */
  ghost predicate Sound(file: File, base: Offset, f: Format) {
    && f.align >= 1
    && Tiled(file.order, file.records, base, file.end, f)
    && InFile(file.order, file.records)
    && Replayed(map[], Log(file.order, file.records)) == file.live
  }

  ghost function FileOf(db: HashDBMImpl): File
    reads db
  {
    File(db.order, db.records, db.fileSize, db.live)
  }

  /** A database object in order is such a file. */
  lemma ValidIsSound(db: HashDBMImpl)
    requires db.Valid()
    ensures Sound(FileOf(db), db.recordBase, db.f)
  {
    IndexAndLogAgree(db.f, db.recordBase, db.order, db.records, db.fileSize, db.buckets, db.chains, db.hash, db.live,
                     db.inPlace);
  }

  // ---------------------------------------------------------------- steps

  /** Writers: any update while the file is in place, one appended record at most afterwards, none at the end. */
  ghost predicate Write(s: State, t: State, base: Offset, f: Format) {
    && t == s.(file := t.file) && Sound(t.file, base, f) && !s.phase.Final? && !s.phase.Done?
    && (s.phase == Idle(true) ||
        Logged(s.file.order, s.file.records, s.file.end, s.file.live, t.file.order, t.file.records, t.file.end,
               t.file.live))
  }

  /** A call of Process is such a step: any call while in place, and any call in appending mode. */
  method ProcessWhileRebuilding(db: HashDBMImpl, key: Key, proc: Processor<Key, Value>, readable: bool, writable: bool,
                                ghost s: State)
    returns (told: Option<Value>, ghost t: State)
    requires db.Valid() && s.file == FileOf(db) && !s.phase.Final? && !s.phase.Done?
    requires s.phase == Idle(true) || !db.inPlace
    modifies db, db.fbp
    ensures db.Valid() && db.inPlace == old(db.inPlace)
    ensures t == s.(file := FileOf(db)) && Write(s, t, db.recordBase, db.f)
    ensures db.live == Processed(old(db.live), key, Shown(proc, readable), writable)
    ensures told == if key !in old(db.live) then None else Some(if readable then old(db.live)[key] else "")
    ensures !writable ==> db.live == old(db.live)
    ensures writable && told.Some? ==>
                db.live == match proc.full(key, told.value)
                            case Noop => old(db.live)
                            case Remove => old(db.live) - {key}
                            case Set(v) => old(db.live)[key := v]
    ensures writable && told.None? ==>
                db.live == match proc.empty(key)
                            case Set(v) => old(db.live)[key := v]
                            case _ => old(db.live)
  {
    told := db.Process(key, proc, readable, writable);
    ValidIsSound(db);
    t := s.(file := FileOf(db));
  }

  /** The record the rebuilding thread is about to read, if it reads one, is there. */
  ghost predicate CanRead(s: State) {
    match s.phase
    case Forward(at, _, until, _, _) => at < until ==> at in s.file.records
    case Extracting(at, _, until, _, _) => at < until ==> at in s.file.records
    case Backward(left, _, _) => |left| > 0 ==> left[|left| - 1] in s.file.records
    case Final(at, _) => at < s.file.end ==> at in s.file.records
    case _ => true
  }

  /** The next step of the rebuilding thread. */
  ghost function Advanced(s: State, base: Offset): State
    requires CanRead(s)
  {
    var file := s.file;
    match s.phase
    case Idle(inPlace) =>
      // under the record lock the mode is switched to appending and the end of the file noted
      s.(phase := if inPlace then Forward(base, 0, file.end, |file.order|, 0)
                  else Extracting(base, 0, file.end, |file.order|, []))
    case Forward(at, i, until, n, tries) =>
      if at < until then
        var r := file.records[at];
        s.(tmp := Applied(s.tmp, r), phase := Forward(at + r.size, i + 1, until, n, tries))
      else s.(phase := Between(until, n, tries))
    case Extracting(at, i, until, n, offsets) =>
      if at < until then
        var r := file.records[at];
        s.(phase := Extracting(at + r.size, i + 1, until, n, offsets + (if r.op != OpVoid then [at] else [])))
      else s.(phase := Backward(offsets, until, n))
    case Backward(left, until, n) =>
      if |left| > 0 then
        var r := file.records[left[|left| - 1]];
        s.(tmp := BackLive(s.tmp, s.dead, r), dead := BackDead(s.tmp, s.dead, r),
           phase := Backward(left[..|left| - 1], until, n))
      else s.(phase := Between(until, n, 0))
    case Between(begin, n, tries) =>
      // catch up while the writers go on, if there is too much for the lock and a try is left
      if tries < REBUILD_NONBLOCKING_MAX_TRIES && begin < file.end - REBUILD_BLOCKING_ALLOWANCE then
        s.(phase := Forward(begin, n, file.end, |file.order|, tries + 1))
      else s.(phase := Waiting(begin, n))
    case Waiting(begin, n) => s.(phase := Final(begin, n))
    case Final(at, i) =>
      if at < file.end then
        var r := file.records[at];
        s.(tmp := Applied(s.tmp, r), phase := Final(at + r.size, i + 1))
      else s.(phase := Done)
    case Done => s
  }

  ghost predicate Rebuild(s: State, t: State, base: Offset) {
    !s.phase.Done? && CanRead(s) && t == Advanced(s, base)
  }

  ghost predicate Init(s: State, base: Offset, f: Format) {
    Sound(s.file, base, f) && s.phase.Idle? && s.tmp == map[] && s.dead == {}
  }

  ghost predicate Step(s: State, t: State, base: Offset, f: Format) {
    Write(s, t, base, f) || Rebuild(s, t, base)
  }

  /** A run: any interleaving of writers' and the rebuilding thread's steps. */
  ghost predicate Run(run: seq<State>, base: Offset, f: Format) {
    && |run| > 0 && Init(run[0], base, f)
    && forall j {:trigger Next(run, base, f, j)} :: 0 <= j < |run| - 1 ==> Next(run, base, f, j)
  }

  ghost predicate Next(run: seq<State>, base: Offset, f: Format, j: nat)
    requires j + 1 < |run|
  {
    Step(run[j], run[j + 1], base, f)
  }

  // ---------------------------------------------------------------- the invariant

  /** The temporary database holds the replay of the first `i` records, the next of which is at `at`. */
  ghost predicate CopiedTo(file: File, tmp: map<Key, Value>, at: Offset, i: nat)
    requires InFile(file.order, file.records)
  {
    && i <= |file.order| && at == Edge(file.order, file.end, i)
    && tmp == Replayed(map[], Log(file.order, file.records)[..i])
  }

  ghost predicate InBounds(file: File, i: nat, until: Offset, n: nat) {
    i <= n <= |file.order| && until == Edge(file.order, file.end, n)
  }

  ghost predicate CopiedBack(file: File, tmp: map<Key, Value>, dead: set<Key>, left: seq<Offset>, n: nat)
    requires InFile(file.order, file.records) && n <= |file.order|
  {
    var busy := Busy(file.order[..n], file.records);
    && InFile(busy, file.records) && |left| <= |busy| && left == busy[..|left|]
    && ReadBack(Log(busy, file.records)[|left|..], tmp, dead)
  }

  ghost predicate Inv(s: State, base: Offset, f: Format) {
    && Sound(s.file, base, f)
    && match s.phase
       case Idle(_) => s.tmp == map[] && s.dead == {}
       case Forward(at, i, until, n, tries) =>
         InBounds(s.file, i, until, n) && CopiedTo(s.file, s.tmp, at, i) && tries <= REBUILD_NONBLOCKING_MAX_TRIES
       case Extracting(at, i, until, n, offsets) =>
         && InBounds(s.file, i, until, n) && at == Edge(s.file.order, s.file.end, i)
         && offsets == Busy(s.file.order[..i], s.file.records) && s.tmp == map[] && s.dead == {}
       case Backward(left, until, n) => InBounds(s.file, 0, until, n) && CopiedBack(s.file, s.tmp, s.dead, left, n)
       case Between(begin, n, tries) => CopiedTo(s.file, s.tmp, begin, n) && tries <= REBUILD_NONBLOCKING_MAX_TRIES
       case Waiting(begin, n) => CopiedTo(s.file, s.tmp, begin, n)
       case Final(at, i) => CopiedTo(s.file, s.tmp, at, i)
       case Done => s.tmp == s.file.live
  }

  /** What one appended record leaves as it was. */
  ghost predicate Extends(file: File, file': File) {
    && |file.order| <= |file'.order| && file'.order[..|file.order|] == file.order
    && (forall o :: o in file.records ==> o in file'.records && file'.records[o] == file.records[o])
    && forall i :: 0 <= i <= |file.order| ==> Edge(file'.order, file'.end, i) == Edge(file.order, file.end, i)
  }

  lemma LoggedExtends(s: File, t: File)
    requires Logged(s.order, s.records, s.end, s.live, t.order, t.records, t.end, t.live)
    ensures Extends(s, t)
  {
  }

  lemma {:induction false} ExtendedLog(order: seq<Offset>, records: Records, order': seq<Offset>, records': Records,
                                       n: nat)
    requires InFile(order, records) && InFile(order', records') && n <= |order| <= |order'|
    requires order'[..|order|] == order
    requires forall o :: o in records ==> o in records' && records'[o] == records[o]
    ensures Log(order', records')[..n] == Log(order, records)[..n]
  {
    forall i | 0 <= i < n ensures Log(order', records')[i] == Log(order, records)[i] {
      assert order'[i] == order'[..|order|][i];
    }
  }

  lemma {:induction false} BusyFrame(order: seq<Offset>, records: Records, records': Records)
    requires InFile(order, records)
    requires forall o :: o in records ==> o in records' && records'[o] == records[o]
    ensures Busy(order, records') == Busy(order, records)
  {
    if |order| > 0 {
      BusyFrame(order[..|order| - 1], records, records');
    }
  }

  lemma ExtendsCopied(s: File, t: File, base: Offset, f: Format, tmp: map<Key, Value>, at: Offset, i: nat)
    requires Sound(s, base, f) && Sound(t, base, f) && Extends(s, t) && CopiedTo(s, tmp, at, i)
    ensures CopiedTo(t, tmp, at, i)
  {
    ExtendedLog(s.order, s.records, t.order, t.records, i);
  }

  lemma LogFrame(order: seq<Offset>, records: Records, records': Records)
    requires InFile(order, records)
    requires forall o :: o in records ==> o in records' && records'[o] == records[o]
    ensures InFile(order, records') && Log(order, records') == Log(order, records)
  {
    forall i | 0 <= i < |order| ensures order[i] in records' {
      var o := order[i];
      assert o in records && records'[o] == records[o];
    }
    ExtendedLog(order, records, order, records', |order|);
  }

  lemma ExtendsBack(s: File, t: File, base: Offset, f: Format, tmp: map<Key, Value>, dead: set<Key>,
                    left: seq<Offset>, n: nat)
    requires Sound(s, base, f) && Sound(t, base, f) && Extends(s, t) && n <= |s.order|
             && CopiedBack(s, tmp, dead, left, n)
    ensures CopiedBack(t, tmp, dead, left, n)
  {
    assert t.order[..n] == s.order[..n];
    BusyFrame(s.order[..n], s.records, t.records);
    LogFrame(Busy(s.order[..n], s.records), s.records, t.records);
  }

  lemma WriteKeeps(s: State, t: State, base: Offset, f: Format)
    requires Inv(s, base, f) && Write(s, t, base, f)
    ensures Inv(t, base, f)
  {
    if s.phase != Idle(true) {
      LoggedExtends(s.file, t.file);
      ExtendsKeeps(s, t, base, f);
    }
  }

  lemma ExtendsKeeps(s: State, t: State, base: Offset, f: Format)
    requires Inv(s, base, f) && t == s.(file := t.file) && Sound(t.file, base, f) && Extends(s.file, t.file)
             && !s.phase.Done?
    ensures Inv(t, base, f)
  {
    match s.phase
    case Idle(_) =>
    case Forward(at, i, until, n, _) => ExtendsCopied(s.file, t.file, base, f, s.tmp, at, i);
    case Extracting(at, i, until, n, offsets) =>
      assert t.file.order[..i] == s.file.order[..i];
      BusyFrame(s.file.order[..i], s.file.records, t.file.records);
    case Backward(left, until, n) => ExtendsBack(s.file, t.file, base, f, s.tmp, s.dead, left, n);
    case Between(begin, n, _) => ExtendsCopied(s.file, t.file, base, f, s.tmp, begin, n);
    case Waiting(begin, n) => ExtendsCopied(s.file, t.file, base, f, s.tmp, begin, n);
    case Final(at, i) => ExtendsCopied(s.file, t.file, base, f, s.tmp, at, i);
  }

  /** Applying the record at the i-th edge copies one record more. */
  lemma CopyOne(file: File, base: Offset, f: Format, tmp: map<Key, Value>, at: Offset, i: nat, n: nat)
    requires Sound(file, base, f) && CopiedTo(file, tmp, at, i) && i <= n <= |file.order|
    requires at < Edge(file.order, file.end, n)
    ensures i < n && at in file.records
    ensures CopiedTo(file, Applied(tmp, file.records[at]), at + file.records[at].size, i + 1)
  {
    EdgeStep(file.order, file.records, base, file.end, f, i, n);
    ReplayedOneMore(file.order, file.records, i, i + 1);
  }

  lemma ReplayedOneMore(order: seq<Offset>, records: Records, i: nat, m: nat)
    requires InFile(order, records) && m == i + 1 <= |order|
    ensures Replayed(map[], Log(order, records)[..m])
            == Applied(Replayed(map[], Log(order, records)[..i]), records[order[i]])
  {
    assert Log(order, records)[..i] == Log(order, records)[0..i];
    assert Log(order, records)[..m] == Log(order, records)[0..m];
    ReplayedNext(map[], order, records, 0, i);
  }

  lemma AtEdge(file: File, base: Offset, f: Format, i: nat, n: nat)
    requires Sound(file, base, f) && i <= n <= |file.order|
    requires Edge(file.order, file.end, i) >= Edge(file.order, file.end, n)
    ensures i == n
  {
    EdgeStep(file.order, file.records, base, file.end, f, i, n);
  }

  lemma ForwardKeeps(s: State, base: Offset, f: Format)
    requires Inv(s, base, f) && s.phase.Forward?
    ensures CanRead(s) && Inv(Advanced(s, base), base, f)
  {
    var p := s.phase;
    if p.at < p.until {
      CopyOne(s.file, base, f, s.tmp, p.at, p.i, p.n);
    } else {
      AtEdge(s.file, base, f, p.i, p.n);
    }
  }

  lemma ExtractKeeps(s: State, base: Offset, f: Format)
    requires Inv(s, base, f) && s.phase.Extracting?
    ensures CanRead(s) && Inv(Advanced(s, base), base, f)
  {
    var p := s.phase;
    if p.at < p.until {
      ExtractOne(s.file, base, f, p.at, p.i, p.until, p.n, p.offsets, p.i + 1);
    } else {
      ExtractEnd(s.file, base, f, p.at, p.i, p.n, p.offsets);
    }
  }

  /** The offset of one record more is extracted, unless it is void. */
  lemma ExtractOne(file: File, base: Offset, f: Format, at: Offset, i: nat, until: Offset, n: nat,
                   offsets: seq<Offset>, m: nat)
    requires Sound(file, base, f) && InBounds(file, i, until, n) && at == Edge(file.order, file.end, i) && m == i + 1
    requires offsets == Busy(file.order[..i], file.records) && at < until
    ensures at in file.records && InBounds(file, m, until, n)
            && at + file.records[at].size == Edge(file.order, file.end, m)
    ensures offsets + (if file.records[at].op != OpVoid then [at] else []) == Busy(file.order[..m], file.records)
  {
    EdgeStep(file.order, file.records, base, file.end, f, i, n);
    assert file.order[..m][..i] == file.order[..i];
  }

  /** At the end no entry has been read back yet. */
  lemma ExtractEnd(file: File, base: Offset, f: Format, at: Offset, i: nat, n: nat, offsets: seq<Offset>)
    requires Sound(file, base, f) && i <= n <= |file.order|
             && at == Edge(file.order, file.end, i) >= Edge(file.order, file.end, n)
    requires offsets == Busy(file.order[..i], file.records)
    ensures i == n && CopiedBack(file, map[], {}, offsets, n)
  {
    AtEdge(file, base, f, i, n);
    var order, records := file.order[..n], file.records;
    BusyInFile(order, records);
    var busy := Busy(order, records);
    assert busy[..|busy|] == busy && Log(busy, records)[|busy|..] == [];
  }

  lemma LogFrom(order: seq<Offset>, records: Records, i: nat, m: nat)
    requires InFile(order, records) && m == i + 1 <= |order|
    ensures Log(order, records)[i..] == [records[order[i]]] + Log(order, records)[m..]
  {
  }

  lemma BackOne(file: File, base: Offset, f: Format, tmp: map<Key, Value>, dead: set<Key>, left: seq<Offset>, n: nat)
    requires Sound(file, base, f) && n <= |file.order| && CopiedBack(file, tmp, dead, left, n) && |left| > 0
    ensures left[|left| - 1] in file.records
    ensures var r := file.records[left[|left| - 1]];
            CopiedBack(file, BackLive(tmp, dead, r), BackDead(tmp, dead, r), left[..|left| - 1], n)
  {
    var e := |left| - 1;
    var busy := Busy(file.order[..n], file.records);
    assert left[e] == busy[e] && left[..e] == busy[..e];
    LogFrom(busy, file.records, e, |left|);
    ReadBackStep(file.records[busy[e]], Log(busy, file.records)[|left|..], tmp, dead);
  }

  lemma BackAll(file: File, base: Offset, f: Format, tmp: map<Key, Value>, dead: set<Key>, n: nat)
    requires Sound(file, base, f) && n <= |file.order| && CopiedBack(file, tmp, dead, [], n)
    ensures tmp == Replayed(map[], Log(file.order, file.records)[..n])
  {
    var order, records := file.order[..n], file.records;
    assert Log(Busy(order, records), records)[0..] == Log(Busy(order, records), records);
    BusyReplay(order, records);
    ExtendedLog(order, records, file.order, records, n);
    assert Log(order, records)[..n] == Log(order, records);
  }

  lemma BackKeeps(s: State, base: Offset, f: Format)
    requires Inv(s, base, f) && s.phase.Backward?
    ensures CanRead(s) && Inv(Advanced(s, base), base, f)
  {
    var p := s.phase;
    if |p.left| > 0 {
      BackOne(s.file, base, f, s.tmp, s.dead, p.left, p.n);
    } else {
      assert p.left == [];
      BackAll(s.file, base, f, s.tmp, s.dead, p.n);
    }
  }

  lemma FinalKeeps(s: State, base: Offset, f: Format)
    requires Inv(s, base, f) && s.phase.Final?
    ensures CanRead(s) && Inv(Advanced(s, base), base, f)
  {
    var p, n := s.phase, |s.file.order|;
    if p.at < s.file.end {
      CopyOne(s.file, base, f, s.tmp, p.at, p.i, n);
    } else {
      CopiedAll(s.file, base, f, s.tmp, p.at, p.i);
    }
  }

  lemma CopiedAll(file: File, base: Offset, f: Format, tmp: map<Key, Value>, at: Offset, i: nat)
    requires Sound(file, base, f) && CopiedTo(file, tmp, at, i) && at >= file.end
    ensures tmp == file.live
  {
    AtEdge(file, base, f, i, |file.order|);
    assert Log(file.order, file.records)[..|file.order|] == Log(file.order, file.records);
  }

  lemma OtherKeeps(s: State, base: Offset, f: Format)
    requires Inv(s, base, f) && (s.phase.Idle? || s.phase.Between? || s.phase.Waiting?)
    ensures CanRead(s) && Inv(Advanced(s, base), base, f)
  {
    assert Log(s.file.order, s.file.records)[..0] == [] && Busy(s.file.order[..0], s.file.records) == [];
    EdgeStep(s.file.order, s.file.records, base, s.file.end, f, 0, 0);
  }

  /** The rebuilding thread always finds the record it is to read, and keeps the invariant. */
  lemma RebuildKeeps(s: State, base: Offset, f: Format)
    requires Inv(s, base, f) && !s.phase.Done?
    ensures CanRead(s) && Inv(Advanced(s, base), base, f)
  {
    match s.phase
    case Forward(_, _, _, _, _) => ForwardKeeps(s, base, f);
    case Extracting(_, _, _, _, _) => ExtractKeeps(s, base, f);
    case Backward(_, _, _) => BackKeeps(s, base, f);
    case Final(_, _) => FinalKeeps(s, base, f);
    case _ => OtherKeeps(s, base, f);
  }

  lemma StepKeeps(s: State, t: State, base: Offset, f: Format)
    requires Inv(s, base, f) && Step(s, t, base, f)
    ensures Inv(t, base, f)
  {
    if Write(s, t, base, f) {
      WriteKeeps(s, t, base, f);
    } else {
      RebuildKeeps(s, base, f);
    }
  }

  lemma {:induction false} RunKeeps(run: seq<State>, base: Offset, f: Format, j: nat)
    requires Run(run, base, f) && j < |run|
    ensures Inv(run[j], base, f)
  {
    if j > 0 {
      RunKeeps(run, base, f, j - 1);
      assert Next(run, base, f, j - 1);
      StepKeeps(run[j - 1], run[j], base, f);
    }
  }

  // ---------------------------------------------------------------- what the rebuild promises

  /** Whatever the writers did meanwhile, the rebuilt database holds what they see when it takes over. */
  lemma RebuiltIsExact(run: seq<State>, base: Offset, f: Format, j: nat)
    requires Run(run, base, f) && j < |run|
    ensures run[j].phase.Done? ==> run[j].tmp == run[j].file.live
    ensures run[j].phase.Between? ==>
              && InFile(run[j].file.order, run[j].file.records) && run[j].phase.n <= |run[j].file.order|
              && run[j].phase.begin == Edge(run[j].file.order, run[j].file.end, run[j].phase.n)
              && run[j].tmp == Replayed(map[], Log(run[j].file.order, run[j].file.records)[..run[j].phase.n])
  {
    RunKeeps(run, base, f, j);
  }

  /** From the switch to appending on, every record already in the file stays as it is and where it is. */
  lemma {:induction false} PrefixNeverChanges(run: seq<State>, base: Offset, f: Format, i: nat, j: nat)
    requires Run(run, base, f) && i <= j < |run| && !run[i].phase.Idle?
    ensures !run[j].phase.Idle? && Extends(run[i].file, run[j].file)
  {
    if i < j {
      PrefixNeverChanges(run, base, f, i, j - 1);
      assert Next(run, base, f, j - 1);
      var s, t := run[j - 1], run[j];
      if Write(s, t, base, f) {
        LoggedExtends(s.file, t.file);
        assert t.file.order[..|run[i].file.order|] == s.file.order[..|run[i].file.order|];
      }
    }
  }

  /** Every database object can be rebuilt from, */
  lemma RunStarts(db: HashDBMImpl)
    requires db.Valid()
    ensures Run([State(FileOf(db), map[], {}, Idle(db.inPlace))], db.recordBase, db.f)
  {
    ValidIsSound(db);
  }

  /** and a run goes on with any write, and with what the rebuilding thread does next until it is done. */
  lemma RunGoesOn(run: seq<State>, t: State, base: Offset, f: Format, n: nat)
    requires Run(run, base, f) && n == |run| - 1 && !run[n].phase.Done?
    requires Write(run[n], t, base, f) || (CanRead(run[n]) && t == Advanced(run[n], base))
    ensures Run(run + [t], base, f)
  {
    forall j | 0 <= j < |run|
      ensures Next(run + [t], base, f, j)
    {
      if j < n { assert Next(run, base, f, j); }
    }
  }

  /** How often in the first `j` steps of a run the rebuilding thread began to catch up with the writers. */
  ghost function CatchUps(run: seq<State>, j: nat): nat
    requires j < |run|
  {
    if j == 0 then 0
    else CatchUps(run, j - 1) + if run[j - 1].phase.Between? && run[j].phase.Forward? then 1 else 0
  }

  /** Only catching up once more counts as a try, and at most three times. */
  lemma TriesStep(s: State, t: State, base: Offset, f: Format)
    requires Step(s, t, base, f)
    ensures t.phase.Forward? ==>
              || (s.phase.Forward? && t.phase.tries == s.phase.tries)
              || (s.phase.Between? && t.phase.tries == s.phase.tries + 1 <= 3)
              || (s.phase.Idle? && t.phase.tries == 0)
    ensures t.phase.Between? ==>
              || ((s.phase.Forward? || s.phase.Between?) && t.phase.tries == s.phase.tries)
              || (s.phase.Backward? && t.phase.tries == 0)
    ensures t.phase.Idle? || t.phase.Extracting? || t.phase.Backward? ==>
              s.phase.Idle? || s.phase.Extracting? || s.phase.Backward?
  {
    if Write(s, t, base, f) { assert t.phase == s.phase; }
  }

  lemma {:induction false} TriesAreCatchUps(run: seq<State>, base: Offset, f: Format, j: nat)
    requires Run(run, base, f) && j < |run|
    ensures run[j].phase.Forward? || run[j].phase.Between? ==> run[j].phase.tries == CatchUps(run, j)
    ensures run[j].phase.Idle? || run[j].phase.Extracting? || run[j].phase.Backward? ==> CatchUps(run, j) == 0
    ensures CatchUps(run, j) <= 3
  {
    if j > 0 {
      TriesAreCatchUps(run, base, f, j - 1);
      assert Next(run, base, f, j - 1);
      TriesStep(run[j - 1], run[j], base, f);
    }
  }

  /** A file updated in place is read forward; one that was appended to is read backward the first time. */
  lemma {:induction false} ReadsWhichWay(run: seq<State>, base: Offset, f: Format, j: nat)
    requires Run(run, base, f) && j < |run|
    ensures run[0].phase == Idle(true) ==> !run[j].phase.Extracting? && !run[j].phase.Backward?
    ensures run[0].phase == Idle(false) && run[j].phase.Forward? ==> CatchUps(run, j) > 0
    ensures run[j].phase.Idle? ==> run[j].phase == run[0].phase
  {
    if j > 0 {
      ReadsWhichWay(run, base, f, j - 1);
      assert Next(run, base, f, j - 1);
      WhichWayStep(run[j - 1], run[j], base, f);
    }
  }

  lemma WhichWayStep(s: State, t: State, base: Offset, f: Format)
    requires Step(s, t, base, f)
    ensures t.phase.Extracting? ==> s.phase.Extracting? || s.phase == Idle(false)
    ensures t.phase.Backward? ==> s.phase.Backward? || s.phase.Extracting?
    ensures t.phase.Forward? ==> s.phase.Forward? || s.phase == Idle(true) || s.phase.Between?
    ensures t.phase.Idle? ==> t.phase == s.phase
  {
    if Write(s, t, base, f) { assert t.phase == s.phase; }
  }

  /**
   The writers are shut out as soon as little is left to copy, or the rebuilding thread has caught up
   three times; as long as neither holds it catches up once more, with all there is at that time.
   */
  lemma ShutsOutForLittle(run: seq<State>, base: Offset, f: Format, j: nat, m: nat)
    requires Run(run, base, f) && m == j + 1 < |run| && run[j].phase.Between? && run[m].phase != run[j].phase
    ensures var (begin, end) := (run[j].phase.begin, run[j].file.end);
            if end - begin <= 65536 || CatchUps(run, j) == 3 then run[m].phase == Waiting(begin, run[j].phase.n)
            else run[m].phase.Forward? && run[m].phase.at == begin && run[m].phase.until == end
  {
    TriesAreCatchUps(run, base, f, j);
    assert Next(run, base, f, j);
  }

  /** The work left to the rebuilding thread: its stage, the tries left, the records left. */
  ghost function Stage(s: State): nat {
    match s.phase
    case Idle(_) => 7
    case Extracting(_, _, _, _, _) => 6
    case Backward(_, _, _) => 5
    case Forward(_, _, _, _, _) => 4
    case Between(_, _, _) => 4
    case Waiting(_, _) => 3
    case Final(_, _) => 2
    case Done => 1
  }

  ghost function TriesLeft(s: State): int {
    match s.phase
    case Forward(_, _, _, _, tries) => 2 * (REBUILD_NONBLOCKING_MAX_TRIES - tries) + 1
    case Between(_, _, tries) => 2 * (REBUILD_NONBLOCKING_MAX_TRIES - tries)
    case _ => 0
  }

  ghost function RecordsLeft(s: State): int {
    match s.phase
    case Forward(_, i, _, n, _) => n - i
    case Extracting(_, i, _, n, _) => n - i
    case Backward(left, _, _) => |left|
    case Final(_, i) => |s.file.order| - i
    case _ => 0
  }

  /** The records a phase still has to read are there, and reading one leaves one less. */
  lemma RecordsLeftShrink(s: State, base: Offset, f: Format)
    requires Inv(s, base, f)
    ensures RecordsLeft(s) >= 0 && TriesLeft(s) >= 0
    ensures s.phase.Forward? || s.phase.Extracting? ==> (s.phase.at < s.phase.until <==> RecordsLeft(s) > 0)
    ensures s.phase.Final? ==> (s.phase.at < s.file.end <==> RecordsLeft(s) > 0)
  {
    var order, records, end := s.file.order, s.file.records, s.file.end;
    match s.phase
    case Forward(_, i, _, n, _) => EdgeStep(order, records, base, end, f, i, n);
    case Extracting(_, i, _, n, _) => EdgeStep(order, records, base, end, f, i, n);
    case Final(_, i) => EdgeStep(order, records, base, end, f, i, |order|);
    case _ =>
  }

  lemma CanAlwaysRead(s: State, base: Offset, f: Format)
    requires Inv(s, base, f) && !s.phase.Done?
    ensures CanRead(s)
  {
    RebuildKeeps(s, base, f);
  }

  /** The rebuilding thread is never stuck or driven back: it always has a step, which lessens what is left to do. */
  lemma RebuildAdvances(s: State, base: Offset, f: Format)
    requires Inv(s, base, f) && !s.phase.Done?
    ensures CanRead(s) && TriesLeft(s) >= 0 && RecordsLeft(s) >= 0
    ensures var t := Advanced(s, base);
            || Stage(t) < Stage(s)
            || (Stage(t) == Stage(s) && TriesLeft(t) < TriesLeft(s))
            || (Stage(t) == Stage(s) && TriesLeft(t) == TriesLeft(s) && RecordsLeft(t) < RecordsLeft(s))
  {
    CanAlwaysRead(s, base, f);
    RecordsLeftShrink(s, base, f);
    Advances(s, base);
  }

  lemma Advances(s: State, base: Offset)
    requires CanRead(s) && !s.phase.Done?
    requires s.phase.Forward? || s.phase.Extracting? ==> (s.phase.at < s.phase.until <==> RecordsLeft(s) > 0)
    requires s.phase.Final? ==> (s.phase.at < s.file.end <==> RecordsLeft(s) > 0)
    ensures var t := Advanced(s, base);
            || Stage(t) < Stage(s)
            || (Stage(t) == Stage(s) && TriesLeft(t) < TriesLeft(s))
            || (Stage(t) == Stage(s) && TriesLeft(t) == TriesLeft(s) && RecordsLeft(t) < RecordsLeft(s))
  {
  }

  /** No write adds to what is left to do. */
  lemma WritesDoNotDelay(s: State, t: State, base: Offset, f: Format)
    requires Write(s, t, base, f)
    ensures Stage(t) == Stage(s) && TriesLeft(t) == TriesLeft(s) && RecordsLeft(t) == RecordsLeft(s)
  {
  }
}
