/**
 Compare-and-exchange over several records: on one database as a list of checks and settings in one
 call, and on a sharded database as calls nested in each other's callbacks, so that every check has
 been made when the first record is written.

 `m` and `to` are the numbers after `i` and `s`: contracts name them, so that what one step ensures
 is literally what the next one requires.
 */
module ShardExchange {
  import opened Multiples

  type Key = string
  type Value = string

  /** What is expected of a record, and what it is to be set to; without a value it is to be removed. */
  datatype Expected = Missing | AnyData | Exactly(value: Value)

  datatype Desired = Gone | Be(value: Value)

  datatype Condition = Condition(key: Key, expected: Expected)

  datatype Setting = Setting(key: Key, desired: Desired)

  datatype Status = Success | Infeasible

  // ---------------------------------------------------------------- one database

  predicate Met(m: map<Key, Value>, c: Condition) {
    match c.expected
    case Missing => c.key !in m
    case AnyData => c.key in m
    case Exactly(v) => c.key in m && m[c.key] == v
  }

  ghost predicate AllMet(m: map<Key, Value>, expected: seq<Condition>) {
    forall i :: 0 <= i < |expected| ==> Met(m, expected[i])
  }

  function Put(m: map<Key, Value>, s: Setting): map<Key, Value> {
    match s.desired
    case Gone => m - {s.key}
    case Be(v) => m[s.key := v]
  }

  ghost function PutAll(m: map<Key, Value>, desired: seq<Setting>): map<Key, Value> {
    if |desired| == 0 then m else Put(PutAll(m, desired[..|desired| - 1]), desired[|desired| - 1])
  }

  /** All settings if all conditions are met, otherwise none. */
  ghost function Exchanged(m: map<Key, Value>, expected: seq<Condition>, desired: seq<Setting>): map<Key, Value> {
    if AllMet(m, expected) then PutAll(m, desired) else m
  }

  /** The exchange on one database: checkers and setters are called in turn and share a flag. */
  method CompareExchangeMulti(m: map<Key, Value>, expected: seq<Condition>, desired: seq<Setting>)
    returns (m': map<Key, Value>, status: Status)
    ensures m' == Exchanged(m, expected, desired)
    ensures status == Success <==> AllMet(m, expected)
    ensures status == Success <==>
              forall i :: 0 <= i < |expected| ==>
                match expected[i].expected
                case Missing => expected[i].key !in m
                case AnyData => expected[i].key in m
                case Exactly(v) => expected[i].key in m && m[expected[i].key] == v
    ensures status != Success ==> m' == m
    ensures status == Success ==> forall k :: (forall i :: 0 <= i < |desired| ==> desired[i].key != k) ==>
              (k in m' <==> k in m) && (k in m ==> m'[k] == m[k])
    ensures status == Success ==>
              forall i :: 0 <= i < |desired| && (forall j :: i < j < |desired| ==> desired[j].key != desired[i].key) ==>
                match desired[i].desired
                case Gone => desired[i].key !in m'
                case Be(v) => desired[i].key in m' && m'[desired[i].key] == v
  {
    m' := m;
    var noop := false;
    for i := 0 to |expected|
      invariant noop <==> !AllMet(m, expected[..i])
    {
      assert AllMet(m, expected[..i + 1]) <==> AllMet(m, expected[..i]) && Met(m, expected[i]) by {
        AllMetStep(m, expected, i, i + 1);
      }
      if !Met(m', expected[i]) {
        noop := true;
      }
    }
    assert expected[..|expected|] == expected;
    for i := 0 to |desired|
      invariant m' == if noop then m else PutAll(m, desired[..i])
    {
      PutAllStep(m, desired, i, i + 1);
      if !noop {
        m' := SetOne(m', desired[i]);
      }
    }
    assert desired[..|desired|] == desired;
    status := if noop then Infeasible else Success;
    PutAllIs(m, desired);
  }

  /** What a setter answers: nothing is to be done to remove a record that is not there. */
  function SetOne(m: map<Key, Value>, s: Setting): (r: map<Key, Value>)
    ensures r == Put(m, s)
  {
    if s.desired.Gone? && s.key !in m then
      assert m - {s.key} == m;
      m
    else Put(m, s)
  }

  lemma AllMetStep(m: map<Key, Value>, expected: seq<Condition>, i: nat, n: nat)
    requires n == i + 1 <= |expected|
    ensures AllMet(m, expected[..n]) <==> AllMet(m, expected[..i]) && Met(m, expected[i])
  {
    if AllMet(m, expected[..n]) {
      forall j | 0 <= j < i ensures Met(m, expected[..i][j]) { assert expected[..n][j] == expected[..i][j]; }
      assert expected[..n][i] == expected[i];
    }
    if AllMet(m, expected[..i]) && Met(m, expected[i]) {
      forall j | 0 <= j < n ensures Met(m, expected[..n][j]) {
        if j < i { assert expected[..n][j] == expected[..i][j]; }
      }
    }
  }

  lemma PutAllStep(m: map<Key, Value>, desired: seq<Setting>, i: nat, n: nat)
    requires n == i + 1 <= |desired|
    ensures PutAll(m, desired[..n]) == Put(PutAll(m, desired[..i]), desired[i])
  {
    assert desired[..n][..i] == desired[..i];
  }

  lemma PutAllLast(m: map<Key, Value>, desired: seq<Setting>, rest: seq<Setting>, c: Setting)
    requires desired == rest + [c]
    ensures PutAll(m, desired) == Put(PutAll(m, rest), c)
  {
    assert desired[..|desired| - 1] == rest;
  }

  /** A key no setting is about is left as it is, */
  lemma {:induction false} PutAllElsewhere(m: map<Key, Value>, desired: seq<Setting>, k: Key)
    requires forall i :: 0 <= i < |desired| ==> desired[i].key != k
    ensures (k in PutAll(m, desired) <==> k in m) && (k in m ==> PutAll(m, desired)[k] == m[k])
  {
    if |desired| > 0 {
      PutAllElsewhere(m, desired[..|desired| - 1], k);
    }
  }

  /** and for the others the last setting decides. */
  lemma {:induction false} PutAllThere(m: map<Key, Value>, desired: seq<Setting>, i: nat)
    requires i < |desired| && forall j :: i < j < |desired| ==> desired[j].key != desired[i].key
    ensures var k, after := desired[i].key, PutAll(m, desired);
            match desired[i].desired
            case Gone => k !in after
            case Be(v) => k in after && after[k] == v
  {
    if i < |desired| - 1 {
      var rest := desired[..|desired| - 1];
      assert rest[i] == desired[i];
      PutAllThere(m, rest, i);
    }
  }

  lemma PutAllIs(m: map<Key, Value>, desired: seq<Setting>)
    ensures forall k :: (forall i :: 0 <= i < |desired| ==> desired[i].key != k) ==>
              (k in PutAll(m, desired) <==> k in m) && (k in m ==> PutAll(m, desired)[k] == m[k])
    ensures forall i :: 0 <= i < |desired| && (forall j :: i < j < |desired| ==> desired[j].key != desired[i].key) ==>
              match desired[i].desired
              case Gone => desired[i].key !in PutAll(m, desired)
              case Be(v) => desired[i].key in PutAll(m, desired) && PutAll(m, desired)[desired[i].key] == v
  {
    forall k | forall i :: 0 <= i < |desired| ==> desired[i].key != k
      ensures (k in PutAll(m, desired) <==> k in m) && (k in m ==> PutAll(m, desired)[k] == m[k])
    {
      PutAllElsewhere(m, desired, k);
    }
    forall i | 0 <= i < |desired| && (forall j :: i < j < |desired| ==> desired[j].key != desired[i].key)
      ensures match desired[i].desired
              case Gone => desired[i].key !in PutAll(m, desired)
              case Be(v) => desired[i].key in PutAll(m, desired) && PutAll(m, desired)[desired[i].key] == v
    {
      PutAllThere(m, desired, i);
    }
  }

  // ---------------------------------------------------------------- commands

  /** What one shard has to check and to set. */
  datatype Command = Command(shard: nat, expected: seq<Condition>, desired: seq<Setting>)

  /** Every check from the c-th command on is met. */
  ghost predicate AllPass(dbms: seq<map<Key, Value>>, commands: seq<Command>, c: nat)
    requires c <= |commands| && forall j :: 0 <= j < |commands| ==> commands[j].shard < |dbms|
    decreases |commands| - c
  {
    c < |commands| ==> AllMet(dbms[commands[c].shard], commands[c].expected) && AllPass(dbms, commands, c + 1)
  }

  /** The shards after every setting from the c-th command on. */
  ghost function After(dbms: seq<map<Key, Value>>, commands: seq<Command>, c: nat): (r: seq<map<Key, Value>>)
    requires c <= |commands| && forall j :: 0 <= j < |commands| ==> commands[j].shard < |dbms|
    ensures |r| == |dbms|
    decreases |commands| - c
  {
    if c == |commands| then dbms
    else
      var s := commands[c].shard;
      After(dbms, commands, c + 1)[s := PutAll(dbms[s], commands[c].desired)]
  }

  /** The shards of the commands ascend. */
  ghost predicate InOrder(commands: seq<Command>) {
    forall i, j :: 0 <= i < j < |commands| ==> commands[i].shard < commands[j].shard
  }

  lemma {:induction false} AfterElsewhere(dbms: seq<map<Key, Value>>, commands: seq<Command>, c: nat, s: nat)
    requires c <= |commands| && forall j :: 0 <= j < |commands| ==> commands[j].shard < |dbms|
    requires s < |dbms| && forall j :: c <= j < |commands| ==> commands[j].shard != s
    ensures After(dbms, commands, c)[s] == dbms[s]
    decreases |commands| - c
  {
    if c < |commands| { AfterElsewhere(dbms, commands, c + 1, s); }
  }

  lemma {:induction false} AfterThere(dbms: seq<map<Key, Value>>, commands: seq<Command>, c: nat, j: nat)
    requires c <= j < |commands| && (forall j :: 0 <= j < |commands| ==> commands[j].shard < |dbms|)
             && InOrder(commands)
    ensures After(dbms, commands, c)[commands[j].shard] == PutAll(dbms[commands[j].shard], commands[j].desired)
    decreases |commands| - c
  {
    if c < j { AfterThere(dbms, commands, c + 1, j); }
  }

  lemma {:induction false} AllPassIs(dbms: seq<map<Key, Value>>, commands: seq<Command>, c: nat)
    requires c <= |commands| && forall j :: 0 <= j < |commands| ==> commands[j].shard < |dbms|
    ensures AllPass(dbms, commands, c) <==>
              forall j :: c <= j < |commands| ==> AllMet(dbms[commands[j].shard], commands[j].expected)
    decreases |commands| - c
  {
    if c < |commands| { AllPassIs(dbms, commands, c + 1); }
  }

  // ---------------------------------------------------------------- the sharded database

  /** The commands are for shards there are, in ascending order, and none is empty. */
  ghost predicate Fit(commands: seq<Command>, n: nat) {
    && InOrder(commands)
    && forall j :: 0 <= j < |commands| ==>
         commands[j].shard < n && (|commands[j].expected| > 0 || |commands[j].desired| > 0)
  }

  /** The checks of the commands before the c-th are met. */
  ghost predicate PassedTo(dbms: seq<map<Key, Value>>, commands: seq<Command>, c: nat)
    requires Fit(commands, |dbms|) && c <= |commands|
  {
    forall j :: 0 <= j < c ==> AllMet(dbms[commands[j].shard], commands[j].expected)
  }

  /** After the first `i` checks of a command; the last one carries the rest of the commands with it. */
  ghost predicate Checked(dbms0: seq<map<Key, Value>>, commands: seq<Command>, c: nat, i: nat,
                          dbms: seq<map<Key, Value>>, status: Status)
    requires Fit(commands, |dbms0|) && c < |commands| && i <= |commands[c].expected|
  {
    var expected, m := commands[c].expected, dbms0[commands[c].shard];
    if i < |expected| || i == 0 then
      (status == Success <==> AllMet(m, expected[..i])) && dbms == dbms0
    else
      && (status == Success <==> AllMet(m, expected) && AllPass(dbms0, commands, c + 1))
      && dbms == if status == Success then After(dbms0, commands, c + 1) else dbms0
  }

  /** After the first `i` settings of a command; without checks the first one carries the rest with it. */
  ghost predicate Settled(dbms0: seq<map<Key, Value>>, commands: seq<Command>, c: nat, i: nat,
                          dbms: seq<map<Key, Value>>, status: Status)
    requires Fit(commands, |dbms0|) && c < |commands| && i <= |commands[c].desired|
  {
    var command := commands[c];
    if |command.expected| == 0 && i == 0 then
      status == Success && dbms == dbms0
    else
      && (status == Success <==> AllPass(dbms0, commands, c))
      && dbms == if status == Success
                 then After(dbms0, commands, c + 1)[command.shard := PutAll(dbms0[command.shard], command.desired[..i])]
                 else dbms0
  }

  class ShardDBM {
    const shardOf: Key -> nat
    var dbms: seq<map<Key, Value>>
    var procStatus: Status

    /** Every record is in its key's shard. */
    ghost predicate Valid()
      reads this
    {
      |dbms| > 0 && forall s, k :: 0 <= s < |dbms| && k in dbms[s] ==> Shard(shardOf, k, |dbms|) == s
    }

    constructor (shardOf: Key -> nat, numShards: nat)
      requires numShards > 0
      ensures Valid() && forall s :: 0 <= s < |dbms| ==> dbms[s] == map[]
    {
      this.shardOf := shardOf;
      dbms := seq(numShards, i => map[]);
      procStatus := Success;
    }

    /** A setter writes: only when every check of every shard has been met. */
    method Write(shard: nat, s: Setting, ghost dbms0: seq<map<Key, Value>>, ghost commands: seq<Command>)
      requires shard < |dbms| && Fit(commands, |dbms0|) && AllPass(dbms0, commands, 0)
      modifies this`dbms
      ensures dbms == old(dbms)[shard := Put(old(dbms)[shard], s)]
    {
      dbms := dbms[shard := SetOne(dbms[shard], s)];
    }

    /** A checker looks at its record; the last one of a command sets off the next command. */
    method Check(commands: seq<Command>, c: nat, i: nat, ghost n: nat, ghost dbms0: seq<map<Key, Value>>)
      requires Fit(commands, |dbms0|) && c < |commands| && i < |commands[c].expected| && n == i + 1
      requires PassedTo(dbms0, commands, c) && Checked(dbms0, commands, c, i, dbms, procStatus)
      modifies this`dbms, this`procStatus
      ensures Checked(dbms0, commands, c, n, dbms, procStatus)
      decreases |commands| - c, 0
    {
      var command := commands[c];
      AllMetStep(dbms0[command.shard], command.expected, i, n);
      assert command.expected[..|command.expected|] == command.expected;
      if procStatus != Success {
        return;
      }
      if !Met(dbms[command.shard], command.expected[i]) {
        procStatus := Infeasible;
        return;
      }
      if c < |commands| - 1 && i == |command.expected| - 1 {
        ProcessMulti(commands, c + 1, dbms0);
      }
    }

    /** A setter writes if nothing has failed; without checks in its command the first one sets off the next command. */
    method Set(commands: seq<Command>, c: nat, i: nat, ghost n: nat, ghost dbms0: seq<map<Key, Value>>)
      requires Fit(commands, |dbms0|) && c < |commands| && i < |commands[c].desired| && n == i + 1
      requires PassedTo(dbms0, commands, c) && Settled(dbms0, commands, c, i, dbms, procStatus)
      modifies this`dbms, this`procStatus
      ensures Settled(dbms0, commands, c, n, dbms, procStatus)
      decreases |commands| - c, 0
    {
      var command := commands[c];
      var s := command.shard;
      if procStatus != Success {
        return;
      }
      if c < |commands| - 1 && |command.expected| == 0 && i == 0 {
        ProcessMulti(commands, c + 1, dbms0);
        if procStatus != Success {
          return;
        }
      }
      AfterElsewhere(dbms0, commands, c + 1, s);
      PutAllStep(dbms0[s], command.desired, i, n);
      assert PutAll(dbms0[s], command.desired[..0]) == dbms0[s];
      AllPassIs(dbms0, commands, c);
      AllPassIs(dbms0, commands, 0);
      Write(s, command.desired[i], dbms0, commands);
    }

    /** One command: its checks, then its settings, with the later commands inside. */
    method ProcessMulti(commands: seq<Command>, c: nat, ghost dbms0: seq<map<Key, Value>>)
      requires Fit(commands, |dbms0|) && c < |commands| && PassedTo(dbms0, commands, c)
      requires dbms == dbms0 && procStatus == Success
      modifies this`dbms, this`procStatus
      ensures procStatus == Success <==> AllPass(dbms0, commands, c)
      ensures dbms == if procStatus == Success then After(dbms0, commands, c) else dbms0
      decreases |commands| - c, 1
    {
      var command := commands[c];
      for i := 0 to |command.expected|
        invariant Checked(dbms0, commands, c, i, dbms, procStatus)
      {
        Check(commands, c, i, i + 1, dbms0);
      }
      AfterElsewhere(dbms0, commands, c + 1, command.shard);
      assert PutAll(dbms0[command.shard], command.desired[..0]) == dbms0[command.shard];
      for i := 0 to |command.desired|
        invariant Settled(dbms0, commands, c, i, dbms, procStatus)
      {
        Set(commands, c, i, i + 1, dbms0);
      }
      assert command.desired[..|command.desired|] == command.desired;
    }

    /** The records of all shards together. */
    ghost predicate Holds(m: map<Key, Value>)
      requires Valid()
      reads this
    {
      HeldBy(shardOf, dbms, m)
    }

    /** The checks and the settings go to their shards. */
    method Exchange(expected: seq<Condition>, desired: seq<Setting>, ghost m: map<Key, Value>)
      returns (status: Status)
      requires Valid() && Holds(m)
      modifies this`dbms, this`procStatus
      ensures Valid() && Holds(Exchanged(m, expected, desired)) && |dbms| == |old(dbms)|
      ensures status == Success <==> AllMet(m, expected)
      ensures status != Success ==> dbms == old(dbms)
    {
      var commands := Commands(shardOf, |dbms|, expected, desired);
      ghost var dbms0 := dbms;
      procStatus := Success;
      if |commands| == 0 {
        NothingToDo(shardOf, |dbms|, expected, desired, commands);
        return Success;
      }
      ProcessMulti(commands, 0, dbms0);
      status := procStatus;
      AllShardsPass(shardOf, dbms0, m, expected, desired, commands);
      forall k ensures Same(Exchanged(m, expected, desired), dbms[Shard(shardOf, k, |dbms|)], k) {
        SettledAlike(shardOf, dbms0, m, expected, desired, commands, k);
        assert Same(m, dbms0[Shard(shardOf, k, |dbms0|)], k);
      }
      forall s, k | 0 <= s < |dbms| && k in dbms[s] ensures Shard(shardOf, k, |dbms|) == s {
        StaysHome(shardOf, dbms0, expected, desired, commands, s, k);
      }
    }

    /** The exchange over all shards does what the exchange on one database with the same records does. */
    method CompareExchangeMulti(expected: seq<Condition>, desired: seq<Setting>, ghost m: map<Key, Value>)
      returns (status: Status)
      requires Valid() && Holds(m)
      modifies this`dbms, this`procStatus
      ensures Valid() && Holds(Exchanged(m, expected, desired)) && |dbms| == |old(dbms)|
      ensures status == Success <==> AllMet(m, expected)
      ensures status != Success ==> dbms == old(dbms)
      ensures status == Success <==>
                forall i :: 0 <= i < |expected| ==>
                  var k := expected[i].key;
                  var d := old(dbms)[Shard(shardOf, k, |dbms|)];
                  match expected[i].expected
                  case Missing => k !in d
                  case AnyData => k in d
                  case Exactly(v) => k in d && d[k] == v
      ensures status == Success ==> forall k :: (forall i :: 0 <= i < |desired| ==> desired[i].key != k) ==>
                var d, e := old(dbms)[Shard(shardOf, k, |dbms|)], dbms[Shard(shardOf, k, |dbms|)];
                (k in e <==> k in d) && (k in d ==> e[k] == d[k])
      ensures status == Success ==>
                forall i :: 0 <= i < |desired| && (forall j :: i < j < |desired| ==>
                                                   desired[j].key != desired[i].key) ==>
                  var k := desired[i].key;
                  var e := dbms[Shard(shardOf, k, |dbms|)];
                  match desired[i].desired
                  case Gone => k !in e
                  case Be(v) => k in e && e[k] == v
      ensures forall s, k :: 0 <= s < |dbms| && k in dbms[s] ==> Shard(shardOf, k, |dbms|) == s
    {
      ghost var dbms0 := dbms;
      status := Exchange(expected, desired, m);
      ShardsSettled(shardOf, dbms0, dbms, m, expected, desired, status);
    }
  }

  /** What that means for the shards: which answer comes when, and what every key is left with. */
  lemma ShardsSettled(shardOf: Key -> nat, dbms0: seq<map<Key, Value>>, dbms: seq<map<Key, Value>>, m: map<Key, Value>,
                      expected: seq<Condition>, desired: seq<Setting>, status: Status)
    requires |dbms| == |dbms0| > 0 && (status == Success <==> AllMet(m, expected))
    requires HeldBy(shardOf, dbms0, m) && HeldBy(shardOf, dbms, Exchanged(m, expected, desired))
    ensures status == Success <==>
              forall i :: 0 <= i < |expected| ==>
                var k := expected[i].key;
                var d := dbms0[Shard(shardOf, k, |dbms0|)];
                match expected[i].expected
                case Missing => k !in d
                case AnyData => k in d
                case Exactly(v) => k in d && d[k] == v
    ensures status == Success ==> forall k :: (forall i :: 0 <= i < |desired| ==> desired[i].key != k) ==>
              var d, e := dbms0[Shard(shardOf, k, |dbms0|)], dbms[Shard(shardOf, k, |dbms|)];
              (k in e <==> k in d) && (k in d ==> e[k] == d[k])
    ensures status == Success ==>
              forall i :: 0 <= i < |desired| && (forall j :: i < j < |desired| ==> desired[j].key != desired[i].key) ==>
                var k := desired[i].key;
                var e := dbms[Shard(shardOf, k, |dbms|)];
                match desired[i].desired
                case Gone => k !in e
                case Be(v) => k in e && e[k] == v
  {
    PutAllIs(m, desired);
  }

  /** Every shard has what is its own of a map. */
  ghost predicate HeldBy(shardOf: Key -> nat, dbms: seq<map<Key, Value>>, m: map<Key, Value>)
    requires |dbms| > 0
  {
    forall k {:trigger k in m} {:trigger Shard(shardOf, k, |dbms|)} :: Same(m, dbms[Shard(shardOf, k, |dbms|)], k)
  }

  /** The records of the first `n` shards. */
  ghost function Together(dbms: seq<map<Key, Value>>, n: nat): map<Key, Value>
    requires n <= |dbms|
  {
    if n == 0 then map[] else Together(dbms, n - 1) + dbms[n - 1]
  }

  lemma {:induction false} TogetherIs(shardOf: Key -> nat, dbms: seq<map<Key, Value>>, n: nat, k: Key, s: nat)
    requires n <= |dbms| && s < |dbms| && s == Shard(shardOf, k, |dbms|)
    requires forall t :: 0 <= t < |dbms| && k in dbms[t] ==> t == s
    ensures k in Together(dbms, n) <==> k in dbms[s] && s < n
    ensures k in Together(dbms, n) ==> Together(dbms, n)[k] == dbms[s][k]
  {
    if n > 0 { TogetherIs(shardOf, dbms, n - 1, k, s); }
  }

  /** When every record is in its key's shard, there is such a map: all of them together. */
  lemma TogetherIsHeld(shardOf: Key -> nat, dbms: seq<map<Key, Value>>, m: map<Key, Value>)
    requires |dbms| > 0 && forall s, k :: 0 <= s < |dbms| && k in dbms[s] ==> Shard(shardOf, k, |dbms|) == s
    requires m == Together(dbms, |dbms|)
    ensures HeldBy(shardOf, dbms, m)
  {
    forall k
      ensures Same(m, dbms[Shard(shardOf, k, |dbms|)], k)
    {
      TogetherIs(shardOf, dbms, |dbms|, k, Shard(shardOf, k, |dbms|));
    }
  }

  ghost predicate Same(m: map<Key, Value>, n: map<Key, Value>, k: Key) {
    (k in m <==> k in n) && (k in m ==> m[k] == n[k])
  }

  /** The conditions and settings of one shard, in their order. */
  function ConditionsOf(shardOf: Key -> nat, n: nat, expected: seq<Condition>, s: nat): seq<Condition>
    requires n > 0
  {
    if |expected| == 0 then []
    else
      var e := |expected| - 1;
      ConditionsOf(shardOf, n, expected[..e], s)
      + (if Shard(shardOf, expected[e].key, n) == s then [expected[e]] else [])
  }

  function SettingsOf(shardOf: Key -> nat, n: nat, desired: seq<Setting>, s: nat): seq<Setting>
    requires n > 0
  {
    if |desired| == 0 then []
    else
      var e := |desired| - 1;
      SettingsOf(shardOf, n, desired[..e], s) + (if Shard(shardOf, desired[e].key, n) == s then [desired[e]] else [])
  }

  /** The commands are those of the shards below `n` with something to do, each with all of it. */
  ghost predicate Sorted(shardOf: Key -> nat, n: nat, expected: seq<Condition>, desired: seq<Setting>,
                         commands: seq<Command>, to: nat)
    requires n > 0
  {
    && (forall i, j :: 0 <= i < j < |commands| ==> commands[i].shard < commands[j].shard)
    && (forall j :: 0 <= j < |commands| ==> IsCommand(shardOf, n, expected, desired, commands[j], to))
    && (forall s :: 0 <= s < to ==> Mentioned(shardOf, n, expected, desired, commands, s))
  }

  ghost predicate IsCommand(shardOf: Key -> nat, n: nat, expected: seq<Condition>, desired: seq<Setting>, c: Command,
                            to: nat)
    requires n > 0
  {
    && c.shard < to && c.expected == ConditionsOf(shardOf, n, expected, c.shard)
       && c.desired == SettingsOf(shardOf, n, desired, c.shard)
    && (|c.expected| > 0 || |c.desired| > 0)
  }

  ghost predicate Busy(shardOf: Key -> nat, n: nat, expected: seq<Condition>, desired: seq<Setting>, s: nat)
    requires n > 0
  {
    |ConditionsOf(shardOf, n, expected, s)| > 0 || |SettingsOf(shardOf, n, desired, s)| > 0
  }

  ghost predicate Mentioned(shardOf: Key -> nat, n: nat, expected: seq<Condition>, desired: seq<Setting>,
                            commands: seq<Command>, s: nat)
    requires n > 0
  {
    Busy(shardOf, n, expected, desired, s) ==> exists j :: 0 <= j < |commands| && commands[j].shard == s
  }

  method Commands(shardOf: Key -> nat, n: nat, expected: seq<Condition>, desired: seq<Setting>)
    returns (commands: seq<Command>)
    requires n > 0
    ensures Sorted(shardOf, n, expected, desired, commands, n) && Fit(commands, n)
  {
    var conditions: map<nat, (seq<Condition>, seq<Setting>)> := map[];
    forall s ensures Gathered(shardOf, n, [], [], conditions, s) { }
    assert expected[..0] == [] && desired[..0] == [];
    for i := 0 to |expected|
      invariant Listed(shardOf, n, expected[..i], [], conditions)
    {
      var s := Shard(shardOf, expected[i].key, n);
      var have := if s in conditions then conditions[s] else ([], []);
      ListCondition(shardOf, n, expected, i, i + 1, conditions, conditions[s := (have.0 + [expected[i]], have.1)]);
      conditions := conditions[s := (have.0 + [expected[i]], have.1)];
    }
    assert expected[..|expected|] == expected;
    for i := 0 to |desired|
      invariant Listed(shardOf, n, expected, desired[..i], conditions)
    {
      var s := Shard(shardOf, desired[i].key, n);
      var have := if s in conditions then conditions[s] else ([], []);
      ListSetting(shardOf, n, expected, desired, i, i + 1, conditions,
                  conditions[s := (have.0, have.1 + [desired[i]])]);
      conditions := conditions[s := (have.0, have.1 + [desired[i]])];
    }
    assert desired[..|desired|] == desired;
    commands := ByShard(shardOf, n, expected, desired, conditions);
  }

  /** The shards with something to do, in their order. */
  method ByShard(shardOf: Key -> nat, n: nat, expected: seq<Condition>, desired: seq<Setting>,
                 conditions: map<nat, (seq<Condition>, seq<Setting>)>) returns (commands: seq<Command>)
    requires n > 0 && Listed(shardOf, n, expected, desired, conditions)
    ensures Sorted(shardOf, n, expected, desired, commands, n) && Fit(commands, n)
  {
    commands := [];
    for s := 0 to n
      invariant Sorted(shardOf, n, expected, desired, commands, s)
    {
      assert Gathered(shardOf, n, expected, desired, conditions, s);
      if s in conditions {
        CommandAdded(shardOf, n, expected, desired, commands, s, s + 1, Command(s, conditions[s].0, conditions[s].1));
        commands := commands + [Command(s, conditions[s].0, conditions[s].1)];
      }
    }
  }

  lemma CommandAdded(shardOf: Key -> nat, n: nat, expected: seq<Condition>, desired: seq<Setting>,
                     commands: seq<Command>,
                     s: nat, to: nat, command: Command)
    requires n > 0 && Sorted(shardOf, n, expected, desired, commands, s) && to == s + 1
    requires command.shard == s && IsCommand(shardOf, n, expected, desired, command, to)
    ensures Sorted(shardOf, n, expected, desired, commands + [command], to)
  {
    var after := commands + [command];
    forall j | 0 <= j < |after| ensures IsCommand(shardOf, n, expected, desired, after[j], to) {
      if j < |commands| { assert IsCommand(shardOf, n, expected, desired, commands[j], s); }
    }
    forall t | 0 <= t < to ensures Mentioned(shardOf, n, expected, desired, after, t) {
      assert after[|commands|].shard == s;
      if t < s && Busy(shardOf, n, expected, desired, t) {
        assert Mentioned(shardOf, n, expected, desired, commands, t);
        var j :| 0 <= j < |commands| && commands[j].shard == t;
        assert after[j].shard == t;
      }
    }
  }

  lemma ListCondition(shardOf: Key -> nat, n: nat, expected: seq<Condition>, i: nat, m: nat,
                      conditions: map<nat, (seq<Condition>, seq<Setting>)>,
                      conditions': map<nat, (seq<Condition>, seq<Setting>)>)
    requires n > 0 && m == i + 1 <= |expected| && Listed(shardOf, n, expected[..i], [], conditions)
    requires var s := Shard(shardOf, expected[i].key, n);
             var have := if s in conditions then conditions[s] else ([], []);
             conditions' == conditions[s := (have.0 + [expected[i]], have.1)]
    ensures Listed(shardOf, n, expected[..m], [], conditions')
  {
    forall s: nat ensures Gathered(shardOf, n, expected[..m], [], conditions', s) {
      assert Gathered(shardOf, n, expected[..i], [], conditions, s);
      assert expected[..m][..i] == expected[..i];
      assert ConditionsOf(shardOf, n, expected[..i], s) + [] == ConditionsOf(shardOf, n, expected[..i], s);
    }
  }

  lemma ListSetting(shardOf: Key -> nat, n: nat, expected: seq<Condition>, desired: seq<Setting>, i: nat, m: nat,
                    conditions: map<nat, (seq<Condition>, seq<Setting>)>,
                    conditions': map<nat, (seq<Condition>, seq<Setting>)>)
    requires n > 0 && m == i + 1 <= |desired| && Listed(shardOf, n, expected, desired[..i], conditions)
    requires var s := Shard(shardOf, desired[i].key, n);
             var have := if s in conditions then conditions[s] else ([], []);
             conditions' == conditions[s := (have.0, have.1 + [desired[i]])]
    ensures Listed(shardOf, n, expected, desired[..m], conditions')
  {
    forall s: nat ensures Gathered(shardOf, n, expected, desired[..m], conditions', s) {
      assert Gathered(shardOf, n, expected, desired[..i], conditions, s);
      assert desired[..m][..i] == desired[..i];
      assert SettingsOf(shardOf, n, desired[..i], s) + [] == SettingsOf(shardOf, n, desired[..i], s);
    }
  }

  /** What has been gathered for each shard so far. */
  ghost predicate Listed(shardOf: Key -> nat, n: nat, expected: seq<Condition>, desired: seq<Setting>,
                         conditions: map<nat, (seq<Condition>, seq<Setting>)>)
    requires n > 0
  {
    forall s: nat {:trigger Gathered(shardOf, n, expected, desired, conditions, s)} ::
      Gathered(shardOf, n, expected, desired, conditions, s)
  }

  ghost predicate Gathered(shardOf: Key -> nat, n: nat, expected: seq<Condition>, desired: seq<Setting>,
                           conditions: map<nat, (seq<Condition>, seq<Setting>)>, s: nat)
    requires n > 0
  {
    var es, ds := ConditionsOf(shardOf, n, expected, s), SettingsOf(shardOf, n, desired, s);
    && (s in conditions <==> |es| > 0 || |ds| > 0)
    && (s in conditions ==> conditions[s].0 == es && conditions[s].1 == ds)
  }

  function Shard(shardOf: Key -> nat, k: Key, n: nat): (s: nat)
    requires n > 0
    ensures s < n
  {
    shardOf(k) % n
  }

  /** A key's shard is where its hash value falls, counting round and round. */
  lemma ShardIs(shardOf: Key -> nat, k: Key, n: nat, s: nat, rounds: nat)
    requires s < n && shardOf(k) == n * rounds + s
    ensures Shard(shardOf, k, n) == s
  {
    DivIs(shardOf(k), n, rounds, s);
  }

  // ---------------------------------------------------------------- shard by shard is one by one

  lemma {:induction false} ConditionsMet(shardOf: Key -> nat, dbms: seq<map<Key, Value>>, m: map<Key, Value>,
                                         expected: seq<Condition>)
    requires |dbms| > 0 && forall k :: Same(m, dbms[Shard(shardOf, k, |dbms|)], k)
    ensures AllMet(m, expected) <==>
              forall s :: 0 <= s < |dbms| ==> AllMet(dbms[s], ConditionsOf(shardOf, |dbms|, expected, s))
  {
    if |expected| > 0 {
      var e, n := |expected| - 1, |dbms|;
      var c := expected[e];
      var t := Shard(shardOf, c.key, n);
      ConditionsMet(shardOf, dbms, m, expected[..e]);
      assert expected[..|expected|] == expected;
      AllMetStep(m, expected, e, e + 1);
      assert Same(m, dbms[t], c.key);
      forall s | 0 <= s < n
        ensures AllMet(dbms[s], ConditionsOf(shardOf, n, expected, s)) <==>
                  AllMet(dbms[s], ConditionsOf(shardOf, n, expected[..e], s)) && (s == t ==> Met(dbms[s], c))
      {
        var before := ConditionsOf(shardOf, n, expected[..e], s);
        if s == t {
          var all := before + [c];
          assert all[..|before|] == before && all[..|all|] == all;
          AllMetStep(dbms[s], all, |before|, |all|);
        } else {
          assert before + [] == before;
        }
      }
    }
  }

  lemma SettingsOfLast(shardOf: Key -> nat, n: nat, desired: seq<Setting>, rest: seq<Setting>, c: Setting, s: nat)
    requires n > 0 && desired == rest + [c]
    ensures SettingsOf(shardOf, n, desired, s) ==
              if Shard(shardOf, c.key, n) == s then SettingsOf(shardOf, n, rest, s) + [c]
                  else SettingsOf(shardOf, n, rest, s)
  {
    assert desired[..|desired| - 1] == rest;
    assert SettingsOf(shardOf, n, rest, s) + [] == SettingsOf(shardOf, n, rest, s);
  }

  lemma PutSame(m: map<Key, Value>, d: map<Key, Value>, c: Setting, k: Key)
    requires Same(m, d, k)
    ensures Same(Put(m, c), Put(d, c), k) && (c.key != k ==> Same(Put(m, c), d, k))
  {
  }

  /** For a key only the settings of its shard count. */
  lemma {:induction false} SettingsCount(shardOf: Key -> nat, n: nat, m: map<Key, Value>, d: map<Key, Value>,
                                         desired: seq<Setting>, k: Key, s: nat, settings: seq<Setting>)
    requires n > 0 && Same(m, d, k) && s == Shard(shardOf, k, n) && settings == SettingsOf(shardOf, n, desired, s)
    ensures Same(PutAll(m, desired), PutAll(d, settings), k)
  {
    if |desired| > 0 {
      var rest, c := desired[..|desired| - 1], desired[|desired| - 1];
      var before := SettingsOf(shardOf, n, rest, s);
      SettingsCount(shardOf, n, m, d, rest, k, s, before);
      SettingsOfLast(shardOf, n, desired, rest, c, s);
      PutAllLast(m, desired, rest, c);
      PutAllLast(d, before + [c], before, c);
      PutSame(PutAll(m, rest), PutAll(d, before), c, k);
    }
  }

  lemma LastCounts(shardOf: Key -> nat, n: nat, expected: seq<Condition>, desired: seq<Setting>)
    requires n > 0
    ensures |expected| > 0 ==> |ConditionsOf(shardOf, n, expected, Shard(shardOf, expected[|expected| - 1].key, n))| > 0
    ensures |desired| > 0 ==> |SettingsOf(shardOf, n, desired, Shard(shardOf, desired[|desired| - 1].key, n))| > 0
  {
  }

  lemma NothingToDo(shardOf: Key -> nat, n: nat, expected: seq<Condition>, desired: seq<Setting>,
                    commands: seq<Command>)
    requires n > 0 && Sorted(shardOf, n, expected, desired, commands, n) && commands == []
    ensures expected == [] && desired == []
  {
    forall s: nat | s < n ensures |ConditionsOf(shardOf, n, expected, s)| == |SettingsOf(shardOf, n, desired, s)| == 0 {
      assert Mentioned(shardOf, n, expected, desired, commands, s);
    }
    LastCounts(shardOf, n, expected, desired);
  }

  /** All checks of all commands are met just when the whole list of conditions is. */
  lemma AllShardsPass(shardOf: Key -> nat, dbms: seq<map<Key, Value>>, m: map<Key, Value>,
                      expected: seq<Condition>, desired: seq<Setting>, commands: seq<Command>)
    requires |dbms| > 0 && forall k :: Same(m, dbms[Shard(shardOf, k, |dbms|)], k)
    requires Sorted(shardOf, |dbms|, expected, desired, commands, |dbms|) && Fit(commands, |dbms|)
    ensures AllPass(dbms, commands, 0) <==> AllMet(m, expected)
  {
    ConditionsMet(shardOf, dbms, m, expected);
    AllPassIs(dbms, commands, 0);
    CommandsMet(shardOf, dbms, expected, desired, commands);
  }

  /** The conditions of the commands are those of the shards. */
  lemma CommandsMet(shardOf: Key -> nat, dbms: seq<map<Key, Value>>, expected: seq<Condition>, desired: seq<Setting>,
                    commands: seq<Command>)
    requires |dbms| > 0 && Sorted(shardOf, |dbms|, expected, desired, commands, |dbms|) && Fit(commands, |dbms|)
    ensures (forall j :: 0 <= j < |commands| ==> AllMet(dbms[commands[j].shard], commands[j].expected)) <==>
              forall s :: 0 <= s < |dbms| ==> AllMet(dbms[s], ConditionsOf(shardOf, |dbms|, expected, s))
  {
    forall j | 0 <= j < |commands|
      ensures commands[j].expected == ConditionsOf(shardOf, |dbms|, expected, commands[j].shard)
    {
      assert IsCommand(shardOf, |dbms|, expected, desired, commands[j], |dbms|);
    }
    forall s | 0 <= s < |dbms|
      ensures |ConditionsOf(shardOf, |dbms|, expected, s)| > 0 ==>
              exists j :: 0 <= j < |commands| && commands[j].shard == s
    {
      assert Mentioned(shardOf, |dbms|, expected, desired, commands, s);
    }
  }

  /** What the settings of the commands make of a shard. */
  lemma AfterShard(shardOf: Key -> nat, dbms: seq<map<Key, Value>>, expected: seq<Condition>, desired: seq<Setting>,
                   commands: seq<Command>, s: nat)
    requires |dbms| > 0 && s < |dbms|
    requires Sorted(shardOf, |dbms|, expected, desired, commands, |dbms|) && Fit(commands, |dbms|)
    ensures After(dbms, commands, 0)[s] == PutAll(dbms[s], SettingsOf(shardOf, |dbms|, desired, s))
  {
    assert Mentioned(shardOf, |dbms|, expected, desired, commands, s);
    if j :| 0 <= j < |commands| && commands[j].shard == s {
      assert IsCommand(shardOf, |dbms|, expected, desired, commands[j], |dbms|);
      AfterThere(dbms, commands, 0, j);
    } else {
      AfterElsewhere(dbms, commands, 0, s);
      assert |SettingsOf(shardOf, |dbms|, desired, s)| == 0;
    }
  }

  lemma SettledAlike(shardOf: Key -> nat, dbms: seq<map<Key, Value>>, m: map<Key, Value>,
                     expected: seq<Condition>, desired: seq<Setting>, commands: seq<Command>, k: Key)
    requires |dbms| > 0 && Same(m, dbms[Shard(shardOf, k, |dbms|)], k)
    requires Sorted(shardOf, |dbms|, expected, desired, commands, |dbms|) && Fit(commands, |dbms|)
    ensures Same(PutAll(m, desired), After(dbms, commands, 0)[Shard(shardOf, k, |dbms|)], k)
  {
    var s := Shard(shardOf, k, |dbms|);
    AfterShard(shardOf, dbms, expected, desired, commands, s);
    SettingsCount(shardOf, |dbms|, m, dbms[s], desired, k, s, SettingsOf(shardOf, |dbms|, desired, s));
  }

  /** Settings of a shard put keys of that shard only. */
  lemma {:induction false} PutHome(shardOf: Key -> nat, n: nat, m: map<Key, Value>, desired: seq<Setting>, s: nat,
                                   settings: seq<Setting>, k: Key)
    requires n > 0 && settings == SettingsOf(shardOf, n, desired, s) && k in PutAll(m, settings)
    ensures k in m || Shard(shardOf, k, n) == s
  {
    if |desired| > 0 {
      var rest, c := desired[..|desired| - 1], desired[|desired| - 1];
      var before := SettingsOf(shardOf, n, rest, s);
      SettingsOfLast(shardOf, n, desired, rest, c, s);
      PutAllLast(m, before + [c], before, c);
      if k in PutAll(m, before) {
        PutHome(shardOf, n, m, rest, s, before, k);
      }
    }
  }

  lemma StaysHome(shardOf: Key -> nat, dbms: seq<map<Key, Value>>, expected: seq<Condition>, desired: seq<Setting>,
                  commands: seq<Command>, s: nat, k: Key)
    requires |dbms| > 0 && s < |dbms|
    requires Sorted(shardOf, |dbms|, expected, desired, commands, |dbms|) && Fit(commands, |dbms|)
    ensures k in After(dbms, commands, 0)[s] ==> k in dbms[s] || Shard(shardOf, k, |dbms|) == s
  {
    AfterShard(shardOf, dbms, expected, desired, commands, s);
    if k in After(dbms, commands, 0)[s] {
      PutHome(shardOf, |dbms|, dbms[s], desired, s, SettingsOf(shardOf, |dbms|, desired, s), k);
    }
  }
}
