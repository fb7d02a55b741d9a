/**
 Record processors, the one way every database of the library reads and writes a record, and the
 step on a key-value map that a call with one of them stands for.
 */
module Processing {
  /** What a record processor asks for, and a processor as its two answers. */
  datatype Action<+V> = Noop | Remove | Set(value: V)

  datatype Processor<!K, !V> = Processor(full: (K, V) -> Action<V>, empty: K -> Action<V>)

  /** One processing step on a key-value map. */
  function Processed<K, V>(m: map<K, V>, k: K, proc: Processor<K, V>, writable: bool): map<K, V> {
    if !writable then m
    else if k in m then
      match proc.full(k, m[k])
      case Noop => m
      case Remove => m - {k}
      case Set(v) => m[k := v]
    else
      match proc.empty(k)
      case Noop => m
      case Remove => m
      case Set(v) => m[k := v]
  }

  /** The processor's answer about a key, and what an answer does to a map. */
  function Answer<K, V>(m: map<K, V>, k: K, proc: Processor<K, V>): Action<V> {
    if k in m then proc.full(k, m[k]) else proc.empty(k)
  }

  function Acted<K, V>(m: map<K, V>, k: K, action: Action<V>): map<K, V> {
    match action
    case Noop => m
    case Remove => m - {k}
    case Set(v) => m[k := v]
  }

  lemma ProcessedActs<K, V>(m: map<K, V>, k: K, proc: Processor<K, V>, writable: bool)
    ensures Processed(m, k, proc, writable) == if writable then Acted(m, k, Answer(m, k, proc)) else m
  {
    if k !in m { assert m - {k} == m; }
  }

  lemma ActedAbsent<K, V>(m: map<K, V>, k: K)
    ensures k !in m ==> Acted(m, k, Remove) == m
  {
    if k !in m { assert m - {k} == m; }
  }

  lemma EraseCount<K, V>(m: map<K, V>, k: K)
    requires k in m
    ensures |m - {k}| == |m| - 1
  {
    assert (m - {k}).Keys == m.Keys - {k};
  }

  // ---------------------------------------------------------------- data size

  ghost function SomeKey(m: map<string, string>): (k: string)
    requires |m| != 0
    ensures k in m
  {
    var k :| k in m;
    k
  }

  /** The bytes of all keys and values of a map. */
  ghost function DataSize(m: map<string, string>): nat
    decreases |m|
  {
    if |m| == 0 then 0
    else
      var k := SomeKey(m);
      EraseCount(m, k);
      |k| + |m[k]| + DataSize(m - {k})
  }

  /** Whichever record is taken out, its bytes are what the rest falls short of. */
  lemma {:induction false} DataSizeWithout(m: map<string, string>, k: string)
    requires k in m
    ensures DataSize(m) == |k| + |m[k]| + DataSize(m - {k})
    decreases |m|
  {
    assert |m| != 0 by { EraseCount(m, k); }
    var q := SomeKey(m);
    if q != k {
      EraseCount(m, q);
      EraseCount(m, k);
      var n, l := m - {q}, m - {k};
      DataSizeWithout(n, k);
      DataSizeWithout(l, q);
      assert n - {k} == l - {q};
    }
  }

  lemma DataSizeWith(m: map<string, string>, k: string, v: string)
    ensures DataSize(m[k := v]) == |k| + |v| + DataSize(m - {k})
  {
    var n := m[k := v];
    DataSizeWithout(n, k);
    assert n - {k} == m - {k};
  }

  lemma PutCount<K, V>(m: map<K, V>, k: K, v: V)
    ensures |m[k := v]| == |m| + (if k in m then 0 else 1)
  {
    assert m[k := v].Keys == m.Keys + {k};
  }

  /** How an answer changes the number of records and the data size. */
  function CountChange(m: map<string, string>, k: string, action: Action<string>): int {
    match action
    case Noop => 0
    case Remove => if k in m then -1 else 0
    case Set(_) => if k in m then 0 else 1
  }

  function SizeChange(m: map<string, string>, k: string, action: Action<string>): int {
    match action
    case Noop => 0
    case Remove => if k in m then -(|k| + |m[k]|) else 0
    case Set(v) => if k in m then |v| - |m[k]| else |k| + |v|
  }

  lemma Account(m: map<string, string>, k: string, action: Action<string>)
    ensures |Acted(m, k, action)| == |m| + CountChange(m, k, action)
    ensures DataSize(Acted(m, k, action)) == DataSize(m) + SizeChange(m, k, action)
  {
    ActedAbsent(m, k);
    if k in m {
      DataSizeWithout(m, k);
      EraseCount(m, k);
    } else {
      assert m - {k} == m;
    }
    if action.Set? {
      DataSizeWith(m, k, action.value);
      PutCount(m, k, action.value);
    }
  }
}
