/**
 Records that live in a hash chain and in a doubly linked list at once, in a memory with one map for
 each field of a record. Each change of links is a change of two or three cells; here is what it
 does to the list and to the chains.
 */
module LinkedRecords {
  import opened Basics

  type Links = map<Addr, Addr>

  ghost function At(list: seq<Addr>, i: int): Addr {
    if 0 <= i < |list| then list[i] else 0
  }

  // ---------------------------------------------------------------- the list

  ghost predicate Distinct(list: seq<Addr>) {
    forall i, j :: 0 <= i < j < |list| ==> list[i] != list[j]
  }

  ghost predicate Place(list: seq<Addr>, prev: Links, next: Links, i: int)
    requires 0 <= i < |list|
  {
    && list[i] != 0 && list[i] in prev && list[i] in next
    && prev[list[i]] == At(list, i - 1) && next[list[i]] == At(list, i + 1)
  }

  /** From `first` to `last` the records of `list` are linked in both directions. */
  ghost predicate Linked(list: seq<Addr>, prev: Links, next: Links, first: Addr, last: Addr) {
    && Distinct(list) && first == At(list, 0) && last == At(list, |list| - 1)
    && forall i {:trigger Place(list, prev, next, i)} :: 0 <= i < |list| ==> Place(list, prev, next, i)
  }

  /** The neighbours of a record are linked past it. */
  lemma Detached(list: seq<Addr>, prev: Links, next: Links, first: Addr, last: Addr, i: nat, rec: Addr,
                 list': seq<Addr>, prev': Links, next': Links, first': Addr, last': Addr)
    requires Linked(list, prev, next, first, last) && i < |list| && rec == list[i] && list' == Without(list, i)
    requires rec in prev && rec in next
    requires next' == if prev[rec] != 0 then next[prev[rec] := next[rec]] else next
    requires prev' == if next[rec] != 0 then prev[next[rec] := prev[rec]] else prev
    requires first' == if first == rec then next[rec] else first
    requires last' == if last == rec then prev[rec] else last
    ensures Linked(list', prev', next', first', last')
  {
    assert Place(list, prev, next, i);
    forall j | 0 <= j < |list'| ensures Place(list', prev', next', j) {
      var q := if j < i then j else j + 1;
      assert list'[j] == list[q] && Place(list, prev, next, q);
    }
  }

  lemma AttachedLast(list: seq<Addr>, prev: Links, next: Links, first: Addr, last: Addr, rec: Addr,
                     list': seq<Addr>, prev': Links, next': Links, first': Addr, last': Addr)
    requires Linked(list, prev, next, first, last) && rec != 0 && rec !in list && list' == list + [rec]
    requires prev' == prev[rec := last]
    requires next' == (if last != 0 then next[last := rec] else next)[rec := 0]
    requires first' == (if first == 0 then rec else first) && last' == rec
    ensures Linked(list', prev', next', first', last')
  {
    assert |list| > 0 ==> Place(list, prev, next, 0) && Place(list, prev, next, |list| - 1);
    forall j | 0 <= j < |list'| ensures Place(list', prev', next', j) {
      if j < |list| { assert Place(list, prev, next, j); }
    }
  }

  lemma AttachedFirst(list: seq<Addr>, prev: Links, next: Links, first: Addr, last: Addr, rec: Addr,
                      list': seq<Addr>, prev': Links, next': Links, first': Addr, last': Addr)
    requires Linked(list, prev, next, first, last) && rec != 0 && rec !in list && list' == [rec] + list
    requires next' == next[rec := first]
    requires prev' == (if first != 0 then prev[first := rec] else prev)[rec := 0]
    requires last' == (if last == 0 then rec else last) && first' == rec
    ensures Linked(list', prev', next', first', last')
  {
    assert |list| > 0 ==> Place(list, prev, next, 0) && Place(list, prev, next, |list| - 1);
    forall j | 0 <= j < |list'| ensures Place(list', prev', next', j) {
      if j > 0 { assert Place(list, prev, next, j - 1); }
    }
  }

  /** A record takes the place of another one. */
  lemma Substituted(list: seq<Addr>, prev: Links, next: Links, first: Addr, last: Addr, i: nat, former: Addr, rec: Addr,
                    list': seq<Addr>, prev': Links, next': Links, first': Addr, last': Addr)
    requires Linked(list, prev, next, first, last) && i < |list| && former == list[i] && rec != 0 && rec !in list
    requires list' == list[i := rec] && former in prev && former in next
    requires prev' == (if next[former] != 0 then prev[next[former] := rec] else prev)[rec := prev[former]]
    requires next' == (if prev[former] != 0 then next[prev[former] := rec] else next)[rec := next[former]]
    requires first' == (if first == former then rec else first) && last' == (if last == former then rec else last)
    ensures Linked(list', prev', next', first', last')
  {
    assert Place(list, prev, next, i);
    forall j | 0 <= j < |list'| ensures Place(list', prev', next', j) {
      assert Place(list, prev, next, j);
    }
  }

  // ---------------------------------------------------------------- chains

  ghost predicate Hop(chain: seq<Addr>, child: Links, i: int)
    requires 0 <= i < |chain|
  {
    chain[i] != 0 && chain[i] in child && child[chain[i]] == At(chain, i + 1)
  }

  /** From a bucket the records of `chain` follow each other by their child pointers. */
  ghost predicate Chained(chain: seq<Addr>, child: Links, head: Addr) {
    && Distinct(chain) && head == At(chain, 0)
    && forall i {:trigger Hop(chain, child, i)} :: 0 <= i < |chain| ==> Hop(chain, child, i)
  }

  lemma ChainWithout(chain: seq<Addr>, child: Links, head: Addr, i: nat, rec: Addr,
                     chain': seq<Addr>, child': Links, head': Addr)
    requires Chained(chain, child, head) && i < |chain| && rec == chain[i] && rec in child
             && chain' == Without(chain, i)
    requires child' == if i > 0 then child[chain[i - 1] := child[rec]] else child
    requires head' == if i == 0 then child[rec] else head
    ensures Chained(chain', child', head')
  {
    assert Hop(chain, child, i);
    forall j | 0 <= j < |chain'| ensures Hop(chain', child', j) {
      var q := if j < i then j else j + 1;
      assert chain'[j] == chain[q] && Hop(chain, child, q);
    }
  }

  lemma ChainBefore(chain: seq<Addr>, child: Links, head: Addr, rec: Addr, chain': seq<Addr>, child': Links)
    requires Chained(chain, child, head) && rec != 0 && rec !in chain && chain' == [rec] + chain
    requires child' == child[rec := head]
    ensures Chained(chain', child', rec)
  {
    forall j | 0 <= j < |chain'| ensures Hop(chain', child', j) {
      if j > 0 { assert chain'[j] == chain[j - 1] && Hop(chain, child, j - 1); }
    }
  }

  lemma ChainBehind(chain: seq<Addr>, child: Links, head: Addr, rec: Addr, chain': seq<Addr>, child': Links,
                    head': Addr)
    requires Chained(chain, child, head) && rec != 0 && rec !in chain && chain' == chain + [rec]
    requires child' == (if |chain| > 0 then child[chain[|chain| - 1] := rec] else child)[rec := 0]
    requires head' == if |chain| > 0 then head else rec
    ensures Chained(chain', child', head')
  {
    forall j | 0 <= j < |chain'| ensures Hop(chain', child', j) {
      if j < |chain| { assert chain'[j] == chain[j] && Hop(chain, child, j); }
    }
  }

  lemma ChainInstead(chain: seq<Addr>, child: Links, head: Addr, i: nat, rec: Addr,
                     chain': seq<Addr>, child': Links, head': Addr)
    requires Chained(chain, child, head) && i < |chain| && rec != 0 && rec !in chain && chain[i] in child
    requires chain' == chain[i := rec]
    requires child' == (if i > 0 then child[chain[i - 1] := rec] else child)[rec := child[chain[i]]]
    requires head' == if i == 0 then rec else head
    ensures Chained(chain', child', head')
  {
    assert Hop(chain, child, i);
    forall j | 0 <= j < |chain'| ensures Hop(chain', child', j) {
      assert Hop(chain, child, j);
    }
  }

  lemma ChainFrame(chain: seq<Addr>, child: Links, head: Addr, child': Links)
    requires Chained(chain, child, head)
    requires forall a :: a in chain && a in child ==> a in child' && child'[a] == child[a]
    ensures Chained(chain, child', head)
  {
    forall j | 0 <= j < |chain| ensures Hop(chain, child', j) { assert Hop(chain, child, j); }
  }

  lemma ListFrame(list: seq<Addr>, prev: Links, next: Links, first: Addr, last: Addr, prev': Links, next': Links)
    requires Linked(list, prev, next, first, last)
    requires forall a :: a in list && a in prev ==> a in prev' && prev'[a] == prev[a]
    requires forall a :: a in list && a in next ==> a in next' && next'[a] == next[a]
    ensures Linked(list, prev', next', first, last)
  {
    forall j | 0 <= j < |list| ensures Place(list, prev', next', j) { assert Place(list, prev, next, j); }
  }

  // ---------------------------------------------------------------- the index

  /** A record of the list is in the chain of its key's bucket. */
  ghost predicate InChain<K>(chains: seq<seq<Addr>>, key: map<Addr, K>, hash: K -> nat, a: Addr)
    requires |chains| > 0
  {
    a in key && a in chains[Slot(hash(key[a]), |chains|)]
  }

  /** A record of a chain is in the list, and in no other chain. */
  ghost predicate InList<K>(list: seq<Addr>, key: map<Addr, K>, hash: K -> nat, n: nat, b: nat, a: Addr)
    requires n > 0
  {
    a in list && a in key && Slot(hash(key[a]), n) == b
  }

  ghost predicate ChainsOK(chains: seq<seq<Addr>>, buckets: seq<Addr>, child: Links) {
    && |chains| == |buckets| > 0
    && forall b {:trigger Chained(chains[b], child, buckets[b])} :: 0 <= b < |chains| ==>
       Chained(chains[b], child, buckets[b])
  }

  ghost predicate KeysDistinct<K>(list: seq<Addr>, key: map<Addr, K>) {
    forall a, b :: a in list && b in list && a in key && b in key && key[a] == key[b] ==> a == b
  }

  /** The list and the chains hold the same records, each in the chain of its key's bucket, and no key twice. */
  ghost predicate Indexed<K>(list: seq<Addr>, chains: seq<seq<Addr>>, key: map<Addr, K>, hash: K -> nat) {
    && |chains| > 0
    && (forall a {:trigger InChain(chains, key, hash, a)} :: a in list ==> InChain(chains, key, hash, a))
    && (forall b, a {:trigger InList(list, key, hash, |chains|, b, a)} ::
          0 <= b < |chains| && a in chains[b] ==> InList(list, key, hash, |chains|, b, a))
    && KeysDistinct(list, key)
  }

  lemma WithoutMembers(s: seq<Addr>, i: nat, rec: Addr)
    requires Distinct(s) && i < |s| && rec == s[i]
    ensures forall a :: a in Without(s, i) <==> a in s && a != rec
  {
    forall a ensures a in Without(s, i) <==> a in s && a != rec {
      if a in s && a != rec {
        var j :| 0 <= j < |s| && s[j] == a;
        assert Without(s, i)[if j < i then j else j - 1] == a;
      }
    }
  }

  /** One bucket's chain changes, the others and their records stay. */
  lemma ChainsChange(chains: seq<seq<Addr>>, buckets: seq<Addr>, child: Links, b: nat,
                     chain': seq<Addr>, child': Links, head': Addr, chains': seq<seq<Addr>>, buckets': seq<Addr>)
    requires ChainsOK(chains, buckets, child) && b < |chains| && Chained(chain', child', head')
    requires chains' == chains[b := chain'] && buckets' == buckets[b := head']
    requires forall c, a :: 0 <= c < |chains| && c != b && a in chains[c] && a in child ==>
             a in child' && child'[a] == child[a]
    ensures ChainsOK(chains', buckets', child')
  {
    forall c | 0 <= c < |chains'| ensures Chained(chains'[c], child', buckets'[c]) {
      if c != b {
        assert Chained(chains[c], child, buckets[c]);
        ChainFrame(chains[c], child, buckets[c], child');
      }
    }
  }

  lemma IndexWithout<K>(list: seq<Addr>, chains: seq<seq<Addr>>, key: map<Addr, K>, hash: K -> nat,
                        i: nat, b: nat, j: nat, rec: Addr, list': seq<Addr>, chains': seq<seq<Addr>>)
    requires Indexed(list, chains, key, hash) && Distinct(list)
    requires i < |list| && b < |chains| && j < |chains[b]| && Distinct(chains[b]) && list[i] == rec == chains[b][j]
    requires list' == Without(list, i) && chains' == chains[b := Without(chains[b], j)]
    ensures Indexed(list', chains', key, hash)
  {
    WithoutMembers(list, i, rec);
    WithoutMembers(chains[b], j, rec);
    assert InList(list, key, hash, |chains|, b, rec);
    forall a | a in list' ensures InChain(chains', key, hash, a) { assert InChain(chains, key, hash, a); }
    forall c, a | 0 <= c < |chains'| && a in chains'[c] ensures InList(list', key, hash, |chains'|, c, a) {
      assert InList(list, key, hash, |chains|, c, a);
    }
  }

  /** A record with a key of its own joins list and chain, in whichever places. */
  lemma IndexWith<K>(list: seq<Addr>, chains: seq<seq<Addr>>, key: map<Addr, K>, hash: K -> nat,
                     b: nat, rec: Addr, list': seq<Addr>, chains': seq<seq<Addr>>, key': map<Addr, K>)
    requires Indexed(list, chains, key, hash) && b < |chains| && |chains'| == |chains| && rec !in list
    requires rec in key' && Slot(hash(key'[rec]), |chains|) == b
    requires forall a :: a in list && a in key ==> a in key' && key'[a] == key[a] && key[a] != key'[rec]
    requires forall a :: a in list' <==> a in list || a == rec
    requires forall a :: a in chains'[b] <==> a in chains[b] || a == rec
    requires forall c :: 0 <= c < |chains| && c != b ==> chains'[c] == chains[c]
    ensures Indexed(list', chains', key', hash)
  {
    forall a | a in list' ensures InChain(chains', key', hash, a) {
      if a != rec { assert InChain(chains, key, hash, a); }
    }
    forall c, a | 0 <= c < |chains'| && a in chains'[c] ensures InList(list', key', hash, |chains'|, c, a) {
      if a != rec || c != b { assert InList(list, key, hash, |chains|, c, a); }
    }
    forall a, d | a in list' && d in list' && a in key' && d in key' && key'[a] == key'[d] ensures a == d {
      if a != rec { assert InChain(chains, key, hash, a); }
      if d != rec { assert InChain(chains, key, hash, d); }
    }
  }

  /** The same records in another order are indexed alike. */
  lemma IndexReordered<K>(list: seq<Addr>, chains: seq<seq<Addr>>, key: map<Addr, K>, hash: K -> nat, list': seq<Addr>)
    requires Indexed(list, chains, key, hash) && forall a :: a in list' <==> a in list
    ensures Indexed(list', chains, key, hash)
  {
    forall a | a in list' ensures InChain(chains, key, hash, a) { }
    forall c, a | 0 <= c < |chains| && a in chains[c] ensures InList(list', key, hash, |chains|, c, a) {
      assert InList(list, key, hash, |chains|, c, a);
    }
  }

  /** The records of chains are those of the list. */
  lemma ChainsKnown<K>(list: seq<Addr>, chains: seq<seq<Addr>>, key: map<Addr, K>, hash: K -> nat)
    requires Indexed(list, chains, key, hash)
    ensures forall c, a :: 0 <= c < |chains| && a in chains[c] ==>
            a in list && a in key && Slot(hash(key[a]), |chains|) == c
  {
    forall c, a | 0 <= c < |chains| && a in chains[c] ensures a in list && a in key
        && Slot(hash(key[a]), |chains|) == c {
      assert InList(list, key, hash, |chains|, c, a);
    }
  }

  /** A record of one chain is in no other one. */
  lemma ChainsApart<K>(list: seq<Addr>, chains: seq<seq<Addr>>, key: map<Addr, K>, hash: K -> nat, b: nat, rec: Addr)
    requires Indexed(list, chains, key, hash) && b < |chains| && rec in chains[b]
    ensures forall c, a :: 0 <= c < |chains| && c != b && a in chains[c] ==> a != rec
  {
    assert InList(list, key, hash, |chains|, b, rec);
    forall c, a | 0 <= c < |chains| && c != b && a in chains[c] ensures a != rec {
      assert InList(list, key, hash, |chains|, c, a);
    }
  }

  /** A record with a key of its own is put before its bucket's chain. */
  lemma JoinedBefore<K>(list: seq<Addr>, chains: seq<seq<Addr>>, buckets: seq<Addr>, child: Links, key: map<Addr, K>,
                        hash: K -> nat, b: nat, rec: Addr, list': seq<Addr>, chains': seq<seq<Addr>>,
                        buckets': seq<Addr>,
                        child': Links, key': map<Addr, K>)
    requires ChainsOK(chains, buckets, child) && Indexed(list, chains, key, hash) && b < |chains| && rec !in list
             && rec != 0
    requires rec in key' && Slot(hash(key'[rec]), |chains|) == b
    requires forall a :: a in list && a in key ==> a in key' && key'[a] == key[a] && key[a] != key'[rec]
    requires forall a :: a in list' <==> a in list || a == rec
    requires chains' == chains[b := [rec] + chains[b]] && buckets' == buckets[b := rec]
             && child' == child[rec := buckets[b]]
    ensures ChainsOK(chains', buckets', child') && Indexed(list', chains', key', hash)
  {
    ChainsKnown(list, chains, key, hash);
    assert Chained(chains[b], child, buckets[b]);
    ChainBefore(chains[b], child, buckets[b], rec, chains'[b], child');
    ChainsChange(chains, buckets, child, b, chains'[b], child', rec, chains', buckets');
    IndexWith(list, chains, key, hash, b, rec, list', chains', key');
  }

  /** The same behind the last record of the chain. */
  lemma JoinedBehind<K>(list: seq<Addr>, chains: seq<seq<Addr>>, buckets: seq<Addr>, child: Links, key: map<Addr, K>,
                        hash: K -> nat, b: nat, rec: Addr, last: Addr, list': seq<Addr>, chains': seq<seq<Addr>>,
                        buckets': seq<Addr>, child': Links)
    requires ChainsOK(chains, buckets, child) && Indexed(list, chains, key, hash) && b < |chains| && rec !in list
             && rec != 0
    requires last == At(chains[b], |chains[b]| - 1)
    requires rec in key && Slot(hash(key[rec]), |chains|) == b
    requires forall a :: a in list && a in key ==> key[a] != key[rec]
    requires forall a :: a in list' <==> a in list || a == rec
    requires chains' == chains[b := chains[b] + [rec]]
    requires child' == (if last != 0 then child[last := rec] else child)[rec := 0]
    requires buckets' == if last != 0 then buckets else buckets[b := rec]
    ensures ChainsOK(chains', buckets', child') && Indexed(list', chains', key, hash)
  {
    ChainsKnown(list, chains, key, hash);
    var c := chains[b];
    assert Chained(c, child, buckets[b]);
    if |c| > 0 {
      assert Hop(c, child, |c| - 1);
      ChainsApart(list, chains, key, hash, b, c[|c| - 1]);
    }
    ChainBehind(c, child, buckets[b], rec, chains'[b], child', buckets'[b]);
    ChainsChange(chains, buckets, child, b, chains'[b], child', buckets'[b], chains', buckets');
    IndexWith(list, chains, key, hash, b, rec, list', chains', key);
  }

  /** A record leaves list and chain. */
  lemma Departed<K>(list: seq<Addr>, chains: seq<seq<Addr>>, buckets: seq<Addr>, child: Links, key: map<Addr, K>,
                    hash: K -> nat, i: nat, b: nat, j: nat, rec: Addr, parent: Addr, list': seq<Addr>,
                    chains': seq<seq<Addr>>,
                    buckets': seq<Addr>, child': Links)
    requires ChainsOK(chains, buckets, child) && Indexed(list, chains, key, hash) && Distinct(list)
    requires i < |list| && b < |chains| && j < |chains[b]| && list[i] == rec == chains[b][j] && rec in child
    requires list' == Without(list, i) && chains' == chains[b := Without(chains[b], j)]
    requires parent == At(chains[b], j - 1)
    requires child' == (if parent != 0 then child[parent := child[rec]] else child)
    requires buckets' == if parent != 0 then buckets else buckets[b := child[rec]]
    ensures ChainsOK(chains', buckets', child') && Indexed(list', chains', key, hash)
  {
    ChainsKnown(list, chains, key, hash);
    var c := chains[b];
    assert Chained(c, child, buckets[b]);
    if j > 0 {
      assert Hop(c, child, j - 1);
      ChainsApart(list, chains, key, hash, b, c[j - 1]);
    }
    ChainWithout(c, child, buckets[b], j, rec, chains'[b], child', buckets'[b]);
    ChainsChange(chains, buckets, child, b, chains'[b], child', buckets'[b], chains', buckets');
    IndexWithout(list, chains, key, hash, i, b, j, rec, list', chains');
  }

  /** A record takes the place of another one of its key. */
  lemma Relieved<K>(list: seq<Addr>, chains: seq<seq<Addr>>, buckets: seq<Addr>, child: Links, key: map<Addr, K>,
                    hash: K -> nat, i: nat, b: nat, j: nat, former: Addr, rec: Addr, parent: Addr, list': seq<Addr>,
                    chains': seq<seq<Addr>>, buckets': seq<Addr>, child': Links)
    requires ChainsOK(chains, buckets, child) && Indexed(list, chains, key, hash) && Distinct(list)
    requires i < |list| && b < |chains| && j < |chains[b]| && list[i] == former == chains[b][j] && former in child
    requires rec != 0 && rec !in list && rec in key && former in key && key[rec] == key[former]
    requires list' == list[i := rec] && chains' == chains[b := chains[b][j := rec]]
    requires parent == At(chains[b], j - 1)
    requires child' == (if parent != 0 then child[parent := rec] else child)[rec := child[former]]
    requires buckets' == if parent != 0 then buckets else buckets[b := rec]
    ensures ChainsOK(chains', buckets', child') && Indexed(list', chains', key, hash)
  {
    ChainsKnown(list, chains, key, hash);
    var c := chains[b];
    assert Chained(c, child, buckets[b]) && former in c;
    if j > 0 {
      assert Hop(c, child, j - 1);
      ChainsApart(list, chains, key, hash, b, c[j - 1]);
    }
    ChainInstead(c, child, buckets[b], j, rec, chains'[b], child', buckets'[b]);
    ChainsChange(chains, buckets, child, b, chains'[b], child', buckets'[b], chains', buckets');
    var mid, midChains := Without(list, i), chains[b := Without(c, j)];
    IndexWithout(list, chains, key, hash, i, b, j, former, mid, midChains);
    WithoutMembers(list, i, former);
    WithoutMembers(c, j, former);
    InsteadMembers(list, i, rec);
    InsteadMembers(c, j, rec);
    IndexWith(mid, midChains, key, hash, b, rec, list', chains', key);
  }

  lemma InsteadMembers(s: seq<Addr>, i: nat, rec: Addr)
    requires Distinct(s) && i < |s|
    ensures forall a :: a in s[i := rec] <==> a in Without(s, i) || a == rec
  {
    WithoutMembers(s, i, s[i]);
    forall a ensures a in s[i := rec] <==> a in Without(s, i) || a == rec {
      if a in s && a != s[i] {
        var j :| 0 <= j < |s| && s[j] == a;
        assert s[i := rec][j] == a;
      }
      assert s[i := rec][i] == rec;
    }
  }

  /** Chains whose records keep their child pointers and keys stay in order. */
  lemma IndexSpared<K>(list: seq<Addr>, chains: seq<seq<Addr>>, buckets: seq<Addr>, child: Links, key: map<Addr, K>,
                       hash: K -> nat, child': Links, key': map<Addr, K>)
    requires ChainsOK(chains, buckets, child) && Indexed(list, chains, key, hash)
    requires forall a :: a in list && a in child ==> a in child' && child'[a] == child[a]
    requires forall a :: a in list && a in key ==> a in key' && key'[a] == key[a]
    ensures ChainsOK(chains, buckets, child') && Indexed(list, chains, key', hash)
  {
    ChainsKnown(list, chains, key, hash);
    forall b | 0 <= b < |chains| ensures Chained(chains[b], child', buckets[b]) {
      assert Chained(chains[b], child, buckets[b]);
      ChainFrame(chains[b], child, buckets[b], child');
    }
    forall a | a in list ensures InChain(chains, key', hash, a) { assert InChain(chains, key, hash, a); }
    forall b, a | 0 <= b < |chains| && a in chains[b] ensures InList(list, key', hash, |chains|, b, a) { }
  }

  /** A list cut off behind its n-th record. */
  lemma Truncated(list: seq<Addr>, prev: Links, next: Links, first: Addr, last: Addr, n: nat,
                  prev': Links, next': Links, first': Addr, last': Addr)
    requires Linked(list, prev, next, first, last) && n <= |list|
    requires first' == (if n == 0 then 0 else first) && last' == At(list[..n], n - 1)
    requires forall i :: 0 <= i < n && list[i] in prev ==> list[i] in prev' && prev'[list[i]] == prev[list[i]]
    requires forall i :: 0 <= i < n && list[i] in next ==>
             list[i] in next' && next'[list[i]] == if i == n - 1 then 0 else next[list[i]]
    ensures Linked(list[..n], prev', next', first', last')
  {
    forall j | 0 <= j < n ensures Place(list[..n], prev', next', j) {
      assert Place(list, prev, next, j);
    }
  }
}
