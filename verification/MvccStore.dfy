/** The MVCC store and its buffered transactions as the objects they are in the source. Every method is
    proved against the value-level operation of `VersionChains`, so the theorems about runs apply to it. */
module MvccStore {
  import opened Common
  import opened VersionChains

  /** The chains midway through a collection: those of the keys in `todo` are not cut yet. */
  ghost function GcExcept<V>(m: map<Key, Chain<V>>, oldest: nat, todo: set<Key>): map<Key, Chain<V>> {
    map k | k in m :: if k in todo then m[k] else GcChain(m[k], oldest)
  }

  lemma GcStep<V>(m: map<Key, Chain<V>>, oldest: nat, todo: set<Key>, k: Key)
    requires k in todo && k in m && m[k] != []
    ensures var cut := m[k][..Kept(m[k], false, oldest)];
            && cut != []
            && GcExcept(m, oldest, todo).Keys == m.Keys && GcExcept(m, oldest, todo)[k] == m[k]
            && GcExcept(m, oldest, todo)[k := cut] == GcExcept(m, oldest, todo - {k})
            && VersionTotal(GcExcept(m, oldest, todo - {k})) + (|m[k]| - |cut|)
                == VersionTotal(GcExcept(m, oldest, todo))
  {
    GcPreservesChain(m[k], oldest, oldest);
    var x, y := GcExcept(m, oldest, todo), GcExcept(m, oldest, todo - {k});
    assert x[k := GcChain(m[k], oldest)] == y;
    VersionTotalSplit(x, k);
    VersionTotalSplit(y, k);
    assert x - {k} == y - {k};
  }

  lemma GcEnds<V>(st: Store<V>, oldest: nat)
    ensures GcExcept(st.chains, oldest, st.chains.Keys) == st.chains
    ensures GcExcept(st.chains, oldest, {}) == Gc(st, oldest).chains
    ensures NoEmptyChains(st) ==> NoEmptyChains(Gc(st, oldest))
  {
    forall k | k in st.chains ensures st.chains[k] != [] ==> GcChain(st.chains[k], oldest) != [] {
      GcPreservesChain(st.chains[k], oldest, oldest);
    }
  }

  class Mvcc<V> {
    var chains: map<Key, Chain<V>>
    var ts: nat

    ghost predicate Valid() reads this { NoEmptyChains(State()) }

    ghost function State(): Store<V> reads this { Store(chains, ts) }

    constructor ()
      ensures Valid() && State() == Store(map[], 0)
    {
      chains, ts := map[], 0;
    }

    method NextTs() returns (t: nat)
      requires Valid()
      modifies this`ts
      ensures Valid() && t == ts == old(ts) + 1
    {
      ts := ts + 1;
      t := ts;
    }

    method Read(key: Key, snapshot: nat) returns (r: Option<V>)
      requires Valid()
      ensures r == VersionChains.Read(State(), key, snapshot)
    {
      if key !in chains { return None; }
      var ver := chains[key];
      while ver != []
        invariant ReadChain(ver, snapshot) == ReadChain(chains[key], snapshot)
      {
        if StampedBy(ver[0], snapshot) { return Some(ver[0].value); }
        ver := ver[1..];
      }
      return None;
    }

    method WriteIntent(key: Key, value: V, txn: nat)
      requires Valid()
      modifies this`chains
      ensures Valid() && State() == VersionChains.WriteIntent(old(State()), key, value, txn)
    {
      var prev := if key in chains then chains[key] else [];
      chains := chains[key := [Version(value, txn, None)] + prev];
    }

    method CommitKey(key: Key, txn: nat, commitTs: nat) returns (ok: bool)
      requires Valid()
      modifies this`chains
      ensures Valid() && State() == VersionChains.CommitKey(old(State()), key, txn, commitTs)
      ensures ok <==> HeadIsIntentOf(ChainOf(old(State()), key), txn)
    {
      if key in chains {
        var c := chains[key];
        if c[0].txnId == txn && c[0].commitTs.None? {
          chains := chains[key := c[0 := c[0].(commitTs := Some(commitTs))]];
          return true;
        }
      }
      return false;
    }

    method AbortKey(key: Key, txn: nat)
      requires Valid()
      modifies this`chains
      ensures Valid() && State() == VersionChains.AbortKey(old(State()), key, txn)
    {
      if key in chains {
        var c := chains[key];
        if c[0].txnId == txn && c[0].commitTs.None? {
          chains := chains - {key};
          if |c| > 1 { chains := chains[key := c[1..]]; }
        }
      }
      assert State().chains == VersionChains.AbortKey(old(State()), key, txn).chains;
    }

    method HasCommittedSince(key: Key, since: nat) returns (r: bool)
      requires Valid()
      ensures r <==> CommittedSince(ChainOf(State(), key), since)
    {
      if key !in chains { return false; }
      var c := chains[key];
      for i := 0 to |c|
        invariant forall j | 0 <= j < i :: !(c[j].commitTs.Some? && c[j].commitTs.value > since)
      {
        if c[i].commitTs.Some? && c[i].commitTs.value > since { return true; }
      }
      return false;
    }

    /** The walk of `gc` down one chain: how many versions stay. */
    static method KeptLength(c: Chain<V>, oldest: nat) returns (n: nat)
      requires c != []
      ensures n == Kept(c, false, oldest)
    {
      var seen := false;
      n := 0;
      while true
        invariant n < |c| && n + Kept(c[n..], seen, oldest) == Kept(c, false, oldest)
        decreases |c| - n
      {
        var cur := c[n];
        assert c[n..][1..] == c[n + 1..];
        n := n + 1;
        if cur.commitTs.Some? {
          if seen && cur.commitTs.value < oldest { return; }
          seen := true;
        }
        if n == |c| { return; }
      }
    }

    /** The loop of `gc` over all keys. */
    static method CutAll(before: map<Key, Chain<V>>, oldest: nat) returns (cut: map<Key, Chain<V>>, removed: nat)
      requires forall k | k in before :: before[k] != []
      ensures cut == GcExcept(before, oldest, {})
      ensures VersionTotal(cut) + removed == VersionTotal(before)
    {
      cut, removed := before, 0;
      var todo := before.Keys;
      assert GcExcept(before, oldest, todo) == before;
      hide GcExcept, GcChain, Kept, VersionTotal;
      while todo != {}
        invariant todo <= before.Keys
        invariant cut == GcExcept(before, oldest, todo)
        invariant VersionTotal(cut) + removed == VersionTotal(before)
        decreases |todo|
      {
        var k :| k in todo;
        GcStep(before, oldest, todo, k);
        var n := KeptLength(cut[k], oldest);
        removed := removed + (|cut[k]| - n);
        cut := cut[k := cut[k][..n]];
        todo := todo - {k};
      }
    }

    /** `gc`: cuts every chain at the horizon and reports how many versions it dropped, which is exactly the drop in
        `version_count`. */
    method Gc(oldest: nat) returns (removed: nat)
      requires Valid()
      modifies this`chains
      ensures Valid() && State() == VersionChains.Gc(old(State()), oldest)
      ensures chains.Keys == old(chains).Keys
      ensures forall k | k in chains :: CutAtHorizon(old(chains)[k], chains[k], oldest)
      ensures VersionTotal(chains) + removed == VersionTotal(old(chains))
    {
      hide GcExcept, GcChain, Kept, VersionTotal, CutAtHorizon;
      GcEnds(State(), oldest);
      forall k | k in chains ensures CutAtHorizon(chains[k], GcChain(chains[k], oldest), oldest) {
        GcCutsAtHorizon(chains[k], oldest);
      }
      chains, removed := CutAll(chains, oldest);
    }

    method VersionCount() returns (n: nat)
      requires Valid()
      ensures n == VersionTotal(chains)
    {
      n := 0;
      var rest := chains;
      while rest != map[]
        invariant n + VersionTotal(rest) == VersionTotal(chains)
        decreases |rest|
      {
        var k :| k in rest;
        VersionTotalSplit(rest, k);
        n := n + |rest[k]|;
        rest := rest - {k};
      }
    }
  }

  datatype Isolation = ReadCommitted | Snapshot | Serializable

  /** Everything a transaction holds besides the store it works on. */
  datatype Tx<V> = Tx(id: nat, snapshot: nat, isolation: Isolation, writes: map<Key, V>, readSet: seq<Key>)

  function BeginTx<V>(st: Store<V>, id: nat, isolation: Isolation): Tx<V> {
    Tx(id, st.ts, isolation, map[], [])
  }

  function TxGet<V>(st: Store<V>, tx: Tx<V>, k: Key): Option<V> {
    if k in tx.writes then Some(tx.writes[k])
    else Read(st, k, if tx.isolation.ReadCommitted? then st.ts else tx.snapshot)
  }

  function TxAfterGet<V>(tx: Tx<V>, k: Key): Tx<V> {
    if k !in tx.writes && tx.isolation.Serializable? then tx.(readSet := tx.readSet + [k]) else tx
  }

  ghost predicate Conflicts<V>(st: Store<V>, tx: Tx<V>) {
    && tx.isolation.Serializable?
    && exists k | k in tx.readSet :: CommittedSince(ChainOf(st, k), tx.snapshot)
  }

  /** The store after a commit that nothing interrupts: one new stamped version per written key. */
  ghost function Install<V>(st: Store<V>, tx: Tx<V>): Store<V> {
    Store(map k | k in st.chains.Keys + tx.writes.Keys ::
            if k in tx.writes then [Version(tx.writes[k], tx.id, Some(st.ts + 1))] + ChainOf(st, k) else st.chains[k],
          st.ts + 1)
  }

  function Intent<V>(tx: Tx<V>, k: Key): Version<V>
    requires k in tx.writes
  {
    Version(tx.writes[k], tx.id, None)
  }

  /** The store midway through the `write_intent` loop: the keys in `todo` are still missing. */
  ghost function WithIntents<V>(st: Store<V>, tx: Tx<V>, todo: set<Key>): Store<V> {
    st.(chains := map k | k in st.chains.Keys + (tx.writes.Keys - todo) ::
          if k in tx.writes && k !in todo then [Intent(tx, k)] + ChainOf(st, k) else st.chains[k])
  }

  /** The store midway through the `commit_key` loop: the keys in `todo` still carry intents. */
  ghost function WithStamps<V>(st: Store<V>, tx: Tx<V>, todo: set<Key>): Store<V> {
    Store(map k | k in st.chains.Keys + tx.writes.Keys ::
            if k in tx.writes then
              [if k in todo then Intent(tx, k) else Intent(tx, k).(commitTs := Some(st.ts + 1))] + ChainOf(st, k)
            else st.chains[k],
          st.ts + 1)
  }

  lemma IntentsStart<V>(st: Store<V>, tx: Tx<V>)
    ensures WithIntents(st, tx, tx.writes.Keys) == st
  {
    assert WithIntents(st, tx, tx.writes.Keys).chains == st.chains;
  }

  lemma IntentStep<V>(st: Store<V>, tx: Tx<V>, todo: set<Key>, k: Key)
    requires k in todo && todo <= tx.writes.Keys
    ensures WriteIntent(WithIntents(st, tx, todo), k, tx.writes[k], tx.id) == WithIntents(st, tx, todo - {k})
  {
    assert ChainOf(WithIntents(st, tx, todo), k) == ChainOf(st, k);
    assert WriteIntent(WithIntents(st, tx, todo), k, tx.writes[k], tx.id).chains
        == WithIntents(st, tx, todo - {k}).chains;
  }

  lemma StampsStart<V>(st: Store<V>, tx: Tx<V>)
    ensures WithIntents(st, tx, {}).(ts := st.ts + 1) == WithStamps(st, tx, tx.writes.Keys)
  {
    assert WithIntents(st, tx, {}).chains == WithStamps(st, tx, tx.writes.Keys).chains;
  }

  lemma StampStep<V>(st: Store<V>, tx: Tx<V>, todo: set<Key>, k: Key)
    requires k in todo && todo <= tx.writes.Keys
    ensures CommitKey(WithStamps(st, tx, todo), k, tx.id, st.ts + 1) == WithStamps(st, tx, todo - {k})
  {
    var c := ChainOf(WithStamps(st, tx, todo), k);
    assert c == [Intent(tx, k)] + ChainOf(st, k);
    assert c[0 := c[0].(commitTs := Some(st.ts + 1))]
        == [Intent(tx, k).(commitTs := Some(st.ts + 1))] + ChainOf(st, k);
    assert CommitKey(WithStamps(st, tx, todo), k, tx.id, st.ts + 1).chains
        == WithStamps(st, tx, todo - {k}).chains;
  }

  lemma StampsEnd<V>(st: Store<V>, tx: Tx<V>)
    ensures WithStamps(st, tx, {}) == Install(st, tx)
  {
    assert WithStamps(st, tx, {}).chains == Install(st, tx).chains;
  }

  class Transaction<V> {
    const store: Mvcc<V>
    const id: nat
    const snapshot: nat
    const isolation: Isolation
    var writes: map<Key, V>
    var readSet: seq<Key>

    ghost function State(): Tx<V> reads this { Tx(id, snapshot, isolation, writes, readSet) }

    constructor (store: Mvcc<V>, id: nat, isolation: Isolation)
      ensures this.store == store && State() == BeginTx(store.State(), id, isolation)
    {
      this.store, this.id, this.isolation := store, id, isolation;
      snapshot := store.ts;
      writes, readSet := map[], [];
    }

    method Get(key: Key) returns (r: Option<V>)
      requires store.Valid()
      modifies this`readSet
      ensures r == TxGet(store.State(), old(State()), key) && State() == TxAfterGet(old(State()), key)
    {
      if key in writes { return Some(writes[key]); }
      var at := if isolation.ReadCommitted? then store.ts else snapshot;
      if isolation == Serializable { readSet := readSet + [key]; }
      r := store.Read(key, at);
    }

    method Put(key: Key, value: V)
      modifies this`writes
      ensures State() == old(State()).(writes := old(writes)[key := value])
    {
      writes := writes[key := value];
    }

    /** Read-set validation: whether another transaction committed to a key this one read. */
    method Validate() returns (conflict: bool)
      requires store.Valid()
      ensures conflict <==> Conflicts(store.State(), State())
    {
      if isolation == Serializable {
        for i := 0 to |readSet|
          invariant forall j | 0 <= j < i :: !CommittedSince(ChainOf(store.State(), readSet[j]), snapshot)
        {
          conflict := store.HasCommittedSince(readSet[i], snapshot);
          if conflict {
            assert readSet[i] in readSet;
            return;
          }
        }
      }
      return false;
    }

    /** The loop of `write_intent` calls, over the written keys in any order. */
    method WriteIntents()
      requires store.Valid()
      modifies store
      ensures store.Valid() && store.State() == WithIntents(old(store.State()), State(), {})
    {
      hide WithIntents;
      ghost var before := store.State();
      var todo := writes.Keys;
      IntentsStart(before, State());
      while todo != {}
        invariant store.Valid() && todo <= writes.Keys
        invariant store.State() == WithIntents(before, State(), todo)
        decreases |todo|
      {
        var k :| k in todo;
        IntentStep(before, State(), todo, k);
        store.WriteIntent(k, writes[k], id);
        todo := todo - {k};
      }
    }

    /** The loop of `commit_key` calls. */
    method StampAll(ghost before: Store<V>, commitTs: nat)
      requires store.Valid() && commitTs == before.ts + 1
      requires store.State() == WithStamps(before, State(), writes.Keys)
      modifies store
      ensures store.Valid() && store.State() == WithStamps(before, State(), {})
    {
      hide WithStamps;
      var todo := writes.Keys;
      while todo != {}
        invariant store.Valid() && todo <= writes.Keys
        invariant store.State() == WithStamps(before, State(), todo)
        decreases |todo|
      {
        var k :| k in todo;
        StampStep(before, State(), todo, k);
        var _ := store.CommitKey(k, id, commitTs);
        todo := todo - {k};
      }
    }

    /** Validation, intents, timestamp, stamps; run without interruption it is exactly `Install`, and a conflict
        leaves the store untouched. */
    method Commit() returns (r: Option<nat>)
      requires store.Valid()
      modifies store
      ensures store.Valid()
      ensures r.None? <==> Conflicts(old(store.State()), State())
      ensures r.None? ==> store.State() == old(store.State())
      ensures r.Some? ==> store.State() == Install(old(store.State()), State()) && r.value == old(store.ts) + 1
    {
      var conflict := Validate();
      if conflict { return None; }
      WriteIntents();
      var commitTs := store.NextTs();
      StampsStart(old(store.State()), State());
      StampAll(old(store.State()), commitTs);
      StampsEnd(old(store.State()), State());
      r := Some(commitTs);
    }
  }
}
