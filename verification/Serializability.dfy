/** Runs of interleaved transactions whose commits are atomic: the committed history equals a serial execution
    in commit-timestamp order. */
module Serializability {
  import opened Common
  import opened VersionChains
  import opened MvccStore

  /** What a client did and saw inside one transaction. `at` is how many transactions had committed at the read. */
  datatype Op<V> = ReadOp(key: Key, seen: Option<V>, at: nat) | WriteOp(key: Key, value: V)

  datatype Active<V> = Active(tx: Tx<V>, ops: seq<Op<V>>)

  datatype Committed<V> = Committed(ts: nat, isolation: Isolation, snapshot: nat, ops: seq<Op<V>>)

  /** `horizon` is the highest bound a collection has run with. */
  datatype Sys<V> = Sys(store: Store<V>, lastId: nat, active: map<nat, Active<V>>, log: seq<Committed<V>>, horizon: nat)

  datatype Step<V> =
    | Begin(isolation: Isolation)
    | Get(txn: nat, key: Key)
    | Put(txn: nat, key: Key, value: V)
    | Commit(txn: nat)
    | Drop(txn: nat)
    | Collect(oldest: nat)

  function Init<V>(): Sys<V> { Sys(Store(map[], 0), 0, map[], [], 0) }

  /** A step on an unknown transaction is impossible; collection respects the oldest active snapshot. */
  ghost predicate Enabled<V>(s: Sys<V>, step: Step<V>) {
    match step
    case Begin(_) => true
    case Get(t, _) => t in s.active
    case Put(t, _, _) => t in s.active
    case Commit(t) => t in s.active
    case Drop(t) => t in s.active
    case Collect(oldest) => oldest <= s.store.ts && forall t | t in s.active :: oldest <= s.active[t].tx.snapshot
  }

  ghost function Next<V>(s: Sys<V>, step: Step<V>): Sys<V>
    requires Enabled(s, step)
  {
    match step
    case Begin(iso) =>
      s.(lastId := s.lastId + 1, active := s.active[s.lastId + 1 := Active(BeginTx(s.store, s.lastId + 1, iso), [])])
    case Get(t, k) =>
      var a := s.active[t];
      s.(active := s.active[t := Active(TxAfterGet(a.tx, k), a.ops + [ReadOp(k, TxGet(s.store, a.tx, k), |s.log|)])])
    case Put(t, k, v) =>
      var a := s.active[t];
      s.(active := s.active[t := Active(a.tx.(writes := a.tx.writes[k := v]), a.ops + [WriteOp(k, v)])])
    case Commit(t) =>
      var a := s.active[t];
      if Conflicts(s.store, a.tx) then s.(active := s.active - {t})
      else s.(store := Install(s.store, a.tx), active := s.active - {t},
              log := s.log + [Committed(s.store.ts + 1, a.tx.isolation, a.tx.snapshot, a.ops)])
    case Drop(t) => s.(active := s.active - {t})
    case Collect(oldest) =>
      s.(store := Gc(s.store, oldest), horizon := if oldest > s.horizon then oldest else s.horizon)
  }

  ghost predicate CanRun<V>(s: Sys<V>, steps: seq<Step<V>>)
    decreases |steps|
  {
    steps == [] || (Enabled(s, steps[0]) && CanRun(Next(s, steps[0]), steps[1..]))
  }

  ghost function Run<V>(s: Sys<V>, steps: seq<Step<V>>): Sys<V>
    requires CanRun(s, steps)
    decreases |steps|
  {
    if steps == [] then s else Run(Next(s, steps[0]), steps[1..])
  }

  // ---------------------------------------------------------------- serial execution

  /** The map after executing the writes of `ops` on `m`. */
  function Exec<V>(m: map<Key, V>, ops: seq<Op<V>>): map<Key, V> {
    if ops == [] then m
    else
      var m' := Exec(m, ops[..|ops| - 1]);
      match ops[|ops| - 1]
      case ReadOp(_, _, _) => m'
      case WriteOp(k, v) => m'[k := v]
  }

  /** Executing `ops` alone on `m` returns exactly the values its reads saw. */
  ghost predicate Explains<V>(m: map<Key, V>, ops: seq<Op<V>>) {
    ops == [] ||
    (var init, last := ops[..|ops| - 1], ops[|ops| - 1];
     Explains(m, init) && (last.ReadOp? ==> last.seen == MapGet(Exec(m, init), last.key)))
  }

  /** The map after running the first `n` committed transactions one after another. */
  function StateAt<V>(log: seq<Committed<V>>, n: nat): map<Key, V>
    requires n <= |log|
  {
    if n == 0 then map[] else Exec(StateAt(log, n - 1), log[n - 1].ops)
  }

  ghost predicate Writes<V>(ops: seq<Op<V>>, k: Key) {
    k in Exec(map[], ops)
  }

  lemma {:induction false} ExecIsOverlay<V>(m: map<Key, V>, ops: seq<Op<V>>)
    ensures Exec(m, ops) == m + Exec(map[], ops)
  {
    if ops != [] { ExecIsOverlay(m, ops[..|ops| - 1]); }
  }

  lemma {:induction false} StateAtPrefix<V>(log: seq<Committed<V>>, c: Committed<V>, n: nat)
    requires n <= |log|
    ensures StateAt(log + [c], n) == StateAt(log, n)
  {
    if n > 0 { StateAtPrefix(log, c, n - 1); }
  }

  /** Keys no transaction in between wrote keep their value. */
  lemma {:induction false} UnwrittenKeyKeeps<V>(log: seq<Committed<V>>, i: nat, j: nat, k: Key)
    requires i <= j <= |log| && forall l | i <= l < j :: !Writes(log[l].ops, k)
    ensures MapGet(StateAt(log, i), k) == MapGet(StateAt(log, j), k)
    decreases j
  {
    if i < j {
      UnwrittenKeyKeeps(log, i, j - 1, k);
      ExecIsOverlay(StateAt(log, j - 1), log[j - 1].ops);
    }
  }

  // ---------------------------------------------------------------- invariants

  /** Every read that did not come from the transaction's own writes is in its read set. */
  ghost predicate ReadsTracked<V>(ops: seq<Op<V>>, readSet: seq<Key>) {
    ops == [] ||
    (var init, last := ops[..|ops| - 1], ops[|ops| - 1];
     ReadsTracked(init, readSet) && (last.ReadOp? ==> Writes(init, last.key) || last.key in readSet))
  }

  lemma {:induction false} TrackedGrows<V>(ops: seq<Op<V>>, readSet: seq<Key>, k: Key)
    requires ReadsTracked(ops, readSet)
    ensures ReadsTracked(ops, readSet + [k])
  {
    if ops != [] { TrackedGrows(ops[..|ops| - 1], readSet, k); }
  }

  /** Two states that agree on the read set explain the same operations. */
  lemma {:induction false} AgreeingStatesExplain<V>(m1: map<Key, V>, m2: map<Key, V>, ops: seq<Op<V>>,
                                                    readSet: seq<Key>)
    requires Explains(m1, ops) && ReadsTracked(ops, readSet)
    requires forall k | k in readSet :: MapGet(m1, k) == MapGet(m2, k)
    ensures Explains(m2, ops)
  {
    if ops != [] {
      var init := ops[..|ops| - 1];
      AgreeingStatesExplain(m1, m2, init, readSet);
      ExecIsOverlay(m1, init);
      ExecIsOverlay(m2, init);
    }
  }

  /** Some read of `k` was answered by the store and not by the transaction's own writes. */
  ghost predicate FellThrough<V>(ops: seq<Op<V>>, k: Key) {
    ops != [] &&
    (var init, last := ops[..|ops| - 1], ops[|ops| - 1];
     FellThrough(init, k) || (last.ReadOp? && last.key == k && !Writes(init, k)))
  }

  lemma {:induction false} FellThroughIsTracked<V>(ops: seq<Op<V>>, readSet: seq<Key>, k: Key)
    requires ReadsTracked(ops, readSet) && FellThrough(ops, k)
    ensures k in readSet
  {
    var init := ops[..|ops| - 1];
    if FellThrough(init, k) { FellThroughIsTracked(init, readSet, k); }
  }

  /** Every read saw what was committed at that very moment, under the transaction's own writes so far. */
  ghost predicate ReadsCurrent<V>(log: seq<Committed<V>>, ops: seq<Op<V>>) {
    ops == [] ||
    (var init, last := ops[..|ops| - 1], ops[|ops| - 1];
     && ReadsCurrent(log, init)
     && (last.ReadOp? ==> last.at <= |log| && last.seen == MapGet(Exec(StateAt(log, last.at), init), last.key)))
  }

  lemma {:induction false} ReadsCurrentLater<V>(log: seq<Committed<V>>, c: Committed<V>, ops: seq<Op<V>>)
    requires ReadsCurrent(log, ops)
    ensures ReadsCurrent(log + [c], ops)
  {
    if ops != [] {
      var init, last := ops[..|ops| - 1], ops[|ops| - 1];
      ReadsCurrentLater(log, c, init);
      if last.ReadOp? { StateAtPrefix(log, c, last.at); }
    }
  }

  /** Reads happened in order, from the snapshot on and up to `now`. */
  ghost predicate ReadTimes<V>(ops: seq<Op<V>>, snapshot: nat, now: nat) {
    && (forall i | 0 <= i < |ops| && ops[i].ReadOp? :: snapshot <= ops[i].at <= now)
    && (forall i, j | 0 <= i < j < |ops| && ops[i].ReadOp? && ops[j].ReadOp? :: ops[i].at <= ops[j].at)
  }

  /** Some transaction that committed after the first `s` wrote the key. */
  ghost predicate WrittenSince<V>(log: seq<Committed<V>>, k: Key, s: nat) {
    exists l :: s <= l < |log| && Writes(log[l].ops, k)
  }

  /** The store answers every snapshot from the horizon on like the serial history. */
  ghost predicate StoreMatches<V>(st: Store<V>, log: seq<Committed<V>>, horizon: nat) {
    && st.ts == |log| && horizon <= |log|
    && (forall k, s: nat | horizon <= s <= |log| :: Read(st, k, s) == MapGet(StateAt(log, s), k))
    && (forall k, s: nat | horizon <= s <= |log| :: CommittedSince(ChainOf(st, k), s) <==> WrittenSince(log, k, s))
    && (forall k :: Descending(ChainOf(st, k)))
    && (forall k, i | 0 <= i < |ChainOf(st, k)| :: StampedBy(ChainOf(st, k)[i], st.ts))
  }

  ghost predicate TxMatches<V>(a: Active<V>, log: seq<Committed<V>>, horizon: nat) {
    && horizon <= a.tx.snapshot <= |log|
    && a.tx.writes == Exec(map[], a.ops)
    && (!a.tx.isolation.ReadCommitted? ==> Explains(StateAt(log, a.tx.snapshot), a.ops))
    && (a.tx.isolation.ReadCommitted? ==> ReadsCurrent(log, a.ops))
    && (a.tx.isolation.Serializable? ==> ReadsTracked(a.ops, a.tx.readSet))
    && (forall k | k in a.tx.readSet :: FellThrough(a.ops, k)) && ReadTimes(a.ops, a.tx.snapshot, |log|)
  }

  /** What the isolation level of a committed transaction promises about its reads. */
  ghost predicate CommitExplained<V>(log: seq<Committed<V>>, i: nat)
    requires i < |log|
  {
    && log[i].ts == i + 1
    && (log[i].isolation.Serializable? ==> Explains(StateAt(log, i), log[i].ops))
    && (log[i].isolation.Snapshot? ==> log[i].snapshot <= i && Explains(StateAt(log, log[i].snapshot), log[i].ops))
    && (log[i].isolation.ReadCommitted? ==> ReadsCurrent(log, log[i].ops)) && ReadTimes(log[i].ops, log[i].snapshot, i)
  }

  ghost predicate Inv<V>(s: Sys<V>) {
    && StoreMatches(s.store, s.log, s.horizon)
    && (forall t | t in s.active :: TxMatches(s.active[t], s.log, s.horizon))
    && (forall i | 0 <= i < |s.log| :: CommitExplained(s.log, i))
  }

  // ---------------------------------------------------------------- preservation

  /** What a read sees at each level. */
  lemma GetSees<V>(st: Store<V>, a: Active<V>, k: Key, log: seq<Committed<V>>, horizon: nat)
    requires StoreMatches(st, log, horizon) && TxMatches(a, log, horizon)
    ensures var at := if a.tx.isolation.ReadCommitted? then |log| else a.tx.snapshot;
            TxGet(st, a.tx, k) == MapGet(Exec(StateAt(log, at), a.ops), k)
  {
    var at := if a.tx.isolation.ReadCommitted? then |log| else a.tx.snapshot;
    assert Read(st, k, at) == MapGet(StateAt(log, at), k);
    hide StateAt, Exec, Read;
    ExecIsOverlay(StateAt(log, at), a.ops);
  }

  /** What one more operation adds to everything that is said about a transaction's operations. */
  lemma OneMoreOp<V>(log: seq<Committed<V>>, m: map<Key, V>, ops: seq<Op<V>>, op: Op<V>, readSet: seq<Key>)
    ensures Exec(m, ops + [op]) == if op.ReadOp? then Exec(m, ops) else Exec(m, ops)[op.key := op.value]
    ensures Explains(m, ops + [op]) <==>
              Explains(m, ops) && (op.ReadOp? ==> op.seen == MapGet(Exec(m, ops), op.key))
    ensures ReadsCurrent(log, ops + [op]) <==>
              && ReadsCurrent(log, ops)
              && (op.ReadOp? ==> op.at <= |log| && op.seen == MapGet(Exec(StateAt(log, op.at), ops), op.key))
    ensures ReadsTracked(ops + [op], readSet) <==>
              ReadsTracked(ops, readSet) && (op.ReadOp? ==> Writes(ops, op.key) || op.key in readSet)
    ensures forall k :: FellThrough(ops + [op], k) <==>
                          FellThrough(ops, k) || (op.ReadOp? && op.key == k && !Writes(ops, k))
  {
    assert (ops + [op])[..|ops|] == ops;
    hide StateAt;
  }

  lemma OneMoreTime<V>(ops: seq<Op<V>>, op: Op<V>, snapshot: nat, now: nat)
    requires ReadTimes(ops, snapshot, now) && snapshot <= now && (op.ReadOp? ==> op.at == now)
    ensures ReadTimes(ops + [op], snapshot, now)
  {
  }

  lemma GetKeepsTx<V>(st: Store<V>, a: Active<V>, k: Key, log: seq<Committed<V>>, horizon: nat)
    requires StoreMatches(st, log, horizon) && TxMatches(a, log, horizon)
    ensures TxMatches(Active(TxAfterGet(a.tx, k), a.ops + [ReadOp(k, TxGet(st, a.tx, k), |log|)]), log, horizon)
  {
    GetSees(st, a, k, log, horizon);
    var op := ReadOp(k, TxGet(st, a.tx, k), |log|);
    var readSet := TxAfterGet(a.tx, k).readSet;
    hide StateAt, StoreMatches, TxGet, Exec, Explains, ReadsCurrent, ReadsTracked, FellThrough, ReadTimes;
    OneMoreOp(log, StateAt(log, a.tx.snapshot), a.ops, op, readSet);
    OneMoreOp(log, map[], a.ops, op, readSet);
    OneMoreTime(a.ops, op, a.tx.snapshot, |log|);
    if a.tx.isolation.Serializable? && k !in a.tx.writes { TrackedGrows(a.ops, a.tx.readSet, k); }
  }

  lemma PutKeepsTx<V>(a: Active<V>, k: Key, v: V, log: seq<Committed<V>>, horizon: nat)
    requires TxMatches(a, log, horizon)
    ensures TxMatches(Active(a.tx.(writes := a.tx.writes[k := v]), a.ops + [WriteOp(k, v)]), log, horizon)
  {
    var op := WriteOp(k, v);
    hide StateAt, Exec, Explains, ReadsCurrent, ReadsTracked, FellThrough, ReadTimes;
    OneMoreOp(log, StateAt(log, a.tx.snapshot), a.ops, op, a.tx.readSet);
    OneMoreOp(log, map[], a.ops, op, a.tx.readSet);
    OneMoreTime(a.ops, op, a.tx.snapshot, |log|);
  }

  /** What a commit does to one key's chain. */
  lemma InstallChain<V>(st: Store<V>, tx: Tx<V>, k: Key)
    ensures ChainOf(Install(st, tx), k)
            == if k in tx.writes then [Version(tx.writes[k], tx.id, Some(st.ts + 1))] + ChainOf(st, k)
               else ChainOf(st, k)
    ensures k in tx.writes ==> ChainOf(Install(st, tx), k)[1..] == ChainOf(st, k)
  {
  }

  lemma InstallRead<V>(st: Store<V>, a: Active<V>, log: seq<Committed<V>>, horizon: nat, c: Committed<V>, k: Key,
                       s: nat)
    requires StoreMatches(st, log, horizon) && a.tx.writes == Exec(map[], a.ops) && c.ops == a.ops
    requires horizon <= s <= |log| + 1
    ensures Read(Install(st, a.tx), k, s) == MapGet(StateAt(log + [c], s), k)
  {
    InstallChain(st, a.tx, k);
    if s <= |log| {
      StateAtPrefix(log, c, s);
      assert Read(st, k, s) == MapGet(StateAt(log, s), k);
    } else {
      var now := StateAt(log, |log|);
      StateAtPrefix(log, c, |log|);
      ExecIsOverlay(now, c.ops);
      assert StateAt(log + [c], s) == now + a.tx.writes;
      if k !in a.tx.writes {
        SameReadLater(ChainOf(st, k), st.ts, s);
        assert Read(st, k, st.ts) == MapGet(now, k);
      }
    }
  }

  lemma WrittenSinceMore<V>(log: seq<Committed<V>>, c: Committed<V>, k: Key, s: nat)
    requires s <= |log|
    ensures WrittenSince(log + [c], k, s) <==> WrittenSince(log, k, s) || Writes(c.ops, k)
  {
    var more := log + [c];
    if WrittenSince(log, k, s) {
      var l :| s <= l < |log| && Writes(log[l].ops, k);
      assert more[l] == log[l];
    }
    if Writes(c.ops, k) { assert more[|log|] == c; }
    if WrittenSince(more, k, s) {
      var l :| s <= l < |more| && Writes(more[l].ops, k);
      if l < |log| { assert log[l] == more[l]; }
    }
  }

  lemma InstallCommits<V>(st: Store<V>, a: Active<V>, log: seq<Committed<V>>, horizon: nat, c: Committed<V>,
                          k: Key, s: nat)
    requires StoreMatches(st, log, horizon) && a.tx.writes == Exec(map[], a.ops) && c.ops == a.ops
    requires horizon <= s <= |log| + 1
    ensures CommittedSince(ChainOf(Install(st, a.tx), k), s) <==> WrittenSince(log + [c], k, s)
  {
    InstallChain(st, a.tx, k);
    var was, now := ChainOf(st, k), ChainOf(Install(st, a.tx), k);
    InstallDescends(st, a, log, horizon, k);
    if s <= |log| {
      WrittenSinceMore(log, c, k, s);
      assert CommittedSince(was, s) <==> WrittenSince(log, k, s);
      if CommittedSince(was, s) {
        var i :| 0 <= i < |was| && was[i].commitTs.Some? && was[i].commitTs.value > s;
        assert now[if k in a.tx.writes then i + 1 else i] == was[i];
      }
      if k in a.tx.writes { assert now[0].commitTs == Some(st.ts + 1); }
    }
  }

  lemma InstallDescends<V>(st: Store<V>, a: Active<V>, log: seq<Committed<V>>, horizon: nat, k: Key)
    requires StoreMatches(st, log, horizon)
    ensures Descending(ChainOf(Install(st, a.tx), k))
    ensures forall i | 0 <= i < |ChainOf(Install(st, a.tx), k)| ::
        StampedBy(ChainOf(Install(st, a.tx), k)[i], st.ts + 1)
  {
    InstallChain(st, a.tx, k);
    var c := ChainOf(st, k);
    assert Descending(c) && forall i | 0 <= i < |c| :: StampedBy(c[i], st.ts);
  }

  /** Installing a commit appends its effect to the serial history and rewrites no older snapshot. */
  lemma InstallMatches<V>(st: Store<V>, a: Active<V>, log: seq<Committed<V>>, horizon: nat, c: Committed<V>)
    requires StoreMatches(st, log, horizon) && a.tx.writes == Exec(map[], a.ops) && c.ops == a.ops
    ensures StoreMatches(Install(st, a.tx), log + [c], horizon)
  {
    hide Read, ChainOf, Exec, CommittedSince, Descending, StateAt, StampedBy, WrittenSince;
    var st', log' := Install(st, a.tx), log + [c];
    forall k, s: nat | horizon <= s <= |log'| ensures Read(st', k, s) == MapGet(StateAt(log', s), k) {
      InstallRead(st, a, log, horizon, c, k, s);
    }
    forall k, s: nat | horizon <= s <= |log'| ensures CommittedSince(ChainOf(st', k), s) <==> WrittenSince(log', k, s) {
      InstallCommits(st, a, log, horizon, c, k, s);
    }
    forall k
      ensures Descending(ChainOf(st', k))
      ensures forall i | 0 <= i < |ChainOf(st', k)| :: StampedBy(ChainOf(st', k)[i], st'.ts)
    {
      InstallDescends(st, a, log, horizon, k);
    }
  }

  /** When all stamps are at or below `now`, later snapshots read like `now`. */
  lemma {:induction false} SameReadLater<V>(c: Chain<V>, now: nat, s: nat)
    requires now <= s && forall i | 0 <= i < |c| :: StampedBy(c[i], now)
    ensures ReadChain(c, s) == ReadChain(c, now)
  {
    if c != [] { assert StampedBy(c[0], now); }
  }

  lemma CollectKeepsStore<V>(st: Store<V>, log: seq<Committed<V>>, horizon: nat, oldest: nat)
    requires StoreMatches(st, log, horizon) && oldest <= |log|
    ensures StoreMatches(Gc(st, oldest), log, if oldest > horizon then oldest else horizon)
  {
    var st', h := Gc(st, oldest), if oldest > horizon then oldest else horizon;
    forall k
      ensures Descending(ChainOf(st', k))
      ensures forall i | 0 <= i < |ChainOf(st', k)| :: StampedBy(ChainOf(st', k)[i], st.ts)
    {
      assert Descending(ChainOf(st, k));
      GcPreservesChain(ChainOf(st, k), oldest, oldest);
      assert ChainOf(st', k) == GcChain(ChainOf(st, k), oldest);
    }
    forall k, s: nat | h <= s <= |log| ensures Read(st', k, s) == MapGet(StateAt(log, s), k) {
      GcPreservesReads(st, oldest, k, s);
    }
    forall k, s: nat | h <= s <= |log| ensures CommittedSince(ChainOf(st', k), s) <==> WrittenSince(log, k, s) {
      assert CommittedSince(ChainOf(st, k), s) <==> WrittenSince(log, k, s);
      assert Descending(ChainOf(st, k));
      GcPreservesReads(st, oldest, k, s);
    }
  }

  /** The heart of the matter: a read set nobody committed to since the snapshot moves the whole transaction to
      its commit point. */
  lemma CommitMoves<V>(s: Sys<V>, t: nat)
    requires Inv(s) && t in s.active && !Conflicts(s.store, s.active[t].tx)
    ensures s.active[t].tx.isolation.Serializable? ==> Explains(StateAt(s.log, |s.log|), s.active[t].ops)
  {
    var a := s.active[t];
    assert TxMatches(a, s.log, s.horizon);
    if a.tx.isolation.Serializable? {
      var m1, m2 := StateAt(s.log, a.tx.snapshot), StateAt(s.log, |s.log|);
      forall k | k in a.tx.readSet ensures MapGet(m1, k) == MapGet(m2, k) {
        assert !CommittedSince(ChainOf(s.store, k), a.tx.snapshot);
        assert !WrittenSince(s.log, k, a.tx.snapshot);
        UnwrittenKeyKeeps(s.log, a.tx.snapshot, |s.log|, k);
      }
      AgreeingStatesExplain(m1, m2, a.ops, a.tx.readSet);
    }
  }

  /** Validation aborts no more than it has to look at: a commit fails exactly when it is Serializable and some key it
      read from the store was written by a transaction that committed after its snapshot. */
  lemma ConflictExact<V>(s: Sys<V>, t: nat)
    requires Inv(s) && t in s.active
    ensures Conflicts(s.store, s.active[t].tx) <==>
              s.active[t].tx.isolation.Serializable? &&
              exists k :: FellThrough(s.active[t].ops, k) && WrittenSince(s.log, k, s.active[t].tx.snapshot)
  {
    var a := s.active[t];
    assert TxMatches(a, s.log, s.horizon);
    hide CommittedSince, WrittenSince, FellThrough, ReadsTracked, Read, StateAt;
    forall k | a.tx.isolation.Serializable? ensures k in a.tx.readSet <==> FellThrough(a.ops, k) {
      if FellThrough(a.ops, k) { FellThroughIsTracked(a.ops, a.tx.readSet, k); }
    }
    forall k ensures CommittedSince(ChainOf(s.store, k), a.tx.snapshot) <==> WrittenSince(s.log, k, a.tx.snapshot) { }
  }

  /** A ReadCommitted transaction always reads the latest committed state under its own writes. */
  lemma ReadCommittedIsCurrent<V>(s: Sys<V>, t: nat, k: Key)
    requires Inv(s) && t in s.active && s.active[t].tx.isolation.ReadCommitted?
    ensures TxGet(s.store, s.active[t].tx, k) == MapGet(StateAt(s.log, |s.log|) + s.active[t].tx.writes, k)
  {
    assert Read(s.store, k, s.store.ts) == MapGet(StateAt(s.log, |s.log|), k);
  }

  /** A transaction that begins now sees everything committed so far, at every level. */
  lemma BeginReadsLatest<V>(s: Sys<V>, id: nat, iso: Isolation, k: Key)
    requires Inv(s)
    ensures TxGet(s.store, BeginTx(s.store, id, iso), k) == MapGet(StateAt(s.log, |s.log|), k)
  {
    assert Read(s.store, k, s.store.ts) == MapGet(StateAt(s.log, |s.log|), k);
  }

  lemma CommitKeepsInv<V>(s: Sys<V>, t: nat)
    requires Inv(s) && t in s.active && !Conflicts(s.store, s.active[t].tx)
    ensures Inv(Next(s, Commit(t)))
  {
    hide StoreMatches, Explains, Exec, ReadsTracked, ReadsCurrent, FellThrough;
    var n := Next(s, Commit(t));
    var a := s.active[t];
    assert TxMatches(a, s.log, s.horizon);
    assert s.store.ts == |s.log| by { MatchesTs(s.store, s.log, s.horizon); }
    var c := n.log[|s.log|];
    InstallMatches(s.store, a, s.log, s.horizon, c);
    CommitMoves(s, t);
    forall u | u in n.active ensures TxMatches(n.active[u], n.log, n.horizon) {
      assert TxMatches(s.active[u], s.log, s.horizon);
      StateAtPrefix(s.log, c, s.active[u].tx.snapshot);
      if s.active[u].tx.isolation.ReadCommitted? { ReadsCurrentLater(s.log, c, s.active[u].ops); }
    }
    forall i | 0 <= i < |n.log| ensures CommitExplained(n.log, i) {
      StateAtPrefix(s.log, c, i);
      if i < |s.log| {
        assert CommitExplained(s.log, i);
        if s.log[i].isolation.Snapshot? { StateAtPrefix(s.log, c, s.log[i].snapshot); }
        if s.log[i].isolation.ReadCommitted? { ReadsCurrentLater(s.log, c, s.log[i].ops); }
      } else {
        StateAtPrefix(s.log, c, a.tx.snapshot);
        if a.tx.isolation.ReadCommitted? { ReadsCurrentLater(s.log, c, a.ops); }
      }
    }
  }

  lemma MatchesTs<V>(st: Store<V>, log: seq<Committed<V>>, horizon: nat)
    requires StoreMatches(st, log, horizon)
    ensures st.ts == |log| && horizon <= |log|
  {
  }

  lemma StepKeepsInv<V>(s: Sys<V>, step: Step<V>)
    requires Inv(s) && Enabled(s, step)
    ensures Inv(Next(s, step))
  {
    hide StoreMatches, Explains, Exec, ReadsTracked, StateAt, CommitExplained, ReadsCurrent, FellThrough;
    MatchesTs(s.store, s.log, s.horizon);
    match step
    case Begin(iso) => FreshTxMatches(s.store, s.lastId + 1, iso, s.log, s.horizon);
    case Get(t, k) => GetKeepsTx(s.store, s.active[t], k, s.log, s.horizon);
    case Put(t, k, v) => PutKeepsTx(s.active[t], k, v, s.log, s.horizon);
    case Commit(t) => if !Conflicts(s.store, s.active[t].tx) { CommitKeepsInv(s, t); }
    case Drop(t) =>
    case Collect(oldest) => CollectKeepsStore(s.store, s.log, s.horizon, oldest);
  }

  lemma FreshTxMatches<V>(st: Store<V>, id: nat, iso: Isolation, log: seq<Committed<V>>, horizon: nat)
    requires StoreMatches(st, log, horizon)
    ensures TxMatches(Active(BeginTx(st, id, iso), []), log, horizon)
  {
  }

  lemma {:induction false} RunKeepsInv<V>(s: Sys<V>, steps: seq<Step<V>>)
    requires Inv(s) && CanRun(s, steps)
    ensures Inv(Run(s, steps))
    decreases |steps|
  {
    if steps != [] {
      StepKeepsInv(s, steps[0]);
      RunKeepsInv(Next(s, steps[0]), steps[1..]);
    }
  }

  // ---------------------------------------------------------------- theorems

  /** In every run: commit timestamps are the positions in the log; each Serializable transaction that committed
      behaves as if it ran alone at its commit point; each Snapshot transaction read one consistent earlier state; each
      ReadCommitted one read, every time, the state committed at that moment; and the store's latest reads are those of
      the serial execution. */
  lemma HistoryIsSerial<V>(steps: seq<Step<V>>)
    requires CanRun(Init(), steps)
    ensures var s := Run(Init(), steps);
            && (forall i | 0 <= i < |s.log| :: CommitExplained(s.log, i))
            && (forall k :: Read(s.store, k, s.store.ts) == MapGet(StateAt(s.log, |s.log|), k))
  {
    assert StoreMatches(Init<V>().store, Init<V>().log, 0);
    RunKeepsInv(Init<V>(), steps);
    var s := Run(Init<V>(), steps);
    assert StoreMatches(s.store, s.log, s.horizon);
  }

  // ---------------------------------------------------------------- conservation

  function Balance(m: map<Key, int>, k: Key): int {
    if k in m then m[k] else 0
  }

  /** The total over a list of distinct accounts. */
  function Total(m: map<Key, int>, accounts: seq<Key>): int {
    if accounts == [] then 0 else Total(m, accounts[..|accounts| - 1]) + Balance(m, accounts[|accounts| - 1])
  }

  function Seen(o: Option<int>): int { if o.Some? then o.value else 0 }

  /** Read two accounts, then write both back with some amount moved from one to the other. */
  ghost predicate IsTransfer(ops: seq<Op<int>>, accounts: seq<Key>) {
    && |ops| == 4 && ops[0].ReadOp? && ops[1].ReadOp?
    && ops[0].key in accounts && ops[1].key in accounts && ops[0].key != ops[1].key
    && ops[2].WriteOp? && ops[2].key == ops[0].key && ops[3].WriteOp? && ops[3].key == ops[1].key
    && ops[2].value + ops[3].value == Seen(ops[0].seen) + Seen(ops[1].seen)
  }

  lemma {:induction false} TotalAfterTwo(m: map<Key, int>, accounts: seq<Key>, a: Key, x: int, b: Key, y: int)
    requires a != b && forall i, j | 0 <= i < j < |accounts| :: accounts[i] != accounts[j]
    ensures Total(m[a := x][b := y], accounts) == Total(m, accounts)
              + (if a in accounts then x - Balance(m, a) else 0) + (if b in accounts then y - Balance(m, b) else 0)
  {
    if accounts != [] {
      var init, last := accounts[..|accounts| - 1], accounts[|accounts| - 1];
      assert accounts == init + [last];
      assert last !in init;
      TotalAfterTwo(m, init, a, x, b, y);
    }
  }

  lemma {:induction false} TransferConserves(m: map<Key, int>, ops: seq<Op<int>>, accounts: seq<Key>)
    requires Explains(m, ops) && IsTransfer(ops, accounts)
    requires forall i, j | 0 <= i < j < |accounts| :: accounts[i] != accounts[j]
    ensures Total(Exec(m, ops), accounts) == Total(m, accounts)
  {
    assert ops[..3][..2] == ops[..2] && ops[..2][..1] == ops[..1] && ops[..1][..0] == [];
    assert Explains(m, ops[..3]);
    assert Explains(m, ops[..2]);
    assert Explains(m, ops[..1]);
    assert Exec(m, ops[..1]) == m && Exec(m, ops[..2]) == m;
    assert ops[..1][0] == ops[0] && ops[..2][1] == ops[1] && ops[..3][2] == ops[2];
    assert ops[0].seen == MapGet(m, ops[0].key);
    assert ops[1].seen == MapGet(m, ops[1].key);
    assert Exec(m, ops[..3]) == m[ops[0].key := ops[2].value];
    assert Exec(m, ops) == m[ops[0].key := ops[2].value][ops[1].key := ops[3].value];
    TotalAfterTwo(m, accounts, ops[0].key, ops[2].value, ops[1].key, ops[3].value);
  }

  /** Any interleaving of Serializable transfers conserves the total: between two points of any run's history with
      only such commits in between, the accounts sum to the same. */
  lemma {:induction false} TransfersConserve(steps: seq<Step<int>>, accounts: seq<Key>, i: nat, j: nat)
    requires CanRun(Init(), steps)
    requires i <= j <= |Run(Init(), steps).log|
    requires forall a, b | 0 <= a < b < |accounts| :: accounts[a] != accounts[b]
    requires forall l | i <= l < j ::
      var c := Run(Init(), steps).log[l]; c.isolation.Serializable? && IsTransfer(c.ops, accounts)
    ensures var log := Run(Init(), steps).log; Total(StateAt(log, j), accounts) == Total(StateAt(log, i), accounts)
    decreases j
  {
    if i < j {
      TransfersConserve(steps, accounts, i, j - 1);
      HistoryIsSerial(steps);
      var log := Run(Init<int>(), steps).log;
      assert CommitExplained(log, j - 1);
      TransferConserves(StateAt(log, j - 1), log[j - 1].ops, accounts);
    }
  }
}
