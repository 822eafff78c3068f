/** Server transactions as objects: a snapshot of the trie, a write buffer and a read set per session, and a handler
    that takes commits through the engine. Every method performs a step of `SessionRuns`. */
module Sessions {
  import opened Common
  import opened Branch
  import opened Memtables
  import opened EngineRuns
  import opened Engines
  import opened SessionRuns
  import Hamt

  /** The level byte of a begin request; anything unknown is a snapshot. */
  function IsolationOf(b: nat): (r: TxIsolation)
    ensures (r.ReadCommitted? <==> b == 1) && (r.Serializable? <==> b == 3)
  {
    if b == 1 then ReadCommitted else if b == 3 then Serializable else Snapshot
  }

  // ---------------------------------------------------------------- sessions

  datatype Session = Session(isolation: TxIsolation, snapshot: Hamt.Trie, buffer: seq<Op>, readSet: seq<Bytes>,
                             beginTs: nat)

  /** What a session stands for, given what it has done and seen. */
  ghost function TxOf(s: Session, events: seq<Event>, began: nat): Tx {
    Tx(s.isolation, Hamt.Contents(s.snapshot), s.readSet, events, began)
  }

  ghost predicate SessionOk(h: Hamt.Hash, keys: set<Bytes>, s: Session, t: Tx) {
    && Hamt.WellFormed(h, keys, s.snapshot) && KeysIn(s.buffer, keys)
    && OpsOf(t.events) == s.buffer && t == TxOf(s, t.events, t.began) && TxOk(t)
  }

  lemma BeginOk(h: Hamt.Hash, keys: set<Bytes>, isolation: TxIsolation, snapshot: Hamt.Trie, ts: nat, began: nat)
    requires Hamt.WellFormed(h, keys, snapshot)
    ensures SessionOk(h, keys, Session(isolation, snapshot, [], [], ts),
                      Tx(isolation, Hamt.Contents(snapshot), [], [], began))
  {
  }

  /** `TxSession::get`: the buffer from its end, then the snapshot; equal to the snapshot with the buffer applied. */
  method SessionGet(h: Hamt.Hash, ghost keys: set<Bytes>, s: Session, key: Bytes)
      returns (r: Option<Bytes>, s2: Session)
    requires Hamt.WellFormed(h, keys, s.snapshot)
    ensures r == MapGet(ApplyAll(Hamt.Contents(s.snapshot), s.buffer), key)
    ensures s2 == Tracking(s, key)
  {
    hide Hamt.Contents, Hamt.WellFormed;
    BufferIsOverlay(Hamt.Contents(s.snapshot), s.buffer, key);
    s2 := s;
    var i := |s.buffer|;
    assert s.buffer[..i] == s.buffer;
    while i > 0
      invariant 0 <= i <= |s.buffer| && LatestWrite(s.buffer[..i], key) == LatestWrite(s.buffer, key)
    {
      i := i - 1;
      assert s.buffer[..i + 1][..i] == s.buffer[..i];
      if s.buffer[i].key == key { return OpValue(s.buffer[i]), s; }
    }
    if s.isolation.Serializable? { s2 := s.(readSet := s.readSet + [key]); }
    r := Hamt.Get(h, keys, s.snapshot, key);
  }

  function Tracking(s: Session, key: Bytes): Session {
    if s.isolation.Serializable? && LatestWrite(s.buffer, key).Untouched?
    then s.(readSet := s.readSet + [key]) else s
  }

  lemma GetKeepsOk(h: Hamt.Hash, keys: set<Bytes>, s: Session, t: Tx, key: Bytes)
    requires SessionOk(h, keys, s, t)
    ensures SessionOk(h, keys, Tracking(s, key), AfterGet(t, key))
    ensures Shown(t, key) == MapGet(ApplyAll(Hamt.Contents(s.snapshot), s.buffer), key)
  {
    hide Hamt.WellFormed, Hamt.Contents, TxOk, ApplyAll;
    GetKeepsTx(t, key);
  }

  lemma WriteKeepsOk(h: Hamt.Hash, keys: set<Bytes>, s: Session, t: Tx, op: Op)
    requires SessionOk(h, keys, s, t) && op.key in keys
    ensures SessionOk(h, keys, s.(buffer := s.buffer + [op]), AfterDo(t, op))
  {
    hide Hamt.WellFormed, Hamt.Contents, TxOk;
    DoKeepsTx(t, op);
  }

  // ---------------------------------------------------------------- commit

  ghost predicate Stale(live: State, s: Session) {
    && s.isolation.Serializable?
    && exists k | k in s.readSet :: MapGet(live, k) != MapGet(Hamt.Contents(s.snapshot), k)
  }

  /** A commit taken as one step, whatever other writers did since begin: a conflict leaves the live state unchanged,
      and otherwise the session's reads and the final state are those of running it entirely at commit time. */
  lemma CommitRunsAtCommitTime(live: State, h: Hamt.Hash, keys: set<Bytes>, s: Session, t: Tx)
    requires SessionOk(h, keys, s, t)
    ensures Stale(live, s) <==> Conflict(live, t)
    ensures !Stale(live, s) && s.isolation.Serializable? ==> Explains(live, t.events)
    ensures ApplyAll(live, s.buffer) == ApplyAll(live, OpsOf(t.events))
  {
    hide Hamt.WellFormed, Hamt.Contents, Explains, ApplyAll, OpsOf;
    if s.isolation.Serializable? { ValidationIsExact(live, t); }
  }

  method CheckReads(h: Hamt.Hash, ghost keys: set<Bytes>, live: Hamt.Trie, s: Session) returns (stale: bool)
    requires Hamt.WellFormed(h, keys, live) && Hamt.WellFormed(h, keys, s.snapshot)
    ensures stale <==> Stale(Hamt.Contents(live), s)
  {
    hide Hamt.Contents, Hamt.WellFormed;
    if s.isolation.Serializable? {
      for i := 0 to |s.readSet|
        invariant forall j | 0 <= j < i ::
          MapGet(Hamt.Contents(live), s.readSet[j]) == MapGet(Hamt.Contents(s.snapshot), s.readSet[j])
      {
        var liveVal := Hamt.Get(h, keys, live, s.readSet[i]);
        var snapVal := Hamt.Get(h, keys, s.snapshot, s.readSet[i]);
        if liveVal != snapVal {
          assert s.readSet[i] in s.readSet;
          return true;
        }
      }
    }
    return false;
  }

  // ---------------------------------------------------------------- applying to the engine

  function WriteOf(op: Op): Write { Write(op.key, OpValue(op)) }

  function WritesOf(ops: seq<Op>): seq<Write> {
    if ops == [] then [] else WritesOf(ops[..|ops| - 1]) + [WriteOf(ops[|ops| - 1])]
  }

  lemma WriteReaches(a: Eng, w: Write, flush: bool, b: Eng)
    requires AfterFlush(Next(a, WriteOne(w)), flush, b)
    ensures Reaches(a, b) && b.history == a.history + [w]
  {
    var n := Next(a, WriteOne(w));
    ReachesNext(a, WriteOne(w));
    if flush {
      var page, levels2 :| Enabled(n, Flush(page, levels2)) && b == Next(n, Flush(page, levels2));
      ReachesNext(n, Flush(page, levels2));
      ReachesOn(a, n, b);
    }
  }

  /** One buffered operation, as an engine write. */
  method ApplyOne(engine: Engine, op: Op)
    requires engine.Valid() && op.key in engine.keys
    modifies engine, engine.memtable, engine.cache, engine.compactor
    ensures engine.Valid() && (engine.memtable == old(engine.memtable) || fresh(engine.memtable))
    ensures Hamt.Contents(engine.state) == ApplyOp(Hamt.Contents(old(engine.state)), op)
    ensures Reaches(old(engine.Value()), engine.Value()) && engine.history == old(engine.history) + [WriteOf(op)]
    ensures engine.wal.pending == [] && (old(engine.InStep()) ==> engine.InStep())
  {
    hide Engine.Valid, Engine.InStep, Hamt.Contents, AfterFlush, Next, BufferSize, Reaches;
    ghost var before := engine.Value();
    match op {
      case PutOp(k, v) => engine.Put(k, v);
      case DeleteOp(k) => engine.Delete(k);
    }
    WriteReaches(before, WriteOf(op), BufferSize(Buffer1(before.mem, WriteOf(op))) >= engine.threshold, engine.Value());
  }

  /** The loop of `commit_tx` over the write buffer. */
  method ApplyBuffer(engine: Engine, ops: seq<Op>)
    requires engine.Valid() && KeysIn(ops, engine.keys)
    modifies engine, engine.memtable, engine.cache, engine.compactor
    ensures engine.Valid() && (engine.memtable == old(engine.memtable) || fresh(engine.memtable))
    ensures Hamt.Contents(engine.state) == ApplyAll(Hamt.Contents(old(engine.state)), ops)
    ensures Reaches(old(engine.Value()), engine.Value()) && engine.history == old(engine.history) + WritesOf(ops)
    ensures (ops != [] ==> engine.wal.pending == []) && (old(engine.InStep()) ==> engine.InStep())
  {
    hide Engine.Valid, Engine.InStep, Hamt.Contents, Next, Reaches, ApplyOp, WriteOf;
    ghost var before, trie, past := engine.Value(), Hamt.Contents(engine.state), engine.history;
    ReachesNext(before, ReadKey([], {}));
    for i := 0 to |ops|
      invariant engine.Valid() && (engine.memtable == old(engine.memtable) || fresh(engine.memtable))
      invariant Hamt.Contents(engine.state) == ApplyAll(trie, ops[..i])
      invariant Reaches(before, engine.Value()) && engine.history == past + WritesOf(ops[..i])
      invariant (i > 0 ==> engine.wal.pending == []) && (old(engine.InStep()) ==> engine.InStep())
    {
      assert ops[i] in ops && ops[..i + 1][..i] == ops[..i];
      ghost var midway := engine.Value();
      ApplyOne(engine, ops[i]);
      ReachesOn(before, midway, engine.Value());
    }
    assert ops[..|ops|] == ops;
  }

  datatype CommitResult = NotFound | Refused | Committed(count: nat)

  /** Validation and application of one removed session, as one step. */
  method CommitSession(engine: Engine, s: Session, ghost t: Tx) returns (r: CommitResult)
    requires engine.Valid() && SessionOk(engine.hash, engine.keys, s, t)
    modifies engine, engine.memtable, engine.cache, engine.compactor
    ensures engine.Valid() && !r.NotFound? && (engine.memtable == old(engine.memtable) || fresh(engine.memtable))
    ensures r.Refused? <==> Stale(Hamt.Contents(old(engine.state)), s)
    ensures r.Refused? ==>
      engine.Value() == old(engine.Value()) && engine.state == old(engine.state) && engine.wal == old(engine.wal)
    ensures r.Committed? ==>
      && r.count == |s.buffer|
      && Hamt.Contents(engine.state) == ApplyAll(Hamt.Contents(old(engine.state)), OpsOf(t.events))
      && (s.isolation.Serializable? ==> Explains(Hamt.Contents(old(engine.state)), t.events))
      && Reaches(old(engine.Value()), engine.Value())
      && engine.history == old(engine.history) + WritesOf(OpsOf(t.events))
      && (s.buffer != [] ==> engine.wal.pending == [])
    ensures old(engine.InStep()) ==> engine.InStep()
  {
    var stale := CheckEngine(engine, s);
    if stale { return Refused; }
    hide Engine.Valid, Engine.InStep, Hamt.Contents, Hamt.WellFormed, Explains, Tracked, ApplyAll, OpsOf, KeysIn, Stale;
    hide Reaches;
    CommitRunsAtCommitTime(Hamt.Contents(engine.state), engine.hash, engine.keys, s, t);
    ApplyBuffer(engine, s.buffer);
    r := Committed(|s.buffer|);
  }

  method CheckEngine(engine: Engine, s: Session) returns (stale: bool)
    requires engine.Valid() && Hamt.WellFormed(engine.hash, engine.keys, s.snapshot)
    ensures stale <==> Stale(Hamt.Contents(engine.state), s)
  {
    hide Hamt.Contents, Hamt.WellFormed, Stale;
    stale := CheckReads(engine.hash, engine.keys, engine.state, s);
  }

  // ---------------------------------------------------------------- the handler

  ghost predicate SessionsOk(h: Hamt.Hash, keys: set<Bytes>, sessions: map<nat, Session>, active: map<nat, Tx>,
                             nextId: nat) {
    && active.Keys == sessions.Keys && (forall id | id in sessions :: id < nextId)
    && forall id | id in sessions :: SessionOk(h, keys, sessions[id], active[id])
  }

  class Handler {
    const engine: Engine
    var sessions: map<nat, Session>
    var nextId: nat
    var nextTs: nat
    /** The run so far. */
    ghost var run: Sys

    ghost predicate Valid() reads this, engine, engine.memtable, engine.cache, engine.compactor {
      && engine.Valid() && run.live == Hamt.Contents(engine.state)
      && SessionsOk(engine.hash, engine.keys, sessions, run.active, nextId)
    }

    constructor (engine: Engine)
      requires engine.Valid()
      ensures Valid() && sessions == map[] && this.engine == engine && run == TxInit(Hamt.Contents(engine.state))
    {
      this.engine := engine;
      sessions, nextId, nextTs, run := map[], 1, 1, TxInit(Hamt.Contents(engine.state));
    }

    /** A fresh id and the live trie as snapshot. */
    method BeginTx(isolation: nat) returns (id: nat)
      requires Valid()
      modifies this
      ensures Valid() && id !in old(sessions) && id !in old(run).active
      ensures sessions == old(sessions)[id := Session(IsolationOf(isolation), engine.state, [], [], old(nextTs))]
      ensures run == TxNext(old(run), BeginStep(id, IsolationOf(isolation)))
    {
      hide Hamt.WellFormed, Hamt.Contents, TxOk, Engine.Valid, SessionOk;
      id := nextId;
      NewSession(engine, IsolationOf(isolation), nextTs, |run.log|);
      sessions := sessions[id := Session(IsolationOf(isolation), engine.state, [], [], nextTs)];
      run := TxNext(run, BeginStep(id, IsolationOf(isolation)));
      nextId, nextTs := nextId + 1, nextTs + 1;
    }

    /** `tx_get`: the session's view, or a plain engine read when there is no such session. */
    method TxGet(id: nat, key: Bytes) returns (r: Option<Bytes>)
      requires Valid()
      modifies this`sessions, this`run, engine.cache
      ensures Valid()
      ensures id in old(sessions) ==>
        && r == MapGet(ApplyAll(Hamt.Contents(old(sessions)[id].snapshot), old(sessions)[id].buffer), key)
        && sessions == old(sessions)[id := Tracking(old(sessions)[id], key)]
        && id in old(run).active && r == Shown(old(run).active[id], key) && run == TxNext(old(run), GetStep(id, key))
        && engine.Value() == old(engine.Value())
      ensures id !in old(sessions) ==>
        && r == Lookup(old(engine.Value()), key) && sessions == old(sessions) && run == old(run)
        && exists evicted :: engine.Value() == Next(old(engine.Value()), ReadKey(key, evicted))
    {
      hide Hamt.WellFormed, Hamt.Contents, TxOk, ApplyAll, Engine.Valid, Lookup, Next, SessionOk, Inv, Tracking;
      hide AfterGet;
      if id !in sessions {
        r := engine.Get(key);
        return;
      }
      GetKeepsOk(engine.hash, engine.keys, sessions[id], run.active[id], key);
      var s2;
      r, s2 := ReadSession(engine, sessions[id], run.active[id], key);
      sessions, run := sessions[id := s2], TxNext(run, GetStep(id, key));
    }

    /** `tx_put` and `tx_delete`. */
    method TxWrite(id: nat, op: Op) returns (ok: bool)
      requires Valid() && op.key in engine.keys
      modifies this`sessions, this`run
      ensures Valid() && (ok <==> id in old(sessions))
      ensures ok ==>
        && sessions == old(sessions)[id := old(sessions)[id].(buffer := old(sessions)[id].buffer + [op])]
        && id in old(run).active && run == TxNext(old(run), DoStep(id, op))
      ensures !ok ==> sessions == old(sessions) && run == old(run)
    {
      hide SessionOk, Engine.Valid, AfterDo;
      if id !in sessions { return false; }
      WriteKeepsOk(engine.hash, engine.keys, sessions[id], run.active[id], op);
      sessions := sessions[id := sessions[id].(buffer := sessions[id].buffer + [op])];
      run := TxNext(run, DoStep(id, op));
      return true;
    }

    method RollbackTx(id: nat) returns (ok: bool)
      requires Valid()
      modifies this`sessions, this`run
      ensures Valid() && (ok <==> id in old(sessions)) && sessions == old(sessions) - {id}
      ensures run == if ok then TxNext(old(run), RollbackStep(id)) else old(run)
    {
      hide SessionOk, Engine.Valid;
      ok := id in sessions;
      sessions := sessions - {id};
      if ok { run := TxNext(run, RollbackStep(id)); }
    }

    /** `handle_put` and `handle_delete`, writes outside any session. */
    method PlainWrite(op: Op)
      requires Valid() && op.key in engine.keys
      modifies this`run, engine, engine.memtable, engine.cache, engine.compactor
      ensures Valid() && run == TxNext(old(run), PlainStep(op))
      ensures Reaches(old(engine.Value()), engine.Value()) && engine.history == old(engine.history) + [WriteOf(op)]
      ensures old(engine.InStep()) ==> engine.InStep()
    {
      hide SessionOk, Engine.Valid, Engine.InStep, Hamt.Contents, ApplyOp, Reaches;
      ApplyOne(engine, op);
      run := TxNext(run, PlainStep(op));
    }

    /** `commit_tx` as one step: the session is gone in any case; a conflict applies nothing; otherwise the engine takes
        the session's writes, its live map is the one after running the session's events at this very moment, and a
        Serializable session saw exactly what that run shows. */
    method CommitTx(id: nat) returns (r: CommitResult)
      requires Valid()
      modifies this`sessions, this`run, engine, engine.memtable, engine.cache, engine.compactor
      ensures Valid() && sessions == old(sessions) - {id}
      ensures r.NotFound? <==> id !in old(sessions)
      ensures r.NotFound? ==> run == old(run)
      ensures id in old(sessions) ==> id in old(run).active && run == TxNext(old(run), CommitStep(id))
      ensures !r.Committed? ==>
        engine.Value() == old(engine.Value()) && engine.state == old(engine.state) && engine.wal == old(engine.wal)
      ensures r.Refused? <==> id in old(sessions) && Conflict(old(run).live, old(run).active[id])
      ensures r.Committed? ==>
        && r.count == |old(sessions)[id].buffer|
        && Reaches(old(engine.Value()), engine.Value())
        && engine.history == old(engine.history) + WritesOf(OpsOf(old(run).active[id].events))
      ensures old(engine.InStep()) ==> engine.InStep()
    {
      hide SessionOk, Engine.Valid, Engine.InStep, Hamt.Contents, Explains, ApplyAll, OpsOf, Stale, Reaches, Conflict;
      r := NotFound;
      if id in sessions {
        CommitRunsAtCommitTime(run.live, engine.hash, engine.keys, sessions[id], run.active[id]);
        r := CommitSession(engine, sessions[id], run.active[id]);
        run := TxNext(run, CommitStep(id));
      }
      sessions := sessions - {id};
    }
  }

  lemma NewSession(engine: Engine, isolation: TxIsolation, ts: nat, began: nat)
    requires engine.Valid()
    ensures SessionOk(engine.hash, engine.keys, Session(isolation, engine.state, [], [], ts),
                      Tx(isolation, Hamt.Contents(engine.state), [], [], began))
  {
    BeginOk(engine.hash, engine.keys, isolation, engine.state, ts, began);
  }

  method ReadSession(engine: Engine, s: Session, ghost t: Tx, key: Bytes) returns (r: Option<Bytes>, s2: Session)
    requires SessionOk(engine.hash, engine.keys, s, t)
    ensures r == MapGet(ApplyAll(Hamt.Contents(s.snapshot), s.buffer), key) && s2 == Tracking(s, key)
  {
    hide Hamt.WellFormed, Hamt.Contents, TxOk, ApplyAll;
    r, s2 := SessionGet(engine.hash, engine.keys, s, key);
  }
}
