/** Server transactions on values: what a session does and sees, validation by value, and every run of interleaved
    sessions whose commits are one step each. */
module SessionRuns {
  import opened Common
  import opened Branch

  datatype TxIsolation = ReadCommitted | Snapshot | Serializable

  type State = map<Bytes, Bytes>

  function ApplyOp(m: State, op: Op): State {
    Assign(m, op.key, OpValue(op))
  }

  function ApplyAll(m: State, ops: seq<Op>): State {
    if ops == [] then m else ApplyOp(ApplyAll(m, ops[..|ops| - 1]), ops[|ops| - 1])
  }

  /** What the buffer says about a key: nothing, or the value (possibly none) of the latest write. */
  datatype Buffered = Untouched | Latest(value: Option<Bytes>)

  function LatestWrite(ops: seq<Op>, k: Bytes): Buffered {
    if ops == [] then Untouched
    else if ops[|ops| - 1].key == k then Latest(OpValue(ops[|ops| - 1]))
    else LatestWrite(ops[..|ops| - 1], k)
  }

  /** Reading through the buffer is reading the state with the buffer applied. */
  lemma {:induction false} BufferIsOverlay(m: State, ops: seq<Op>, k: Bytes)
    ensures MapGet(ApplyAll(m, ops), k) ==
            match LatestWrite(ops, k) case Untouched => MapGet(m, k) case Latest(v) => v
  {
    if ops != [] { BufferIsOverlay(m, ops[..|ops| - 1], k); }
  }

  // ---------------------------------------------------------------- what a session did

  datatype Event = Saw(key: Bytes, value: Option<Bytes>) | Did(op: Op)

  function OpsOf(events: seq<Event>): seq<Op> {
    if events == [] then []
    else
      var last := events[|events| - 1];
      OpsOf(events[..|events| - 1]) + (if last.Did? then [last.op] else [])
  }

  /** Running the events alone on `m` would show the same values. */
  ghost predicate Explains(m: State, events: seq<Event>) {
    events == [] ||
    (var init, last := events[..|events| - 1], events[|events| - 1];
     Explains(m, init) && (last.Saw? ==> last.value == MapGet(ApplyAll(m, OpsOf(init)), last.key)))
  }

  /** Reads that fell through to the snapshot are in the read set. */
  ghost predicate Tracked(events: seq<Event>, readSet: seq<Bytes>) {
    events == [] ||
    (var init, last := events[..|events| - 1], events[|events| - 1];
     Tracked(init, readSet) && (last.Saw? ==> LatestWrite(OpsOf(init), last.key).Latest? || last.key in readSet))
  }

  lemma {:induction false} TrackedGrows(events: seq<Event>, readSet: seq<Bytes>, k: Bytes)
    requires Tracked(events, readSet)
    ensures Tracked(events, readSet + [k])
  {
    if events != [] { TrackedGrows(events[..|events| - 1], readSet, k); }
  }

  /** Some read of `k` was answered by the snapshot. */
  ghost predicate FellThrough(events: seq<Event>, k: Bytes) {
    events != [] &&
    (var init, last := events[..|events| - 1], events[|events| - 1];
     FellThrough(init, k) || (last.Saw? && last.key == k && LatestWrite(OpsOf(init), k).Untouched?))
  }

  /** Two states that explain the same events agree on every key that fell through. */
  lemma {:induction false} ExplainersAgree(m1: State, m2: State, events: seq<Event>, k: Bytes)
    requires Explains(m1, events) && Explains(m2, events) && FellThrough(events, k)
    ensures MapGet(m1, k) == MapGet(m2, k)
  {
    var init, last := events[..|events| - 1], events[|events| - 1];
    if FellThrough(init, k) {
      ExplainersAgree(m1, m2, init, k);
    } else {
      BufferIsOverlay(m1, OpsOf(init), k);
      BufferIsOverlay(m2, OpsOf(init), k);
    }
  }

  /** Agreement on the read set is all a session can notice. */
  lemma {:induction false} AgreementExplains(m1: State, m2: State, events: seq<Event>, readSet: seq<Bytes>)
    requires Explains(m1, events) && Tracked(events, readSet)
    requires forall k | k in readSet :: MapGet(m1, k) == MapGet(m2, k)
    ensures Explains(m2, events)
  {
    if events != [] {
      var init, last := events[..|events| - 1], events[|events| - 1];
      AgreementExplains(m1, m2, init, readSet);
      if last.Saw? {
        BufferIsOverlay(m1, OpsOf(init), last.key);
        BufferIsOverlay(m2, OpsOf(init), last.key);
      }
    }
  }

  // ---------------------------------------------------------------- one transaction

  /** `began` is how many transactions had been applied when it took its snapshot. */
  datatype Tx = Tx(isolation: TxIsolation, snapshot: State, readSet: seq<Bytes>, events: seq<Event>, began: nat)

  ghost predicate TxOk(t: Tx) {
    && Explains(t.snapshot, t.events)
    && (t.isolation.Serializable? ==> Tracked(t.events, t.readSet))
    && (forall k | k in t.readSet :: FellThrough(t.events, k))
  }

  function Shown(t: Tx, key: Bytes): Option<Bytes> {
    MapGet(ApplyAll(t.snapshot, OpsOf(t.events)), key)
  }

  function AfterGet(t: Tx, key: Bytes): Tx {
    var track := t.isolation.Serializable? && LatestWrite(OpsOf(t.events), key).Untouched?;
    t.(readSet := if track then t.readSet + [key] else t.readSet, events := t.events + [Saw(key, Shown(t, key))])
  }

  function AfterDo(t: Tx, op: Op): Tx { t.(events := t.events + [Did(op)]) }

  lemma GetKeepsTx(t: Tx, key: Bytes)
    requires TxOk(t)
    ensures TxOk(AfterGet(t, key)) && OpsOf(AfterGet(t, key).events) == OpsOf(t.events)
  {
    var e := Saw(key, Shown(t, key));
    assert (t.events + [e])[..|t.events|] == t.events;
    if t.isolation.Serializable? && LatestWrite(OpsOf(t.events), key).Untouched? {
      TrackedGrows(t.events, t.readSet, key);
    }
    forall k | FellThrough(t.events, k) ensures FellThrough(t.events + [e], k) { }
  }

  lemma DoKeepsTx(t: Tx, op: Op)
    requires TxOk(t)
    ensures TxOk(AfterDo(t, op)) && OpsOf(AfterDo(t, op).events) == OpsOf(t.events) + [op]
  {
    assert (t.events + [Did(op)])[..|t.events|] == t.events;
    forall k | FellThrough(t.events, k) ensures FellThrough(t.events + [Did(op)], k) { }
  }

  /** The validation of a Serializable commit: a tracked key has another value now. */
  ghost predicate Conflict(live: State, t: Tx) {
    t.isolation.Serializable? && exists k | k in t.readSet :: MapGet(live, k) != MapGet(t.snapshot, k)
  }

  /** Validation by value is exact: a Serializable session conflicts if and only if running it now would have shown it
      something else, and the other levels never do. So a state that changes between the check and the writes breaks a
      commit exactly when it disagrees with the snapshot on the read set. */
  lemma ValidationIsExact(live: State, t: Tx)
    requires TxOk(t)
    ensures Conflict(live, t) <==> t.isolation.Serializable? && !Explains(live, t.events)
  {
    if !t.isolation.Serializable? {
    } else if !Conflict(live, t) {
      AgreementExplains(t.snapshot, live, t.events, t.readSet);
    } else if Explains(live, t.events) {
      var k :| k in t.readSet && MapGet(live, k) != MapGet(t.snapshot, k);
      ExplainersAgree(t.snapshot, live, t.events, k);
      assert false;
    }
  }

  // ---------------------------------------------------------------- runs

  /** A transaction as it was applied. A plain write is one of a single operation. */
  datatype Applied = Applied(isolation: TxIsolation, began: nat, events: seq<Event>)

  datatype Sys = Sys(start: State, live: State, active: map<nat, Tx>, log: seq<Applied>)

  datatype TxStep =
    | BeginStep(id: nat, isolation: TxIsolation)
    | GetStep(id: nat, key: Bytes)
    | DoStep(id: nat, op: Op)
    | CommitStep(id: nat)
    | RollbackStep(id: nat)
    | PlainStep(op: Op)

  predicate TxEnabled(s: Sys, step: TxStep) {
    match step
    case BeginStep(id, _) => id !in s.active
    case PlainStep(_) => true
    case _ => step.id in s.active
  }

  ghost function TxNext(s: Sys, step: TxStep): Sys
    requires TxEnabled(s, step)
  {
    match step
    case BeginStep(id, isolation) => s.(active := s.active[id := Tx(isolation, s.live, [], [], |s.log|)])
    case GetStep(id, key) => s.(active := s.active[id := AfterGet(s.active[id], key)])
    case DoStep(id, op) => s.(active := s.active[id := AfterDo(s.active[id], op)])
    case RollbackStep(id) => s.(active := s.active - {id})
    case PlainStep(op) =>
      s.(live := ApplyOp(s.live, op), log := s.log + [Applied(Serializable, |s.log|, [Did(op)])])
    case CommitStep(id) =>
      var t := s.active[id];
      if Conflict(s.live, t) then s.(active := s.active - {id})
      else s.(live := ApplyAll(s.live, OpsOf(t.events)), active := s.active - {id},
              log := s.log + [Applied(t.isolation, t.began, t.events)])
  }

  ghost function TxInit(start: State): Sys { Sys(start, start, map[], []) }

  ghost predicate TxCanRun(s: Sys, steps: seq<TxStep>)
    decreases |steps|
  {
    steps == [] || (TxEnabled(s, steps[0]) && TxCanRun(TxNext(s, steps[0]), steps[1..]))
  }

  ghost function TxRun(s: Sys, steps: seq<TxStep>): Sys
    requires TxCanRun(s, steps)
    decreases |steps|
  {
    if steps == [] then s else TxRun(TxNext(s, steps[0]), steps[1..])
  }

  /** The map after running the first `n` applied transactions one after another. */
  ghost function SerialState(start: State, log: seq<Applied>, n: nat): State
    requires n <= |log|
  {
    if n == 0 then start else ApplyAll(SerialState(start, log, n - 1), OpsOf(log[n - 1].events))
  }

  /** The transaction applied at place `i` saw what its snapshot showed, which the transactions before its begin left;
      a Serializable one saw what running it at its place shows. */
  ghost predicate ExplainedAt(start: State, log: seq<Applied>, i: nat)
    requires i < |log|
  {
    && log[i].began <= i && Explains(SerialState(start, log, log[i].began), log[i].events)
    && (log[i].isolation.Serializable? ==> Explains(SerialState(start, log, i), log[i].events))
  }

  ghost predicate ActiveOk(start: State, log: seq<Applied>, t: Tx) {
    TxOk(t) && t.began <= |log| && t.snapshot == SerialState(start, log, t.began)
  }

  ghost predicate TxInv(s: Sys) {
    && s.live == SerialState(s.start, s.log, |s.log|)
    && (forall id | id in s.active :: ActiveOk(s.start, s.log, s.active[id]))
    && (forall i: nat | i < |s.log| :: ExplainedAt(s.start, s.log, i))
  }

  lemma {:induction false} SerialPrefix(start: State, log: seq<Applied>, more: Applied, n: nat)
    requires n <= |log|
    ensures SerialState(start, log + [more], n) == SerialState(start, log, n)
  {
    if n > 0 { SerialPrefix(start, log, more, n - 1); }
  }

  /** Applying one more transaction, explained where it is applied. */
  lemma AppliedKeepsInv(s: Sys, a: Applied, active: map<nat, Tx>)
    requires TxInv(s) && a.began <= |s.log| && Explains(SerialState(s.start, s.log, a.began), a.events)
    requires a.isolation.Serializable? ==> Explains(s.live, a.events)
    requires forall id | id in active :: id in s.active && active[id] == s.active[id]
    ensures TxInv(s.(live := ApplyAll(s.live, OpsOf(a.events)), active := active, log := s.log + [a]))
  {
    hide Explains, OpsOf, ApplyAll, TxOk;
    var log := s.log + [a];
    forall n: nat | n <= |s.log| ensures SerialState(s.start, log, n) == SerialState(s.start, s.log, n) {
      SerialPrefix(s.start, s.log, a, n);
    }
    forall i: nat | i < |log| ensures ExplainedAt(s.start, log, i) {
      if i < |s.log| { assert ExplainedAt(s.start, s.log, i) && log[i] == s.log[i]; }
    }
    forall id | id in active ensures ActiveOk(s.start, log, active[id]) {
      assert ActiveOk(s.start, s.log, s.active[id]);
    }
  }

  lemma OneOp(m: State, op: Op)
    ensures OpsOf([Did(op)]) == [op] && ApplyAll(m, [op]) == ApplyOp(m, op) && Explains(m, [Did(op)])
  {
    var events, ops := [Did(op)], [op];
    assert events[..|events| - 1] == [] && ops[..|ops| - 1] == [];
    assert OpsOf(events) == OpsOf([]) + [op];
    assert ApplyAll(m, ops) == ApplyOp(ApplyAll(m, ops[..|ops| - 1]), ops[|ops| - 1]);
  }

  lemma ActiveKeepsInv(s: Sys, id: nat, t: Tx)
    requires TxInv(s) && ActiveOk(s.start, s.log, t)
    ensures TxInv(s.(active := s.active[id := t])) && TxInv(s.(active := s.active - {id}))
  {
    hide ExplainedAt, SerialState, ActiveOk;
  }

  lemma CommitKeepsInv(s: Sys, id: nat)
    requires TxInv(s) && id in s.active
    ensures TxInv(TxNext(s, CommitStep(id)))
  {
    var t := s.active[id];
    assert ActiveOk(s.start, s.log, t);
    ActiveKeepsInv(s, id, t);
    hide Explains, OpsOf, ApplyAll, TxInv, SerialState, Conflict;
    if !Conflict(s.live, t) {
      ValidationIsExact(s.live, t);
      AppliedKeepsInv(s, Applied(t.isolation, t.began, t.events), s.active - {id});
    }
  }

  lemma PlainKeepsInv(s: Sys, op: Op)
    requires TxInv(s)
    ensures TxInv(TxNext(s, PlainStep(op)))
  {
    hide Explains, OpsOf, ApplyAll, ApplyOp, SerialState, ExplainedAt, ActiveOk;
    var a := Applied(Serializable, |s.log|, [Did(op)]);
    assert s.live == SerialState(s.start, s.log, |s.log|);
    hide TxInv;
    OneOp(s.live, op);
    AppliedKeepsInv(s, a, s.active);
  }

  lemma TxStepKeepsInv(s: Sys, step: TxStep)
    requires TxInv(s) && TxEnabled(s, step)
    ensures TxInv(TxNext(s, step))
  {
    match step
    case BeginStep(id, isolation) =>
      var t := Tx(isolation, s.live, [], [], |s.log|);
      assert ActiveOk(s.start, s.log, t);
      hide TxInv, ActiveOk;
      ActiveKeepsInv(s, id, t);
    case PlainStep(op) => PlainKeepsInv(s, op);
    case CommitStep(id) => CommitKeepsInv(s, id);
    case _ =>
      var t := s.active[step.id];
      assert ActiveOk(s.start, s.log, t);
      hide TxInv, TxOk, SerialState;
      match step {
        case GetStep(id, key) =>
          GetKeepsTx(t, key);
          ActiveKeepsInv(s, id, AfterGet(t, key));
        case DoStep(id, op) =>
          DoKeepsTx(t, op);
          ActiveKeepsInv(s, id, AfterDo(t, op));
        case RollbackStep(id) => ActiveKeepsInv(s, id, t);
      }
  }

  lemma {:induction false} TxRunKeepsInv(s: Sys, steps: seq<TxStep>)
    requires TxInv(s) && TxCanRun(s, steps)
    ensures TxInv(TxRun(s, steps))
    decreases |steps|
  {
    if steps != [] {
      TxStepKeepsInv(s, steps[0]);
      TxRunKeepsInv(TxNext(s, steps[0]), steps[1..]);
    }
  }

  /** In every run of begins, reads, writes, commits, rollbacks and plain writes the live map is the serial execution of
      the applied transactions in commit order, each Serializable one is explained at its place, and every other one at
      the place of its begin. */
  lemma RunsAreSerial(start: State, steps: seq<TxStep>)
    requires TxCanRun(TxInit(start), steps)
    ensures var s := TxRun(TxInit(start), steps);
            && s.live == SerialState(s.start, s.log, |s.log|)
            && forall i: nat | i < |s.log| :: ExplainedAt(s.start, s.log, i)
  {
    TxRunKeepsInv(TxInit(start), steps);
  }
}
