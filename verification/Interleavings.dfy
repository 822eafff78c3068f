/** Commits as the store really executes them: each intent, timestamp draw and stamp is its own step, because
    the chain lock is taken per key. Every statement here is about all interleavings of those steps. */
module Interleavings {
  import opened Common
  import opened VersionChains

  datatype Step<V> =
    | IntentStep(key: Key, value: V, txn: nat)
    | DrawStep(txn: nat)
    | StampStep(key: Key, txn: nat)
    | AbortStep(key: Key, txn: nat)
    | GcStep(oldest: nat)

  /** The store and the timestamp each transaction has drawn. */
  datatype Sys<V> = Sys(store: Store<V>, drawn: map<nat, nat>)

  /** The order of calls inside one commit: all intents before the timestamp, the timestamp once, stamps after. */
  predicate Enabled<V>(s: Sys<V>, step: Step<V>) {
    match step
    case IntentStep(_, _, txn) => txn !in s.drawn
    case DrawStep(txn) => txn !in s.drawn
    case StampStep(_, txn) => txn in s.drawn
    case AbortStep(_, _) => true
    case GcStep(_) => true
  }

  function Next<V>(s: Sys<V>, step: Step<V>): Sys<V>
    requires Enabled(s, step)
  {
    match step
    case IntentStep(k, v, txn) => s.(store := WriteIntent(s.store, k, v, txn))
    case DrawStep(txn) => Sys(s.store.(ts := s.store.ts + 1), s.drawn[txn := s.store.ts + 1])
    case StampStep(k, txn) => s.(store := CommitKey(s.store, k, txn, s.drawn[txn]))
    case AbortStep(k, txn) => s.(store := AbortKey(s.store, k, txn))
    case GcStep(oldest) => s.(store := Gc(s.store, oldest))
  }

  /** `steps` can be taken one after another from `s`. */
  predicate CanRun<V>(s: Sys<V>, steps: seq<Step<V>>)
    decreases |steps|
  {
    steps == [] || (Enabled(s, steps[0]) && CanRun(Next(s, steps[0]), steps[1..]))
  }

  function Run<V>(s: Sys<V>, steps: seq<Step<V>>): Sys<V>
    requires CanRun(s, steps)
    decreases |steps|
  {
    if steps == [] then s else Run(Next(s, steps[0]), steps[1..])
  }

  function Init<V>(): Sys<V> { Sys(Store(map[], 0), map[]) }

  // ---------------------------------------------------------------- what every step keeps

  /** A version's place in timestamp order once it is stamped: known when stamped or when its owner has drawn. */
  function Due<V>(v: Version<V>, drawn: map<nat, nat>): Option<nat> {
    if v.commitTs.Some? then v.commitTs else if v.txnId in drawn then Some(drawn[v.txnId]) else None
  }

  /** Everything above a stamped version is, or will be, newer than it. */
  ghost predicate OrderedChain<V>(c: Chain<V>, drawn: map<nat, nat>, now: nat) {
    && (forall j | 0 <= j < |c| && c[j].commitTs.Some? :: c[j].commitTs.value <= now)
    && (forall i, j | 0 <= i < j < |c| && c[j].commitTs.Some? && Due(c[i], drawn).Some? ::
          Due(c[i], drawn).value > c[j].commitTs.value)
  }

  ghost predicate Ordered<V>(s: Sys<V>) {
    && (forall t | t in s.drawn :: s.drawn[t] <= s.store.ts)
    && (forall k | k in s.store.chains :: OrderedChain(s.store.chains[k], s.drawn, s.store.ts))
  }

  lemma SliceOrdered<V>(c: Chain<V>, lo: nat, hi: nat, drawn: map<nat, nat>, now: nat)
    requires lo <= hi <= |c| && OrderedChain(c, drawn, now)
    ensures OrderedChain(c[lo..hi], drawn, now)
  {
  }

  lemma PushOrdered<V>(c: Chain<V>, v: Version<V>, drawn: map<nat, nat>, now: nat)
    requires OrderedChain(c, drawn, now) && v.commitTs.None? && v.txnId !in drawn
    ensures OrderedChain([v] + c, drawn, now)
  {
  }

  lemma DrawOrdered<V>(c: Chain<V>, txn: nat, drawn: map<nat, nat>, now: nat)
    requires OrderedChain(c, drawn, now) && txn !in drawn
    ensures OrderedChain(c, drawn[txn := now + 1], now + 1)
  {
  }

  lemma StampOrdered<V>(c: Chain<V>, txn: nat, drawn: map<nat, nat>, now: nat)
    requires OrderedChain(c, drawn, now) && HeadIsIntentOf(c, txn) && txn in drawn && drawn[txn] <= now
    ensures OrderedChain(c[0 := c[0].(commitTs := Some(drawn[txn]))], drawn, now)
  {
    assert Due(c[0], drawn) == Some(drawn[txn]);
  }

  lemma StepKeepsOrder<V>(s: Sys<V>, step: Step<V>)
    requires Ordered(s) && Enabled(s, step)
    ensures Ordered(Next(s, step))
  {
    hide OrderedChain;
    var n := Next(s, step);
    forall k | k in n.store.chains ensures OrderedChain(n.store.chains[k], n.drawn, n.store.ts) {
      var c := ChainOf(s.store, k);
      match step
      case GcStep(oldest) =>
        SliceOrdered(c, 0, Kept(c, false, oldest), s.drawn, s.store.ts);
        assert c[0..Kept(c, false, oldest)] == c[..Kept(c, false, oldest)];
      case DrawStep(txn) =>
        DrawOrdered(c, txn, s.drawn, s.store.ts);
      case IntentStep(key, value, txn) =>
        if k !in s.store.chains { NothingOrdered<V>(s.drawn, s.store.ts); }
        PushOrdered(c, Version(value, txn, None), s.drawn, s.store.ts);
      case AbortStep(key, txn) =>
        if k == key && HeadIsIntentOf(c, txn) {
          SliceOrdered(c, 1, |c|, s.drawn, s.store.ts);
          assert c[1..|c|] == c[1..];
        }
      case StampStep(key, txn) =>
        if k == key && HeadIsIntentOf(c, txn) { StampOrdered(c, txn, s.drawn, s.store.ts); }
    }
  }

  lemma NothingOrdered<V>(drawn: map<nat, nat>, now: nat)
    ensures OrderedChain<V>([], drawn, now)
  {
  }

  /** In every run, every chain keeps its stamped versions in strictly descending timestamp order. */
  lemma {:induction false} RunsKeepOrder<V>(s: Sys<V>, steps: seq<Step<V>>)
    requires Ordered(s) && CanRun(s, steps)
    ensures Ordered(Run(s, steps))
    ensures forall k :: Descending(ChainOf(Run(s, steps).store, k))
    decreases |steps|
  {
    if steps == [] {
      forall k ensures Descending(ChainOf(s.store, k)) {
        if k in s.store.chains { assert OrderedChain(s.store.chains[k], s.drawn, s.store.ts); }
      }
    } else {
      StepKeepsOrder(s, steps[0]);
      RunsKeepOrder(Next(s, steps[0]), steps[1..]);
    }
  }

  lemma ChainsStayDescending<V>(steps: seq<Step<V>>)
    requires CanRun(Init(), steps)
    ensures forall k :: Descending(ChainOf(Run(Init(), steps).store, k))
  {
    RunsKeepOrder(Init<V>(), steps);
  }

  // ---------------------------------------------------------------- snapshot stability

  /** No commit with a timestamp at or below `snapshot` still has an unstamped key. */
  ghost predicate Settled<V>(s: Sys<V>, snapshot: nat) {
    && snapshot <= s.store.ts
    && forall k, i | k in s.store.chains && 0 <= i < |s.store.chains[k]| ::
         var v := s.store.chains[k][i];
         v.commitTs.None? && v.txnId in s.drawn ==> s.drawn[v.txnId] > snapshot
  }

  /** Collections stay at or below the snapshot. */
  ghost predicate HorizonOk<V>(steps: seq<Step<V>>, snapshot: nat) {
    forall step | step in steps :: step.GcStep? ==> step.oldest <= snapshot
  }

  // ---------------------------------------------------------------- one chain under one step

  /** What a step does to the chain of key `k`. */
  function NextChain<V>(c: Chain<V>, drawn: map<nat, nat>, step: Step<V>, k: Key): Chain<V> {
    match step
    case IntentStep(key, v, txn) => if key == k then [Version(v, txn, None)] + c else c
    case DrawStep(_) => c
    case StampStep(key, txn) =>
      if key == k && HeadIsIntentOf(c, txn) && txn in drawn then c[0 := c[0].(commitTs := Some(drawn[txn]))] else c
    case AbortStep(key, txn) => if key == k && HeadIsIntentOf(c, txn) then c[1..] else c
    case GcStep(oldest) => GcChain(c, oldest)
  }

  lemma ChainAfter<V>(s: Sys<V>, step: Step<V>, k: Key)
    requires Enabled(s, step)
    ensures ChainOf(Next(s, step).store, k) == NextChain(ChainOf(s.store, k), s.drawn, step, k)
  {
  }

  lemma StepsMonotone<V>(s: Sys<V>, step: Step<V>)
    requires Enabled(s, step)
    ensures s.store.ts <= Next(s, step).store.ts
    ensures forall t | t in s.drawn :: t in Next(s, step).drawn && Next(s, step).drawn[t] == s.drawn[t]
    ensures forall t | t in Next(s, step).drawn && t !in s.drawn :: Next(s, step).drawn[t] > s.store.ts
  {
  }

  lemma HeadKeptByGc<V>(c: Chain<V>, oldest: nat)
    requires c != []
    ensures GcChain(c, oldest) != [] && GcChain(c, oldest)[0] == c[0]
  {
    CutBelowOldVersion(c, false, oldest);
  }

  // ---------------------------------------------------------------- when a read is stable

  /** Version `i` can still be stamped below the snapshot: its owner has drawn a timestamp that low, and only unstamped
      versions, which may be aborted, lie above it. */
  ghost predicate Exposed<V>(c: Chain<V>, drawn: map<nat, nat>, snapshot: nat, i: nat) {
    && i < |c| && (forall j | 0 <= j <= i :: c[j].commitTs.None?)
    && c[i].txnId in drawn && drawn[c[i].txnId] <= snapshot
  }

  /** Whatever can still be stamped below the snapshot holds what the snapshot reads already. */
  ghost predicate ReadSettled<V>(c: Chain<V>, drawn: map<nat, nat>, snapshot: nat) {
    forall i: nat | Exposed(c, drawn, snapshot, i) :: ReadChain(c, snapshot) == Some(c[i].value)
  }

  /** The read is the same after every continuation whose collections stay at or below the snapshot. */
  ghost predicate StableRead<V(!new)>(s: Sys<V>, snapshot: nat, k: Key) {
    forall steps | CanRun(s, steps) && HorizonOk(steps, snapshot) ::
      Read(Run(s, steps).store, k, snapshot) == Read(s.store, k, snapshot)
  }

  lemma StampKeepsSettled<V>(c: Chain<V>, drawn: map<nat, nat>, snapshot: nat, txn: nat)
    requires ReadSettled(c, drawn, snapshot) && HeadIsIntentOf(c, txn) && txn in drawn
    ensures var n := c[0 := c[0].(commitTs := Some(drawn[txn]))];
            ReadSettled(n, drawn, snapshot) && ReadChain(n, snapshot) == ReadChain(c, snapshot)
  {
    var n := c[0 := c[0].(commitTs := Some(drawn[txn]))];
    assert n[1..] == c[1..] && n[0].commitTs.Some?;
    if drawn[txn] <= snapshot { assert Exposed(c, drawn, snapshot, 0); }
  }

  lemma PushKeepsSettled<V>(c: Chain<V>, drawn: map<nat, nat>, snapshot: nat, v: Version<V>)
    requires ReadSettled(c, drawn, snapshot) && v.commitTs.None? && v.txnId !in drawn
    ensures ReadSettled([v] + c, drawn, snapshot) && ReadChain([v] + c, snapshot) == ReadChain(c, snapshot)
  {
    var n := [v] + c;
    assert n[1..] == c;
    forall i: nat | Exposed(n, drawn, snapshot, i) ensures ReadChain(n, snapshot) == Some(n[i].value) {
      assert forall j | 0 <= j < i :: c[j] == n[j + 1];
      assert Exposed(c, drawn, snapshot, i - 1);
    }
  }

  lemma PopKeepsSettled<V>(c: Chain<V>, drawn: map<nat, nat>, snapshot: nat)
    requires ReadSettled(c, drawn, snapshot) && c != [] && c[0].commitTs.None?
    ensures ReadSettled(c[1..], drawn, snapshot) && ReadChain(c[1..], snapshot) == ReadChain(c, snapshot)
  {
    forall i: nat | Exposed(c[1..], drawn, snapshot, i) ensures ReadChain(c, snapshot) == Some(c[1..][i].value) {
      assert forall j | 1 <= j <= i + 1 :: c[j] == c[1..][j - 1];
      assert Exposed(c, drawn, snapshot, i + 1);
    }
  }

  lemma GcKeepsSettled<V>(c: Chain<V>, drawn: map<nat, nat>, snapshot: nat, oldest: nat)
    requires ReadSettled(c, drawn, snapshot) && oldest <= snapshot
    ensures ReadSettled(GcChain(c, oldest), drawn, snapshot)
    ensures ReadChain(GcChain(c, oldest), snapshot) == ReadChain(c, snapshot)
  {
    GcPreservesChain(c, oldest, snapshot);
    var g := GcChain(c, oldest);
    forall i: nat | Exposed(g, drawn, snapshot, i) ensures ReadChain(c, snapshot) == Some(g[i].value) {
      assert Exposed(c, drawn, snapshot, i);
    }
  }

  lemma StepKeepsRead<V>(s: Sys<V>, step: Step<V>, snapshot: nat, k: Key)
    requires Enabled(s, step) && snapshot <= s.store.ts && (step.GcStep? ==> step.oldest <= snapshot)
    requires ReadSettled(ChainOf(s.store, k), s.drawn, snapshot)
    ensures Read(Next(s, step).store, k, snapshot) == Read(s.store, k, snapshot)
    ensures ReadSettled(ChainOf(Next(s, step).store, k), Next(s, step).drawn, snapshot)
  {
    var c := ChainOf(s.store, k);
    ChainAfter(s, step, k);
    match step
    case IntentStep(key, v, txn) => PushKeepsSettled(c, s.drawn, snapshot, Version(v, txn, None));
    case DrawStep(txn) =>
      var drawn := s.drawn[txn := s.store.ts + 1];
      forall i: nat | Exposed(c, drawn, snapshot, i) ensures ReadChain(c, snapshot) == Some(c[i].value) {
        assert Exposed(c, s.drawn, snapshot, i);
      }
    case StampStep(key, txn) => if key == k && HeadIsIntentOf(c, txn) { StampKeepsSettled(c, s.drawn, snapshot, txn); }
    case AbortStep(key, txn) => if key == k && HeadIsIntentOf(c, txn) { PopKeepsSettled(c, s.drawn, snapshot); }
    case GcStep(oldest) => GcKeepsSettled(c, s.drawn, snapshot, oldest);
  }

  lemma {:induction false} RunKeepsRead<V>(s: Sys<V>, steps: seq<Step<V>>, snapshot: nat, k: Key)
    requires CanRun(s, steps) && HorizonOk(steps, snapshot) && snapshot <= s.store.ts
    requires ReadSettled(ChainOf(s.store, k), s.drawn, snapshot)
    ensures Read(Run(s, steps).store, k, snapshot) == Read(s.store, k, snapshot)
    decreases |steps|
  {
    if steps != [] {
      assert steps[0] in steps;
      StepKeepsRead(s, steps[0], snapshot, k);
      StepsMonotone(s, steps[0]);
      assert HorizonOk(steps[1..], snapshot) by {
        forall step | step in steps[1..] ensures step.GcStep? ==> step.oldest <= snapshot { assert step in steps; }
      }
      RunKeepsRead(Next(s, steps[0]), steps[1..], snapshot, k);
    }
  }

  /** The run that brings an exposed version to light: abort what lies above it, then stamp it. */
  lemma {:induction false} Uncover<V>(s: Sys<V>, snapshot: nat, k: Key, i: nat) returns (steps: seq<Step<V>>)
    requires Exposed(ChainOf(s.store, k), s.drawn, snapshot, i)
    ensures CanRun(s, steps) && HorizonOk(steps, snapshot)
    ensures Read(Run(s, steps).store, k, snapshot) == Some(ChainOf(s.store, k)[i].value)
    decreases i
  {
    var c := ChainOf(s.store, k);
    var step := if i == 0 then StampStep(k, c[0].txnId) else AbortStep(k, c[0].txnId);
    var n := Next(s, step);
    ChainAfter(s, step, k);
    var rest: seq<Step<V>> := [];
    if i > 0 {
      assert forall j | 0 <= j <= i - 1 :: c[1..][j] == c[j + 1];
      rest := Uncover(n, snapshot, k, i - 1);
    }
    steps := [step] + rest;
    assert steps[1..] == rest;
  }

  /** A read at a snapshot is the same in every continuation exactly when every version that can still be stamped at or
      below the snapshot holds the value read. */
  lemma StableExactly<V(!new)>(s: Sys<V>, snapshot: nat, k: Key)
    requires snapshot <= s.store.ts
    ensures StableRead(s, snapshot, k) <==> ReadSettled(ChainOf(s.store, k), s.drawn, snapshot)
  {
    var c := ChainOf(s.store, k);
    if ReadSettled(c, s.drawn, snapshot) {
      forall steps | CanRun(s, steps) && HorizonOk(steps, snapshot)
        ensures Read(Run(s, steps).store, k, snapshot) == Read(s.store, k, snapshot)
      {
        RunKeepsRead(s, steps, snapshot, k);
      }
    } else {
      var i: nat :| Exposed(c, s.drawn, snapshot, i) && ReadChain(c, snapshot) != Some(c[i].value);
      var steps := Uncover(s, snapshot, k, i);
    }
  }

  /** A snapshot taken when no commit at or below it is half stamped reads the same for every key forever after,
      whatever single-key steps of other transactions are interleaved. */
  lemma SnapshotIsStable<V>(s: Sys<V>, steps: seq<Step<V>>, snapshot: nat, k: Key)
    requires Settled(s, snapshot) && CanRun(s, steps) && HorizonOk(steps, snapshot)
    ensures Read(Run(s, steps).store, k, snapshot) == Read(s.store, k, snapshot)
  {
    assert forall i: nat :: !Exposed(ChainOf(s.store, k), s.drawn, snapshot, i);
    RunKeepsRead(s, steps, snapshot, k);
  }

  /** The hypothesis is needed: a commit drawn but not stamped is missing from the snapshot at its own timestamp, and
      appears in it with the next step. */
  lemma UnfinishedCommitShows<V>(k: Key, v: V)
    ensures var s := Next(Next(Init(), IntentStep(k, v, 1)), DrawStep(1));
            && Enabled(s, StampStep(k, 1)) && s.store.ts == 1
            && Read(s.store, k, 1) == None && Read(Next(s, StampStep(k, 1)).store, k, 1) == Some(v)
  {
    var s := Next(Next(Init(), IntentStep(k, v, 1)), DrawStep(1));
    var c := ChainOf(s.store, k);
    assert c == [Version(v, 1, None)] && c[1..] == [];
    assert ReadChain(c, 1) == ReadChain(c[1..], 1);
    ChainAfter(s, StampStep(k, 1), k);
    assert ChainOf(Next(s, StampStep(k, 1)).store, k) == [Version(v, 1, Some(1))];
  }

  // ---------------------------------------------------------------- lost writes

  /** The version a read at `snapshot` returns. */
  function SeenVersion<V>(c: Chain<V>, snapshot: nat): Option<Version<V>> {
    if c == [] then None else if StampedBy(c[0], snapshot) then Some(c[0]) else SeenVersion(c[1..], snapshot)
  }

  lemma {:induction false} SeenIsRead<V>(c: Chain<V>, snapshot: nat)
    ensures ReadChain(c, snapshot) == match SeenVersion(c, snapshot) case None => None case Some(v) => Some(v.value)
    ensures SeenVersion(c, snapshot).Some? ==>
              exists i :: 0 <= i < |c| && c[i] == SeenVersion(c, snapshot).value && StampedBy(c[i], snapshot)
  {
    if c != [] && !StampedBy(c[0], snapshot) {
      SeenIsRead(c[1..], snapshot);
      if SeenVersion(c, snapshot).Some? {
        var i :| 0 <= i < |c[1..]| && c[1..][i] == SeenVersion(c, snapshot).value && StampedBy(c[1..][i], snapshot);
        assert c[i + 1] == SeenVersion(c, snapshot).value;
      }
    }
  }

  /** Some snapshot reads what the transaction wrote to the key. */
  ghost predicate Readable<V>(c: Chain<V>, txn: nat) {
    exists snapshot: nat :: SeenVersion(c, snapshot).Some? && SeenVersion(c, snapshot).value.txnId == txn
  }

  ghost predicate HasStamped<V>(c: Chain<V>, txn: nat) {
    exists i :: 0 <= i < |c| && c[i].txnId == txn && c[i].commitTs.Some?
  }

  lemma {:induction false} SeenAtItsTime<V>(c: Chain<V>, i: nat)
    requires Descending(c) && i < |c| && c[i].commitTs.Some?
    ensures SeenVersion(c, c[i].commitTs.value) == Some(c[i])
  {
    if i > 0 {
      assert Descending(c[1..]);
      SeenAtItsTime(c[1..], i - 1);
    }
  }

  /** In an ordered chain exactly the stamped versions can be read. */
  lemma ReadableIsStamped<V>(c: Chain<V>, txn: nat)
    requires Descending(c)
    ensures Readable(c, txn) <==> HasStamped(c, txn)
  {
    if HasStamped(c, txn) {
      var i :| 0 <= i < |c| && c[i].txnId == txn && c[i].commitTs.Some?;
      SeenAtItsTime(c, i);
      assert SeenVersion(c, c[i].commitTs.value).Some?;
    }
    if Readable(c, txn) {
      var snapshot: nat :| SeenVersion(c, snapshot).Some? && SeenVersion(c, snapshot).value.txnId == txn;
      SeenIsRead(c, snapshot);
    }
  }

  /** A stamp takes effect, and makes the write readable, exactly when the transaction's own intent heads the chain. */
  lemma StampTakesEffect<V>(s: Sys<V>, k: Key, txn: nat)
    requires Ordered(s) && txn in s.drawn && !Readable(ChainOf(s.store, k), txn)
    ensures Next(s, StampStep(k, txn)).store != s.store <==> HeadIsIntentOf(ChainOf(s.store, k), txn)
    ensures Readable(ChainOf(Next(s, StampStep(k, txn)).store, k), txn) <==> HeadIsIntentOf(ChainOf(s.store, k), txn)
  {
    var c, step := ChainOf(s.store, k), StampStep(k, txn);
    ChainAfter(s, step, k);
    RunsKeepOrder(s, []);
    StepKeepsOrder(s, step);
    RunsKeepOrder(Next(s, step), []);
    var n := ChainOf(Next(s, step).store, k);
    ReadableIsStamped(c, txn);
    ReadableIsStamped(n, txn);
    if HeadIsIntentOf(c, txn) { assert n[0].commitTs.Some? && n[0].txnId == txn; }
  }

  /** Between a transaction's intent on a key and its stamp there, as `commit` runs them: no abort on the key and no
      other step of the transaction on it. */
  ghost predicate Between<V>(steps: seq<Step<V>>, k: Key, txn: nat) {
    forall step | step in steps ::
      && !(step.AbortStep? && step.key == k) && step != StampStep(k, txn)
      && !(step.IntentStep? && step.key == k && step.txn == txn)
  }

  /** Another transaction puts an intent on the key. */
  ghost predicate Covers<V>(steps: seq<Step<V>>, k: Key) {
    exists step :: step in steps && step.IntentStep? && step.key == k
  }

  lemma {:induction false} CoveredStays<V>(s: Sys<V>, steps: seq<Step<V>>, k: Key, txn: nat)
    requires CanRun(s, steps) && Between(steps, k, txn)
    requires ChainOf(s.store, k) != [] && ChainOf(s.store, k)[0].txnId != txn
    ensures !HeadIsIntentOf(ChainOf(Run(s, steps).store, k), txn)
    decreases |steps|
  {
    if steps != [] {
      assert steps[0] in steps;
      assert Between(steps[1..], k, txn) by { forall t | t in steps[1..] ensures t in steps { } }
      ChainAfter(s, steps[0], k);
      if steps[0].GcStep? { HeadKeptByGc(ChainOf(s.store, k), steps[0].oldest); }
      CoveredStays(Next(s, steps[0]), steps[1..], k, txn);
    }
  }

  /** The intent still heads the chain exactly when no other intent came on the key. */
  lemma {:induction false} HeadUntilCovered<V>(s: Sys<V>, steps: seq<Step<V>>, k: Key, txn: nat)
    requires CanRun(s, steps) && Between(steps, k, txn) && HeadIsIntentOf(ChainOf(s.store, k), txn)
    ensures HeadIsIntentOf(ChainOf(Run(s, steps).store, k), txn) <==> !Covers(steps, k)
    decreases |steps|
  {
    if steps != [] {
      var step, rest := steps[0], steps[1..];
      assert step in steps && steps == [step] + rest;
      assert Between(rest, k, txn) by { forall t | t in rest ensures t in steps { } }
      ChainAfter(s, step, k);
      if step.IntentStep? && step.key == k {
        CoveredStays(Next(s, step), rest, k, txn);
      } else {
        if step.GcStep? { HeadKeptByGc(ChainOf(s.store, k), step.oldest); }
        HeadUntilCovered(Next(s, step), rest, k, txn);
        if Covers(steps, k) {
          var t :| t in steps && t.IntentStep? && t.key == k;
          assert t in rest;
        }
      }
    }
  }

  lemma NoNewStamp<V>(c: Chain<V>, drawn: map<nat, nat>, step: Step<V>, k: Key, txn: nat)
    requires step != StampStep(k, txn)
    ensures HasStamped(NextChain(c, drawn, step, k), txn) ==> HasStamped(c, txn)
  {
    var n := NextChain(c, drawn, step, k);
    if i :| 0 <= i < |n| && n[i].txnId == txn && n[i].commitTs.Some? {
      assert n[i] in c;
    }
  }

  lemma {:induction false} UnstampedStays<V>(s: Sys<V>, steps: seq<Step<V>>, k: Key, txn: nat)
    requires CanRun(s, steps) && StampStep(k, txn) !in steps && !HasStamped(ChainOf(s.store, k), txn)
    ensures !HasStamped(ChainOf(Run(s, steps).store, k), txn)
    decreases |steps|
  {
    if steps != [] {
      assert steps[0] in steps;
      ChainAfter(s, steps[0], k);
      NoNewStamp(ChainOf(s.store, k), s.drawn, steps[0], k, txn);
      UnstampedStays(Next(s, steps[0]), steps[1..], k, txn);
    }
  }

  /** A committing transaction's write to a key becomes readable exactly when no other transaction put an intent on the
      key between its own intent and its stamp; otherwise nothing that follows makes it readable, though its commit
      reported a timestamp. */
  lemma WriteSurvivesExactly<V>(s: Sys<V>, before: seq<Step<V>>, after: seq<Step<V>>, k: Key, txn: nat)
    requires Ordered(s) && HeadIsIntentOf(ChainOf(s.store, k), txn) && !HasStamped(ChainOf(s.store, k), txn)
    requires CanRun(s, before) && Between(before, k, txn) && txn in Run(s, before).drawn
    requires CanRun(Next(Run(s, before), StampStep(k, txn)), after) && StampStep(k, txn) !in after
    ensures var stamped := Next(Run(s, before), StampStep(k, txn));
            && (Readable(ChainOf(stamped.store, k), txn) <==> !Covers(before, k))
            && (Covers(before, k) ==> !Readable(ChainOf(Run(stamped, after).store, k), txn))
  {
    var s1 := Run(s, before);
    var s2 := Next(s1, StampStep(k, txn));
    RunsKeepOrder(s, before);
    assert StampStep(k, txn) !in before;
    UnstampedStays(s, before, k, txn);
    ReadableIsStamped(ChainOf(s1.store, k), txn);
    HeadUntilCovered(s, before, k, txn);
    StampTakesEffect(s1, k, txn);
    if Covers(before, k) {
      ChainAfter(s1, StampStep(k, txn), k);
      StepKeepsOrder(s1, StampStep(k, txn));
      RunsKeepOrder(s2, after);
      UnstampedStays(s2, after, k, txn);
      ReadableIsStamped(ChainOf(Run(s2, after).store, k), txn);
    }
  }

  /** Two overlapping commits to one key from an empty store: the one whose intent is covered draws a timestamp like the
      other, and its write is never readable. */
  lemma CoveredIntentIsLost<V>(k: Key, v1: V, v2: V, after: seq<Step<V>>)
    requires StampStep(k, 1) !in after
    ensures var s := Next(Init(), IntentStep(k, v1, 1));
            var before := [IntentStep(k, v2, 2), DrawStep(2), DrawStep(1)];
            && CanRun(s, before) && Run(s, before).drawn == map[1 := 2, 2 := 1]
            && var stamped := Next(Run(s, before), StampStep(k, 1));
               CanRun(stamped, after) ==> !Readable(ChainOf(Run(stamped, after).store, k), 1)
  {
    var s := Next(Init<V>(), IntentStep(k, v1, 1));
    var before := [IntentStep(k, v2, 2), DrawStep(2), DrawStep(1)];
    ThreeSteps(s, before[0], before[1], before[2]);
    assert ChainOf(s.store, k) == [Version(v1, 1, None)];
    StepKeepsOrder(Init<V>(), IntentStep(k, v1, 1));
    assert before[0] in before;
    var stamped := Next(Run(s, before), StampStep(k, 1));
    if CanRun(stamped, after) { WriteSurvivesExactly(s, before, after, k, 1); }
  }

  lemma ThreeSteps<V>(s: Sys<V>, a: Step<V>, b: Step<V>, c: Step<V>)
    requires Enabled(s, a) && Enabled(Next(s, a), b) && Enabled(Next(Next(s, a), b), c)
    ensures CanRun(s, [a, b, c]) && Run(s, [a, b, c]) == Next(Next(Next(s, a), b), c)
  {
    hide Enabled, Next;
    assert [a, b, c][1..] == [b, c] && [b, c][1..] == [c] && [c][1..] == [];
    var n := Next(Next(s, a), b);
    assert CanRun(Next(n, c), []) && Run(Next(n, c), []) == Next(n, c);
    assert CanRun(n, [c]) && Run(n, [c]) == Next(n, c);
    assert CanRun(Next(s, a), [b, c]) && Run(Next(s, a), [b, c]) == Next(n, c);
  }
}
