/** The engine's read and write path as steps over values: memtable, read cache and compaction levels must together
    behave like one newest-wins map over every run. */
module EngineRuns {
  import opened Common
  import opened Pages
  import opened Compaction
  import opened Memtables

  /** A logical write: a value, or nothing for a delete. */
  datatype Write = Write(key: Bytes, value: Option<Bytes>)

  /** `history` lists every write ever made, which is what the log records. */
  datatype Eng = Eng(mem: Buffer, cached: map<Bytes, Bytes>, levels: Levels, history: seq<Write>)

  /** The map a history of writes leaves behind. */
  ghost function Truth(ws: seq<Write>): map<Bytes, Bytes> {
    if ws == [] then map[]
    else
      var w := ws[|ws| - 1];
      Assign(Truth(ws[..|ws| - 1]), w.key, w.value)
  }

  ghost predicate Written(ws: seq<Write>, k: Bytes) {
    exists i :: 0 <= i < |ws| && ws[i].key == k
  }

  function Buffer1(mem: Buffer, w: Write): Buffer { mem[w.key := w.value] }

  function BufferAll(mem: Buffer, ws: seq<Write>): Buffer {
    if ws == [] then mem else Buffer1(BufferAll(mem, ws[..|ws| - 1]), ws[|ws| - 1])
  }

  function BufferAnswer(mem: Buffer, k: Bytes): Answer {
    if k !in mem then Silent else if mem[k].None? then Deleted else Live(mem[k].value)
  }

  /** A page made by draining the memtable. */
  ghost predicate IsPageOf(p: Page, mem: Buffer) {
    Sorted(p) && forall k :: Ask(p, k) == BufferAnswer(mem, k)
  }

  /** `put` and `delete` are single writes, `put_batch` and `bulk_ingest` clear the cache first; a read may fill the
      cache and push other entries out; a flush replaces the levels by a possible outcome of `add_l0_page`, taken as
      finished before the next step; `branch_merge` writes without touching the cache; reopening after a crash replays
      the log, which holds the first `logged` writes, over the pages on disk. */
  datatype Step =
    | WriteOne(w: Write)
    | WriteBatch(ws: seq<Write>)
    | ReadKey(key: Bytes, evicted: set<Bytes>)
    | Flush(page: Page, levels2: Levels)
    | MergeBranch(ws: seq<Write>)
    | Reopen(logged: nat)

  /** How replay takes a write: an empty value in the log is a delete. */
  function NonEmpty(o: Option<Bytes>): Option<Bytes> {
    if o == Some([]) then None else o
  }

  /** The memtable after replaying the log of `ws`. */
  function ReopenedBuffer(ws: seq<Write>): Buffer {
    if ws == [] then map[]
    else
      var w := ws[|ws| - 1];
      Buffer1(ReopenedBuffer(ws[..|ws| - 1]), Write(w.key, NonEmpty(w.value)))
  }

  /** What `get` returns: memtable, then cache, then levels. */
  function Lookup(e: Eng, k: Bytes): Option<Bytes> {
    if k in e.mem then e.mem[k] else if k in e.cached then Some(e.cached[k]) else View(e.levels, k)
  }

  ghost predicate Enabled(e: Eng, step: Step) {
    match step
    case Flush(page, levels2) => IsPageOf(page, e.mem) && PageAdded(e.levels, page, levels2)
    case Reopen(logged) => logged <= |e.history|
    case _ => true
  }

  ghost function Next(e: Eng, step: Step): Eng
    requires Enabled(e, step)
  {
    match step
    case WriteOne(w) => e.(mem := Buffer1(e.mem, w), cached := e.cached - {w.key}, history := e.history + [w])
    case WriteBatch(ws) => e.(mem := BufferAll(e.mem, ws), cached := map[], history := e.history + ws)
    case ReadKey(k, evicted) =>
      if k !in e.mem && k !in e.cached && View(e.levels, k).Some? then
        e.(cached := (e.cached - evicted)[k := View(e.levels, k).value])
      else e
    case Flush(_, levels2) => e.(mem := map[], levels := levels2)
    case MergeBranch(ws) => e.(mem := BufferAll(e.mem, ws), history := e.history + ws)
    case Reopen(logged) => Eng(ReopenedBuffer(e.history[..logged]), map[], e.levels, e.history[..logged])
  }

  ghost function Empty(): Eng { Eng(map[], map[], Levels([], [], []), []) }

  /** No key is left with an empty value. */
  ghost predicate NoEmptyValues(ws: seq<Write>) {
    forall k | k in Truth(ws) :: Truth(ws)[k] != []
  }

  /** The levels answer only for keys the writes mention. */
  ghost predicate LevelsWritten(levels: Levels, ws: seq<Write>) {
    forall k | !AnswerOf(levels, k).Silent? :: Written(ws, k)
  }

  /** The hypotheses on a run, each exact for its step: pages merged together agree on shared keys, oldest with newest;
      a merged branch writes no cached key; the log a reopening finds leaves no empty value and mentions every key on
      disk. */
  ghost predicate Safe(e: Eng, step: Step)
    requires Enabled(e, step)
  {
    match step
    case Flush(page, _) =>
      |e.levels.l0| + 1 < L0_LIMIT || forall k :: OldestAgreesWithNewest(e.levels.l0 + [page], k)
    case MergeBranch(ws) => forall k | k in e.cached :: !Written(ws, k)
    case Reopen(logged) => NoEmptyValues(e.history[..logged]) && LevelsWritten(e.levels, e.history[..logged])
    case _ => true
  }

  ghost predicate CanRun(e: Eng, steps: seq<Step>)
    decreases |steps|
  {
    steps == [] || (Enabled(e, steps[0]) && CanRun(Next(e, steps[0]), steps[1..]))
  }

  ghost predicate SafeRun(e: Eng, steps: seq<Step>)
    requires CanRun(e, steps)
    decreases |steps|
  {
    steps == [] || (Safe(e, steps[0]) && SafeRun(Next(e, steps[0]), steps[1..]))
  }

  ghost function Run(e: Eng, steps: seq<Step>): Eng
    requires CanRun(e, steps)
    decreases |steps|
  {
    if steps == [] then e else Run(Next(e, steps[0]), steps[1..])
  }

  /** Some run leads from one state to the other. */
  ghost predicate Reaches(a: Eng, b: Eng) {
    exists steps :: CanRun(a, steps) && Run(a, steps) == b
  }

  lemma {:induction false} RunConcat(e: Eng, a: seq<Step>, b: seq<Step>)
    requires CanRun(e, a) && CanRun(Run(e, a), b)
    ensures CanRun(e, a + b) && Run(e, a + b) == Run(Run(e, a), b)
    decreases |a|
  {
    if a == [] {
      assert a + b == b;
    } else {
      assert (a + b)[1..] == a[1..] + b && (a + b)[0] == a[0];
      RunConcat(Next(e, a[0]), a[1..], b);
    }
  }

  lemma ReachesOn(a: Eng, b: Eng, c: Eng)
    requires Reaches(a, b) && Reaches(b, c)
    ensures Reaches(a, c)
  {
    var s :| CanRun(a, s) && Run(a, s) == b;
    var t :| CanRun(b, t) && Run(b, t) == c;
    RunConcat(a, s, t);
  }

  lemma ReachesNext(e: Eng, step: Step)
    requires Enabled(e, step)
    ensures Reaches(e, e) && Reaches(e, Next(e, step))
  {
    assert CanRun(e, []) && Run(e, []) == e;
    hide Enabled, Next;
    var steps := [step];
    var rest := steps[1..];
    assert steps[0] == step && rest == [];
    assert CanRun(Next(e, step), rest) && Run(Next(e, step), rest) == Next(e, step);
    assert CanRun(e, steps) && Run(e, steps) == Next(e, step);
  }

  // ---------------------------------------------------------------- histories

  lemma TruthSnoc(ws: seq<Write>, w: Write, k: Bytes)
    ensures MapGet(Truth(ws + [w]), k) == if k == w.key then w.value else MapGet(Truth(ws), k)
    ensures Written(ws + [w], k) <==> Written(ws, k) || k == w.key
  {
    var all := ws + [w];
    assert all[..|ws|] == ws && all[|ws|] == w;
    assert forall i | 0 <= i < |ws| :: all[i] == ws[i];
  }

  lemma {:induction false} BufferOverlay(mem: Buffer, ws: seq<Write>)
    ensures BufferAll(mem, ws) == mem + BufferAll(map[], ws)
  {
    if ws != [] { BufferOverlay(mem, ws[..|ws| - 1]); }
  }

  lemma BufferOne(mem: Buffer, w: Write)
    ensures BufferAll(mem, [w]) == Buffer1(mem, w)
  {
    var ws := [w];
    assert ws[..|ws| - 1] == [];
    assert BufferAll(mem, ws) == Buffer1(BufferAll(mem, ws[..|ws| - 1]), ws[|ws| - 1]);
  }

  lemma {:induction false} BufferHoldsWritten(ws: seq<Write>, k: Bytes)
    ensures k in BufferAll(map[], ws) <==> Written(ws, k)
  {
    if ws != [] {
      var init, w := ws[..|ws| - 1], ws[|ws| - 1];
      BufferHoldsWritten(init, k);
      assert ws == init + [w];
      TruthSnoc(init, w, k);
    }
  }

  lemma WrittenConcat(a: seq<Write>, b: seq<Write>, k: Bytes)
    ensures Written(a + b, k) <==> Written(a, k) || Written(b, k)
  {
    var all := a + b;
    assert forall i | 0 <= i < |a| :: all[i] == a[i];
    assert forall i | 0 <= i < |b| :: all[|a| + i] == b[i];
  }

  lemma {:induction false} TruthConcat(history: seq<Write>, ws: seq<Write>, k: Bytes)
    ensures MapGet(Truth(history + ws), k)
            == if k in BufferAll(map[], ws) then BufferAll(map[], ws)[k] else MapGet(Truth(history), k)
  {
    if ws == [] {
      assert history + ws == history;
    } else {
      var init, w := ws[..|ws| - 1], ws[|ws| - 1];
      TruthConcat(history, init, k);
      assert history + ws == history + init + [w];
      TruthSnoc(history + init, w, k);
    }
  }

  /** Writing a list into the buffer and appending it to the history stay in step. */
  lemma BatchTruth(mem: Buffer, history: seq<Write>, ws: seq<Write>, k: Bytes)
    ensures MapGet(Truth(history + ws), k)
            == if k in BufferAll(map[], ws) then BufferAll(map[], ws)[k] else MapGet(Truth(history), k)
    ensures k in BufferAll(map[], ws) <==> Written(ws, k)
    ensures Written(history + ws, k) <==> Written(history, k) || Written(ws, k)
    ensures BufferAll(mem, ws) == mem + BufferAll(map[], ws)
  {
    TruthConcat(history, ws, k);
    BufferHoldsWritten(ws, k);
    WrittenConcat(history, ws, k);
    BufferOverlay(mem, ws);
  }

  // ---------------------------------------------------------------- the invariant

  /** What a read would see without the cache. */
  function Uncached(e: Eng, k: Bytes): Option<Bytes> {
    if k in e.mem then e.mem[k] else View(e.levels, k)
  }

  /** The cache never shadows anything: its keys are not in the memtable and its values are those of the levels. */
  ghost predicate CacheCoherent(e: Eng) {
    forall k | k in e.cached :: k !in e.mem && View(e.levels, k) == Some(e.cached[k])
  }

  ghost predicate Inv(e: Eng) {
    && Compacted(e.levels)
    && (forall k :: Uncached(e, k) == MapGet(Truth(e.history), k))
    && CacheCoherent(e)
    && (forall k | k in e.mem :: Written(e.history, k)) && LevelsWritten(e.levels, e.history)
  }

  lemma InvMeansTruth(e: Eng, k: Bytes)
    requires Inv(e)
    ensures Lookup(e, k) == MapGet(Truth(e.history), k)
  {
    assert Uncached(e, k) == MapGet(Truth(e.history), k);
  }

  lemma WriteKeepsInv(e: Eng, w: Write)
    requires Inv(e)
    ensures Inv(Next(e, WriteOne(w)))
  {
    var n := Next(e, WriteOne(w));
    forall k
      ensures Uncached(n, k) == MapGet(Truth(n.history), k)
      ensures k in n.mem || !AnswerOf(n.levels, k).Silent? ==> Written(n.history, k)
    {
      TruthSnoc(e.history, w, k);
      assert Uncached(e, k) == MapGet(Truth(e.history), k);
    }
  }

  lemma BatchKeepsTruth(e: Eng, ws: seq<Write>, n: Eng, k: Bytes)
    requires Inv(e) && n.mem == BufferAll(e.mem, ws) && n.levels == e.levels && n.history == e.history + ws
    ensures Uncached(n, k) == MapGet(Truth(n.history), k)
    ensures k in n.mem || !AnswerOf(n.levels, k).Silent? ==> Written(n.history, k)
    ensures k in n.mem <==> k in e.mem || Written(ws, k)
  {
    BatchTruth(e.mem, e.history, ws, k);
    assert Uncached(e, k) == MapGet(Truth(e.history), k);
  }

  lemma BatchKeepsInv(e: Eng, ws: seq<Write>)
    requires Inv(e)
    ensures Inv(Next(e, WriteBatch(ws)))
  {
    forall k { BatchKeepsTruth(e, ws, Next(e, WriteBatch(ws)), k); }
  }

  /** `branch_merge` keeps the invariant exactly when none of its keys is cached. */
  lemma MergeBranchExact(e: Eng, ws: seq<Write>)
    requires Inv(e)
    ensures Inv(Next(e, MergeBranch(ws))) <==> forall k | k in e.cached :: !Written(ws, k)
  {
    var n := Next(e, MergeBranch(ws));
    forall k { BatchKeepsTruth(e, ws, n, k); }
    assert forall k :: k in n.mem <==> k in e.mem || Written(ws, k);
    if Inv(n) {
      forall k | k in e.cached ensures !Written(ws, k) { assert k in n.cached && k !in n.mem; }
    }
  }

  /** Levels answer only for keys that were in them or in the new page. */
  lemma PageAddedHolds(lv: Levels, p: Page, lv2: Levels, k: Bytes)
    requires PageAdded(lv, p, lv2) && Compacted(lv) && !AnswerOf(lv2, k).Silent?
    ensures !Ask(p, k).Silent? || !AnswerOf(lv, k).Silent?
  {
    var flushed := lv.l0 + [p];
    AnswerByLevel(lv, k);
    AnswerByLevel(lv2, k);
    AnswerOfOne(p, k);
    FirstConcat(lv.l0, [p], k);
    ReverseHolds(lv.l0, k);
    ReverseHolds(flushed, k);
    SmallReverse(lv.l1);
    SmallReverse(lv.l2);
    if |lv.l0| + 1 >= L0_LIMIT {
      FirstConcat(flushed, lv.l1, k);
      if lv2.l1 != [] {
        var m :| IsMerge(m, flushed + lv.l1, false) && lv2 == Levels([], [m], lv.l2);
        AnswerOfOne(m, k);
      } else {
        var m, m2 :| IsMerge(m, flushed + lv.l1, false) && IsMerge(m2, [m] + lv.l2, true)
            && lv2 == Levels([], [], [m2]);
        AnswerOfOne(m, k);
        AnswerOfOne(m2, k);
        FirstConcat([m], lv.l2, k);
      }
    }
  }

  /** After a flush the levels alone carry the truth for a key exactly when the merge condition holds for it. */
  lemma FlushExact(e: Eng, page: Page, levels2: Levels, k: Bytes)
    requires Inv(e) && IsPageOf(page, e.mem) && PageAdded(e.levels, page, levels2)
    ensures View(levels2, k) == MapGet(Truth(e.history), k) <==>
              |e.levels.l0| + 1 < L0_LIMIT || OldestAgreesWithNewest(e.levels.l0 + [page], k)
    ensures !AnswerOf(levels2, k).Silent? ==> Written(e.history, k)
  {
    AddPageExact(e.levels, page, levels2, k);
    assert Uncached(e, k) == MapGet(Truth(e.history), k);
    assert Ask(page, k) == BufferAnswer(e.mem, k);
    if !AnswerOf(levels2, k).Silent? { PageAddedHolds(e.levels, page, levels2, k); }
  }

  lemma FlushKeepsInv(e: Eng, page: Page, levels2: Levels)
    requires Inv(e) && Enabled(e, Flush(page, levels2)) && Safe(e, Flush(page, levels2))
    ensures Inv(Next(e, Flush(page, levels2)))
  {
    var n := Next(e, Flush(page, levels2));
    forall k
      ensures Uncached(n, k) == MapGet(Truth(n.history), k)
      ensures !AnswerOf(n.levels, k).Silent? ==> Written(n.history, k)
    {
      FlushExact(e, page, levels2, k);
    }
    AddPageExact(e.levels, page, levels2, []);
    forall k | k in n.cached ensures View(n.levels, k) == Some(n.cached[k]) {
      assert Uncached(e, k) == MapGet(Truth(e.history), k) && Uncached(n, k) == MapGet(Truth(n.history), k);
    }
  }

  lemma StepKeepsInv(e: Eng, step: Step)
    requires Inv(e) && Enabled(e, step) && Safe(e, step)
    ensures Inv(Next(e, step))
  {
    match step
    case WriteOne(w) => WriteKeepsInv(e, w);
    case WriteBatch(ws) => BatchKeepsInv(e, ws);
    case ReadKey(k, evicted) => ReadKeepsInv(e, k, evicted);
    case Flush(page, levels2) => FlushKeepsInv(e, page, levels2);
    case MergeBranch(ws) => MergeBranchExact(e, ws);
    case Reopen(logged) => ReopenExact(e, logged);
  }

  lemma ReadKeepsInv(e: Eng, k: Bytes, evicted: set<Bytes>)
    requires Inv(e)
    ensures Inv(Next(e, ReadKey(k, evicted)))
  {
    var n := Next(e, ReadKey(k, evicted));
    forall j ensures Uncached(n, j) == MapGet(Truth(n.history), j) {
      assert Uncached(e, j) == MapGet(Truth(e.history), j);
    }
  }

  lemma {:induction false} RunKeepsInv(e: Eng, steps: seq<Step>)
    requires Inv(e) && CanRun(e, steps) && SafeRun(e, steps)
    ensures Inv(Run(e, steps))
    decreases |steps|
  {
    if steps != [] {
      StepKeepsInv(e, steps[0]);
      RunKeepsInv(Next(e, steps[0]), steps[1..]);
    }
  }

  /** In every safe run from an empty directory, across any number of crashes, `get` returns the newest write to the key
      that the log kept. */
  lemma GetReturnsNewestWrite(steps: seq<Step>, k: Bytes)
    requires CanRun(Empty(), steps) && SafeRun(Empty(), steps)
    ensures Lookup(Run(Empty(), steps), k) == MapGet(Truth(Run(Empty(), steps).history), k)
  {
    EmptyInv();
    RunKeepsInv(Empty(), steps);
    InvMeansTruth(Run(Empty(), steps), k);
  }

  lemma EmptyInv()
    ensures Inv(Empty())
  {
    forall k ensures AnswerOf(Empty().levels, k) == Silent { AnswerByLevel(Empty().levels, k); }
  }

  // ---------------------------------------------------------------- merging a branch behind the cache

  lemma CacheAside(e: Eng, ws: seq<Write>)
    requires Inv(e)
    ensures Inv(Next(e, MergeBranch(ws)).(cached := map[]))
  {
    var n := Next(e, MergeBranch(ws)).(cached := map[]);
    forall k { BatchKeepsTruth(e, ws, n, k); }
  }

  /** What a read returns after merging a branch: the newest write until the next flush; after it, right for a cached
      key exactly when the merge left its value as it was, and for any other key exactly when the flush did. */
  lemma MergeThenFlushExact(e: Eng, ws: seq<Write>, page: Page, levels2: Levels, k: Bytes)
    requires Inv(e) && Enabled(Next(e, MergeBranch(ws)), Flush(page, levels2))
    ensures var n := Next(e, MergeBranch(ws)); Lookup(n, k) == MapGet(Truth(n.history), k)
    ensures var f := Next(Next(e, MergeBranch(ws)), Flush(page, levels2));
            Lookup(f, k) == MapGet(Truth(f.history), k) <==>
              if k in e.cached then MapGet(Truth(e.history + ws), k) == MapGet(Truth(e.history), k)
              else |e.levels.l0| + 1 < L0_LIMIT || OldestAgreesWithNewest(e.levels.l0 + [page], k)
  {
    var n := Next(e, MergeBranch(ws));
    CacheAside(e, ws);
    FlushExact(n.(cached := map[]), page, levels2, k);
    BatchKeepsTruth(e, ws, n, k);
    BatchTruth(e.mem, e.history, ws, k);
    assert Uncached(e, k) == MapGet(Truth(e.history), k);
  }

  /** With room in L0, the reads that go wrong are those of cached keys to which the branch gave another value. */
  lemma MergeReadExact(e: Eng, ws: seq<Write>, page: Page, levels2: Levels, k: Bytes)
    requires Inv(e) && Enabled(Next(e, MergeBranch(ws)), Flush(page, levels2)) && |e.levels.l0| + 1 < L0_LIMIT
    ensures var f := Next(Next(e, MergeBranch(ws)), Flush(page, levels2));
            Lookup(f, k) == MapGet(Truth(f.history), k) <==>
              !(k in e.cached && Written(ws, k)) || MapGet(Truth(e.history + ws), k) == MapGet(Truth(e.history), k)
  {
    MergeThenFlushExact(e, ws, page, levels2, k);
    BatchTruth(e.mem, e.history, ws, k);
  }

  function OneRecord(k: Bytes, v: Bytes): Page { [Record(k, v, false)] }

  lemma OneRecordIsPage(k: Bytes, v: Bytes, mem: Buffer)
    requires mem == map[k := Some(v)]
    ensures IsPageOf(OneRecord(k, v), mem)
  {
    var p := OneRecord(k, v);
    forall j ensures Ask(p, j) == BufferAnswer(mem, j) { assert p[1..] == []; }
  }

  /** A run from an empty directory that ends with a stale read: write one value, then another, flush and read it,
      merge a branch taken in between, flush again. */
  lemma StaleAfterMerge(k: Bytes, v1: Bytes, v2: Bytes)
    requires v1 != v2
    ensures var p1, p2 := OneRecord(k, v2), OneRecord(k, v1);
            var w1, w2 := Write(k, Some(v1)), Write(k, Some(v2));
            var e := Eng(map[], map[k := v2], Levels([p1], [], []), [w1, w2]);
            var steps := [WriteOne(w1), WriteOne(w2), Flush(p1, Levels([p1], [], [])), ReadKey(k, {})];
            var merge, flush := MergeBranch([w1]), Flush(p2, Levels([p1, p2], [], []));
            && CanRun(Empty(), steps) && Run(Empty(), steps) == e
            && Enabled(Next(e, merge), flush)
            && var f := Next(Next(e, merge), flush);
               Lookup(f, k) == Some(v2) && MapGet(Truth(f.history), k) == Some(v1)
  {
    var p1, p2 := OneRecord(k, v2), OneRecord(k, v1);
    var w1, w2 := Write(k, Some(v1)), Write(k, Some(v2));
    var lv := Levels([p1], [], []);
    var e0 := Eng(map[k := Some(v2)], map[], Levels([], [], []), [w1, w2]);
    var e1 := Eng(map[], map[], lv, [w1, w2]);
    var e := Eng(map[], map[k := v2], lv, [w1, w2]);
    var wrote := Next(Empty(), WriteOne(w1));
    assert wrote.mem == map[k := Some(v1)] && wrote.history == [w1];
    assert Next(wrote, WriteOne(w2)).mem == e0.mem && [w1] + [w2] == [w1, w2];
    assert Next(wrote, WriteOne(w2)) == e0;
    OneRecordIsPage(k, v2, e0.mem);
    assert View(lv, k) == Some(v2) by { AnswerByLevel(lv, k); AnswerOfOne(p1, k); }
    hide View;
    assert Next(e1, ReadKey(k, {})) == e;
    FourSteps(Empty(), WriteOne(w1), WriteOne(w2), Flush(p1, lv), ReadKey(k, {}));
    var n := Next(e, MergeBranch([w1]));
    BufferOne(e.mem, w1);
    assert n.mem == map[k := Some(v1)];
    OneRecordIsPage(k, v1, n.mem);
    assert [p1] + [p2] == [p1, p2];
    assert [w1, w2] + [w1] == [w1, w2, w1];
    TruthSnoc([w1, w2], w1, k);
  }

  lemma FourSteps(e: Eng, a: Step, b: Step, c: Step, d: Step)
    requires Enabled(e, a) && Enabled(Next(e, a), b) && Enabled(Next(Next(e, a), b), c)
    requires Enabled(Next(Next(Next(e, a), b), c), d)
    ensures CanRun(e, [a, b, c, d]) && Run(e, [a, b, c, d]) == Next(Next(Next(Next(e, a), b), c), d)
  {
    hide Enabled, Next;
    assert [a, b, c, d][1..] == [b, c, d] && [b, c, d][1..] == [c, d] && [c, d][1..] == [d] && [d][1..] == [];
    var e1 := Next(e, a);
    var e2 := Next(e1, b);
    var e3 := Next(e2, c);
    assert CanRun(Next(e3, d), []) && Run(Next(e3, d), []) == Next(e3, d);
    assert CanRun(e3, [d]) && Run(e3, [d]) == Next(e3, d);
    assert CanRun(e2, [c, d]) && Run(e2, [c, d]) == Next(e3, d);
    assert CanRun(e1, [b, c, d]) && Run(e1, [b, c, d]) == Next(e3, d);
  }

  // ---------------------------------------------------------------- reopening

  lemma {:induction false} UnwrittenIsAbsent(ws: seq<Write>, k: Bytes)
    requires !Written(ws, k)
    ensures k !in Truth(ws)
  {
    if ws != [] {
      var init, w := ws[..|ws| - 1], ws[|ws| - 1];
      assert ws == init + [w];
      TruthSnoc(init, w, k);
      UnwrittenIsAbsent(init, k);
    }
  }

  /** Replaying a log gives, for every written key, its value at the end of the log, except that an empty value comes
      back as a delete; keys never written stay absent. */
  lemma {:induction false} ReopenedBufferIsTruth(ws: seq<Write>, k: Bytes)
    ensures k in ReopenedBuffer(ws) <==> Written(ws, k)
    ensures k in ReopenedBuffer(ws) ==> ReopenedBuffer(ws)[k] == NonEmpty(MapGet(Truth(ws), k))
  {
    if ws != [] {
      var init, w := ws[..|ws| - 1], ws[|ws| - 1];
      ReopenedBufferIsTruth(init, k);
      assert ws == init + [w];
      TruthSnoc(init, w, k);
    }
  }

  lemma ReopenedOne(w: Write)
    ensures ReopenedBuffer([w]) == map[w.key := NonEmpty(w.value)]
  {
    var ws := [w];
    assert ws[..|ws| - 1] == [];
    assert ReopenedBuffer(ws) == Buffer1(ReopenedBuffer(ws[..|ws| - 1]), Write(w.key, NonEmpty(w.value)));
  }

  /** What a reopened engine reads: the log where it mentions the key, the pages where it does not. */
  lemma ReopenedRead(e: Eng, logged: nat, k: Bytes)
    requires logged <= |e.history|
    ensures var log := e.history[..logged];
            Uncached(Next(e, Reopen(logged)), k)
            == if Written(log, k) then NonEmpty(MapGet(Truth(log), k)) else View(e.levels, k)
  {
    ReopenedBufferIsTruth(e.history[..logged], k);
  }

  /** When the log mentions every key on disk, the replayed memtable shadows the pages. */
  lemma ReopenedLookup(e: Eng, logged: nat, k: Bytes)
    requires logged <= |e.history| && LevelsWritten(e.levels, e.history[..logged])
    ensures Lookup(Next(e, Reopen(logged)), k) == NonEmpty(MapGet(Truth(e.history[..logged]), k))
  {
    ReopenedRead(e, logged, k);
    if !Written(e.history[..logged], k) {
      UnwrittenIsAbsent(e.history[..logged], k);
      assert AnswerOf(e.levels, k).Silent?;
    }
  }

  /** Reopening re-establishes the invariant for the logged writes exactly when they leave no empty value and mention
      every key the pages answer for. */
  lemma ReopenExact(e: Eng, logged: nat)
    requires Inv(e) && logged <= |e.history|
    ensures Inv(Next(e, Reopen(logged))) <==>
              NoEmptyValues(e.history[..logged]) && LevelsWritten(e.levels, e.history[..logged])
  {
    var log, n := e.history[..logged], Next(e, Reopen(logged));
    forall k
      ensures k in n.mem <==> Written(log, k)
      ensures Uncached(n, k) == if Written(log, k) then NonEmpty(MapGet(Truth(log), k)) else View(e.levels, k)
      ensures !Written(log, k) ==> k !in Truth(log)
    {
      ReopenedBufferIsTruth(log, k);
      ReopenedRead(e, logged, k);
      if !Written(log, k) { UnwrittenIsAbsent(log, k); }
    }
    if LevelsWritten(e.levels, log) {
      forall k | !Written(log, k) ensures View(e.levels, k).None? { assert AnswerOf(e.levels, k).Silent?; }
    }
    if Inv(n) {
      forall k | k in Truth(log) ensures Truth(log)[k] != [] {
        assert Uncached(n, k) == MapGet(Truth(log), k);
      }
    }
  }

  /** An empty value is lost by reopening: the key was there and is gone. */
  lemma EmptyValueIsLost(k: Bytes)
    ensures var e := Next(Empty(), WriteOne(Write(k, Some([]))));
            && Inv(e) && Lookup(e, k) == Some([]) && Lookup(Next(e, Reopen(1)), k) == None
  {
    var w := Write(k, Some([]));
    var e := Next(Empty(), WriteOne(w));
    EmptyInv();
    WriteKeepsInv(Empty(), w);
    assert e.history == [w] && [w][..1] == [w];
    TruthSnoc([], w, k);
    assert [] + [w] == [w];
    assert [w][0].key == k;
    ReopenedBufferIsTruth([w], k);
  }

  lemma {:induction false} PutsBufferValues(ws: seq<Write>, k: Bytes)
    requires (forall w | w in ws :: w.value.Some?) && k in BufferAll(map[], ws)
    ensures BufferAll(map[], ws)[k].Some?
  {
    var init, w := ws[..|ws| - 1], ws[|ws| - 1];
    assert w in ws;
    if k != w.key { PutsBufferValues(init, k); }
  }

  /** What replay makes of a log that lost some puts at its end agrees with the whole of it exactly when those left the
      key's value as it was and that value is not empty. */
  lemma LostPuts(all: seq<Write>, logged: nat, k: Bytes)
    requires logged <= |all| && forall w | w in all[logged..] :: w.value.Some?
    ensures var before, after := MapGet(Truth(all[..logged]), k), MapGet(Truth(all), k);
            NonEmpty(before) == after <==> before == after && after != Some([])
  {
    var kept, lost := all[..logged], all[logged..];
    assert all == kept + lost;
    TruthConcat(kept, lost, k);
    if k in BufferAll(map[], lost) { PutsBufferValues(lost, k); }
  }

  lemma LostTail(history: seq<Write>, ws: seq<Write>, logged: nat)
    requires |history| <= logged <= |history + ws| && forall w | w in ws :: w.value.Some?
    ensures forall w | w in (history + ws)[logged..] :: w.value.Some?
  {
    assert (history + ws)[logged..] == ws[logged - |history|..];
  }

  lemma KeptIsWritten(history: seq<Write>, ws: seq<Write>, logged: nat, k: Bytes)
    requires |history| <= logged <= |history + ws| && Written(history, k)
    ensures Written((history + ws)[..logged], k)
  {
    var more := (history + ws)[|history|..logged];
    assert (history + ws)[..logged] == history + more;
    WrittenConcat(history, more, k);
  }

  /** What a crash makes of a merged branch whose log kept the writes up to `logged`: a key still reads as merged
      exactly when the lost part of the log left its value as it was and that value is not empty. */
  lemma LostMergeExact(e: Eng, ws: seq<Write>, logged: nat, k: Bytes)
    requires Inv(e) && |e.history| <= logged <= |e.history + ws| && forall w | w in ws :: w.value.Some?
    ensures var n := Next(e, MergeBranch(ws));
            var before, after := MapGet(Truth((e.history + ws)[..logged]), k), MapGet(Truth(e.history + ws), k);
            && Lookup(n, k) == after
            && (Lookup(Next(n, Reopen(logged)), k) == after <==> before == after && after != Some([]))
  {
    var n, all := Next(e, MergeBranch(ws)), e.history + ws;
    BatchKeepsTruth(e, ws, n, k);
    BatchTruth(e.mem, e.history, ws, k);
    assert Uncached(e, k) == MapGet(Truth(e.history), k);
    forall j | !AnswerOf(n.levels, j).Silent? ensures Written(all[..logged], j) {
      KeptIsWritten(e.history, ws, logged, j);
    }
    ReopenedLookup(n, logged, k);
    LostTail(e.history, ws, logged);
    LostPuts(all, logged, k);
  }

  /** The same after a flush that put the merged values into a page: for a key the log mentions, the logged value
      shadows the page. */
  lemma FlushedMergeIsShadowed(e: Eng, ws: seq<Write>, page: Page, levels2: Levels, logged: nat, k: Bytes)
    requires Inv(e) && |e.history| <= logged <= |e.history + ws| && forall w | w in ws :: w.value.Some?
    requires Enabled(Next(e, MergeBranch(ws)), Flush(page, levels2)) && Written((e.history + ws)[..logged], k)
    ensures var f := Next(Next(e, MergeBranch(ws)), Flush(page, levels2));
            var before, after := MapGet(Truth((e.history + ws)[..logged]), k), MapGet(Truth(e.history + ws), k);
            Lookup(Next(f, Reopen(logged)), k) == after <==> before == after && after != Some([])
  {
    var f := Next(Next(e, MergeBranch(ws)), Flush(page, levels2));
    ReopenedRead(f, logged, k);
    LostTail(e.history, ws, logged);
    LostPuts(e.history + ws, logged, k);
  }

  /** A run from an empty directory: write one value, then another, merge a branch taken in between, and crash with the
      merge's log record still in the writer's buffer. The merged value was read and is gone. */
  lemma UnloggedMergeIsLost(k: Bytes, v1: Bytes, v2: Bytes)
    requires v1 != v2 && v2 != []
    ensures var w1, w2 := Write(k, Some(v1)), Write(k, Some(v2));
            var steps := [WriteOne(w1), WriteOne(w2), MergeBranch([w1]), ReadKey(k, {})];
            && CanRun(Empty(), steps) && Run(Empty(), steps).history == [w1, w2, w1]
            && Lookup(Run(Empty(), steps), k) == Some(v1)
            && Lookup(Next(Run(Empty(), steps), Reopen(2)), k) == Some(v2)
  {
    var w1, w2 := Write(k, Some(v1)), Write(k, Some(v2));
    EmptyInv();
    var a := Next(Empty(), WriteOne(w1));
    WriteKeepsInv(Empty(), w1);
    var e := Next(a, WriteOne(w2));
    WriteKeepsInv(a, w2);
    FourSteps(Empty(), WriteOne(w1), WriteOne(w2), MergeBranch([w1]), ReadKey(k, {}));
    BufferOne(e.mem, w1);
    assert e.history == [w1, w2] && [w1, w2] + [w1] == [w1, w2, w1] && [w1, w2, w1][..2] == [w1, w2];
    TruthSnoc([w1], w2, k);
    assert [w1] + [w2] == [w1, w2];
    assert [w1, w2][0].key == k;
    ReopenedRead(Next(e, MergeBranch([w1])), 2, k);
  }
}
