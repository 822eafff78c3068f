/** The storage engine object: log, memtable, frozen tables, read cache, compaction levels and live trie, updated in
    place. Each method performs the corresponding steps of `EngineRuns`. */
module Engines {
  import opened Common
  import opened Lex
  import opened Pages
  import opened Compaction
  import opened Memtables
  import opened Caches
  import opened Wal
  import opened EngineRuns
  import opened Recovery
  import opened Decimals
  import Hamt
  import Branch

  const CACHE_CAPACITY: nat := 1024
  const MAX_FROZEN: nat := 2

  /** "snap-" */
  const SNAP: Bytes := [115, 110, 97, 112, 45]

  /** `b` is `a` after the flush that follows a write when `flush` says so. */
  ghost predicate AfterFlush(a: Eng, flush: bool, b: Eng) {
    if flush then exists page, levels2 :: Enabled(a, Flush(page, levels2)) && b == Next(a, Flush(page, levels2))
    else b == a
  }

  ghost predicate AllEmpty(tables: seq<map<Bytes, MemEntry>>) {
    forall i | 0 <= i < |tables| :: tables[i] == map[]
  }

  lemma FrozenEmpty(tables: seq<map<Bytes, MemEntry>>, t: map<Bytes, MemEntry>)
    requires AllEmpty(tables) && t == map[]
    ensures AllEmpty(tables + [t]) && AllEmpty((tables + [t])[1..])
  {
  }

  ghost predicate SnapshotsWellFormed(h: Hamt.Hash, keys: set<Bytes>, snapshots: map<Bytes, Hamt.Trie>) {
    forall name | name in snapshots :: Hamt.WellFormed(h, keys, snapshots[name])
  }

  /** Whether some prefix of the batch fills the memtable. */
  ghost predicate FillsUp(mem: Buffer, ws: seq<Write>, threshold: nat) {
    exists i :: 0 < i <= |ws| && BufferSize(BufferAll(mem, ws[..i])) >= threshold
  }

  function Puts(entries: seq<Hamt.Entry>): (ws: seq<Write>)
    ensures |ws| == |entries| && forall i | 0 <= i < |ws| :: ws[i] == Write(entries[i].0, Some(entries[i].1))
  {
    seq(|entries|, i requires 0 <= i < |entries| => Write(entries[i].0, Some(entries[i].1)))
  }

  lemma PutsPrefix(entries: seq<Hamt.Entry>, i: nat, mem: Buffer, m: map<Bytes, Bytes>)
    requires i < |entries|
    ensures var w := Write(entries[i].0, Some(entries[i].1));
            && Puts(entries)[..i + 1] == Puts(entries)[..i] + [w]
            && BufferAll(mem, Puts(entries)[..i + 1]) == Buffer1(BufferAll(mem, Puts(entries)[..i]), w)
            && StateAfterAll(m, Puts(entries)[..i + 1]) == StateAfter(StateAfterAll(m, Puts(entries)[..i]), w)
  {
    var ws := Puts(entries)[..i + 1];
    assert ws[..|ws| - 1] == Puts(entries)[..i];
  }

  /** The log bytes of a batch, entry by entry. */
  lemma PutsLogged(crc: Crc, entries: seq<Hamt.Entry>, i: nat)
    requires i < |entries|
    ensures LogBytes(crc, LogOf(Puts(entries)[..i + 1]))
            == LogBytes(crc, LogOf(Puts(entries)[..i])) + Serialize(crc, LogRecord(entries[i].0, entries[i].1))
  {
    assert LogOf(Puts(entries)[..i + 1]) == LogOf(Puts(entries)[..i]) + [LogRecord(entries[i].0, entries[i].1)];
    LogAppend(crc, LogOf(Puts(entries)[..i]), LogRecord(entries[i].0, entries[i].1));
  }

  function StateAfterAll(m: map<Bytes, Bytes>, ws: seq<Write>): map<Bytes, Bytes> {
    if ws == [] then m else StateAfter(StateAfterAll(m, ws[..|ws| - 1]), ws[|ws| - 1])
  }

  /** What has to hold for nothing to stay in the writer's buffer after appending the records of `ws` without a flush:
      the last record is as large as the buffer, or there was nothing before and nothing came. */
  ghost predicate LeavesNothingPending(crc: Crc, log: Log, ws: seq<Write>) {
    if ws == [] then log.pending == [] else |Serialize(crc, LogRecordOf(ws[|ws| - 1]))| >= WRITER_CAPACITY
  }

  /** The records of a batch, appended to the log one by one. */
  method AppendAll(crc: Crc, log: Log, entries: seq<Hamt.Entry>) returns (r: Log)
    ensures Everything(r) == Everything(log) + LogBytes(crc, LogOf(Puts(entries))) && log.file <= r.file
    ensures |log.pending| + |LogBytes(crc, LogOf(Puts(entries)))| < WRITER_CAPACITY ==> r.file == log.file
    ensures r.pending == [] <==> LeavesNothingPending(crc, log, Puts(entries))
  {
    hide Serialize, Append, LogBytes, LogOf, Puts;
    r := log;
    NothingLogged(crc, entries);
    assert Everything(log) + [] == Everything(log);
    for i := 0 to |entries|
      invariant Everything(r) == Everything(log) + LogBytes(crc, LogOf(Puts(entries)[..i])) && log.file <= r.file
      invariant |log.pending| + |LogBytes(crc, LogOf(Puts(entries)[..i]))| < WRITER_CAPACITY ==> r.file == log.file
      invariant r.pending == [] <==> LeavesNothingPending(crc, log, Puts(entries)[..i])
    {
      PutsLogged(crc, entries, i);
      r := Append(r, Serialize(crc, LogRecord(entries[i].0, entries[i].1)));
    }
    assert Puts(entries)[..|entries|] == Puts(entries);
  }

  lemma NothingLogged(crc: Crc, entries: seq<Hamt.Entry>)
    ensures LogBytes(crc, LogOf(Puts(entries)[..0])) == []
  {
  }

  /** The walk over frozen tables, newest first. */
  method AskFrozen(tables: seq<map<Bytes, MemEntry>>, key: Bytes) returns (a: Answer)
    ensures a.Silent? <==> forall i | 0 <= i < |tables| :: key !in tables[i]
    ensures forall i | 0 <= i < |tables| && key in tables[i] && (forall j | i < j < |tables| :: key !in tables[j]) ::
      Visible(a) == tables[i][key].value
  {
    for i := |tables| downto 0
      invariant forall j | i <= j < |tables| :: key !in tables[j]
    {
      if key in tables[i] { return BufferAnswer(Values(tables[i]), key); }
    }
    return Silent;
  }

  function StateAfter(m: map<Bytes, Bytes>, w: Write): map<Bytes, Bytes> {
    Assign(m, w.key, w.value)
  }

  /** Writing to the trie and to the history stay in step. */
  lemma {:induction false} TruthInStep(ws: seq<Write>, more: seq<Write>)
    ensures Truth(ws + more) == StateAfterAll(Truth(ws), more)
  {
    if more == [] {
      assert ws + more == ws;
    } else {
      TruthInStep(ws, more[..|more| - 1]);
      assert (ws + more)[..|ws + more| - 1] == ws + more[..|more| - 1];
    }
  }

  /** So do logging and the history. */
  lemma {:induction false} LogConcat(crc: Crc, a: seq<LogRecord>, b: seq<LogRecord>)
    ensures LogBytes(crc, a + b) == LogBytes(crc, a) + LogBytes(crc, b)
  {
    hide Serialize;
    if a == [] {
      assert a + b == b;
    } else {
      assert (a + b)[1..] == a[1..] + b;
      LogConcat(crc, a[1..], b);
    }
  }

  lemma BatchInStep(crc: Crc, ws: seq<Write>, more: seq<Write>)
    ensures Truth(ws + more) == StateAfterAll(Truth(ws), more)
    ensures LogBytes(crc, LogOf(ws + more)) == LogBytes(crc, LogOf(ws)) + LogBytes(crc, LogOf(more))
  {
    hide *;
    TruthInStep(ws, more);
    LogConcat(crc, LogOf(ws), LogOf(more));
    LogOfConcat(ws, more);
  }

  lemma LogOfConcat(ws: seq<Write>, more: seq<Write>)
    ensures LogOf(ws + more) == LogOf(ws) + LogOf(more)
  {
    hide LogRecordOf;
  }

  lemma WriteInStep(crc: Crc, ws: seq<Write>, w: Write)
    ensures Truth(ws + [w]) == StateAfter(Truth(ws), w)
    ensures LogBytes(crc, LogOf(ws + [w])) == LogBytes(crc, LogOf(ws)) + Serialize(crc, LogRecordOf(w))
  {
    assert (ws + [w])[..|ws|] == ws;
    assert LogOf(ws + [w]) == LogOf(ws) + [LogRecordOf(w)];
    LogAppend(crc, LogOf(ws), LogRecordOf(w));
  }

  /** The trie after a write. */
  method UpdateState(h: Hamt.Hash, ghost keys: set<Bytes>, t: Hamt.Trie, w: Write) returns (r: Hamt.Trie)
    requires Hamt.WellFormed(h, keys, t) && (w.value.Some? ==> w.key in keys)
    ensures Hamt.WellFormed(h, keys, r) && Hamt.Contents(r) == StateAfter(Hamt.Contents(t), w)
  {
    match w.value
    case Some(v) => r := Hamt.Put(h, keys, t, w.key, v);
    case None => r := Hamt.Delete(h, keys, t, w.key);
  }

  lemma SnapshotIn(h: Hamt.Hash, keys: set<Bytes>, snapshots: map<Bytes, Hamt.Trie>, name: Bytes)
    requires SnapshotsWellFormed(h, keys, snapshots) && name in snapshots
    ensures Hamt.WellFormed(h, keys, snapshots[name])
  {
  }

  lemma SnapshotsFewer(h: Hamt.Hash, keys: set<Bytes>, snapshots: map<Bytes, Hamt.Trie>, name: Bytes)
    requires SnapshotsWellFormed(h, keys, snapshots)
    ensures SnapshotsWellFormed(h, keys, snapshots - {name})
  {
  }

  lemma NothingYet(mem: Buffer, m: map<Bytes, Bytes>)
    ensures BufferAll(mem, []) == mem && StateAfterAll(m, []) == m
  {
  }

  function KeyList(es: seq<Hamt.Entry>): (ks: seq<Bytes>)
    ensures |ks| == |es| && forall i | 0 <= i < |es| :: ks[i] == es[i].0
  {
    seq(|es|, i requires 0 <= i < |es| => es[i].0)
  }

  /** A table's entries in a range, written over what is there: values replace, deletions remove. */
  method OverlayTable(base: map<Bytes, Bytes>, entries: map<Bytes, MemEntry>, start: Bytes, end: Bytes)
      returns (merged: map<Bytes, Bytes>)
    ensures forall k :: MapGet(merged, k) ==
                        if k in entries && Between(start, k, end) then entries[k].value else MapGet(base, k)
  {
    merged := base;
    var todo := set k | k in entries && Between(start, k, end);
    while todo != {}
      invariant todo <= entries.Keys && forall k | k in todo :: Between(start, k, end)
      invariant forall k :: MapGet(merged, k) ==
                            if k in entries && Between(start, k, end) && k !in todo then entries[k].value
                            else MapGet(base, k)
      decreases |todo|
    {
      var k :| k in todo;
      todo := todo - {k};
      match entries[k].value
      case Some(v) => merged := merged[k := v];
      case None => merged := merged - {k};
    }
  }

  /** A map as a list sorted by key. */
  method Listing(m: map<Bytes, Bytes>) returns (es: seq<Hamt.Entry>)
    ensures Ascending(KeyList(es)) && forall k, v :: (k, v) in es <==> k in m && m[k] == v
  {
    var ks := SortKeys(m.Keys);
    es := [];
    for i := 0 to |ks|
      invariant |es| == i && forall j | 0 <= j < i :: ks[j] in m && es[j] == (ks[j], m[ks[j]])
    {
      assert ks[i] in ks;
      es := es + [(ks[i], m[ks[i]])];
    }
    forall k, v | k in m && m[k] == v ensures (k, v) in es {
      var i :| 0 <= i < |ks| && ks[i] == k;
      assert es[i] == (k, v);
    }
  }

  /** What a scan sees of a key: the memtable, and the levels unless the fast path skips them. */
  function Scanned(e: Eng, fast: bool, k: Bytes): Option<Bytes> {
    if k in e.mem then e.mem[k] else if fast then None else View(e.levels, k)
  }

  /** A scan lists exactly what uncached reads see. */
  ghost predicate ScanIsView(e: Eng, start: Bytes, end: Bytes, results: seq<Hamt.Entry>) {
    forall k, v :: (k, v) in results <==> Between(start, k, end) && Uncached(e, k) == Some(v)
  }

  ghost predicate LevelsDecideNothing(e: Eng, start: Bytes, end: Bytes) {
    forall k | Between(start, k, end) && k !in e.mem :: View(e.levels, k).None?
  }

  lemma ScanExact(e: Eng, fast: bool, start: Bytes, end: Bytes, results: seq<Hamt.Entry>)
    requires forall k, v :: (k, v) in results <==> Between(start, k, end) && Scanned(e, fast, k) == Some(v)
    ensures ScanIsView(e, start, end, results) <==> !fast || LevelsDecideNothing(e, start, end)
  {
    if fast && !LevelsDecideNothing(e, start, end) {
      var k :| Between(start, k, end) && k !in e.mem && View(e.levels, k).Some?;
      var v := View(e.levels, k).value;
      assert (k, v) !in results && Uncached(e, k) == Some(v);
    }
  }

  /** Scanning from a prefix to its successor lists exactly the keys that have the prefix. */
  lemma PrefixScan(e: Eng, q: Bytes, b: Byte, results: seq<Hamt.Entry>)
    requires b < 255 && ScanIsView(e, q + [b], q + [b + 1], results)
    ensures forall k, v :: (k, v) in results <==> q + [b] <= k && Uncached(e, k) == Some(v)
  {
    forall k, v ensures (k, v) in results <==> q + [b] <= k && Uncached(e, k) == Some(v) { PrefixRangeExact(q, b, k); }
  }

  /** A directory with one write in its log, opened with a threshold that write reaches: the write is in a page, the
      fast path is taken, a read finds the key and a scan over it does not. */
  lemma ScanMissesReopenedPages(k: Bytes, v: Bytes, start: Bytes, end: Bytes, results: seq<Hamt.Entry>)
    requires v != [] && Between(start, k, end)
    requires var e := Eng(map[], map[], Levels([OneRecord(k, v)], [], []), [Write(k, Some(v))]);
             forall j, x :: (j, x) in results <==> Between(start, j, end) && Scanned(e, true, j) == Some(x)
    ensures var w, p := Write(k, Some(v)), OneRecord(k, v);
            var e := Eng(map[], map[], Levels([p], [], []), [w]);
            && Next(Empty(), WriteOne(w)).history == [w]
            && AfterFlush(Next(Next(Empty(), WriteOne(w)), Reopen(1)), true, e)
            && Lookup(e, k) == Some(v) && results == [] && !ScanIsView(e, start, end, results)
  {
    var w, p := Write(k, Some(v)), OneRecord(k, v);
    var was, e := Next(Empty(), WriteOne(w)), Eng(map[], map[], Levels([p], [], []), [w]);
    assert was.history == [w] && [w][..1] == [w];
    var reopened := Next(was, Reopen(1));
    ReopenedOne(w);
    assert reopened.mem == map[k := Some(v)];
    OneRecordIsPage(k, v, reopened.mem);
    assert [] + [p] == [p];
    assert Enabled(reopened, Flush(p, e.levels)) && e == Next(reopened, Flush(p, e.levels));
    assert View(e.levels, k) == Some(v) by { AnswerByLevel(e.levels, k); AnswerOfOne(p, k); }
    SomethingListed(results);
    ScanExact(e, true, start, end, results);
  }

  lemma SomethingListed(results: seq<Hamt.Entry>)
    ensures results != [] ==> exists k, v :: (k, v) in results
  {
    if results != [] { assert (results[0].0, results[0].1) in results; }
  }

  /** The writes put exactly the bindings of a map, each once. */
  ghost predicate PutsAll(ws: seq<Write>, m: map<Bytes, Bytes>) {
    && |ws| == |m| && (forall w | w in ws :: w.value.Some? && w.key in m && m[w.key] == w.value.value)
    && (forall k | k in m :: Write(k, Some(m[k])) in ws)
  }

  lemma EntriesPutAll(entries: seq<Hamt.Entry>, m: map<Bytes, Bytes>)
    requires |entries| == |m| && forall k, v :: (k, v) in entries <==> k in m && m[k] == v
    ensures PutsAll(Puts(entries), m)
  {
    var ws := Puts(entries);
    forall w | w in ws ensures w.value.Some? && w.key in m && m[w.key] == w.value.value {
      var i :| 0 <= i < |ws| && ws[i] == w;
      assert (entries[i].0, entries[i].1) in entries;
    }
    forall k | k in m ensures Write(k, Some(m[k])) in ws {
      assert (k, m[k]) in entries;
      var i :| 0 <= i < |entries| && entries[i] == (k, m[k]);
      assert ws[i] == Write(k, Some(m[k]));
    }
  }

  /** A merge keeps reads right exactly when no key of the branch is cached. */
  lemma MergeKeepsInv(e: Eng, ws: seq<Write>, m: map<Bytes, Bytes>)
    requires Inv(e) && PutsAll(ws, m)
    ensures Inv(Next(e, MergeBranch(ws))) <==> forall k | k in e.cached :: k !in m
  {
    MergeBranchExact(e, ws);
    forall k ensures Written(ws, k) <==> k in m {
      if k in m {
        var i :| 0 <= i < |ws| && ws[i] == Write(k, Some(m[k]));
        assert ws[i].key == k;
      }
      if Written(ws, k) {
        var i :| 0 <= i < |ws| && ws[i].key == k;
        assert ws[i] in ws;
      }
    }
  }

  /** A flush now would merge no pages, or only pages that agree on shared keys, oldest with newest. */
  ghost predicate SafeToFlush(e: Eng) {
    || |e.levels.l0| + 1 < L0_LIMIT
    || forall page, k | IsPageOf(page, e.mem) :: OldestAgreesWithNewest(e.levels.l0 + [page], k)
  }

  lemma WriteThenFlushKeepsInv(a: Eng, step: Step, flush: bool, b: Eng)
    requires Inv(a) && (step.WriteOne? || step.WriteBatch?) && AfterFlush(Next(a, step), flush, b)
    requires flush ==> SafeToFlush(Next(a, step))
    ensures Inv(b)
  {
    StepKeepsInv(a, step);
    hide Inv;
    if flush {
      var n := Next(a, step);
      var page, levels2 :| Enabled(n, Flush(page, levels2)) && b == Next(n, Flush(page, levels2));
      StepKeepsInv(n, Flush(page, levels2));
    }
  }

  /** While trie and history are in step, the trie holds what reads return. */
  lemma TrieAnswersReads(e: Eng, trie: map<Bytes, Bytes>, k: Bytes)
    requires Inv(e) && trie == Truth(e.history)
    ensures Lookup(e, k) == MapGet(trie, k)
  {
    InvMeansTruth(e, k);
  }

  lemma LoggedKeys(ws: seq<Write>, keys: set<Bytes>)
    requires forall w | w in ws :: w.key in keys
    ensures forall r | r in LogOf(ws) :: r.key in keys
  {
    forall r | r in LogOf(ws) ensures r.key in keys {
      var i :| 0 <= i < |ws| && LogOf(ws)[i] == r;
      assert ws[i] in ws;
    }
  }

  lemma PageIsSorted(p: Page, mem: Buffer)
    requires IsPageOf(p, mem)
    ensures Sorted(p)
  {
  }

  class Engine {
    const hash: Hamt.Hash
    const crc: Crc
    /** The keys in play, whose hashes are pairwise distinct. */
    ghost const keys: set<Bytes>
    const threshold: nat
    const cache: LruCache
    const compactor: CompactionManager
    var memtable: Memtable
    var frozen: seq<map<Bytes, MemEntry>>
    var wal: Log
    var state: Hamt.Trie
    var snapshots: map<Bytes, Hamt.Trie>
    var snapshotCounter: nat
    var flushCount: nat
    ghost var history: seq<Write>

    ghost function Value(): Eng
      reads this, memtable, cache, compactor
    {
      Eng(memtable.buffered, cache.cached, compactor.Contents(), history)
    }

    /** Frozen tables were drained before freezing, so they are empty; everything else is as its component says. */
    ghost predicate Valid()
      reads this, memtable, cache, compactor
    {
      && memtable.Valid() && memtable.threshold == threshold && cache.Valid() && compactor.Valid()
      && |frozen| <= MAX_FROZEN && AllEmpty(frozen)
      && Hamt.WellFormed(hash, keys, state)
      && SnapshotsWellFormed(hash, keys, snapshots)
    }

    /** The levels are empty until the first flush. Holds from creation on; the scan shortcut relies on it. */
    ghost predicate NothingFlushed()
      reads this, compactor
    {
      frozen == [] && flushCount == 0 ==> compactor.Contents() == Levels([], [], [])
    }

    /** Trie and log say what the history says. Holds from creation on; reopening may lose it. */
    ghost predicate InStep()
      reads this
    {
      Hamt.Contents(state) == Truth(history) && Everything(wal) == LogBytes(crc, LogOf(history))
    }

    /** An engine on an empty directory. */
    constructor (hash: Hamt.Hash, crc: Crc, ghost keys: set<Bytes>, threshold: nat, sizeOf: Page -> nat)
      requires Hamt.NoCollisions(hash, keys)
      ensures Valid() && NothingFlushed() && InStep() && Value() == Empty() && wal == Log([], []) && snapshots == map[]
      ensures this.keys == keys && this.threshold == threshold
      ensures fresh(memtable) && fresh(cache) && fresh(compactor)
    {
      this.hash, this.crc, this.keys, this.threshold := hash, crc, keys, threshold;
      memtable := new Memtable(threshold);
      cache := new LruCache(CACHE_CAPACITY);
      compactor := new CompactionManager(sizeOf);
      frozen, wal, flushCount, history, snapshots, snapshotCounter := [], Log([], []), 0, [], map[], 0;
      state := Hamt.Empty();
      EmptyTrie(hash, keys);
      assert LogOf([]) == [];
    }

    /** `open` on an existing directory: pages loaded into the levels, the log replayed over them. `was` is the engine
        whose directory it is and `logged` how many of its writes the log file kept; the result is that engine after
        the `Reopen` step, and after a flush if the replayed memtable is full. */
    constructor Open(hash: Hamt.Hash, crc: Crc, ghost keys: set<Bytes>, threshold: nat, sizeOf: Page -> nat,
                     file: Bytes, pages: Levels, ghost was: Eng, ghost logged: nat)
      requires Hamt.NoCollisions(hash, keys) && LevelsSorted(pages) && pages == was.levels
      requires logged <= |was.history| && ReplaySpec(crc, file).records == LogOf(was.history[..logged])
      requires forall w | w in was.history[..logged] :: w.key in keys
      ensures Valid() && LooksUnflushed() && wal == Log(file, []) && snapshots == map[]
      ensures this.keys == keys && this.threshold == threshold
      ensures AfterFlush(Next(was, Reopen(logged)), BufferSize(ReopenedBuffer(was.history[..logged])) >= threshold,
                         Value())
      ensures Hamt.Contents(state) == if BufferSize(ReopenedBuffer(was.history[..logged])) < threshold
                                      then LivePart(ReopenedBuffer(was.history[..logged])) else map[]
      ensures fresh(memtable) && fresh(cache) && fresh(compactor)
    {
      hide BufferSize, Hamt.WellFormed, Hamt.NoCollisions, Hamt.Contents, LevelsSorted, IsPageOf, PageAdded;
      hide PromotedBySize;
      hide ReplaySpec, LivePart, ReopenedBuffer, ReplayedBuffer, Accounted, InWriteOrder, Stamped;
      ghost var kept := was.history[..logged];
      ReplayIsReopening(kept);
      LoggedKeys(kept, keys);
      var replayed := Replay(crc, file);
      var table, page, trie := ReplayInto(hash, keys, replayed.records, threshold);
      var levels := new CompactionManager.Loaded(sizeOf, pages);
      if page.Some? {
        PageIsSorted(page.value, ReopenedBuffer(kept));
        levels.AddL0Page(page.value);
      }
      this.hash, this.crc, this.keys, this.threshold := hash, crc, keys, threshold;
      memtable, compactor, state := table, levels, trie;
      cache := new LruCache(CACHE_CAPACITY);
      frozen, wal, flushCount, history, snapshots, snapshotCounter := [], Log(file, []), 0, kept, map[], 0;
      new;
      ghost var reopened := Next(was, Reopen(logged));
      if page.Some? {
        assert Enabled(reopened, Flush(page.value, compactor.Contents()));
        assert Value() == Next(reopened, Flush(page.value, compactor.Contents()));
      } else {
        assert Value() == reopened;
      }
    }

    /** The part `put` and `delete` share: log first, then memtable, cache and trie. */
    method ApplyWrite(w: Write) returns (shouldFlush: bool)
      requires Valid() && (w.value.Some? ==> w.key in keys)
      modifies this, memtable, cache
      ensures Valid() && memtable == old(memtable) && frozen == old(frozen) && flushCount == old(flushCount)
      ensures wal == Log(Everything(old(wal)) + Serialize(crc, LogRecordOf(w)), []) && snapshots == old(snapshots)
      ensures old(InStep()) ==> InStep()
      ensures Hamt.Contents(state) == StateAfter(Hamt.Contents(old(state)), w)
      ensures Value() == Next(old(Value()), WriteOne(w))
      ensures shouldFlush <==> BufferSize(Buffer1(old(memtable.buffered), w)) >= threshold
    {
      hide Hamt.WellFormed, Hamt.Contents, Serialize, BufferSize, LevelsSorted, Accounted, InWriteOrder, Stamped;
      hide Caches.Contents;
      hide AllEmpty, SnapshotsWellFormed, LogRecordOf, LogOf, LogBytes, StateAfter, Truth, Append;
      WriteInStep(crc, history, w);
      var next := UpdateState(hash, keys, state, w);
      wal := Flushed(Append(wal, Serialize(crc, LogRecordOf(w))));
      state, history := next, history + [w];
      shouldFlush := memtable.Write(w.key, w.value);
      cache.Invalidate(w.key);
    }

    method Put(key: Bytes, value: Bytes)
      requires Valid() && key in keys
      modifies this, memtable, cache, compactor
      ensures Valid() && (memtable == old(memtable) || fresh(memtable))
      ensures wal == Log(Everything(old(wal)) + Serialize(crc, LogRecord(key, value)), [])
      ensures old(InStep()) ==> InStep()
      ensures Hamt.Contents(state) == Hamt.Contents(old(state))[key := value]
      ensures var w := Write(key, Some(value));
              var full := BufferSize(Buffer1(old(memtable.buffered), w)) >= threshold;
              && AfterFlush(Next(old(Value()), WriteOne(w)), full, Value())
              && (Inv(old(Value())) && (full ==> SafeToFlush(Next(old(Value()), WriteOne(w)))) ==> Inv(Value()))
      ensures old(NothingFlushed()) ==> NothingFlushed()
    {
      hide Valid, Hamt.Contents, Serialize, BufferSize, Next, Truth, LogBytes, LogOf, Inv, SafeToFlush;
      ghost var before := Value();
      var shouldFlush := ApplyWrite(Write(key, Some(value)));
      if shouldFlush { FlushMemtable(); }
      if Inv(before) && (shouldFlush ==> SafeToFlush(Next(before, WriteOne(Write(key, Some(value)))))) {
        WriteThenFlushKeepsInv(before, WriteOne(Write(key, Some(value))), shouldFlush, Value());
      }
    }

    method Delete(key: Bytes)
      requires Valid()
      modifies this, memtable, cache, compactor
      ensures Valid() && (memtable == old(memtable) || fresh(memtable))
      ensures wal == Log(Everything(old(wal)) + Serialize(crc, LogRecord(key, [])), [])
      ensures old(InStep()) ==> InStep()
      ensures Hamt.Contents(state) == Hamt.Contents(old(state)) - {key}
      ensures var w := Write(key, None);
              var full := BufferSize(Buffer1(old(memtable.buffered), w)) >= threshold;
              && AfterFlush(Next(old(Value()), WriteOne(w)), full, Value())
              && (Inv(old(Value())) && (full ==> SafeToFlush(Next(old(Value()), WriteOne(w)))) ==> Inv(Value()))
      ensures old(NothingFlushed()) ==> NothingFlushed()
    {
      hide Valid, Hamt.Contents, Serialize, BufferSize, Next, Truth, LogBytes, LogOf, Inv, SafeToFlush;
      ghost var before := Value();
      var shouldFlush := ApplyWrite(Write(key, None));
      if shouldFlush { FlushMemtable(); }
      if Inv(before) && (shouldFlush ==> SafeToFlush(Next(before, WriteOne(Write(key, None))))) {
        WriteThenFlushKeepsInv(before, WriteOne(Write(key, None)), shouldFlush, Value());
      }
    }

    /** The memtable becomes an L0 page; the drained table is kept as frozen, at most two of them. */
    method FlushMemtable()
      requires Valid()
      modifies this, memtable, compactor
      ensures Valid() && fresh(memtable) && wal == old(wal) && state == old(state) && snapshots == old(snapshots)
      ensures exists page, levels2 ::
        Enabled(old(Value()), Flush(page, levels2)) && Value() == Next(old(Value()), Flush(page, levels2))
      ensures NothingFlushed() && history == old(history)
    {
      hide Hamt.WellFormed, IsPageOf, PageAdded, PromotedBySize, LevelsSorted, BufferSize, Accounted, InWriteOrder;
      hide Stamped;
      hide Caches.Contents;
      hide SnapshotsWellFormed;
      ghost var before := Value();
      var frozenTable := memtable;
      var drained := frozenTable.Drain();
      var emptied := frozenTable.entries;
      assert Values(drained) == before.mem;
      var page := DrainedPage(drained);
      memtable := new Memtable(threshold);
      assert cache.cached == before.cached && compactor.Contents() == before.levels;
      compactor.AddL0Page(page);
      assert cache.cached == before.cached && memtable.buffered == map[];
      FrozenEmpty(frozen, emptied);
      hide AllEmpty;
      frozen := frozen + [emptied];
      if |frozen| > MAX_FROZEN { frozen := frozen[1..]; }
      flushCount := flushCount + 1;
      assert Enabled(before, Flush(page, compactor.Contents()));
      assert Value() == Next(before, Flush(page, compactor.Contents()));
    }

    /** `get`: what the lookup order gives; and while reads are right and the trie is in step, what the trie holds. */
    method Get(key: Bytes) returns (r: Option<Bytes>)
      requires Valid()
      modifies cache
      ensures Valid() && r == Lookup(old(Value()), key)
      ensures exists evicted :: Value() == Next(old(Value()), ReadKey(key, evicted))
      ensures Inv(old(Value())) ==>
        Inv(Value()) && r == MapGet(Truth(history), key) && (InStep() ==> r == MapGet(Hamt.Contents(state), key))
    {
      hide Valid, Next, Inv, Lookup, Truth, Hamt.Contents, LogBytes, LogOf;
      ghost var before := Value();
      ghost var evicted;
      r, evicted := ReadThrough(key);
      if Inv(before) {
        InvMeansTruth(before, key);
        ReadKeepsInv(before, key, evicted);
        if InStep() { TrieAnswersReads(before, Hamt.Contents(state), key); }
      }
    }

    /** The lookup: memtable, frozen tables newest first, cache, levels; a hit in the levels fills the cache. */
    method ReadThrough(key: Bytes) returns (r: Option<Bytes>, ghost evicted: set<Bytes>)
      requires Valid()
      modifies cache
      ensures Valid() && r == Lookup(old(Value()), key) && Value() == Next(old(Value()), ReadKey(key, evicted))
    {
      evicted := {};
      hide Hamt.WellFormed, LevelsSorted, View, BufferSize, Accounted, InWriteOrder, Stamped, SnapshotsWellFormed;
      var entry := memtable.GetEntry(key);
      if entry.Some? {
        assert Value() == Next(old(Value()), ReadKey(key, {}));
        return entry.value.value, {};
      }
      var inFrozen := AskFrozen(frozen, key);
      if !inFrozen.Silent? { return Visible(inFrozen), {}; }
      r := cache.Get(key);
      if r.Some? {
        assert Value() == Next(old(Value()), ReadKey(key, {}));
        return;
      }
      r := compactor.Get(key);
      if r.None? {
        assert Value() == Next(old(Value()), ReadKey(key, {}));
      } else {
        ghost var victim := cache.Insert(key, r.value);
        evicted := if victim.Some? then {victim.value} else {};
        assert cache.cached == (old(cache.cached) - evicted)[key := r.value];
        assert Value() == Next(old(Value()), ReadKey(key, evicted));
      }
    }

    /** The loop batches and branch merges share: every entry into memtable and trie. Says whether the memtable was
        full after some entry. */
    method InsertAll(entries: seq<Hamt.Entry>) returns (full: bool)
      requires Valid() && forall e | e in entries :: e.0 in keys
      modifies this`state, memtable
      ensures Valid()
      ensures memtable.buffered == BufferAll(old(memtable.buffered), Puts(entries))
      ensures Hamt.Contents(state) == StateAfterAll(Hamt.Contents(old(state)), Puts(entries))
      ensures full <==> FillsUp(old(memtable.buffered), Puts(entries), threshold)
    {
      hide Hamt.WellFormed, Hamt.Contents, BufferSize, LevelsSorted, Accounted, InWriteOrder, Stamped, Caches.Contents;
      hide AllEmpty, SnapshotsWellFormed, StateAfter, Serialize, BufferAll, StateAfterAll;
      ghost var mem0, state0 := memtable.buffered, Hamt.Contents(state);
      full := false;
      NothingYet(mem0, state0);
      for i := 0 to |entries|
        invariant Valid()
        invariant memtable.buffered == BufferAll(mem0, Puts(entries)[..i])
        invariant Hamt.Contents(state) == StateAfterAll(state0, Puts(entries)[..i])
        invariant full <==> exists j :: 0 < j <= i && BufferSize(BufferAll(mem0, Puts(entries)[..j])) >= threshold
      {
        assert entries[i] in entries;
        PutsPrefix(entries, i, mem0, state0);
        var next := UpdateState(hash, keys, state, Write(entries[i].0, Some(entries[i].1)));
        state := next;
        var nowFull := memtable.Put(entries[i].0, entries[i].1);
        full := full || nowFull;
      }
      assert Puts(entries)[..|entries|] == Puts(entries);
    }

    /** `put_batch`: one log flush, cache cleared once, and a flush if the memtable filled up at any entry. */
    method PutBatch(entries: seq<Hamt.Entry>)
      requires Valid() && forall e | e in entries :: e.0 in keys
      modifies this, memtable, cache, compactor
      ensures Valid() && (memtable == old(memtable) || fresh(memtable))
      ensures wal == Log(Everything(old(wal)) + LogBytes(crc, LogOf(Puts(entries))), [])
      ensures old(InStep()) ==> InStep()
      ensures Hamt.Contents(state) == StateAfterAll(Hamt.Contents(old(state)), Puts(entries))
      ensures var full := FillsUp(old(memtable.buffered), Puts(entries), threshold);
              var batched := Next(old(Value()), WriteBatch(Puts(entries)));
              && AfterFlush(batched, full, Value())
              && (Inv(old(Value())) && (full ==> SafeToFlush(batched)) ==> Inv(Value()))
      ensures old(NothingFlushed()) ==> NothingFlushed()
    {
      ghost var before := Value();
      var full := StoreBatch(entries);
      hide Valid, Hamt.Contents, FillsUp, Next, Enabled, LogBytes, Inv, SafeToFlush;
      if full { FlushMemtable(); }
      if Inv(before) && (full ==> SafeToFlush(Next(before, WriteBatch(Puts(entries))))) {
        WriteThenFlushKeepsInv(before, WriteBatch(Puts(entries)), full, Value());
      }
    }

    /** `bulk_ingest`: as `put_batch`, but only the final size decides the flush, and nothing happens for nothing. */
    method BulkIngest(entries: seq<Hamt.Entry>) returns (count: nat)
      requires Valid() && forall e | e in entries :: e.0 in keys
      modifies this, memtable, cache, compactor
      ensures Valid() && (memtable == old(memtable) || fresh(memtable)) && count == |entries|
      ensures entries == [] ==> wal == old(wal)
      ensures entries != [] ==> wal == Log(Everything(old(wal)) + LogBytes(crc, LogOf(Puts(entries))), [])
      ensures old(InStep()) ==> InStep()
      ensures Hamt.Contents(state) == StateAfterAll(Hamt.Contents(old(state)), Puts(entries))
      ensures entries == [] ==> Value() == old(Value())
      ensures entries != [] ==>
        var full := BufferSize(BufferAll(old(memtable.buffered), Puts(entries))) >= threshold;
        var batched := Next(old(Value()), WriteBatch(Puts(entries)));
        && AfterFlush(batched, full, Value())
        && (Inv(old(Value())) && (full ==> SafeToFlush(batched)) ==> Inv(Value()))
      ensures old(NothingFlushed()) ==> NothingFlushed()
    {
      count := |entries|;
      if entries == [] {
        return;
      }
      ghost var before := Value();
      var _ := StoreBatch(entries);
      var full := memtable.ShouldFlush();
      hide Valid, Hamt.Contents, BufferSize, Next, Enabled, LogBytes, Inv, SafeToFlush;
      if full { FlushMemtable(); }
      if Inv(before) && (full ==> SafeToFlush(Next(before, WriteBatch(Puts(entries))))) {
        WriteThenFlushKeepsInv(before, WriteBatch(Puts(entries)), full, Value());
      }
    }

    /** The part both batch forms share. */
    method StoreBatch(entries: seq<Hamt.Entry>) returns (full: bool)
      requires Valid() && forall e | e in entries :: e.0 in keys
      modifies this, memtable, cache
      ensures Valid() && memtable == old(memtable) && frozen == old(frozen) && flushCount == old(flushCount)
      ensures wal == Log(Everything(old(wal)) + LogBytes(crc, LogOf(Puts(entries))), []) && snapshots == old(snapshots)
      ensures old(InStep()) ==> InStep()
      ensures Hamt.Contents(state) == StateAfterAll(Hamt.Contents(old(state)), Puts(entries))
      ensures Value() == Next(old(Value()), WriteBatch(Puts(entries)))
      ensures full <==> FillsUp(old(memtable.buffered), Puts(entries), threshold)
    {
      hide Hamt.WellFormed, Hamt.Contents, BufferSize, LevelsSorted, Accounted, InWriteOrder, Stamped, Caches.Contents;
      hide AllEmpty, SnapshotsWellFormed, StateAfterAll, BufferAll, LogBytes, FillsUp, Truth, LogOf;
      BatchInStep(crc, history, Puts(entries));
      var log := AppendAll(crc, wal, entries);
      cache.Clear();
      full := InsertAll(entries);
      wal, history := Flushed(log), history + Puts(entries);
    }

    /** The fast path of `scan` takes this for having no data outside the memtable. */
    predicate LooksUnflushed() reads this { frozen == [] && flushCount == 0 }

    /** `scan`: levels, then frozen tables, then the memtable on top; on the fast path only the memtable is asked.
        Sorted by key; and a key is listed with a value exactly when it is in range and that is what a read past the
        cache sees, if and only if the fast path is not taken or the levels hold nothing of the range that the memtable
        does not decide. A range that ends before it starts is a panic in the source. */
    method Scan(start: Bytes, end: Bytes) returns (results: seq<Hamt.Entry>)
      requires Valid() && !Less(end, start)
      ensures Ascending(KeyList(results))
      ensures forall k, v ::
        (k, v) in results <==> Between(start, k, end) && Scanned(Value(), LooksUnflushed(), k) == Some(v)
      ensures ScanIsView(Value(), start, end, results) <==>
                !LooksUnflushed() || LevelsDecideNothing(Value(), start, end)
      ensures NothingFlushed() ==> ScanIsView(Value(), start, end, results)
    {
      var merged: map<Bytes, Bytes> := map[];
      if frozen != [] || flushCount != 0 {
        merged := compactor.Scan(start, end);
        for i := 0 to |frozen|
          invariant forall k ::
            MapGet(merged, k) == if Between(start, k, end) then View(compactor.Contents(), k) else None
        {
          merged := OverlayTable(merged, frozen[i], start, end);
        }
      } else {
        forall k ensures View(Levels([], [], []), k) == None { AnswerByLevel(Levels([], [], []), k); }
      }
      merged := OverlayTable(merged, memtable.entries, start, end);
      results := Listing(merged);
      ScanExact(Value(), LooksUnflushed(), start, end, results);
    }

    // -------------------------------------------------------------- branches

    /** `snapshot_create`: an empty name is replaced by the next counter value. */
    method SnapshotCreate(name: Bytes) returns (id: Bytes)
      requires Valid()
      modifies this`snapshots, this`snapshotCounter
      ensures Valid() && snapshots == old(snapshots)[id := state]
      ensures name != [] ==> id == name && snapshotCounter == old(snapshotCounter)
      ensures name == [] ==> id == SNAP + Padded(snapshotCounter) && snapshotCounter == old(snapshotCounter) + 1
    {
      id := name;
      if name == [] {
        snapshotCounter := snapshotCounter + 1;
        id := SNAP + Padded(snapshotCounter);
      }
      snapshots := snapshots[id := state];
    }

    /** `branch_create`: a copy of the live trie, or of a named snapshot if there is one of that name. */
    method BranchCreate(id: Bytes, source: Bytes) returns (ok: bool)
      requires Valid()
      modifies this`snapshots
      ensures Valid() && (ok <==> source == [] || source in old(snapshots))
      ensures snapshots == if !ok then old(snapshots)
                           else old(snapshots)[id := if source == [] then state else old(snapshots)[source]]
    {
      if source != [] && source !in snapshots { return false; }
      snapshots := snapshots[id := if source == [] then state else snapshots[source]];
      ok := true;
    }

    /** `branch_merge`: the live map overlaid by the branch, buffered, the cache left as it is; the records go to the
        log writer, which is not flushed, so all of them stay pending unless they fill its buffer, and nothing does
        exactly when the last record is as large as the buffer; only then would a replay of the file give every write
        back. An unknown name changes nothing. */
    method BranchMerge(name: Bytes) returns (count: Option<nat>, ghost ws: seq<Write>)
      requires Valid()
      modifies this, memtable
      ensures Valid() && memtable == old(memtable)
      ensures count.None? <==> name !in old(snapshots)
      ensures count.None? ==>
        Value() == old(Value()) && wal == old(wal) && state == old(state) && snapshots == old(snapshots)
      ensures count.Some? ==>
        && snapshots == old(snapshots) - {name} && count.value == |Hamt.Contents(old(snapshots)[name])|
        && Hamt.Contents(state) == Hamt.Contents(old(state)) + Hamt.Contents(old(snapshots)[name])
        && Value() == Next(old(Value()), MergeBranch(ws))
        && Everything(wal) == Everything(old(wal)) + LogBytes(crc, LogOf(ws)) && old(wal).file <= wal.file
        && (|old(wal).pending| + |LogBytes(crc, LogOf(ws))| < WRITER_CAPACITY ==> wal.file == old(wal).file)
        && (wal.pending == [] <==> LeavesNothingPending(crc, old(wal), ws))
        && PutsAll(ws, Hamt.Contents(old(snapshots)[name]))
        && (Inv(old(Value())) ==>
              (Inv(Value()) <==> forall k | k in old(cache.cached) :: k !in Hamt.Contents(old(snapshots)[name])))
        && (InStep() && AllLoggable(history) ==>
              (ReplaySpec(crc, wal.file).records == LogOf(history) <==> LeavesNothingPending(crc, old(wal), ws)))
      ensures old(InStep()) ==> InStep()
    {
      hide Hamt.Contents, Hamt.WellFormed, SnapshotsWellFormed, LogBytes, Next, LogOf, Truth, Everything;
      hide Inv, LeavesNothingPending, PutsAll, AllLoggable, ReplaySpec, WholeRecords;
      count, ws := None, [];
      if name in snapshots {
        ghost var before, branch := Value(), Hamt.Contents(snapshots[name]);
        SnapshotIn(hash, keys, snapshots, name);
        SnapshotsFewer(hash, keys, snapshots, name);
        var n;
        n, ws := MergeTrie(snapshots[name]);
        RemoveSnapshot(name);
        count := Some(n);
        if Inv(before) { MergeKeepsInv(before, ws, branch); }
        if InStep() && AllLoggable(history) { PendingWritesAreLost(crc, wal, history); }
      }
    }

    method RemoveSnapshot(name: Bytes)
      requires Valid()
      modifies this`snapshots
      ensures Valid() && snapshots == old(snapshots) - {name}
    {
      snapshots := snapshots - {name};
    }

    method MergeTrie(branch: Hamt.Trie) returns (count: nat, ghost ws: seq<Write>)
      requires Valid() && Hamt.WellFormed(hash, keys, branch)
      modifies this`state, this`wal, this`history, memtable
      ensures Valid() && count == |Hamt.Contents(branch)|
      ensures Hamt.Contents(state) == Hamt.Contents(old(state)) + Hamt.Contents(branch)
      ensures Value() == Next(old(Value()), MergeBranch(ws))
      ensures Everything(wal) == Everything(old(wal)) + LogBytes(crc, LogOf(ws)) && old(wal).file <= wal.file
      ensures |old(wal).pending| + |LogBytes(crc, LogOf(ws))| < WRITER_CAPACITY ==> wal.file == old(wal).file
      ensures (wal.pending == [] <==> LeavesNothingPending(crc, old(wal), ws)) && PutsAll(ws, Hamt.Contents(branch))
      ensures old(InStep()) ==> InStep()
    {
      hide Hamt.Contents, Hamt.MapOf, LogBytes, Next, LogOf, Puts, Hamt.WellFormed, Valid, Truth, Everything;
      hide LeavesNothingPending, PutsAll;
      var entries := BranchEntries(hash, keys, branch);
      MergeEntries(entries);
      count, ws := |entries|, Puts(entries);
    }

    method MergeEntries(entries: seq<Hamt.Entry>)
      requires Valid() && forall e | e in entries :: e.0 in keys
      modifies this`state, this`wal, this`history, memtable
      ensures Valid() && Everything(wal) == Everything(old(wal)) + LogBytes(crc, LogOf(Puts(entries)))
      ensures old(wal).file <= wal.file && (old(InStep()) ==> InStep())
      ensures |old(wal).pending| + |LogBytes(crc, LogOf(Puts(entries)))| < WRITER_CAPACITY ==> wal.file == old(wal).file
      ensures wal.pending == [] <==> LeavesNothingPending(crc, old(wal), Puts(entries))
      ensures Value() == Next(old(Value()), MergeBranch(Puts(entries)))
      ensures Hamt.Contents(state) == Hamt.Contents(old(state)) + Hamt.MapOf(entries)
    {
      hide LeavesNothingPending;
      hide Hamt.WellFormed, Hamt.Contents, BufferSize, LevelsSorted, Accounted, InWriteOrder, Stamped, Caches.Contents;
      hide AllEmpty, StateAfterAll, BufferAll, LogBytes, FillsUp, Hamt.MapOf, SnapshotsWellFormed, Truth, LogOf;
      hide Everything;
      BatchInStep(crc, history, Puts(entries));
      var log := AppendAll(crc, wal, entries);
      OverlayAll(Hamt.Contents(state), entries);
      var _ := InsertAll(entries);
      wal, history := log, history + Puts(entries);
    }
  }

  /** The bindings of a branch, as a merge uses them. */
  method BranchEntries(h: Hamt.Hash, ghost keys: set<Bytes>, t: Hamt.Trie) returns (entries: seq<Hamt.Entry>)
    requires Hamt.WellFormed(h, keys, t)
    ensures Hamt.MapOf(entries) == Hamt.Contents(t) && |entries| == |Hamt.Contents(t)|
    ensures forall e | e in entries :: e.0 in keys
    ensures PutsAll(Puts(entries), Hamt.Contents(t))
  {
    hide Hamt.Contents, Hamt.WellFormed, PutsAll, Puts;
    entries := Branch.Iter(h, keys, t);
    EntriesPutAll(entries, Hamt.Contents(t));
  }

  lemma {:induction false} OverlayAll(m: map<Bytes, Bytes>, entries: seq<Hamt.Entry>)
    ensures StateAfterAll(m, Puts(entries)) == m + Hamt.MapOf(entries)
  {
    if entries != [] {
      var init, last := entries[..|entries| - 1], entries[|entries| - 1];
      OverlayAll(m, init);
      assert Puts(entries)[..|entries| - 1] == Puts(init);
    }
  }
}
