/** Reopening after a crash: what replaying the log into a fresh memtable and trie gives back, for a log cut at any
    byte. */
module Recovery {
  import opened Common
  import opened Lex
  import opened Pages
  import opened Memtables
  import opened BigEndian
  import opened Wal
  import opened EngineRuns
  import Hamt

  /** How writes are logged: a delete is a record with an empty value. */
  function LogRecordOf(w: Write): LogRecord {
    LogRecord(w.key, if w.value.Some? then w.value.value else [])
  }

  function LogOf(ws: seq<Write>): (rs: seq<LogRecord>)
    ensures |rs| == |ws| && forall i | 0 <= i < |ws| :: rs[i] == LogRecordOf(ws[i])
  {
    seq(|ws|, i requires 0 <= i < |ws| => LogRecordOf(ws[i]))
  }

  /** How replay reads them back: an empty value is a delete. */
  function ReplayedWrite(r: LogRecord): Write {
    Write(r.key, if r.value == [] then None else Some(r.value))
  }

  function ReplayedBuffer(rs: seq<LogRecord>): Buffer {
    if rs == [] then map[] else Buffer1(ReplayedBuffer(rs[..|rs| - 1]), ReplayedWrite(rs[|rs| - 1]))
  }

  /** Replaying the log of a history leaves the memtable the `Reopen` step says. */
  lemma {:induction false} ReplayIsReopening(ws: seq<Write>)
    ensures ReplayedBuffer(LogOf(ws)) == ReopenedBuffer(ws)
  {
    if ws != [] {
      ReplayIsReopening(ws[..|ws| - 1]);
      assert LogOf(ws)[..|ws| - 1] == LogOf(ws[..|ws| - 1]);
    }
  }

  ghost predicate AllLoggable(ws: seq<Write>) {
    forall w | w in ws :: Loggable(LogRecordOf(w))
  }

  lemma ReplaysWholeWrites(crc: Crc, ws: seq<Write>, cut: nat)
    requires AllLoggable(ws) && cut <= |LogBytes(crc, LogOf(ws))|
    ensures var n := WholeRecords(crc, LogOf(ws), cut);
            n <= |ws| && ReplaySpec(crc, LogBytes(crc, LogOf(ws))[..cut]).records == LogOf(ws[..n])
  {
    hide LogBytes, WholeRecords, ReplaySpec, Loggable;
    forall r | r in LogOf(ws) ensures Loggable(r) {
      var i :| 0 <= i < |ws| && LogOf(ws)[i] == r;
      assert ws[i] in ws;
    }
    ReplayPrefix(crc, LogOf(ws), cut);
    var n := WholeRecords(crc, LogOf(ws), cut);
    assert LogOf(ws)[..n] == LogOf(ws[..n]);
  }

  /** Whatever byte the crash cut the log at, replay reads exactly the writes whose records are whole, and reopening
      reads every key as it was after those, the replayed memtable shadowing the loaded pages. */
  lemma RecoversWholeWrites(crc: Crc, e: Eng, cut: nat, k: Bytes)
    requires AllLoggable(e.history) && cut <= |LogBytes(crc, LogOf(e.history))|
    ensures var n := WholeRecords(crc, LogOf(e.history), cut);
            && n <= |e.history|
            && ReplaySpec(crc, LogBytes(crc, LogOf(e.history))[..cut]).records == LogOf(e.history[..n])
            && ReplayedBuffer(LogOf(e.history[..n])) == Next(e, Reopen(n)).mem
            && (LevelsWritten(e.levels, e.history[..n]) ==>
                  Lookup(Next(e, Reopen(n)), k) == NonEmpty(MapGet(Truth(e.history[..n]), k)))
  {
    ReplaysWholeWrites(crc, e.history, cut);
    var n := WholeRecords(crc, LogOf(e.history), cut);
    ReplayIsReopening(e.history[..n]);
    assert Next(e, Reopen(n)).mem == ReopenedBuffer(e.history[..n]);
    hide *;
    if LevelsWritten(e.levels, e.history[..n]) { ReopenedLookup(e, n, k); }
  }

  /** Exactly when an engine reopened on its whole log reads like the one before the crash: when no key held an empty
      value. */
  lemma RecoveryIsExact(crc: Crc, e: Eng)
    requires Inv(e) && AllLoggable(e.history)
    ensures ReplaySpec(crc, LogBytes(crc, LogOf(e.history))).records == LogOf(e.history)
    ensures (forall k :: Lookup(Next(e, Reopen(|e.history|)), k) == Lookup(e, k)) <==> NoEmptyValues(e.history)
  {
    var ws, log := e.history, LogBytes(crc, LogOf(e.history));
    assert log[..|log|] == log && ws[..|ws|] == ws;
    AllRecordsNeedAllBytes(crc, LogOf(ws), |log|);
    hide LogBytes, LogOf, ReplaySpec, Truth;
    var f := Next(e, Reopen(|ws|));
    forall k ensures Lookup(f, k) == NonEmpty(MapGet(Truth(ws), k)) && Lookup(e, k) == MapGet(Truth(ws), k) {
      RecoversWholeWrites(crc, e, |log|, k);
      InvMeansTruth(e, k);
    }
    RecoversWholeWrites(crc, e, |log|, []);
    if !NoEmptyValues(ws) {
      var k :| k in Truth(ws) && Truth(ws)[k] == [];
      assert Lookup(f, k) != Lookup(e, k);
    }
  }

  /** What a crash leaves of a log whose writer still held bytes back: all of the writes exactly when nothing was
      pending, and a prefix of them in any case. */
  lemma PendingWritesAreLost(crc: Crc, wal: Log, ws: seq<Write>)
    requires Everything(wal) == LogBytes(crc, LogOf(ws)) && AllLoggable(ws)
    ensures ReplaySpec(crc, wal.file).records == LogOf(ws) <==> wal.pending == []
    ensures var n := WholeRecords(crc, LogOf(ws), |wal.file|);
            && n <= |ws| && ReplaySpec(crc, wal.file).records == LogOf(ws[..n])
            && (n == |ws| <==> wal.pending == [])
  {
    var log := LogBytes(crc, LogOf(ws));
    assert wal.file == log[..|wal.file|] && |log| == |wal.file| + |wal.pending|;
    ReplaysWholeWrites(crc, ws, |wal.file|);
    AllRecordsNeedAllBytes(crc, LogOf(ws), |wal.file|);
    hide LogBytes, WholeRecords, ReplaySpec;
    var n := WholeRecords(crc, LogOf(ws), |wal.file|);
    assert |LogOf(ws[..n])| == n;
    if n == |ws| { assert ws[..n] == ws; }
  }

  /** The log is never truncated, so what is written after reopening goes behind a torn tail. Those writes are replayed
      exactly when the torn bytes and the new ones together start with the new ones alone, and nothing more is read
      behind them. */
  lemma WritesBehindTornTailExact(crc: Crc, rs: seq<LogRecord>, torn: Bytes, later: seq<LogRecord>)
    requires (forall r | r in rs :: Loggable(r)) && forall r | r in later :: Loggable(r)
    ensures var l := LogBytes(crc, later);
            ReplaySpec(crc, LogBytes(crc, rs) + torn + l).records == rs + later <==>
              l <= torn + l && !ReadOne(crc, (torn + l)[|l|..]).Good?
  {
    var l := LogBytes(crc, later);
    assert LogBytes(crc, rs) + torn + l == LogBytes(crc, rs) + (torn + l);
    ReplayDirtyTail(crc, rs, torn + l);
    RecordsExact(crc, torn + l, later);
    var tail := ReplaySpec(crc, torn + l).records;
    assert rs + tail == rs + later <==> tail == later by {
      if rs + tail == rs + later { assert (rs + tail)[|rs|..] == tail && (rs + later)[|rs|..] == later; }
    }
  }

  /** A record torn behind its header, and later writes that together are shorter than what is missing of it: the reader
      takes them for the rest of that record, and all of them are lost. */
  lemma WritesBehindTornTailAreLost(crc: Crc, rs: seq<LogRecord>, r: LogRecord, cut: nat, later: seq<LogRecord>)
    requires (forall x | x in rs :: Loggable(x)) && Loggable(r)
    requires 10 <= cut && cut + |LogBytes(crc, later)| < |Serialize(crc, r)|
    ensures ReplaySpec(crc, LogBytes(crc, rs) + Serialize(crc, r)[..cut] + LogBytes(crc, later)) == Replayed(rs, 1)
  {
    hide Serialize, LogBytes, ReadOne, ReplaySpec;
    var log, torn, l := LogBytes(crc, rs), Serialize(crc, r)[..cut], LogBytes(crc, later);
    TornHeader(crc, r, cut, l);
    ReplayDirtyTail(crc, rs, torn + l);
    TornTurn(crc, torn + l);
    assert log + torn + l == log + (torn + l);
    assert rs + [] == rs;
  }

  lemma TornHeader(crc: Crc, r: LogRecord, cut: nat, l: Bytes)
    requires Loggable(r) && 10 <= cut && cut + |l| < |Serialize(crc, r)|
    ensures ReadOne(crc, Serialize(crc, r)[..cut] + l).Bad?
  {
    hide Serialize, ReadOne;
    var whole := Serialize(crc, r);
    assert (whole[..cut] + l)[..10] == whole[..10];
    HeaderDecides(crc, r, whole[..cut] + l);
  }

  /** Bytes that start with a record's header but are shorter than the record are a corruption. */
  lemma HeaderDecides(crc: Crc, r: LogRecord, d: Bytes)
    requires Loggable(r) && 10 <= |d| < |Serialize(crc, r)| && d[..10] == Serialize(crc, r)[..10]
    ensures ReadOne(crc, d).Bad?
  {
    hide Serialize, Get16, Get32;
    var whole := Serialize(crc, r);
    LengthFields(crc, r, []);
    assert whole + [] == whole;
    FieldsOfPrefix(d, whole);
  }

  // ---------------------------------------------------------------- rebuilding the trie

  ghost function LivePart(b: Buffer): map<Bytes, Bytes> {
    map k | k in b && b[k].Some? :: b[k].value
  }

  /** The live bindings among the first `n` keys of a list. */
  ghost function LiveAmong(b: Buffer, ks: seq<Bytes>, n: nat): map<Bytes, Bytes>
    requires n <= |ks| && forall k | k in ks :: k in b
  {
    if n == 0 then map[]
    else
      var m, k := LiveAmong(b, ks, n - 1), ks[n - 1];
      if b[k].Some? then m[k := b[k].value] else m
  }

  lemma {:induction false} LiveAmongGet(b: Buffer, ks: seq<Bytes>, n: nat, k: Bytes)
    requires n <= |ks| && forall k | k in ks :: k in b
    ensures k in LiveAmong(b, ks, n) ==> k in b && b[k] == Some(LiveAmong(b, ks, n)[k])
    ensures (exists i :: 0 <= i < n && ks[i] == k) && b[k].Some? ==> k in LiveAmong(b, ks, n)
  {
    if n > 0 { LiveAmongGet(b, ks, n - 1, k); }
  }

  lemma LiveAmongAll(b: Buffer, ks: seq<Bytes>)
    requires forall k :: k in ks <==> k in b
    ensures LiveAmong(b, ks, |ks|) == LivePart(b)
  {
    forall k ensures MapGet(LiveAmong(b, ks, |ks|), k) == MapGet(LivePart(b), k) {
      LiveAmongGet(b, ks, |ks|, k);
      if k in b {
        assert k in ks;
        assert exists i :: 0 <= i < |ks| && ks[i] == k;
      }
    }
    Hamt.SameMap(LiveAmong(b, ks, |ks|), LivePart(b));
  }

  /** One entry into the trie; deletions are skipped. */
  method PutEntry(h: Hamt.Hash, ghost keys: set<Bytes>, t: Hamt.Trie, k: Bytes, v: Option<Bytes>) returns (r: Hamt.Trie)
    requires Hamt.WellFormed(h, keys, t) && (v.Some? ==> k in keys)
    ensures Hamt.WellFormed(h, keys, r)
    ensures Hamt.Contents(r) == if v.Some? then Hamt.Contents(t)[k := v.value] else Hamt.Contents(t)
  {
    r := if v.Some? then Hamt.Put(h, keys, t, k, v.value) else t;
  }

  lemma EmptyTrie(h: Hamt.Hash, keys: set<Bytes>)
    requires Hamt.NoCollisions(h, keys)
    ensures Hamt.WellFormed(h, keys, Hamt.Empty()) && Hamt.Contents(Hamt.Empty()) == map[]
  {
    assert Hamt.Entries(Hamt.Empty()) == [];
  }

  /** The loop of `open` that rebuilds the trie from the replayed memtable. */
  method RebuildState(h: Hamt.Hash, ghost keys: set<Bytes>, b: Buffer) returns (t: Hamt.Trie)
    requires Hamt.NoCollisions(h, keys) && b.Keys <= keys
    ensures Hamt.WellFormed(h, keys, t) && Hamt.Contents(t) == LivePart(b)
  {
    hide Hamt.WellFormed, Hamt.Contents, Hamt.NoCollisions, Ascending, LivePart;
    var ks := SortKeys(b.Keys);
    EmptyTrie(h, keys);
    t := Hamt.Empty();
    for i := 0 to |ks|
      invariant Hamt.WellFormed(h, keys, t)
      invariant Hamt.Contents(t) == LiveAmong(b, ks, i)
    {
      assert ks[i] in ks;
      t := PutEntry(h, keys, t, ks[i], b[ks[i]]);
    }
    LiveAmongAll(b, ks);
  }

  /** The replay loop of `open`: records into the memtable, then the threshold test, then the trie. The returned
      page, if any, is what gets submitted to the compactor. */
  method ReplayInto(h: Hamt.Hash, ghost keys: set<Bytes>, rs: seq<LogRecord>, threshold: nat)
      returns (memtable: Memtable, page: Option<Page>, t: Hamt.Trie)
    requires Hamt.NoCollisions(h, keys) && forall r | r in rs :: r.key in keys
    ensures fresh(memtable) && memtable.Valid() && memtable.threshold == threshold && Hamt.WellFormed(h, keys, t)
    ensures BufferSize(ReplayedBuffer(rs)) < threshold ==>
              page.None? && memtable.buffered == ReplayedBuffer(rs) && Hamt.Contents(t) == LivePart(ReplayedBuffer(rs))
    ensures BufferSize(ReplayedBuffer(rs)) >= threshold ==>
              page.Some? && IsPageOf(page.value, ReplayedBuffer(rs)) && memtable.buffered == map[]
                  && Hamt.Contents(t) == map[]
  {
    hide BufferSize;
    memtable := new Memtable(threshold);
    for i := 0 to |rs|
      invariant fresh(memtable) && memtable.Valid() && memtable.threshold == threshold
      invariant memtable.buffered == ReplayedBuffer(rs[..i])
      invariant memtable.buffered.Keys <= keys
    {
      assert rs[i] in rs;
      assert rs[..i + 1][..i] == rs[..i];
      if rs[i].value == [] {
        var _ := memtable.Delete(rs[i].key);
      } else {
        var _ := memtable.Put(rs[i].key, rs[i].value);
      }
    }
    assert rs[..|rs|] == rs;
    page := None;
    var full := memtable.ShouldFlush();
    if full {
      var drained := memtable.Drain();
      var p := DrainedPage(drained);
      page := Some(p);
    }
    t := RebuildState(h, keys, Values(memtable.entries));
    assert LivePart(map[]) == map[];
  }

  /** `frozen_to_page`: the drained entries, deletions as tombstones, in key order. */
  method DrainedPage(entries: map<Bytes, MemEntry>) returns (p: Page)
    ensures IsPageOf(p, Values(entries))
  {
    var ks := SortKeys(entries.Keys);
    p := [];
    for i := 0 to |ks|
      invariant |p| == i
      invariant forall j | 0 <= j < i :: p[j] == RecordOf(ks[j], entries[ks[j]].value)
    {
      assert ks[i] in ks;
      p := p + [RecordOf(ks[i], entries[ks[i]].value)];
    }
    forall k ensures Ask(p, k) == BufferAnswer(Values(entries), k) {
      AskMisses(p, k);
      if k in entries {
        var i :| 0 <= i < |ks| && ks[i] == k;
        AskSorted(p, i);
      } else {
        forall j | 0 <= j < |p| ensures p[j].key != k { assert ks[j] in ks; }
      }
    }
  }

  function RecordOf(k: Bytes, v: Option<Bytes>): Record {
    Record(k, if v.Some? then v.value else [], v.None?)
  }

  /** Exactly when reopening rebuilds the trie: when the replayed memtable stays below the flush threshold and no key
      holds an empty value, or when there was nothing live to rebuild. */
  lemma StateRebuiltExact(ws: seq<Write>, threshold: nat, rebuilt: map<Bytes, Bytes>)
    requires rebuilt == if BufferSize(ReopenedBuffer(ws)) < threshold then LivePart(ReopenedBuffer(ws)) else map[]
    ensures rebuilt == Truth(ws) <==>
              if BufferSize(ReopenedBuffer(ws)) < threshold then NoEmptyValues(ws) else Truth(ws) == map[]
  {
    hide BufferSize;
    var b := ReopenedBuffer(ws);
    forall k ensures MapGet(LivePart(b), k) == NonEmpty(MapGet(Truth(ws), k)) {
      ReopenedBufferIsTruth(ws, k);
      if !Written(ws, k) { UnwrittenIsAbsent(ws, k); }
    }
    if NoEmptyValues(ws) {
      Hamt.SameMap(LivePart(b), Truth(ws));
    } else {
      var k :| k in Truth(ws) && Truth(ws)[k] == [];
      assert MapGet(LivePart(b), k) == None;
    }
  }

  /** One write of nine bytes with the threshold at nine: the key is in a page after reopening, and not in the trie. */
  lemma FullReplayEmptiesTrie(k: Bytes, v: Bytes, rebuilt: map<Bytes, Bytes>)
    requires |k| + |v| >= 1 && v != []
    requires var ws := [Write(k, Some(v))];
             rebuilt == if BufferSize(ReopenedBuffer(ws)) < 9 then LivePart(ReopenedBuffer(ws)) else map[]
    ensures rebuilt == map[] && Truth([Write(k, Some(v))]) == map[k := v]
  {
    var w := Write(k, Some(v));
    var b := ReopenedBuffer([w]);
    assert [w][..0] == [] && b == map[k := Some(v)];
    BufferSizeSplit(b, k);
    assert Truth([w][..0]) == map[];
  }
}
