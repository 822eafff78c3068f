/** The three compaction levels as one newest-wins map: when merging preserves what a key reads, exactly when it
    does not, and why range scans and point reads agree. */
module Compaction {
  import opened Common
  import opened Lex
  import opened Pages

  const L0_LIMIT: nat := 4
  const L1_SIZE_LIMIT: nat := 64 * 1024

  /** L0 holds pages in flush order, so its last page is the newest. */
  datatype Levels = Levels(l0: seq<Page>, l1: seq<Page>, l2: seq<Page>)

  function NewestFirst(lv: Levels): seq<Page> {
    Reverse(lv.l0) + Reverse(lv.l1) + Reverse(lv.l2)
  }

  function AnswerOf(lv: Levels, key: Bytes): Answer {
    First(NewestFirst(lv), key)
  }

  /** The value a read sees. */
  function View(lv: Levels, key: Bytes): Option<Bytes> {
    Visible(AnswerOf(lv, key))
  }

  ghost predicate LevelsSorted(lv: Levels) {
    AllSorted(lv.l0) && AllSorted(lv.l1) && AllSorted(lv.l2)
  }

  lemma AnswerByLevel(lv: Levels, key: Bytes)
    ensures AnswerOf(lv, key) ==
            var a0, a1, a2 := First(Reverse(lv.l0), key), First(Reverse(lv.l1), key), First(Reverse(lv.l2), key);
            if !a0.Silent? then a0 else if !a1.Silent? then a1 else a2
  {
    FirstConcat(Reverse(lv.l0) + Reverse(lv.l1), Reverse(lv.l2), key);
    FirstConcat(Reverse(lv.l0), Reverse(lv.l1), key);
  }

  // ---------------------------------------------------------------- merging

  function Dropping(a: Answer, drop: bool): Answer {
    if drop && a.Deleted? then Silent else a
  }

  /** A sorted page that answers for the list, its first page winning; tombstones may be dropped. */
  ghost predicate IsMerge(m: Page, pages: seq<Page>, drop: bool) {
    Sorted(m) && forall k :: Ask(m, k) == Dropping(First(pages, k), drop)
  }

  ghost predicate Collects(latest: map<Bytes, Record>, pages: seq<Page>) {
    && (forall k | k in latest :: latest[k].key == k)
    && (forall k :: (if k in latest then Says(latest[k]) else Silent) == First(pages, k))
  }

  lemma CollectsNextPage(latest: map<Bytes, Record>, was: map<Bytes, Record>, pages: seq<Page>, p: Page)
    requires Collects(was, pages)
    requires forall k | k in latest :: latest[k].key == k
    requires forall k | k in was :: k in latest && latest[k] == was[k]
    requires forall k | k !in was :: (if k in latest then Says(latest[k]) else Silent) == Ask(p, k)
    ensures Collects(latest, pages + [p])
  {
    forall k ensures (if k in latest then Says(latest[k]) else Silent) == First(pages + [p], k) {
      FirstConcat(pages, [p], k);
      assert [p][1..] == [];
    }
  }

  /** The nested loop of `merge_pages` that keeps the first record per key. */
  method CollectLatest(pages: seq<Page>) returns (latest: map<Bytes, Record>)
    ensures Collects(latest, pages)
  {
    latest := map[];
    for i := 0 to |pages|
      invariant Collects(latest, pages[..i])
    {
      ghost var was := latest;
      var p := pages[i];
      for j := 0 to |p|
        invariant forall k | k in latest :: latest[k].key == k
        invariant forall k | k in was :: k in latest && latest[k] == was[k]
        invariant forall k | k !in was ::
          k in latest ==> Says(latest[k]) == Ask(p, k) && exists l :: 0 <= l < j && p[l].key == k
        invariant forall l | 0 <= l < j :: p[l].key in latest
      {
        if p[j].key !in latest {
          AskFinds(p, j, p[j].key);
          latest := latest[p[j].key := p[j]];
        }
      }
      forall k | k !in was ensures (if k in latest then Says(latest[k]) else Silent) == Ask(p, k) {
        AskMisses(p, k);
      }
      CollectsNextPage(latest, was, pages[..i], p);
      assert pages[..i + 1] == pages[..i] + [p];
    }
    assert pages[..|pages|] == pages;
  }

  /** `merge_pages` */
  method MergePages(pages: seq<Page>, drop: bool) returns (merged: Page)
    ensures IsMerge(merged, pages, drop)
  {
    var latest := CollectLatest(pages);
    var keys := SortKeys(latest.Keys);
    merged := [];
    for i := 0 to |keys|
      invariant Sorted(merged)
      invariant forall r | r in merged :: r.key in latest && latest[r.key] == r && !(drop && r.tombstone)
      invariant forall r | r in merged :: exists j :: 0 <= j < i && keys[j] == r.key
      invariant forall j | 0 <= j < i :: (drop && latest[keys[j]].tombstone) || latest[keys[j]] in merged
    {
      assert keys[i] in keys;
      var rec := latest[keys[i]];
      if !(drop && rec.tombstone) {
        forall r | r in merged ensures Less(r.key, rec.key) { }
        merged := merged + [rec];
      }
    }
    forall k ensures Ask(merged, k) == Dropping(First(pages, k), drop) {
      MergedAnswer(merged, latest, pages, drop, k);
    }
  }

  lemma MergedAnswer(merged: Page, latest: map<Bytes, Record>, pages: seq<Page>, drop: bool, k: Bytes)
    requires Collects(latest, pages) && Sorted(merged)
    requires forall r | r in merged :: r.key in latest && latest[r.key] == r && !(drop && r.tombstone)
    requires k in latest ==> (drop && latest[k].tombstone) || latest[k] in merged
    ensures Ask(merged, k) == Dropping(First(pages, k), drop)
  {
    AskMisses(merged, k);
    if k in latest && !(drop && latest[k].tombstone) {
      var i :| 0 <= i < |merged| && merged[i] == latest[k];
      AskSorted(merged, i);
    } else {
      forall j | 0 <= j < |merged| ensures merged[j].key != k { assert merged[j] in merged; }
    }
  }

  // ---------------------------------------------------------------- one page added

  /** `lv2` is a possible outcome of `add_l0_page(p)`: with L0 full, everything above L2 is merged into L1, the L0
      pages passed in flush order; the result may be promoted to L2, where tombstones go. */
  ghost predicate PageAdded(lv: Levels, p: Page, lv2: Levels) {
    if |lv.l0| + 1 < L0_LIMIT then lv2 == lv.(l0 := lv.l0 + [p])
    else
      || (exists m :: IsMerge(m, lv.l0 + [p] + lv.l1, false) && lv2 == Levels([], [m], lv.l2))
      || (exists m, m2 ::
            && IsMerge(m, lv.l0 + [p] + lv.l1, false) && IsMerge(m2, [m] + lv.l2, true)
            && lv2 == Levels([], [], [m2]))
  }

  /** Which of the outcomes it is: the merged page goes on to L2 exactly when its size is over the limit. */
  ghost predicate PromotedBySize(sizeOf: Page -> nat, lv: Levels, p: Page, lv2: Levels) {
    |lv.l0| + 1 >= L0_LIMIT ==>
      exists m ::
        && IsMerge(m, lv.l0 + [p] + lv.l1, false)
        && if sizeOf(m) <= L1_SIZE_LIMIT then lv2 == Levels([], [m], lv.l2)
           else exists m2 :: IsMerge(m2, [m] + lv.l2, true) && lv2 == Levels([], [], [m2])
  }

  /** The levels below L0 hold at most one page each, as compaction leaves them. */
  ghost predicate Compacted(lv: Levels) {
    |lv.l1| <= 1 && |lv.l2| <= 1
  }

  ghost predicate NoTombstones(p: Page) { forall i | 0 <= i < |p| :: !p[i].tombstone }

  /** The shape compaction maintains: L0 below its limit, at most one page in L1 and that within its size, at most one
      in L2 and that without tombstones. */
  ghost predicate Tidy(sizeOf: Page -> nat, lv: Levels) {
    && |lv.l0| < L0_LIMIT && Compacted(lv)
    && (forall i | 0 <= i < |lv.l1| :: sizeOf(lv.l1[i]) <= L1_SIZE_LIMIT)
    && (forall i | 0 <= i < |lv.l2| :: NoTombstones(lv.l2[i]))
  }

  lemma MergeDropsTombstones(m: Page, pages: seq<Page>)
    requires IsMerge(m, pages, true)
    ensures NoTombstones(m)
  {
    forall i | 0 <= i < |m| ensures !m[i].tombstone { AskSorted(m, i); }
  }

  /** Every added page leaves the levels in shape. */
  lemma AddKeepsTidy(sizeOf: Page -> nat, lv: Levels, p: Page, lv2: Levels)
    requires Tidy(sizeOf, lv) && PageAdded(lv, p, lv2) && PromotedBySize(sizeOf, lv, p, lv2)
    ensures Tidy(sizeOf, lv2)
  {
    hide IsMerge;
    if |lv.l0| + 1 >= L0_LIMIT {
      var m :| && IsMerge(m, lv.l0 + [p] + lv.l1, false)
               && if sizeOf(m) <= L1_SIZE_LIMIT then lv2 == Levels([], [m], lv.l2)
                  else exists m2 :: IsMerge(m2, [m] + lv.l2, true) && lv2 == Levels([], [], [m2]);
      if sizeOf(m) > L1_SIZE_LIMIT {
        var m2 :| IsMerge(m2, [m] + lv.l2, true) && lv2 == Levels([], [], [m2]);
        MergeDropsTombstones(m2, [m] + lv.l2);
      }
    }
  }

  /** The oldest and the newest of the pages that hold the key agree on what a read sees. */
  ghost predicate OldestAgreesWithNewest(flushOrder: seq<Page>, key: Bytes) {
    Visible(First(flushOrder, key)) == Visible(First(Reverse(flushOrder), key))
  }

  /** What a read should see after `p` is added on top. */
  function Overlaid(lv: Levels, p: Page, key: Bytes): Option<Bytes> {
    if Ask(p, key).Silent? then View(lv, key) else Visible(Ask(p, key))
  }

  lemma AnswerOfOne(m: Page, key: Bytes)
    ensures First([m], key) == Ask(m, key) && Reverse([m]) == [m]
  {
    assert [m][1..] == [] && [m][..0] == [];
  }

  lemma SmallReverse(ps: seq<Page>)
    requires |ps| <= 1
    ensures Reverse(ps) == ps
  {
  }

  /** Dropping tombstones at L2 changes no read: nothing older is left for them to hide. */
  lemma PromotionKeepsView(m: Page, l2: seq<Page>, m2: Page, key: Bytes)
    requires |l2| <= 1 && IsMerge(m2, [m] + l2, true)
    ensures View(Levels([], [], [m2]), key) == View(Levels([], [m], l2), key)
  {
    AnswerByLevel(Levels([], [], [m2]), key);
    AnswerByLevel(Levels([], [m], l2), key);
    AnswerOfOne(m2, key);
    AnswerOfOne(m, key);
    SmallReverse(l2);
    FirstConcat([m], l2, key);
  }

  /** Merging L0 and L1, tombstones kept so that older L2 values stay hidden. */
  lemma MergeView(lv: Levels, flushed: seq<Page>, m: Page, key: Bytes)
    requires Compacted(lv) && IsMerge(m, flushed + lv.l1, false)
    ensures View(Levels([], [m], lv.l2), key) ==
            if First(flushed, key).Silent? then View(lv.(l0 := []), key) else Visible(First(flushed, key))
  {
    AnswerByLevel(Levels([], [m], lv.l2), key);
    AnswerByLevel(lv.(l0 := []), key);
    AnswerOfOne(m, key);
    SmallReverse(lv.l1);
    FirstConcat(flushed, lv.l1, key);
  }

  /** Exactly when adding a page gives the overlaid view: always while L0 has room; and when L0 is merged, if and
      only if the oldest and newest L0 page holding the key agree on it. */
  lemma AddPageExact(lv: Levels, p: Page, lv2: Levels, key: Bytes)
    requires Compacted(lv) && PageAdded(lv, p, lv2)
    ensures View(lv2, key) == Overlaid(lv, p, key) <==>
              |lv.l0| + 1 < L0_LIMIT || OldestAgreesWithNewest(lv.l0 + [p], key)
    ensures Compacted(lv2)
  {
    var flushed := lv.l0 + [p];
    AnswerByLevel(lv, key);
    AnswerByLevel(lv.(l0 := []), key);
    AnswerByLevel(lv.(l0 := flushed), key);
    ReverseSnoc(lv.l0, p);
    FirstConcat([p], Reverse(lv.l0), key);
    AnswerOfOne(p, key);
    ReverseHolds(flushed, key);
    if |lv.l0| + 1 >= L0_LIMIT {
      if lv2.l1 != [] {
        var m :| IsMerge(m, flushed + lv.l1, false) && lv2 == Levels([], [m], lv.l2);
        MergeView(lv, flushed, m, key);
      } else {
        var m, m2 :| IsMerge(m, flushed + lv.l1, false) && IsMerge(m2, [m] + lv.l2, true)
            && lv2 == Levels([], [], [m2]);
        MergeView(lv, flushed, m, key);
        PromotionKeepsView(m, lv.l2, m2, key);
      }
    }
  }

  /** In particular, pages that share no key merge safely. */
  lemma UnsharedPagesMergeSafely(lv: Levels, p: Page, lv2: Levels, key: Bytes)
    requires Compacted(lv) && PageAdded(lv, p, lv2)
    requires forall i, j | 0 <= i < j < |lv.l0| + 1 ::
      Ask((lv.l0 + [p])[i], key).Silent? || Ask((lv.l0 + [p])[j], key).Silent?
    ensures View(lv2, key) == Overlaid(lv, p, key)
  {
    UnsharedKeyOrderFree(lv.l0 + [p], key);
    AddPageExact(lv, p, lv2, key);
  }

  /** Why the condition is needed: four flushes of one key with different values, and the merge resurrects the
      oldest value. */
  lemma MergeResurrectsOldest(key: Bytes, lv2: Levels)
    requires PageAdded(
               Levels([[Record(key, [1], false)], [Record(key, [2], false)], [Record(key, [3], false)]], [], []),
               [Record(key, [4], false)], lv2)
    ensures View(lv2, key) == Some([1])
  {
    var l0: seq<Page> := [[Record(key, [1], false)], [Record(key, [2], false)], [Record(key, [3], false)]];
    var p: Page := [Record(key, [4], false)];
    var flushed := l0 + [p];
    assert First(flushed, key) == Live([1]) by { assert flushed[0] == l0[0]; }
    if lv2.l1 != [] {
      var m :| IsMerge(m, flushed + [], false) && lv2 == Levels([], [m], []);
      MergeView(Levels(l0, [], []), flushed, m, key);
    } else {
      var m, m2 :| IsMerge(m, flushed + [], false) && IsMerge(m2, [m] + [], true) && lv2 == Levels([], [], [m2]);
      MergeView(Levels(l0, [], []), flushed, m, key);
      PromotionKeepsView(m, [], m2, key);
    }
  }

  // ---------------------------------------------------------------- scans

  predicate Between(start: Bytes, k: Bytes, end: Bytes) {
    !Less(k, start) && Less(k, end)
  }

  function Applied(a: Answer, was: Option<Bytes>): Option<Bytes> {
    if a.Silent? then was else Visible(a)
  }

  /** The effect of one page on the merged tree: later records overwrite, tombstones remove. */
  method ScanPage(p: Page, start: Bytes, end: Bytes, merged0: map<Bytes, Bytes>) returns (merged: map<Bytes, Bytes>)
    requires Sorted(p)
    ensures forall k :: MapGet(merged, k) ==
                        if Between(start, k, end) then Applied(Ask(p, k), MapGet(merged0, k)) else MapGet(merged0, k)
  {
    merged := merged0;
    var lo, hi := Range(p, start, end);
    for i := lo to hi
      invariant forall j | lo <= j < i :: MapGet(merged, p[j].key) == Visible(Says(p[j]))
      invariant forall k | (forall j | lo <= j < i :: p[j].key != k) :: MapGet(merged, k) == MapGet(merged0, k)
    {
      forall j | lo <= j < i ensures p[j].key != p[i].key { Irreflexive(p[i].key); }
      if p[i].tombstone {
        merged := merged - {p[i].key};
      } else {
        merged := merged[p[i].key := p[i].value];
      }
    }
    forall k ensures MapGet(merged, k) ==
                     if Between(start, k, end) then Applied(Ask(p, k), MapGet(merged0, k)) else MapGet(merged0, k)
    {
      AskMisses(p, k);
      if j :| 0 <= j < |p| && p[j].key == k {
        AskSorted(p, j);
        if !(lo <= j < hi) {
          forall i | lo <= i < hi ensures p[i].key != k { Irreflexive(k); }
        }
      }
    }
  }

  method ScanLevel(pages: seq<Page>, start: Bytes, end: Bytes, merged0: map<Bytes, Bytes>)
      returns (merged: map<Bytes, Bytes>)
    requires AllSorted(pages)
    ensures forall k :: MapGet(merged, k) ==
                        if Between(start, k, end) then Applied(First(Reverse(pages), k), MapGet(merged0, k))
                        else MapGet(merged0, k)
  {
    merged := merged0;
    for i := 0 to |pages|
      invariant forall k :: MapGet(merged, k) ==
                            if Between(start, k, end) then Applied(First(Reverse(pages[..i]), k), MapGet(merged0, k))
                            else MapGet(merged0, k)
    {
      ghost var was := merged;
      merged := ScanPage(pages[i], start, end, merged);
      forall k ensures MapGet(merged, k) ==
                       if Between(start, k, end) then Applied(First(Reverse(pages[..i + 1]), k), MapGet(merged0, k))
                       else MapGet(merged0, k)
      {
        assert pages[..i + 1] == pages[..i] + [pages[i]];
        ReverseSnoc(pages[..i], pages[i]);
        FirstConcat([pages[i]], Reverse(pages[..i]), k);
        AnswerOfOne(pages[i], k);
        assert MapGet(was, k) ==
               if Between(start, k, end) then Applied(First(Reverse(pages[..i]), k), MapGet(merged0, k))
               else MapGet(merged0, k);
      }
    }
    assert pages[..|pages|] == pages;
  }

  // ---------------------------------------------------------------- the manager

  class CompactionManager {
    var l0: seq<Page>
    var l1: seq<Page>
    var l2: seq<Page>
    var compactions: nat
    /** Serialized size of a page, which decides promotion. */
    const sizeOf: Page -> nat

    ghost function Contents(): Levels reads this { Levels(l0, l1, l2) }

    ghost predicate Valid() reads this { LevelsSorted(Contents()) }

    constructor (sizeOf: Page -> nat)
      ensures Valid() && Contents() == Levels([], [], []) && Tidy(sizeOf, Contents())
    {
      l0, l1, l2, compactions := [], [], [], 0;
      this.sizeOf := sizeOf;
    }

    /** `load_pages` for all levels, on startup. */
    constructor Loaded(sizeOf: Page -> nat, lv: Levels)
      requires LevelsSorted(lv)
      ensures Valid() && Contents() == lv
    {
      l0, l1, l2, compactions := lv.l0, lv.l1, lv.l2, 0;
      this.sizeOf := sizeOf;
    }

    method AddL0Page(p: Page)
      requires Valid() && Sorted(p)
      modifies this
      ensures Valid() && PageAdded(old(Contents()), p, Contents())
          && PromotedBySize(sizeOf, old(Contents()), p, Contents())
      ensures |l0| < L0_LIMIT && (old(Tidy(sizeOf, Contents())) ==> Tidy(sizeOf, Contents()))
    {
      l0 := l0 + [p];
      if |l0| >= L0_LIMIT { CompactL0(old(Contents()), p); }
      if old(Tidy(sizeOf, Contents())) { AddKeepsTidy(sizeOf, old(Contents()), p, Contents()); }
    }

    method CompactL0(ghost before: Levels, ghost p: Page)
      requires Valid() && l0 == before.l0 + [p] && l1 == before.l1 && l2 == before.l2 && |l0| >= L0_LIMIT
      modifies this
      ensures Valid() && PageAdded(before, p, Contents()) && PromotedBySize(sizeOf, before, p, Contents()) && l0 == []
    {
      var m := MergePages(l0 + l1, false);
      l0, l1 := [], [m];
      compactions := compactions + 1;
      if sizeOf(m) > L1_SIZE_LIMIT {
        var m2 := MergePages(l1 + l2, true);
        l1, l2 := [], [m2];
        compactions := compactions + 1;
      }
    }

    /** The newest-to-oldest walk of `get`, stopping at the first page that holds the key. */
    method Get(key: Bytes) returns (r: Option<Bytes>)
      requires Valid()
      ensures r == View(Contents(), key)
    {
      AnswerByLevel(Contents(), key);
      var a := ProbeDown(l0, key);
      if a.Silent? { a := ProbeDown(l1, key); }
      if a.Silent? { a := ProbeDown(l2, key); }
      return Visible(a);
    }

    static method ProbeDown(pages: seq<Page>, key: Bytes) returns (a: Answer)
      requires AllSorted(pages)
      ensures a == First(Reverse(pages), key)
    {
      var i := |pages|;
      assert pages[..i] == pages;
      while i > 0
        invariant 0 <= i <= |pages|
        invariant First(Reverse(pages[..i]), key) == First(Reverse(pages), key)
      {
        i := i - 1;
        assert pages[..i + 1][..i] == pages[..i];
        FirstConcat([pages[i]], Reverse(pages[..i]), key);
        AnswerOfOne(pages[i], key);
        a := Probe(pages[i], key);
        if !a.Silent? { return; }
      }
      return Silent;
    }

    /** `scan` overlays oldest to newest; it holds a key with a value exactly when the key is in range and `get`
        returns that value. */
    method Scan(start: Bytes, end: Bytes) returns (merged: map<Bytes, Bytes>)
      requires Valid()
      ensures forall k :: MapGet(merged, k) == if Between(start, k, end) then View(Contents(), k) else None
    {
      var m2 := ScanLevel(l2, start, end, map[]);
      var m1 := ScanLevel(l1, start, end, m2);
      merged := ScanLevel(l0, start, end, m1);
      forall k ensures MapGet(merged, k) == if Between(start, k, end) then View(Contents(), k) else None {
        AnswerByLevel(Contents(), k);
        assert MapGet(m1, k) ==
               if Between(start, k, end) then Applied(First(Reverse(l1), k), MapGet(m2, k)) else MapGet(m2, k);
        assert MapGet(m2, k) == if Between(start, k, end) then Applied(First(Reverse(l2), k), None) else None;
      }
    }
  }
}
