/** Whole runs of trie operations, and the operations that walk every binding: listing, merging one trie
    onto another, and comparing a branch with the live state. */
module Branch {
  import opened Common
  import opened Hamt

  // ---------------------------------------------------------------- runs

  datatype Op = PutOp(key: Bytes, value: Bytes) | DeleteOp(key: Bytes)

  ghost predicate KeysIn(ops: seq<Op>, keys: set<Bytes>) {
    forall op | op in ops :: op.key in keys
  }

  /** The trie after a run of operations from empty. */
  function RunTrie(h: Hash, ghost keys: set<Bytes>, ops: seq<Op>): (t: Trie)
    requires NoCollisions(h, keys) && KeysIn(ops, keys)
    ensures WellFormed(h, keys, t)
  {
    if ops == [] then
      assert Entries(Empty()) == [];
      Empty()
    else
      var t := RunTrie(h, keys, ops[..|ops| - 1]);
      match ops[|ops| - 1]
      case PutOp(key, value) => Put(h, keys, t, key, value)
      case DeleteOp(key) => Delete(h, keys, t, key)
  }

  /** The finite map after the same run. */
  ghost function RunMap(ops: seq<Op>): map<Bytes, Bytes> {
    if ops == [] then map[]
    else
      var op := ops[|ops| - 1];
      Assign(RunMap(ops[..|ops| - 1]), op.key, OpValue(op))
  }

  function OpValue(op: Op): Option<Bytes> {
    if op.PutOp? then Some(op.value) else None
  }

  /** Over keys with pairwise distinct hashes, no run of puts and deletes tells the trie from a finite map. */
  lemma {:induction false} TrieIsMap(h: Hash, keys: set<Bytes>, ops: seq<Op>)
    requires NoCollisions(h, keys) && KeysIn(ops, keys)
    ensures Contents(RunTrie(h, keys, ops)) == RunMap(ops)
    ensures RunTrie(h, keys, ops).len == |RunMap(ops)|
    ensures forall k :: Find(h, keys, RunTrie(h, keys, ops), k) == MapGet(RunMap(ops), k)
  {
    if ops == [] {
      assert Entries(Empty()) == [];
    } else {
      TrieIsMap(h, keys, ops[..|ops| - 1]);
    }
  }

  /** Why the hypothesis on hashes is exact: two leaves part at some level the trie can reach if and only if
      their full hashes differ; equal hashes send `insert_node` past its last digit. */
  lemma SeparationIsExact(a: U64, b: U64)
    ensures (exists level: nat :: level <= LAST_LEVEL && BitIndex(a, level) != BitIndex(b, level)) <==> a != b
  {
    if forall level: nat | level <= LAST_LEVEL :: BitIndex(a, level) == BitIndex(b, level) {
      DigitsFrom(a, b, 0);
    }
  }

  // ---------------------------------------------------------------- listing

  /** `collect_leaves`: pushes the bindings of a subtrie onto `out`. */
  method CollectLeaves(n: Node, out: seq<Entry>) returns (r: seq<Entry>)
    ensures r == out + Leaves(n)
    decreases n
  {
    match n
    case Leaf(_, key, value) => r := out + [(key, value)];
    case Branch(_, children) =>
      r := out;
      for i := 0 to |children|
        invariant r + LeavesFrom(children, i) == out + LeavesFrom(children, 0)
      {
        r := CollectLeaves(children[i], r);
      }
  }

  /** `Hamt::iter` lists every binding exactly once. */
  method Iter(h: Hash, ghost keys: set<Bytes>, t: Trie) returns (es: seq<Entry>)
    requires WellFormed(h, keys, t)
    ensures DistinctKeys(es)
    ensures forall k, v :: (k, v) in es <==> k in Contents(t) && Contents(t)[k] == v
    ensures |es| == t.len == |Contents(t)|
    ensures forall e | e in es :: e.0 in keys
    ensures MapOf(es) == Contents(t)
  {
    es := [];
    if t.root.Some? { es := CollectLeaves(t.root.value, es); }
    assert es == Entries(t);
    ContentsAreLookups(h, keys, t, []);
    MapOfDistinct(es);
    forall k, v | (k, v) in es ensures k in keys { ContentsAreLookups(h, keys, t, k); }
  }

  // ---------------------------------------------------------------- merge

  lemma {:induction false} MapOfOverlay(base: map<Bytes, Bytes>, es: seq<Entry>, i: nat)
    requires i < |es|
    ensures (base + MapOf(es[..i]))[es[i].0 := es[i].1] == base + MapOf(es[..i + 1])
  {
    assert es[..i + 1][..i] == es[..i];
  }

  /** `Hamt::merge_from`, also the loop of `branch_merge`: the receiver overlaid by the other trie, so a key
      the other lacks keeps its value. */
  method MergeFrom(h: Hash, ghost keys: set<Bytes>, t: Trie, other: Trie) returns (r: Trie, count: nat)
    requires WellFormed(h, keys, t) && WellFormed(h, keys, other)
    ensures WellFormed(h, keys, r)
    ensures Contents(r) == Contents(t) + Contents(other)
    ensures count == |Contents(other)|
  {
    hide Contents, WellFormed, Put;
    var entries := Iter(h, keys, other);
    count := |entries|;
    r := t;
    assert Contents(t) + MapOf(entries[..0]) == Contents(t);
    for i := 0 to |entries|
      invariant WellFormed(h, keys, r)
      invariant Contents(r) == Contents(t) + MapOf(entries[..i])
    {
      assert entries[i] in entries;
      MapOfOverlay(Contents(t), entries, i);
      r := Put(h, keys, r, entries[i].0, entries[i].1);
    }
    assert entries[..|entries|] == entries;
  }

  // ---------------------------------------------------------------- diff

  datatype Diff = Diff(key: Bytes, live: Option<Bytes>, branch: Option<Bytes>)

  /** `d` reports a key on which the two maps disagree, with both values. */
  ghost predicate Reports(d: Diff, live: map<Bytes, Bytes>, branch: map<Bytes, Bytes>) {
    d.live == MapGet(live, d.key) && d.branch == MapGet(branch, d.key) && d.live != d.branch
  }

  ghost predicate Lists(diffs: seq<Diff>, k: Bytes) {
    exists i :: 0 <= i < |diffs| && diffs[i].key == k
  }

  ghost predicate DistinctDiffs(diffs: seq<Diff>) {
    forall i, j | 0 <= i < j < |diffs| :: diffs[i].key != diffs[j].key
  }

  ghost function KeysOf(es: seq<Entry>): set<Bytes> {
    set e | e in es :: e.0
  }

  lemma NextKey(base: set<Bytes>, es: seq<Entry>, i: nat)
    requires i < |es| && DistinctKeys(es)
    ensures es[i].0 !in KeysOf(es[..i])
    ensures base + KeysOf(es[..i + 1]) == base + KeysOf(es[..i]) + {es[i].0}
  {
    assert es[..i + 1] == es[..i] + [es[i]];
  }

  lemma EntryKeys(m: map<Bytes, Bytes>, es: seq<Entry>)
    requires forall k, v :: (k, v) in es <==> k in m && m[k] == v
    ensures KeysOf(es) == m.Keys
  {
    forall k | k in m ensures k in KeysOf(es) { assert (k, m[k]) in es; }
    forall k | k in KeysOf(es) ensures k in m { var e :| e in es && e.0 == k; assert (k, e.1) in es; }
  }

  /** `diffs` is the answer as far as the keys in `done` are concerned. */
  ghost predicate DiffOver(diffs: seq<Diff>, live: map<Bytes, Bytes>, branch: map<Bytes, Bytes>, done: set<Bytes>) {
    && (forall d | d in diffs :: Reports(d, live, branch))
    && (forall k :: Lists(diffs, k) <==> k in done && MapGet(live, k) != MapGet(branch, k))
    && DistinctDiffs(diffs)
  }

  /** One more key: report it when the maps differ on it, skip it when they agree or it is done already. */
  lemma DiffStep(diffs: seq<Diff>, live: map<Bytes, Bytes>, branch: map<Bytes, Bytes>, done: set<Bytes>, key: Bytes)
    requires DiffOver(diffs, live, branch, done)
    ensures key in done || MapGet(live, key) == MapGet(branch, key) ==> DiffOver(diffs, live, branch, done + {key})
    ensures key !in done && MapGet(live, key) != MapGet(branch, key) ==>
              DiffOver(diffs + [Diff(key, MapGet(live, key), MapGet(branch, key))], live, branch, done + {key})
  {
    var d := Diff(key, MapGet(live, key), MapGet(branch, key));
    var r := diffs + [d];
    forall k ensures Lists(r, k) <==> Lists(diffs, k) || k == key {
      assert r[|diffs|] == d;
      assert forall i | 0 <= i < |diffs| :: r[i] == diffs[i];
    }
    if key !in done {
      assert !Lists(diffs, key);
    }
  }

  lemma NothingDiffed(live: map<Bytes, Bytes>, branch: map<Bytes, Bytes>, es: seq<Entry>)
    ensures DiffOver([], live, branch, {} + KeysOf(es[..0]))
    ensures branch.Keys + KeysOf(es[..0]) == branch.Keys
  {
  }

  lemma AllKeys(m: map<Bytes, Bytes>, es: seq<Entry>, base: set<Bytes>)
    requires forall k, v :: (k, v) in es <==> k in m && m[k] == v
    ensures base + KeysOf(es[..|es|]) == base + m.Keys
  {
    assert es[..|es|] == es;
    EntryKeys(m, es);
  }

  /** The first pass of `branch_diff`, over the branch's bindings. */
  method DiffBranchEntries(h: Hash, ghost keys: set<Bytes>, live: Trie, branch: Trie) returns (diffs: seq<Diff>)
    requires WellFormed(h, keys, live) && WellFormed(h, keys, branch)
    ensures DiffOver(diffs, Contents(live), Contents(branch), Contents(branch).Keys)
  {
    hide Contents, WellFormed;
    ghost var lm, bm := Contents(live), Contents(branch);
    var entries := Iter(h, keys, branch);
    NothingDiffed(lm, bm, entries);
    AllKeys(bm, entries, {});
    assert {} + bm.Keys == bm.Keys;
    hide DiffOver, KeysOf, DistinctKeys;
    diffs := [];
    for i := 0 to |entries|
      invariant DiffOver(diffs, lm, bm, {} + KeysOf(entries[..i]))
    {
      var (key, value) := entries[i];
      assert (key, value) in entries;
      NextKey({}, entries, i);
      DiffStep(diffs, lm, bm, {} + KeysOf(entries[..i]), key);
      var liveVal := Get(h, keys, live, key);
      if liveVal != Some(value) {
        diffs := diffs + [Diff(key, liveVal, Some(value))];
      }
    }
  }

  /** `branch_diff` lists exactly the keys on which live state and branch differ, each once, both values. The
      loop here is its second pass, over live bindings the branch lacks. */
  method BranchDiff(h: Hash, ghost keys: set<Bytes>, live: Trie, branch: Trie) returns (diffs: seq<Diff>)
    requires WellFormed(h, keys, live) && WellFormed(h, keys, branch)
    ensures forall d | d in diffs :: Reports(d, Contents(live), Contents(branch))
    ensures forall k :: Lists(diffs, k) <==> MapGet(Contents(live), k) != MapGet(Contents(branch), k)
    ensures DistinctDiffs(diffs)
  {
    hide Contents, WellFormed;
    ghost var lm, bm := Contents(live), Contents(branch);
    diffs := DiffBranchEntries(h, keys, live, branch);
    var entries := Iter(h, keys, live);
    NothingDiffed(lm, bm, entries);
    AllKeys(lm, entries, bm.Keys);
    hide DiffOver, KeysOf, DistinctKeys;
    for i := 0 to |entries|
      invariant DiffOver(diffs, lm, bm, bm.Keys + KeysOf(entries[..i]))
    {
      var (key, value) := entries[i];
      assert (key, value) in entries;
      NextKey(bm.Keys, entries, i);
      DiffStep(diffs, lm, bm, bm.Keys + KeysOf(entries[..i]), key);
      var branchVal := Get(h, keys, branch, key);
      if branchVal.None? {
        diffs := diffs + [Diff(key, Some(value), None)];
      }
    }
    EveryKeyDiffed(diffs, lm, bm);
  }

  lemma EveryKeyDiffed(diffs: seq<Diff>, live: map<Bytes, Bytes>, branch: map<Bytes, Bytes>)
    requires DiffOver(diffs, live, branch, branch.Keys + live.Keys)
    ensures forall d | d in diffs :: Reports(d, live, branch)
    ensures forall k :: Lists(diffs, k) <==> MapGet(live, k) != MapGet(branch, k)
    ensures DistinctDiffs(diffs)
  {
  }
}
