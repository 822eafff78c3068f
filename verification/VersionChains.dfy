/** Version chains of the MVCC store as values: what each store operation does to them, and what garbage
    collection may and may not change. A chain lists versions newest first. */
module VersionChains {
  import opened Common

  type Key = string

  datatype Version<V> = Version(value: V, txnId: nat, commitTs: Option<nat>)

  type Chain<V> = seq<Version<V>>

  /** The store: one non-empty chain per key that has any version, and the last timestamp drawn. */
  datatype Store<V> = Store(chains: map<Key, Chain<V>>, ts: nat)

  predicate StampedBy<V>(v: Version<V>, limit: nat) {
    v.commitTs.Some? && v.commitTs.value <= limit
  }

  function ChainOf<V>(st: Store<V>, k: Key): Chain<V> {
    if k in st.chains then st.chains[k] else []
  }

  ghost predicate NoEmptyChains<V>(st: Store<V>) {
    forall k | k in st.chains :: st.chains[k] != []
  }

  // ---------------------------------------------------------------- reading

  /** The newest version committed at or before `snapshot`. */
  function ReadChain<V>(c: Chain<V>, snapshot: nat): Option<V> {
    if c == [] then None
    else if StampedBy(c[0], snapshot) then Some(c[0].value)
    else ReadChain(c[1..], snapshot)
  }

  function Read<V>(st: Store<V>, k: Key, snapshot: nat): Option<V> {
    ReadChain(ChainOf(st, k), snapshot)
  }

  /** Whether some version was committed after `since`. */
  predicate CommittedSince<V>(c: Chain<V>, since: nat) {
    exists i :: 0 <= i < |c| && c[i].commitTs.Some? && c[i].commitTs.value > since
  }

  // ---------------------------------------------------------------- writing

  function WriteIntent<V>(st: Store<V>, k: Key, value: V, txn: nat): Store<V> {
    st.(chains := st.chains[k := [Version(value, txn, None)] + ChainOf(st, k)])
  }

  /** Only an unstamped version of the same transaction at the head of the chain can be stamped or aborted. */
  predicate HeadIsIntentOf<V>(c: Chain<V>, txn: nat) {
    c != [] && c[0].txnId == txn && c[0].commitTs.None?
  }

  function CommitKey<V>(st: Store<V>, k: Key, txn: nat, ts: nat): Store<V> {
    var c := ChainOf(st, k);
    if HeadIsIntentOf(c, txn) then st.(chains := st.chains[k := c[0 := c[0].(commitTs := Some(ts))]]) else st
  }

  function AbortKey<V>(st: Store<V>, k: Key, txn: nat): Store<V> {
    var c := ChainOf(st, k);
    if !HeadIsIntentOf(c, txn) then st
    else if |c| == 1 then st.(chains := st.chains - {k})
    else st.(chains := st.chains[k := c[1..]])
  }

  // ---------------------------------------------------------------- garbage collection

  /** How much of a chain `gc` keeps: it cuts below the second or later stamped version older than `oldest`.
      `seen` tells whether a stamped version has been passed already. */
  function Kept<V>(c: Chain<V>, seen: bool, oldest: nat): (n: nat)
    ensures n <= |c|
  {
    if c == [] then 0
    else if c[0].commitTs.Some? && seen && c[0].commitTs.value < oldest then 1
    else 1 + Kept(c[1..], seen || c[0].commitTs.Some?, oldest)
  }

  function GcChain<V>(c: Chain<V>, oldest: nat): Chain<V> {
    c[..Kept(c, false, oldest)]
  }

  function Gc<V>(st: Store<V>, oldest: nat): Store<V> {
    st.(chains := map k | k in st.chains :: GcChain(st.chains[k], oldest))
  }

  /** Stamped versions appear in strictly descending timestamp order. */
  ghost predicate Descending<V>(c: Chain<V>) {
    forall i, j | 0 <= i < j < |c| && c[i].commitTs.Some? && c[j].commitTs.Some? ::
      c[i].commitTs.value > c[j].commitTs.value
  }

  /** Where `gc` cuts, a stamped version older than the horizon stays behind. */
  lemma {:induction false} CutBelowOldVersion<V>(c: Chain<V>, seen: bool, oldest: nat)
    ensures var n := Kept(c, seen, oldest);
            n < |c| ==> n > 0 && c[n - 1].commitTs.Some? && c[n - 1].commitTs.value < oldest
    ensures c != [] ==> Kept(c, seen, oldest) > 0
  {
    if c != [] { CutBelowOldVersion(c[1..], seen || c[0].commitTs.Some?, oldest); }
  }

  ghost predicate OldStamp<V>(v: Version<V>, oldest: nat) {
    v.commitTs.Some? && v.commitTs.value < oldest
  }

  ghost predicate HasStamp<V>(c: Chain<V>, n: nat)
    requires n <= |c|
  {
    exists j :: 0 <= j < n && c[j].commitTs.Some?
  }

  /** `g` is what a collection leaves of `c`, said without the walk: a prefix that goes on past a version older than the
      horizon only if that is the first stamped one, and that, when anything is cut off, ends in an older version with
      a stamped one above it. */
  ghost predicate CutAtHorizon<V>(c: Chain<V>, g: Chain<V>, oldest: nat) {
    && g <= c
    && (forall i | 0 <= i && i + 1 < |g| && OldStamp(g[i], oldest) :: !HasStamp(g, i))
    && (|g| < |c| ==> g != [] && OldStamp(g[|g| - 1], oldest) && HasStamp(g, |g| - 1))
  }

  lemma {:induction false} KeptExactly<V>(c: Chain<V>, seen: bool, oldest: nat)
    ensures var n := Kept(c, seen, oldest);
            && (forall i | 0 <= i && i + 1 < n && OldStamp(c[i], oldest) :: !seen && !HasStamp(c, i))
            && (n < |c| ==> n > 0 && OldStamp(c[n - 1], oldest) && (seen || HasStamp(c, n - 1)))
  {
    if c != [] && !(OldStamp(c[0], oldest) && seen) {
      var n, rest, seen' := Kept(c, seen, oldest), c[1..], seen || c[0].commitTs.Some?;
      KeptExactly(rest, seen', oldest);
      forall i | 0 <= i && i + 1 < n && OldStamp(c[i], oldest) ensures !seen && !HasStamp(c, i) {
        if i > 0 {
          assert rest[i - 1] == c[i];
          assert forall j | 1 <= j < i :: c[j] == rest[j - 1];
        }
      }
      if n < |c| {
        assert rest[n - 2] == c[n - 1];
        if HasStamp(rest, n - 2) {
          var j :| 0 <= j < n - 2 && rest[j].commitTs.Some?;
          assert c[j + 1].commitTs.Some?;
        }
      }
    }
  }

  /** A collection cuts exactly at the horizon: no less and no more. */
  lemma GcCutsAtHorizon<V>(c: Chain<V>, oldest: nat)
    ensures CutAtHorizon(c, GcChain(c, oldest), oldest)
  {
    KeptExactly(c, false, oldest);
    var g, n := GcChain(c, oldest), Kept(c, false, oldest);
    assert forall i | 0 <= i < n :: g[i] == c[i];
    if n < |c| {
      var j :| 0 <= j < n - 1 && c[j].commitTs.Some?;
      assert g[j].commitTs.Some?;
    }
  }

  /** There is only one such cut. */
  lemma CutIsUnique<V>(c: Chain<V>, g: Chain<V>, h: Chain<V>, oldest: nat)
    requires CutAtHorizon(c, g, oldest) && CutAtHorizon(c, h, oldest)
    ensures g == h
  {
    LongerIsNoCut(c, g, h, oldest);
    LongerIsNoCut(c, h, g, oldest);
  }

  lemma LongerIsNoCut<V>(c: Chain<V>, g: Chain<V>, h: Chain<V>, oldest: nat)
    ensures CutAtHorizon(c, g, oldest) && h <= c && |g| < |h| ==> !CutAtHorizon(c, h, oldest)
  {
    if CutAtHorizon(c, g, oldest) && h <= c && |g| < |h| {
      var last := |g| - 1;
      var j :| 0 <= j < last && g[j].commitTs.Some?;
      assert h[last] == c[last] == g[last] && h[j] == c[j] == g[j];
      assert HasStamp(h, last);
    }
  }

  /** A prefix that ends in a version visible at `snapshot` answers like the whole chain. */
  lemma {:induction false} ReadNeedsOnlyPrefix<V>(c: Chain<V>, n: nat, snapshot: nat)
    requires n <= |c| && (n == |c| || (n > 0 && StampedBy(c[n - 1], snapshot)))
    ensures ReadChain(c[..n], snapshot) == ReadChain(c, snapshot)
  {
    if n == |c| {
      assert c[..n] == c;
    } else if !StampedBy(c[0], snapshot) {
      ReadNeedsOnlyPrefix(c[1..], n - 1, snapshot);
      assert c[..n][1..] == c[1..][..n - 1];
    }
  }

  /** `gc(oldest)` changes no read at a snapshot at or above its horizon, and no conflict check either. */
  lemma GcPreservesChain<V>(c: Chain<V>, oldest: nat, s: nat)
    requires oldest <= s
    ensures ReadChain(GcChain(c, oldest), s) == ReadChain(c, s)
    ensures Descending(c) ==> Descending(GcChain(c, oldest))
    ensures Descending(c) ==> (CommittedSince(GcChain(c, oldest), s) <==> CommittedSince(c, s))
    ensures c != [] ==> GcChain(c, oldest) != []
  {
    var n := Kept(c, false, oldest);
    CutBelowOldVersion(c, false, oldest);
    ReadNeedsOnlyPrefix(c, n, s);
    if Descending(c) && CommittedSince(c, s) {
      var i :| 0 <= i < |c| && c[i].commitTs.Some? && c[i].commitTs.value > s;
      assert i < n;
      assert GcChain(c, oldest)[i] == c[i];
    }
  }

  lemma GcPreservesReads<V>(st: Store<V>, oldest: nat, k: Key, s: nat)
    requires oldest <= s
    ensures Read(Gc(st, oldest), k, s) == Read(st, k, s)
    ensures Descending(ChainOf(st, k)) ==>
              (CommittedSince(ChainOf(Gc(st, oldest), k), s) <==> CommittedSince(ChainOf(st, k), s))
  {
    GcPreservesChain(ChainOf(st, k), oldest, s);
  }

  /** The horizon is exact: a cut loses the read of every snapshot below the version it stops at, unless that
      snapshot saw nothing. */
  lemma {:induction false} ReadBelowPrefix<V>(c: Chain<V>, n: nat, s: nat)
    requires n <= |c| && Descending(c)
    requires forall i | 0 <= i < n :: !StampedBy(c[i], s)
    ensures ReadChain(c[..n], s) == None && ReadChain(c, s) == ReadChain(c[n..], s)
  {
    if n > 0 {
      assert c[..n][1..] == c[1..][..n - 1] && c[1..][n - 1..] == c[n..];
      ReadBelowPrefix(c[1..], n - 1, s);
    } else {
      assert c[0..] == c;
    }
  }

  /** Exactly which reads a collection keeps: those of snapshots that see a kept version, or saw nothing. */
  lemma GcReadExact<V>(c: Chain<V>, oldest: nat, s: nat)
    requires Descending(c)
    ensures var g := GcChain(c, oldest);
            ReadChain(g, s) == ReadChain(c, s) <==>
              ReadChain(c, s).None? || exists i :: 0 <= i < |g| && StampedBy(g[i], s)
  {
    var n := Kept(c, false, oldest);
    var g := GcChain(c, oldest);
    if exists i :: 0 <= i < |g| && StampedBy(g[i], s) {
      var i :| 0 <= i < |g| && StampedBy(g[i], s);
      ReadNeedsOnlyPrefix(c, i + 1, s);
      ReadNeedsOnlyPrefix(g, i + 1, s);
      assert c[..i + 1] == g[..i + 1];
    } else {
      ReadBelowPrefix(c, n, s);
    }
  }

  // ---------------------------------------------------------------- counting versions

  /** The number of versions over all chains. */
  ghost function VersionTotal<V>(m: map<Key, Chain<V>>): nat
    decreases |m|
  {
    if m == map[] then 0
    else
      var k :| k in m;
      |m[k]| + VersionTotal(m - {k})
  }

  lemma {:induction false} VersionTotalSplit<V>(m: map<Key, Chain<V>>, k: Key)
    requires k in m
    ensures VersionTotal(m) == |m[k]| + VersionTotal(m - {k})
    decreases |m|
  {
    var j :| j in m && VersionTotal(m) == |m[j]| + VersionTotal(m - {j});
    if j != k {
      VersionTotalSplit(m - {j}, k);
      VersionTotalSplit(m - {k}, j);
      assert m - {j} - {k} == m - {k} - {j};
    }
  }
}
