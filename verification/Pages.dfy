/** Sorted pages of records: lookup, range scan, and what a stack of pages answers for a key when newer pages
    hide older ones. */
module Pages {
  import opened Common
  import opened Lex

  datatype Record = Record(key: Bytes, value: Bytes, tombstone: bool)

  type Page = seq<Record>

  ghost predicate Sorted(p: Page) {
    forall i, j | 0 <= i < j < |p| :: Less(p[i].key, p[j].key)
  }

  /** What a page, or a stack of pages, has to say about a key. */
  datatype Answer = Silent | Deleted | Live(value: Bytes)

  function Visible(a: Answer): Option<Bytes> {
    if a.Live? then Some(a.value) else None
  }

  function Says(r: Record): Answer {
    if r.tombstone then Deleted else Live(r.value)
  }

  /** The record for `key`, the first one should a page hold several. */
  function Ask(p: Page, key: Bytes): Answer {
    if p == [] then Silent else if p[0].key == key then Says(p[0]) else Ask(p[1..], key)
  }

  lemma {:induction false} AskFinds(p: Page, i: nat, key: Bytes)
    requires i < |p| && p[i].key == key && forall j | 0 <= j < i :: p[j].key != key
    ensures Ask(p, key) == Says(p[i])
  {
    if i > 0 { AskFinds(p[1..], i - 1, key); }
  }

  lemma {:induction false} AskMisses(p: Page, key: Bytes)
    ensures Ask(p, key).Silent? <==> forall j | 0 <= j < |p| :: p[j].key != key
  {
    if p != [] {
      AskMisses(p[1..], key);
      if Ask(p, key).Silent? {
        forall j | 0 <= j < |p| ensures p[j].key != key { if j > 0 { assert p[j] == p[1..][j - 1]; } }
      }
    }
  }

  /** In a sorted page the record is unique. */
  lemma AskSorted(p: Page, i: nat)
    requires Sorted(p) && i < |p|
    ensures Ask(p, p[i].key) == Says(p[i])
  {
    forall j | 0 <= j < i ensures p[j].key != p[i].key { Irreflexive(p[i].key); }
    AskFinds(p, i, p[i].key);
  }

  // ---------------------------------------------------------------- searching one page

  /** `binary_search_by` on the keys: the position of the key, or where it would be inserted. */
  method BinarySearch(p: Page, key: Bytes) returns (found: bool, idx: nat)
    requires Sorted(p)
    ensures idx <= |p| && (found ==> idx < |p| && p[idx].key == key)
    ensures forall j | 0 <= j < idx :: Less(p[j].key, key)
    ensures forall j | idx <= j < |p| :: !Less(p[j].key, key)
    ensures !found ==> forall j | 0 <= j < |p| :: p[j].key != key
  {
    var lo, hi := 0, |p|;
    while lo < hi
      invariant 0 <= lo <= hi <= |p|
      invariant forall j | 0 <= j < lo :: Less(p[j].key, key)
      invariant forall j | hi <= j < |p| :: Less(key, p[j].key)
    {
      var mid := (lo + hi) / 2;
      Trichotomy(p[mid].key, key);
      if p[mid].key == key {
        forall j | mid <= j < |p| ensures !Less(p[j].key, key) { Trichotomy(p[mid].key, p[j].key); }
        return true, mid;
      } else if Less(p[mid].key, key) {
        forall j | 0 <= j <= mid ensures Less(p[j].key, key) {
          if j < mid { Transitive(p[j].key, p[mid].key, key); }
        }
        lo := mid + 1;
      } else {
        forall j | mid <= j < |p| ensures Less(key, p[j].key) {
          if j > mid { Transitive(key, p[mid].key, p[j].key); }
        }
        hi := mid;
      }
    }
    forall j | 0 <= j < |p| ensures p[j].key != key && (j >= lo ==> !Less(p[j].key, key)) { Trichotomy(p[j].key, key); }
    return false, lo;
  }

  /** What `Page::get` plus the tombstone test that follows it find out about a key. */
  method Probe(p: Page, key: Bytes) returns (a: Answer)
    requires Sorted(p)
    ensures a == Ask(p, key)
  {
    var found, idx := BinarySearch(p, key);
    if found {
      AskSorted(p, idx);
      return Says(p[idx]);
    }
    AskMisses(p, key);
    return Silent;
  }

  /** `Page::range`: the records with start <= key < end, in page order. */
  method Range(p: Page, start: Bytes, end: Bytes) returns (lo: nat, hi: nat)
    requires Sorted(p)
    ensures lo <= hi <= |p|
    ensures forall j | 0 <= j < |p| :: lo <= j < hi <==> !Less(p[j].key, start) && Less(p[j].key, end)
  {
    var _, first := BinarySearch(p, start);
    lo, hi := first, first;
    while hi < |p| && Less(p[hi].key, end)
      invariant lo <= hi <= |p|
      invariant forall j | lo <= j < hi :: Less(p[j].key, end)
    {
      hi := hi + 1;
    }
    forall j | hi <= j < |p| ensures !Less(p[j].key, end) {
      if j > hi && Less(p[j].key, end) { Transitive(p[hi].key, p[j].key, end); assert false; }
    }
  }

  // ---------------------------------------------------------------- stacks of pages, newest first

  ghost predicate AllSorted(ps: seq<Page>) {
    forall i | 0 <= i < |ps| :: Sorted(ps[i])
  }

  /** The answer of the newest page that holds the key. */
  function First(newestFirst: seq<Page>, key: Bytes): Answer {
    if newestFirst == [] then Silent
    else if Ask(newestFirst[0], key).Silent? then First(newestFirst[1..], key)
    else Ask(newestFirst[0], key)
  }

  function Reverse(ps: seq<Page>): seq<Page> {
    if ps == [] then [] else [ps[|ps| - 1]] + Reverse(ps[..|ps| - 1])
  }

  lemma {:induction false} FirstConcat(a: seq<Page>, b: seq<Page>, key: Bytes)
    ensures First(a + b, key) == if First(a, key).Silent? then First(b, key) else First(a, key)
  {
    if a == [] {
      assert a + b == b;
    } else {
      assert (a + b)[1..] == a[1..] + b;
      FirstConcat(a[1..], b, key);
    }
  }

  /** The order of the pages does not matter for whether the key is held at all. */
  lemma {:induction false} FirstSilent(ps: seq<Page>, key: Bytes)
    ensures First(ps, key).Silent? <==> forall i | 0 <= i < |ps| :: Ask(ps[i], key).Silent?
  {
    if ps != [] {
      FirstSilent(ps[1..], key);
      if First(ps, key).Silent? {
        forall i | 0 <= i < |ps| ensures Ask(ps[i], key).Silent? { if i > 0 { assert ps[i] == ps[1..][i - 1]; } }
      }
    }
  }

  lemma {:induction false} ReverseSnoc(ps: seq<Page>, p: Page)
    ensures Reverse(ps + [p]) == [p] + Reverse(ps)
  {
    assert (ps + [p])[..|ps|] == ps;
  }

  lemma {:induction false} ReverseHolds(ps: seq<Page>, key: Bytes)
    ensures First(Reverse(ps), key).Silent? <==> First(ps, key).Silent?
  {
    if ps != [] {
      var init, last := ps[..|ps| - 1], ps[|ps| - 1];
      ReverseHolds(init, key);
      assert ps == init + [last];
      FirstConcat(init, [last], key);
      FirstConcat([last], Reverse(init), key);
      assert [last][1..] == [];
    }
  }

  /** When at most one page holds the key, oldest-first and newest-first give the same answer. */
  lemma {:induction false} UnsharedKeyOrderFree(ps: seq<Page>, key: Bytes)
    requires forall i, j | 0 <= i < j < |ps| :: Ask(ps[i], key).Silent? || Ask(ps[j], key).Silent?
    ensures First(Reverse(ps), key) == First(ps, key)
  {
    if ps != [] {
      var init, last := ps[..|ps| - 1], ps[|ps| - 1];
      UnsharedKeyOrderFree(init, key);
      assert ps == init + [last];
      FirstConcat(init, [last], key);
      FirstConcat([last], Reverse(init), key);
      assert [last][1..] == [];
      FirstSilent(init, key);
    }
  }
}
