/** The byte-wise order on keys that pages and memtables are sorted by. */
module Lex {
  import opened Common

  predicate Less(a: Bytes, b: Bytes) {
    b != [] && (a == [] || a[0] < b[0] || (a[0] == b[0] && Less(a[1..], b[1..])))
  }

  /** `b` is greater from place `i` on, where the two part or `a` ends. */
  ghost predicate PartsAt(a: Bytes, b: Bytes, i: nat) {
    i < |b| && i <= |a| && a[..i] == b[..i] && (i < |a| ==> a[i] < b[i])
  }

  /** Bytewise order, as slices are compared: at the first place where the keys differ the smaller byte decides, and a
      proper prefix comes first. */
  lemma {:induction false} LessMeans(a: Bytes, b: Bytes)
    ensures Less(a, b) <==> exists i: nat :: PartsAt(a, b, i)
  {
    if b != [] && (a == [] || a[0] < b[0]) {
      assert PartsAt(a, b, 0);
    } else if a != [] && b != [] && a[0] == b[0] {
      LessMeans(a[1..], b[1..]);
      if i: nat :| PartsAt(a[1..], b[1..], i) {
        assert a[..i + 1] == [a[0]] + a[1..][..i] && b[..i + 1] == [b[0]] + b[1..][..i];
        assert PartsAt(a, b, i + 1);
      }
      if i: nat :| PartsAt(a, b, i) {
        assert i > 0;
        assert a[1..][..i - 1] == a[..i][1..] && b[1..][..i - 1] == b[..i][1..];
        assert PartsAt(a[1..], b[1..], i - 1);
      }
    }
  }

  /** A key with prefix `p` is not below `p`, and it is below every greater key that does not have the prefix. */
  lemma PrefixesLieTogether(p: Bytes, k: Bytes, end: Bytes)
    requires p <= k
    ensures !Less(k, p)
    ensures Less(p, end) && !(p <= end) ==> Less(k, end)
  {
    LessMeans(k, p);
    LessMeans(p, end);
    LessMeans(k, end);
    assert forall i: nat :: !PartsAt(k, p, i);
    if Less(p, end) && !(p <= end) {
      var i: nat :| PartsAt(p, end, i);
      assert i < |p|;
      assert k[..i] == p[..i] && k[i] == p[i];
      assert PartsAt(k, end, i);
    }
  }

  /** The keys from a prefix to its successor, the prefix with its last byte one up, are exactly those that have it. */
  lemma PrefixRangeExact(q: Bytes, b: Byte, k: Bytes)
    requires b < 255
    ensures !Less(k, q + [b]) && Less(k, q + [b + 1]) <==> q + [b] <= k
  {
    var p, end := q + [b], q + [b + 1];
    assert p[..|q|] == q && end[..|q|] == q;
    assert PartsAt(p, end, |q|);
    LessMeans(p, end);
    LessMeans(k, p);
    LessMeans(k, end);
    if p <= k {
      assert end[|q|] != p[|q|];
      PrefixesLieTogether(p, k, end);
    } else if Less(k, end) {
      var i: nat :| PartsAt(k, end, i);
      if i < |q| {
        assert k[..i] == end[..i] == p[..i] && p[i] == end[i];
      } else {
        assert i == |q| && k[..i] == q;
        assert i < |k| ==> k[i] != b;
      }
      assert PartsAt(k, p, i);
    }
  }

  lemma {:induction false} Irreflexive(a: Bytes)
    ensures !Less(a, a)
  {
    if a != [] { Irreflexive(a[1..]); }
  }

  lemma {:induction false} Transitive(a: Bytes, b: Bytes, c: Bytes)
    requires Less(a, b) && Less(b, c)
    ensures Less(a, c)
  {
    if a != [] && a[0] == b[0] == c[0] { Transitive(a[1..], b[1..], c[1..]); }
  }

  lemma {:induction false} Total(a: Bytes, b: Bytes)
    ensures Less(a, b) || a == b || Less(b, a)
  {
    if a != [] && b != [] && a[0] == b[0] {
      Total(a[1..], b[1..]);
      assert a == [a[0]] + a[1..] && b == [b[0]] + b[1..];
    }
  }

  /** Exactly one of the three orders holds. */
  lemma Trichotomy(a: Bytes, b: Bytes)
    ensures (Less(a, b) && a != b && !Less(b, a)) || (a == b && !Less(a, b)) || (Less(b, a) && a != b && !Less(a, b))
  {
    Total(a, b);
    Irreflexive(a);
    Irreflexive(b);
    if Less(a, b) && Less(b, a) { Transitive(a, b, a); }
  }

  ghost predicate Ascending(ks: seq<Bytes>) {
    forall i, j | 0 <= i < j < |ks| :: Less(ks[i], ks[j])
  }

  /** A finite non-empty set of keys has a least one. */
  lemma {:induction false} LeastKey(keys: set<Bytes>) returns (least: Bytes)
    requires keys != {}
    ensures least in keys && forall k | k in keys && k != least :: Less(least, k)
    decreases |keys|
  {
    var k :| k in keys;
    if keys == {k} {
      least := k;
    } else {
      var rest := keys - {k};
      var m := LeastKey(rest);
      Trichotomy(k, m);
      if Less(k, m) {
        least := k;
        forall j | j in keys && j != k ensures Less(k, j) {
          if j != m { Transitive(k, m, j); }
        }
      } else {
        least := m;
      }
    }
  }

  /** The keys of a set in ascending order, as sorting a map's keys gives them. */
  method SortKeys(keys: set<Bytes>) returns (ks: seq<Bytes>)
    ensures Ascending(ks) && (forall k :: k in ks <==> k in keys)
  {
    ks := [];
    var rest := keys;
    while rest != {}
      invariant rest <= keys && Ascending(ks)
      invariant forall k :: k in ks <==> k in keys && k !in rest
      invariant forall a, b | a in ks && b in rest :: Less(a, b)
      decreases |rest|
    {
      ghost var least := LeastKey(rest);
      var k :| k in rest && forall j | j in rest && j != k :: Less(k, j);
      forall a | a in ks ensures Less(a, k) { }
      ks := ks + [k];
      rest := rest - {k};
    }
  }
}
