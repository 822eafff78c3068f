/** The beam search of the HNSW index on one layer (SEARCH-LAYER, Algorithm 2 of arXiv:1603.09320), with distances to
    the query given as a function of the node. */
module Beam {
  import opened Common

  /** Neighbour lists of one layer, indexed by node. */
  type Layer = seq<seq<nat>>

  type Distance = nat -> real

  ghost predicate InRange(layer: Layer) {
    forall v, j | 0 <= v < |layer| && 0 <= j < |layer[v]| :: layer[v][j] < |layer|
  }

  /** Heap order: by distance, ties by node. */
  predicate Before(dist: Distance, a: nat, b: nat) {
    dist(a) < dist(b) || (dist(a) == dist(b) && a < b)
  }

  lemma {:induction false} Nearest(dist: Distance, s: set<nat>) returns (n: nat)
    requires s != {}
    ensures n in s && forall v | v in s && v != n :: Before(dist, n, v)
    decreases |s|
  {
    var v :| v in s;
    if s == {v} {
      n := v;
    } else {
      var rest := Nearest(dist, s - {v});
      n := if Before(dist, v, rest) then v else rest;
      forall u | u in s && u != n ensures Before(dist, n, u) { assert u == v || u in s - {v}; }
    }
  }

  lemma {:induction false} Farthest(dist: Distance, s: set<nat>) returns (n: nat)
    requires s != {}
    ensures n in s && forall v | v in s && v != n :: Before(dist, v, n)
    decreases |s|
  {
    var v :| v in s;
    if s == {v} {
      n := v;
    } else {
      var rest := Farthest(dist, s - {v});
      n := if Before(dist, v, rest) then rest else v;
      forall u | u in s && u != n ensures Before(dist, u, n) { assert u == v || u in s - {v}; }
    }
  }

  /** `BinaryHeap::pop` on the min-heap of candidates. */
  method TakeNearest(dist: Distance, s: set<nat>) returns (n: nat)
    requires s != {}
    ensures n in s && forall v | v in s && v != n :: Before(dist, n, v)
  {
    ghost var witness' := Nearest(dist, s);
    n :| n in s && forall v | v in s && v != n :: Before(dist, n, v);
  }

  /** `BinaryHeap::peek` on the max-heap of results. */
  method PeekFarthest(dist: Distance, s: set<nat>) returns (n: nat)
    requires s != {}
    ensures n in s && forall v | v in s :: dist(v) <= dist(n)
  {
    ghost var witness' := Farthest(dist, s);
    n :| n in s && forall v | v in s && v != n :: Before(dist, v, n);
    forall v | v in s ensures dist(v) <= dist(n) { assert v == n || Before(dist, v, n); }
  }

  ghost predicate Ordered(dist: Distance, s: seq<nat>) {
    forall i, j | 0 <= i < j < |s| :: s[i] != s[j] && dist(s[i]) <= dist(s[j])
  }

  ghost function Members(s: seq<nat>): set<nat> { set v | v in s }

  lemma {:induction false} OrderedSize(dist: Distance, s: seq<nat>)
    requires Ordered(dist, s)
    ensures |Members(s)| == |s|
  {
    if s != [] {
      var init, last := s[..|s| - 1], s[|s| - 1];
      OrderedSize(dist, init);
      assert last !in init;
      assert Members(s) == Members(init) + {last};
    }
  }

  /** `out` lists what is no longer in `rest`, nearest first. */
  ghost predicate Sorting(dist: Distance, s: set<nat>, rest: set<nat>, out: seq<nat>) {
    && rest <= s && Ordered(dist, out) && Members(out) == s - rest && |out| + |rest| == |s|
    && forall a, b | a in out && b in rest :: dist(a) <= dist(b)
  }

  lemma SortingStep(dist: Distance, s: set<nat>, rest: set<nat>, out: seq<nat>, n: nat)
    requires Sorting(dist, s, rest, out) && n in rest && forall v | v in rest && v != n :: Before(dist, n, v)
    ensures Sorting(dist, s, rest - {n}, out + [n])
  {
    forall a | a in out ensures a != n { assert a in Members(out); }
    assert Members(out + [n]) == Members(out) + {n};
    var next := out + [n];
    forall i, j | 0 <= i < j < |next| ensures next[i] != next[j] && dist(next[i]) <= dist(next[j]) {
      assert next[i] in out;
    }
  }

  /** The results as a list sorted by distance. */
  method SortByDistance(dist: Distance, s: set<nat>) returns (out: seq<nat>)
    ensures Ordered(dist, out) && Members(out) == s && |out| == |s|
  {
    out := [];
    var rest := s;
    while rest != {}
      invariant Sorting(dist, s, rest, out)
      decreases |rest|
    {
      var n := TakeNearest(dist, rest);
      SortingStep(dist, s, rest, out, n);
      out := out + [n];
      rest := rest - {n};
    }
  }

  // ---------------------------------------------------------------- reachability

  ghost predicate Walk(layer: Layer, s: nat, t: nat, n: nat)
    decreases n
  {
    if n == 0 then s == t
    else exists v: nat :: Walk(layer, s, v, n - 1) && v < |layer| && t in layer[v]
  }

  ghost predicate Reachable(layer: Layer, s: nat, t: nat) {
    exists n: nat :: Walk(layer, s, t, n)
  }

  /** The nodes a search from `s` could ever visit. */
  ghost function Reach(layer: Layer, s: nat): set<nat> {
    set v | v in Below(|layer|) && Reachable(layer, s, v)
  }

  lemma ReachStep(layer: Layer, s: nat, v: nat, t: nat)
    requires InRange(layer) && v in Reach(layer, s) && t in layer[v]
    ensures t in Reach(layer, s)
  {
    var n: nat :| Walk(layer, s, v, n);
    assert Walk(layer, s, t, n + 1);
    var j :| 0 <= j < |layer[v]| && layer[v][j] == t;
  }

  /** A set that holds the start and every neighbour of its members holds everything reachable. */
  lemma {:induction false} ClosedHoldsReach(layer: Layer, s: nat, closed: set<nat>, t: nat, n: nat)
    requires s in closed && Walk(layer, s, t, n)
    requires forall v | v in closed && v < |layer| :: forall u | u in layer[v] :: u in closed
    ensures t in closed
    decreases n
  {
    if n > 0 {
      var v: nat :| Walk(layer, s, v, n - 1) && v < |layer| && t in layer[v];
      ClosedHoldsReach(layer, s, closed, v, n - 1);
    }
  }

  /** Every node reaches every node. */
  ghost predicate Connected(layer: Layer) {
    forall s: nat, t: nat | s < |layer| && t < |layer| :: Reachable(layer, s, t)
  }

  lemma ConnectedReach(layer: Layer, s: nat)
    requires Connected(layer) && s < |layer|
    ensures Reach(layer, s) == Below(|layer|) && |Reach(layer, s)| == |layer|
  {
    BelowSize(|layer|);
  }

  lemma {:induction false} BelowSize(n: nat)
    ensures |Below(n)| == n
  {
    if n > 0 { BelowSize(n - 1); }
  }

  /** Walks survive in a layer with more nodes and longer lists. */
  lemma {:induction false} WalkGrows(a: Layer, b: Layer, s: nat, t: nat, n: nat)
    requires Walk(a, s, t, n) && |a| <= |b|
    requires forall v: nat | v < |a| :: forall u | u in a[v] :: u in b[v]
    ensures Walk(b, s, t, n)
    decreases n
  {
    if n > 0 {
      var v: nat :| Walk(a, s, v, n - 1) && v < |a| && t in a[v];
      WalkGrows(a, b, s, v, n - 1);
    }
  }

  lemma {:induction false} WalkJoins(layer: Layer, s: nat, v: nat, t: nat, n: nat, k: nat)
    requires Walk(layer, s, v, n) && Walk(layer, v, t, k)
    ensures Walk(layer, s, t, n + k)
    decreases k
  {
    if k > 0 {
      var u: nat :| Walk(layer, v, u, k - 1) && u < |layer| && t in layer[u];
      WalkJoins(layer, s, v, u, n, k - 1);
    }
  }

  lemma ReachableTrans(layer: Layer, s: nat, v: nat, t: nat)
    requires Reachable(layer, s, v) && Reachable(layer, v, t)
    ensures Reachable(layer, s, t)
  {
    var n: nat :| Walk(layer, s, v, n);
    var k: nat :| Walk(layer, v, t, k);
    WalkJoins(layer, s, v, t, n, k);
  }

  // ---------------------------------------------------------------- the search

  /** What holds at every point: nothing visited and left out is nearer than something kept, and nothing is left out
      while there is room. */
  ghost predicate Kept(dist: Distance, ef: nat, visited: set<nat>, results: set<nat>) {
    && results != {} && results <= visited && (|results| <= ef || |results| == 1)
    && (forall v, r | v in visited && v !in results && r in results :: dist(r) <= dist(v))
    && (|results| < ef ==> results == visited)
  }

  /** Everything kept is a candidate still, or has had its neighbours visited. */
  ghost predicate Expanded(layer: Layer, visited: set<nat>, cands: set<nat>, results: set<nat>) {
    forall v | v in results && v !in cands && v < |layer| :: forall u | u in layer[v] :: u in visited
  }

  /** One newly visited neighbour: kept when it is nearer than the farthest or there is room, evicting the farthest
      when there are too many. */
  lemma ConsiderKeeps(dist: Distance, ef: nat, visited: set<nat>, results: set<nat>, nb: nat, worst: nat)
    requires Kept(dist, ef, visited, results) && nb !in visited
    requires worst in results && forall v | v in results :: dist(v) <= dist(worst)
    ensures !(dist(nb) < dist(worst) || |results| < ef) ==> Kept(dist, ef, visited + {nb}, results)
    ensures dist(nb) < dist(worst) || |results| < ef ==>
              && |results + {nb}| == |results| + 1
              && (|results| + 1 <= ef ==> Kept(dist, ef, visited + {nb}, results + {nb}))
              && (|results| + 1 > ef ==>
                    forall out | out in results + {nb} && (forall v | v in results + {nb} :: dist(v) <= dist(out)) ::
                      Kept(dist, ef, visited + {nb}, results + {nb} - {out}))
  {
    if dist(nb) < dist(worst) || |results| < ef {
      forall out | out in results + {nb} && (forall v | v in results + {nb} :: dist(v) <= dist(out))
        ensures |results| + 1 > ef ==> Kept(dist, ef, visited + {nb}, results + {nb} - {out})
      {
        var kept := results + {nb} - {out};
        assert |kept| == |results|;
      }
    }
  }

  lemma {:induction false} FullSubset(a: set<nat>, b: set<nat>)
    requires a <= b && |a| >= |b|
    ensures a == b
    decreases |b|
  {
    if v :| v in b && v !in a {
      SubsetSize(a, b - {v});
      assert false;
    }
  }

  lemma {:induction false} SubsetSize(a: set<nat>, b: set<nat>)
    requires a <= b
    ensures |a| <= |b|
    decreases |a|
  {
    if v :| v in a { SubsetSize(a - {v}, b - {v}); }
  }

  /** A full result that fits everything reachable holds everything reachable. */
  lemma FullIsAll(layer: Layer, ep: nat, ef: nat, dist: Distance, visited: set<nat>, results: set<nat>)
    requires Kept(dist, ef, visited, results) && visited <= Reach(layer, ep) && |results| >= ef
    ensures |Reach(layer, ep)| <= ef ==> results == Reach(layer, ep)
  {
    if |Reach(layer, ep)| <= ef { FullSubset(results, Reach(layer, ep)); }
  }

  /** With no candidate left, room to spare means everything reachable was kept. */
  lemma Exhausted(layer: Layer, ep: nat, ef: nat, dist: Distance, visited: set<nat>, results: set<nat>)
    requires InRange(layer) && ep in visited && Kept(dist, ef, visited, results) && visited <= Reach(layer, ep)
    requires Expanded(layer, visited, {}, results)
    ensures |Reach(layer, ep)| <= ef ==> results == Reach(layer, ep)
  {
    if |results| >= ef {
      FullIsAll(layer, ep, ef, dist, visited, results);
    } else {
      forall t | t in Reach(layer, ep) ensures t in visited {
        var n: nat :| Walk(layer, ep, t, n);
        ClosedHoldsReach(layer, ep, visited, t, n);
      }
    }
  }

  /** Stopping early: no kept node is a candidate still, so all were expanded. */
  lemma BeamIsExpanded(layer: Layer, dist: Distance, visited: set<nat>, cands: set<nat>, results: set<nat>, c: nat,
                       worst: nat)
    requires Expanded(layer, visited, cands + {c}, results)
    requires dist(c) > dist(worst) && forall v | v in results :: dist(v) <= dist(worst)
    requires forall v | v in cands :: Before(dist, c, v)
    ensures Expanded(layer, visited, {}, results)
  {
    forall v | v in results ensures v !in cands + {c} { }
  }

  /** The search between two neighbours of `c`, the first `j` of which are done. */
  ghost predicate Scanning(layer: Layer, dist: Distance, ep: nat, ef: nat, c: nat, j: nat,
                           visited: set<nat>, cands: set<nat>, results: set<nat>) {
    && ep in visited && visited <= Reach(layer, ep) && cands <= visited
    && Kept(dist, ef, visited, results) && Expanded(layer, visited, cands + {c}, results)
    && c < |layer| && j <= |layer[c]| && forall i | 0 <= i < j :: layer[c][i] in visited
  }

  lemma ScanStep(layer: Layer, dist: Distance, ep: nat, ef: nat, c: nat, j: nat,
                 visited: set<nat>, cands: set<nat>, results: set<nat>, cands2: set<nat>, results2: set<nat>)
    requires Scanning(layer, dist, ep, ef, c, j, visited, cands, results) && j < |layer[c]|
    requires c in Reach(layer, ep) && InRange(layer)
    requires Kept(dist, ef, visited + {layer[c][j]}, results2)
    requires || (cands2 == cands && results2 <= results)
             || (cands2 == cands + {layer[c][j]} && results2 <= results + {layer[c][j]})
    ensures Scanning(layer, dist, ep, ef, c, j + 1, visited + {layer[c][j]}, cands2, results2)
  {
    ReachStep(layer, ep, c, layer[c][j]);
  }

  lemma ScanEnds(layer: Layer, dist: Distance, ep: nat, ef: nat, c: nat, visited: set<nat>, cands: set<nat>,
                 results: set<nat>)
    requires c < |layer| && Scanning(layer, dist, ep, ef, c, |layer[c]|, visited, cands, results)
    ensures Expanded(layer, visited, cands, results)
  {
    forall u | u in layer[c] ensures u in visited {
      var i :| 0 <= i < |layer[c]| && layer[c][i] == u;
    }
  }

  lemma AlreadySeen(layer: Layer, dist: Distance, ep: nat, ef: nat, c: nat, j: nat,
                    visited: set<nat>, cands: set<nat>, results: set<nat>)
    requires Scanning(layer, dist, ep, ef, c, j, visited, cands, results) && j < |layer[c]| && layer[c][j] in visited
    ensures Scanning(layer, dist, ep, ef, c, j + 1, visited, cands, results)
  {
  }

  /** The inner step on an unvisited neighbour. */
  method Consider(dist: Distance, ef: nat, ghost visited: set<nat>, cands: set<nat>, results: set<nat>, nb: nat)
      returns (cands2: set<nat>, results2: set<nat>)
    requires Kept(dist, ef, visited, results) && nb !in visited
    ensures Kept(dist, ef, visited + {nb}, results2)
    ensures (cands2 == cands && results2 <= results) || (cands2 == cands + {nb} && results2 <= results + {nb})
    ensures nb in results2 ==> nb in cands2
  {
    var worst := PeekFarthest(dist, results);
    ConsiderKeeps(dist, ef, visited, results, nb, worst);
    cands2, results2 := cands, results;
    if dist(nb) < dist(worst) || |results| < ef {
      cands2 := cands + {nb};
      results2 := results + {nb};
      if |results2| > ef {
        var out := PeekFarthest(dist, results2);
        results2 := results2 - {out};
      }
    }
  }

  /** The result of a beam search that visited `seen`: sorted and free of duplicates, at most `ef` nodes (one if `ef`
      is zero) and all the visited ones if fewer; it leaves out only visited nodes at least as far as everything
      returned, every neighbour of a returned node was visited, and it is exactly the reachable set when `ef` is large
      enough for it. */
  ghost predicate BeamOf(layer: Layer, dist: Distance, ep: nat, ef: nat, out: seq<nat>, seen: set<nat>) {
    && Ordered(dist, out) && 0 < |out| && (|out| <= ef || |out| == 1)
    && ep in seen && Members(out) <= seen && seen <= Reach(layer, ep)
    && (forall v, r | v in seen && v !in out && r in out :: dist(r) <= dist(v))
    && Expanded(layer, seen, {}, Members(out)) && (|out| < ef ==> Members(out) == seen)
    && (|Reach(layer, ep)| <= ef ==> Members(out) == Reach(layer, ep))
  }

  /** `search_layer_node` and `search_layer_vec`. */
  method SearchLayer(layer: Layer, dist: Distance, ep: nat, ef: nat) returns (out: seq<nat>, ghost seen: set<nat>)
    requires InRange(layer) && ep < |layer|
    ensures BeamOf(layer, dist, ep, ef, out, seen)
  {
    hide Reach, Reachable, Walk, InRange, Ordered;
    StartReached(layer, ep);
    var visited, cands, results := {ep}, {ep}, {ep};
    ghost var all := Below(|layer|);
    while cands != {}
      invariant ep in visited && visited <= Reach(layer, ep) && cands <= visited
      invariant Kept(dist, ef, visited, results) && Expanded(layer, visited, cands, results)
      decreases all - visited, |cands|
    {
      var c := TakeNearest(dist, cands);
      cands := cands - {c};
      var worst := PeekFarthest(dist, results);
      if dist(c) > dist(worst) && |results| >= ef {
        FullIsAll(layer, ep, ef, dist, visited, results);
        BeamIsExpanded(layer, dist, visited, cands, results, c, worst);
        out := SortByDistance(dist, results);
        seen := visited;
        return;
      }
      ReachBound(layer, ep, c);
      ghost var visited0, cands0 := visited, cands;
      for j := 0 to |layer[c]|
        invariant Scanning(layer, dist, ep, ef, c, j, visited, cands, results)
        invariant all - visited <= all - visited0
        invariant all - visited == all - visited0 ==> cands == cands0
      {
        var nb := layer[c][j];
        if nb !in visited {
          ghost var cs, rs := cands, results;
          cands, results := Consider(dist, ef, visited, cands, results, nb);
          ScanStep(layer, dist, ep, ef, c, j, visited, cs, rs, cands, results);
          ReachBound(layer, ep, nb);
          assert nb in all - visited;
          visited := visited + {nb};
          assert nb !in all - visited;
        } else {
          AlreadySeen(layer, dist, ep, ef, c, j, visited, cands, results);
        }
      }
      ScanEnds(layer, dist, ep, ef, c, visited, cands, results);
    }
    Exhausted(layer, ep, ef, dist, visited, results);
    out := SortByDistance(dist, results);
    seen := visited;
  }

  lemma StartReached(layer: Layer, ep: nat)
    requires ep < |layer|
    ensures ep in Reach(layer, ep)
  {
    assert Walk(layer, ep, ep, 0);
  }

  lemma ReachBound(layer: Layer, ep: nat, v: nat)
    requires v in Reach(layer, ep)
    ensures v < |layer|
  {
  }
}
