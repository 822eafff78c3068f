/** The link lists of the HNSW index: choosing diverse neighbours, pruning a list, linking back, and what that does to
    reachability on a layer. */
module Neighbours {
  import opened Common
  import opened Beam

  type Vec = seq<real>

  /** Distance between two unit vectors; any function will do. */
  type Metric = (Vec, Vec) -> real

  // ---------------------------------------------------------------- choosing neighbours

  function Between(vecs: seq<Vec>, metric: Metric, a: nat, b: nat): real {
    if a < |vecs| && b < |vecs| then metric(vecs[a], vecs[b]) else 0.0
  }

  /** `idx` is no closer to any chosen node than to the query. */
  predicate Diverse(vecs: seq<Vec>, metric: Metric, query: nat, idx: nat, chosen: seq<nat>) {
    forall i | 0 <= i < |chosen| :: Between(vecs, metric, idx, chosen[i]) >= Between(vecs, metric, query, idx)
  }

  /** A candidate is passed over only for candidates before it: `m` of them are selected, or it is not diverse from
      those selected. */
  ghost predicate PassedOver(vecs: seq<Vec>, metric: Metric, query: nat, cands: seq<nat>, j: nat, m: nat,
                             selected: seq<nat>)
    requires j < |cands|
  {
    exists n: nat :: n <= |selected| && Blocks(vecs, metric, query, cands, j, m, selected[..n])
  }

  ghost predicate Blocks(vecs: seq<Vec>, metric: Metric, query: nat, cands: seq<nat>, j: nat, m: nat,
                         chosen: seq<nat>)
    requires j < |cands|
  {
    (forall c | c in chosen :: c in cands[..j]) && (|chosen| == m || !Diverse(vecs, metric, query, cands[j], chosen))
  }

  /** What was selected before the `i`-th comes before it among the candidates. */
  ghost predicate InPlace(cands: seq<nat>, upTo: nat, selected: seq<nat>, i: nat)
    requires upTo <= |cands| && i < |selected|
  {
    exists n: nat :: n < upTo && cands[n] == selected[i] && forall s | s in selected[..i] :: s in cands[..n]
  }

  /** A greedy choice of at most `m` of the first `upTo` candidates, in their order and never the query. */
  ghost predicate Greedy(vecs: seq<Vec>, metric: Metric, query: nat, cands: seq<nat>, upTo: nat, m: nat,
                         selected: seq<nat>)
    requires upTo <= |cands|
  {
    && |selected| <= m && NoRepeats(selected)
    && (forall s | s in selected :: s in cands[..upTo] && s != query)
    && (forall i | 0 <= i < |selected| :: Diverse(vecs, metric, query, selected[i], selected[..i]))
    && (forall i: nat | i < |selected| :: InPlace(cands, upTo, selected, i))
    && (forall j: nat | j < upTo && cands[j] != query && cands[j] !in selected ::
          PassedOver(vecs, metric, query, cands, j, m, selected))
  }

  lemma PassedOverStill(vecs: seq<Vec>, metric: Metric, query: nat, cands: seq<nat>, j: nat, m: nat,
                        selected: seq<nat>, more: nat)
    requires j < |cands| && PassedOver(vecs, metric, query, cands, j, m, selected)
    ensures PassedOver(vecs, metric, query, cands, j, m, selected + [more])
  {
    var n: nat :| n <= |selected| && Blocks(vecs, metric, query, cands, j, m, selected[..n]);
    assert (selected + [more])[..n] == selected[..n];
  }

  lemma PlaceStill(cands: seq<nat>, i: nat, selected: seq<nat>, j: nat)
    requires i < |cands| && j <= |selected| && forall s | s in selected :: s in cands[..i]
    requires j < |selected| ==> InPlace(cands, i, selected, j)
    ensures InPlace(cands, i + 1, selected + [cands[i]], j)
  {
    var next := selected + [cands[i]];
    assert next[..j] == selected[..j];
    if j == |selected| {
      assert cands[i] == next[j] && forall s | s in next[..j] :: s in cands[..i];
    } else {
      var n: nat :| n < i && cands[n] == selected[j] && forall s | s in selected[..j] :: s in cands[..n];
      assert n < i + 1 && cands[n] == next[j];
    }
  }

  lemma PlaceStays(cands: seq<nat>, i: nat, selected: seq<nat>, j: nat)
    requires i < |cands| && j < |selected| && InPlace(cands, i, selected, j)
    ensures InPlace(cands, i + 1, selected, j)
  {
    var n: nat :| n < i && cands[n] == selected[j] && forall s | s in selected[..j] :: s in cands[..n];
    assert n < i + 1;
  }

  lemma GreedySkip(vecs: seq<Vec>, metric: Metric, query: nat, cands: seq<nat>, i: nat, m: nat, selected: seq<nat>)
    requires i < |cands| && Greedy(vecs, metric, query, cands, i, m, selected)
    requires cands[i] == query || |selected| == m || !Diverse(vecs, metric, query, cands[i], selected)
    ensures Greedy(vecs, metric, query, cands, i + 1, m, selected)
  {
    hide Diverse;
    var upTo := i + 1;
    forall j: nat | j < |selected| ensures InPlace(cands, upTo, selected, j) { PlaceStays(cands, i, selected, j); }
    hide InPlace;
    assert cands[..i + 1] == cands[..i] + [cands[i]];
    assert selected[..|selected|] == selected;
    if cands[i] != query {
      assert Blocks(vecs, metric, query, cands, i, m, selected[..|selected|]);
      assert PassedOver(vecs, metric, query, cands, i, m, selected);
    }
  }

  lemma GreedyTake(vecs: seq<Vec>, metric: Metric, query: nat, cands: seq<nat>, i: nat, m: nat, selected: seq<nat>)
    requires i < |cands| && Greedy(vecs, metric, query, cands, i, m, selected) && NoRepeats(cands)
    requires cands[i] != query && |selected| < m && Diverse(vecs, metric, query, cands[i], selected)
    ensures Greedy(vecs, metric, query, cands, i + 1, m, selected + [cands[i]])
  {
    hide Diverse, PassedOver, InPlace;
    assert cands[..i + 1] == cands[..i] + [cands[i]];
    assert cands[i] !in cands[..i];
    var next := selected + [cands[i]];
    forall j | 0 <= j < |next| ensures Diverse(vecs, metric, query, next[j], next[..j]) {
      assert next[..j] == selected[..j];
      assert selected[..|selected|] == selected;
    }
    var upTo := i + 1;
    forall j: nat | j < |next| ensures InPlace(cands, upTo, next, j) { PlaceStill(cands, i, selected, j); }
    forall j: nat | j < i + 1 && cands[j] != query && cands[j] !in next
      ensures PassedOver(vecs, metric, query, cands, j, m, next)
    {
      PassedOverStill(vecs, metric, query, cands, j, m, selected, cands[i]);
    }
  }

  /** `select_neighbours_heuristic` */
  method SelectNeighbours(vecs: seq<Vec>, metric: Metric, query: nat, cands: seq<nat>, m: nat)
      returns (selected: seq<nat>)
    requires query < |vecs| && NoRepeats(cands) && forall c | c in cands :: c < |vecs|
    ensures Greedy(vecs, metric, query, cands, |cands|, m, selected)
    ensures m > 0 && cands != [] && cands[0] != query ==> selected != [] && selected[0] == cands[0]
  {
    selected := [];
    for i := 0 to |cands|
      invariant Greedy(vecs, metric, query, cands, i, m, selected)
      invariant (i == 0 ==> selected == []) && (m > 0 && i > 0 && cands[0] != query ==>
          selected != [] && selected[0] == cands[0])
    {
      var idx := cands[i];
      if idx != query && |selected| < m && Diverse(vecs, metric, query, idx, selected) {
        GreedyTake(vecs, metric, query, cands, i, m, selected);
        selected := selected + [idx];
      } else {
        GreedySkip(vecs, metric, query, cands, i, m, selected);
      }
    }
  }

  /** The choice in terms of the metric: each selected node is at least as near to the query as to any selected before
      it, and while there is room a candidate is left out only if a selected one is strictly nearer to it than the
      query is. */
  lemma ChoiceIsDiverse(vecs: seq<Vec>, metric: Metric, query: nat, cands: seq<nat>, m: nat, selected: seq<nat>)
    requires query < |vecs| && (forall c | c in cands :: c < |vecs|)
    requires Greedy(vecs, metric, query, cands, |cands|, m, selected)
    ensures forall i | 0 <= i < |selected| :: selected[i] < |vecs|
    ensures forall i, j | 0 <= i < j < |selected| ::
      metric(vecs[query], vecs[selected[j]]) <= metric(vecs[selected[j]], vecs[selected[i]])
    ensures |selected| < m ==> forall c | c in cands && c != query && c !in selected ::
      exists i :: 0 <= i < |selected| && metric(vecs[c], vecs[selected[i]]) < metric(vecs[query], vecs[c])
  {
    assert cands[..|cands|] == cands;
    forall i | 0 <= i < |selected| ensures selected[i] < |vecs| { assert selected[i] in selected; }
    forall i, j | 0 <= i < j < |selected|
      ensures metric(vecs[query], vecs[selected[j]]) <= metric(vecs[selected[j]], vecs[selected[i]])
    {
      assert Diverse(vecs, metric, query, selected[j], selected[..j]) && selected[..j][i] == selected[i];
    }
    if |selected| < m {
      forall c | c in cands && c != query && c !in selected
        ensures exists i :: 0 <= i < |selected| && metric(vecs[c], vecs[selected[i]]) < metric(vecs[query], vecs[c])
      {
        var j :| 0 <= j < |cands| && cands[j] == c;
        assert PassedOver(vecs, metric, query, cands, j, m, selected);
        var n: nat :| n <= |selected| && Blocks(vecs, metric, query, cands, j, m, selected[..n]);
        var i :| 0 <= i < n && Between(vecs, metric, c, selected[..n][i]) < Between(vecs, metric, query, c);
        assert 0 <= i < |selected| && metric(vecs[c], vecs[selected[i]]) < metric(vecs[query], vecs[c]);
      }
    }
  }

  // ---------------------------------------------------------------- one link list

  /** A list with a link added, if it was missing. */
  function WithLink(links: seq<nat>, to: nat): seq<nat> {
    if to in links then links else links + [to]
  }

  /** `prune` picks greedily from the links sorted by distance to their owner. */
  ghost predicate Pruned(vecs: seq<Vec>, metric: Metric, owner: nat, links: seq<nat>, cap: nat, kept: seq<nat>) {
    exists sorted ::
      && Ordered(NodeDistance(vecs, metric, owner), sorted) && Members(sorted) == Members(links)
      && Greedy(vecs, metric, owner, sorted, |sorted|, cap, kept)
  }

  function NodeDistance(vecs: seq<Vec>, metric: Metric, owner: nat): Distance {
    (v: nat) => Between(vecs, metric, owner, v)
  }

  method Prune(vecs: seq<Vec>, metric: Metric, owner: nat, links: seq<nat>, cap: nat) returns (kept: seq<nat>)
    requires owner < |vecs| && forall u | u in links :: u < |vecs|
    ensures Pruned(vecs, metric, owner, links, cap, kept) && |kept| <= cap && NoRepeats(kept)
    ensures forall u | u in kept :: u in links && u != owner
  {
    var sorted := SortByDistance(NodeDistance(vecs, metric, owner), set u | u in links);
    forall c | c in sorted ensures c in links { assert c in Members(sorted); }
    hide InPlace;
    kept := SelectNeighbours(vecs, metric, owner, sorted, cap);
    assert Members(sorted) == Members(links);
    forall u | u in kept ensures u in links && u != owner { assert u in sorted[..|sorted|]; }
  }

  /** A link list: existing nodes other than its owner, none twice, at most `cap`. */
  ghost predicate ListOk(links: seq<nat>, owner: nat, count: nat, cap: nat) {
    |links| <= cap && NoRepeats(links) && forall u | u in links :: u < count && u != owner
  }

  /** The list with the link to `to`, pruned if that makes too many. */
  ghost predicate LinkedTo(vecs: seq<Vec>, metric: Metric, cap: nat, owner: nat, to: nat, was: seq<nat>, now: seq<nat>)
  {
    var links := WithLink(was, to);
    if |links| <= cap then now == links else Pruned(vecs, metric, owner, links, cap, now)
  }

  method LinkOne(vecs: seq<Vec>, metric: Metric, cap: nat, owner: nat, to: nat, was: seq<nat>) returns (now: seq<nat>)
    requires owner < |vecs| && to < |vecs| && owner != to && ListOk(was, owner, |vecs|, cap)
    ensures LinkedTo(vecs, metric, cap, owner, to, was, now) && ListOk(now, owner, |vecs|, cap)
  {
    hide Pruned;
    now := was;
    if to !in now { now := now + [to]; }
    if |now| > cap { now := Prune(vecs, metric, owner, now, cap); }
  }

  // ---------------------------------------------------------------- one layer

  /** What linking a new node does to every list of a layer: nodes it chose link back, the others keep their links. */
  ghost predicate LayerLinked(vecs: seq<Vec>, metric: Metric, cap: nat, fresh': nat, was: Layer, now: Layer) {
    && |was| == |now| && fresh' < |now|
    && forall v: nat | v < |was| && v != fresh' ::
         if v in now[fresh'] then LinkedTo(vecs, metric, cap, v, fresh', was[v], now[v]) else now[v] == was[v]
  }

  ghost predicate ListsOk(layer: Layer, cap: nat) {
    forall v | 0 <= v < |layer| :: ListOk(layer[v], v, |layer|, cap)
  }

  /** A list of other nodes without repetition is shorter than the number of nodes. */
  lemma ListFits(links: seq<nat>, owner: nat, count: nat, cap: nat)
    requires ListOk(links, owner, count, cap) && owner < count
    ensures |links| < count
  {
    var zero: Distance := (_: nat) => 0.0;
    assert Ordered(zero, links);
    OrderedSize(zero, links);
    SubsetSize(Members(links), Below(count) - {owner});
    BelowSize(count);
  }

  /** As long as the lists have room for every other node, a new node with a link joins a connected layer. */
  lemma JoinKeepsConnected(vecs: seq<Vec>, metric: Metric, cap: nat, old': Layer, now: Layer)
    requires Connected(old') && ListsOk(old', cap) && |old'| <= cap
    requires LayerLinked(vecs, metric, cap, |old'|, old' + [[]], now)
    requires now[|old'|] != [] && forall u | u in now[|old'|] :: u < |old'|
    ensures Connected(now)
  {
    var n := |old'|;
    var was := old' + [[]];
    forall v: nat | v < n ensures now[v] == if v in now[n] then WithLink(old'[v], n) else old'[v] {
      ListFits(old'[v], v, n, cap);
      assert was[v] == old'[v];
    }
    var u := now[n][0];
    assert u in now[n];
    forall s: nat, t: nat | s <= n && t <= n ensures Reachable(now, s, t) {
      assert Walk(now, s, s, 0);
      var a := if s == n then u else s;
      var b := if t == n then u else t;
      assert b in Reach(old', a);
      var k: nat :| Walk(old', a, b, k);
      WalkGrows(old', now, a, b, k);
      if s == n {
        assert Walk(now, n, n, 0);
        assert Walk(now, n, u, 1);
      }
      ReachableTrans(now, s, a, b);
      if t == n {
        var j: nat :| Walk(now, s, u, j);
        assert Walk(now, s, n, j + 1);
      }
    }
  }
}
