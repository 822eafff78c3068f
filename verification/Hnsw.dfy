/** The HNSW index object: insertion links a node both ways on every layer it shares with the index and keeps every
    layer well linked, a small bottom layer connected; the query returns the nearest of what the bottom layer's beam
    kept. */
module Hnsw {
  import opened Common
  import opened Beam
  import opened Neighbours

  datatype Node = Node(vector: Vec, key: Bytes, neighbours: seq<seq<nat>>)

  function MaxLinks(m: nat, layer: nat): nat { if layer == 0 then 2 * m else m }

  function Smaller(a: nat, b: nat): nat { if a <= b then a else b }

  function LinksAt(n: Node, layer: nat): seq<nat> {
    if layer < |n.neighbours| then n.neighbours[layer] else []
  }

  function LayerOf(nodes: seq<Node>, layer: nat): (l: Layer)
    ensures |l| == |nodes|
  {
    seq(|nodes|, v requires 0 <= v < |nodes| => LinksAt(nodes[v], layer))
  }

  function Vectors(nodes: seq<Node>): (s: seq<Vec>)
    ensures |s| == |nodes|
  {
    seq(|nodes|, v requires 0 <= v < |nodes| => nodes[v].vector)
  }

  /** Every list of every layer is admissible. */
  ghost predicate WellLinked(nodes: seq<Node>, m: nat) {
    forall v, l | 0 <= v < |nodes| && 0 <= l < |nodes[v].neighbours| ::
      ListOk(nodes[v].neighbours[l], v, |nodes|, MaxLinks(m, l))
  }

  lemma LayersOk(nodes: seq<Node>, m: nat, layer: nat)
    requires WellLinked(nodes, m)
    ensures ListsOk(LayerOf(nodes, layer), MaxLinks(m, layer)) && InRange(LayerOf(nodes, layer))
  {
    var l := LayerOf(nodes, layer);
    forall v | 0 <= v < |l| ensures ListOk(l[v], v, |l|, MaxLinks(m, layer)) {
      if layer < |nodes[v].neighbours| { assert l[v] == nodes[v].neighbours[layer]; }
    }
    forall v, j | 0 <= v < |l| && 0 <= j < |l[v]| ensures l[v][j] < |l| { assert l[v][j] in l[v]; }
  }

  // ---------------------------------------------------------------- linking

  ghost predicate SameData(a: seq<Node>, b: seq<Node>) {
    |a| == |b| && forall v | 0 <= v < |a| :: a[v].vector == b[v].vector && a[v].key == b[v].key
  }

  /** Replacing one list by an admissible one. */
  lemma ReplaceList(nodes: seq<Node>, m: nat, v: nat, lists: seq<seq<nat>>)
    requires WellLinked(nodes, m) && v < |nodes|
    requires forall l | 0 <= l < |lists| :: ListOk(lists[l], v, |nodes|, MaxLinks(m, l))
    ensures WellLinked(nodes[v := nodes[v].(neighbours := lists)], m)
    ensures SameData(nodes, nodes[v := nodes[v].(neighbours := lists)])
  {
  }

  lemma SameVectors(a: seq<Node>, b: seq<Node>)
    requires SameData(a, b)
    ensures Vectors(a) == Vectors(b)
  {
  }

  /** The back link from `nb` to the new node. */
  method LinkBack(nodes: seq<Node>, metric: Metric, m: nat, nb: nat, fresh': nat, layer: nat) returns (r: seq<Node>)
    requires WellLinked(nodes, m) && nb < |nodes| && fresh' < |nodes| && nb != fresh'
    ensures WellLinked(r, m) && SameData(nodes, r)
    ensures forall v | 0 <= v < |nodes| && v != nb :: r[v] == nodes[v]
    ensures forall l: nat | l != layer :: LinksAt(r[nb], l) == LinksAt(nodes[nb], l)
    ensures LinkedTo(Vectors(nodes), metric, MaxLinks(m, layer), nb, fresh', LinksAt(nodes[nb], layer),
                     LinksAt(r[nb], layer))
  {
    hide Pruned, LinkedTo;
    var lists := nodes[nb].neighbours;
    while |lists| <= layer
      invariant forall l | 0 <= l < |lists| :: ListOk(lists[l], nb, |nodes|, MaxLinks(m, l))
      invariant |lists| >= |nodes[nb].neighbours|
      invariant forall l | 0 <= l < |lists| :: lists[l] == LinksAt(nodes[nb], l)
    {
      lists := lists + [[]];
    }
    var links := LinkOne(Vectors(nodes), metric, MaxLinks(m, layer), nb, fresh', lists[layer]);
    lists := lists[layer := links];
    ReplaceList(nodes, m, nb, lists);
    r := nodes[nb := nodes[nb].(neighbours := lists)];
  }

  /** Distances of all nodes to a vector. */
  function DistanceTo(nodes: seq<Node>, metric: Metric, q: Vec): Distance {
    (v: nat) => if v < |nodes| then metric(nodes[v].vector, q) else 0.0
  }

  lemma ReachNodes(nodes: seq<Node>, layer: nat, ep: nat, v: nat)
    requires v in Reach(LayerOf(nodes, layer), ep)
    ensures v < |nodes|
  {
  }

  /** The greedy descent: on each layer from `hi` down to `lo`, move to the nearest node a one-wide beam finds. It never
      moves away from the query. */
  method Descend(nodes: seq<Node>, m: nat, dist: Distance, start: nat, hi: nat, lo: nat) returns (ep: nat)
    requires WellLinked(nodes, m) && start < |nodes|
    ensures ep < |nodes| && dist(ep) <= dist(start)
    ensures hi < lo ==> ep == start
    ensures forall w: nat | w != start && Isolated(nodes, w) :: ep != w
    ensures 0 < lo <= hi ==> Settled(LayerOf(nodes, lo), dist, ep)
  {
    ep := start;
    var lyr: nat := hi;
    while lyr >= lo && lyr > 0
      invariant ep < |nodes| && dist(ep) <= dist(start)
      invariant hi < lo ==> ep == start
      invariant forall w: nat | w != start && Isolated(nodes, w) :: ep != w
      invariant lyr < hi && 0 < lo <= hi ==> Settled(LayerOf(nodes, lyr + 1), dist, ep)
      invariant 0 < lo <= hi ==> lyr >= lo - 1
      decreases lyr
    {
      LayersOk(nodes, m, lyr);
      hide WellLinked, Reach, Ordered, Expanded, InRange, Settled, Isolated, LayerOf;
      var cands, seen := SearchLayer(LayerOf(nodes, lyr), dist, ep, 1);
      NearestSettled(LayerOf(nodes, lyr), dist, ep, 1, seen, cands);
      forall w: nat | w != start && Isolated(nodes, w) ensures w != cands[0]
      {
        UnlinkedUnreached(LayerOf(nodes, lyr), w, ep);
      }
      ep := cands[0];
      lyr := lyr - 1;
    }
  }

  /** No neighbour is nearer to the query. */
  ghost predicate Settled(layer: Layer, dist: Distance, v: nat) {
    v < |layer| && forall u | u in layer[v] :: dist(v) <= dist(u)
  }

  lemma NearestSettled(layer: Layer, dist: Distance, ep: nat, ef: nat, seen: set<nat>, out: seq<nat>)
    requires BeamOf(layer, dist, ep, ef, out, seen)
    ensures forall v | v in seen :: dist(out[0]) <= dist(v)
    ensures dist(out[0]) <= dist(ep) && out[0] in Reach(layer, ep) && Settled(layer, dist, out[0])
  {
    assert out[0] in out && out[0] in Members(out);
    ReachBound(layer, ep, out[0]);
    forall v | v in seen ensures dist(out[0]) <= dist(v) {
      if v in out { var i :| 0 <= i < |out| && out[i] == v; }
    }
  }

  /** Nothing links to `v`. */
  ghost predicate Unlinked(layer: Layer, v: nat) {
    forall u | 0 <= u < |layer| :: v !in layer[u]
  }

  ghost predicate Isolated(nodes: seq<Node>, v: nat) {
    forall l: nat :: Unlinked(LayerOf(nodes, l), v)
  }

  lemma UnlinkedUnreached(layer: Layer, v: nat, ep: nat)
    requires Unlinked(layer, v) && ep != v
    ensures v !in Reach(layer, ep)
  {
  }

  /** Only one layer changes. */
  ghost predicate OnlyLayer(a: seq<Node>, b: seq<Node>, layer: nat) {
    |a| == |b| && forall l: nat | l != layer :: LayerOf(a, l) == LayerOf(b, l)
  }

  /** The lists of one layer while the first `done` of the chosen nodes have linked back. */
  ghost predicate Linking(vecs: seq<Vec>, metric: Metric, cap: nat, fresh': nat, done: seq<nat>, was: Layer, now: Layer)
  {
    && |was| == |now|
    && forall v: nat | v < |was| ::
         if v in done then LinkedTo(vecs, metric, cap, v, fresh', was[v], now[v]) else now[v] == was[v]
  }

  /** The loop that links back. */
  method LinkAll(nodes: seq<Node>, metric: Metric, m: nat, fresh': nat, layer: nat, chosen: seq<nat>)
      returns (r: seq<Node>)
    requires WellLinked(nodes, m) && fresh' < |nodes| && NoRepeats(chosen)
    requires forall s | s in chosen :: s < |nodes| && s != fresh'
    ensures WellLinked(r, m) && SameData(nodes, r) && r[fresh'] == nodes[fresh'] && OnlyLayer(nodes, r, layer)
    ensures Linking(Vectors(nodes), metric, MaxLinks(m, layer), fresh', chosen, LayerOf(nodes, layer),
                    LayerOf(r, layer))
  {
    hide WellLinked, LinkedTo;
    r := nodes;
    for i := 0 to |chosen|
      invariant WellLinked(r, m) && SameData(nodes, r) && r[fresh'] == nodes[fresh'] && OnlyLayer(nodes, r, layer)
      invariant Linking(Vectors(nodes), metric, MaxLinks(m, layer), fresh', chosen[..i], LayerOf(nodes, layer),
                        LayerOf(r, layer))
    {
      assert chosen[i] in chosen && chosen[..i + 1] == chosen[..i] + [chosen[i]];
      assert chosen[i] !in chosen[..i];
      ghost var was := r;
      r := LinkBack(r, metric, m, chosen[i], fresh', layer);
      SameVectors(nodes, was);
      OneNodeChanged(was, r, chosen[i], layer);
    }
    assert chosen[..|chosen|] == chosen;
  }

  lemma OneNodeChanged(a: seq<Node>, b: seq<Node>, nb: nat, layer: nat)
    requires |a| == |b| && nb < |a| && (forall v | 0 <= v < |a| && v != nb :: a[v] == b[v])
    requires forall l: nat | l != layer :: LinksAt(b[nb], l) == LinksAt(a[nb], l)
    ensures OnlyLayer(a, b, layer)
  {
  }

  /** A greedy choice of the new node's neighbours among the beam found from `ep`, nearest to it first. */
  ghost predicate ChosenNear(vecs: seq<Vec>, metric: Metric, cap: nat, efBuild: nat, newIdx: nat, layer: Layer, ep: nat,
                             chosen: seq<nat>)
  {
    exists cands, seen ::
      && BeamOf(layer, NodeDistance(vecs, metric, newIdx), ep, efBuild, cands, seen)
      && Greedy(vecs, metric, newIdx, cands, |cands|, cap, chosen) && chosen != [] && chosen[0] == cands[0]
  }

  /** Beam search and choice of neighbours for a node not linked yet; the first is the nearest found. */
  method ChooseAtLayer(nodes: seq<Node>, m: nat, metric: Metric, efBuild: nat, newIdx: nat, ep: nat, layer: nat)
      returns (selected: seq<nat>, next: nat)
    requires WellLinked(nodes, m) && m > 0 && newIdx < |nodes| && ep < |nodes| && ep != newIdx
    requires Unlinked(LayerOf(nodes, layer), newIdx)
    ensures ListOk(selected, newIdx, |nodes|, MaxLinks(m, layer)) && selected != [] && next == selected[0]
    ensures ChosenNear(Vectors(nodes), metric, MaxLinks(m, layer), efBuild, newIdx, LayerOf(nodes, layer), ep, selected)
  {
    LayersOk(nodes, m, layer);
    UnlinkedUnreached(LayerOf(nodes, layer), newIdx, ep);
    hide Reach, PassedOver, Diverse, InPlace, WellLinked, Unlinked, LayerOf, InRange, Settled, Expanded;
    var dist := NodeDistance(Vectors(nodes), metric, newIdx);
    var cands, seen := SearchLayer(LayerOf(nodes, layer), dist, ep, efBuild);
    forall c | c in cands ensures c < |nodes| {
      assert c in Members(cands);
      ReachNodes(nodes, layer, ep, c);
    }
    assert cands[0] in cands && cands[0] in Members(cands);
    next := cands[0];
    selected := SelectNeighbours(Vectors(nodes), metric, newIdx, cands, MaxLinks(m, layer));
    forall s | s in selected ensures s in cands && s != newIdx { assert s in cands[..|cands|]; }
  }

  /** The first of the chosen nodes is where the search on the next layer starts: no farther than `ep`, and a local
      minimum. */
  lemma NextStart(vecs: seq<Vec>, metric: Metric, cap: nat, efBuild: nat, newIdx: nat, layer: Layer, ep: nat,
                  chosen: seq<nat>)
    requires ChosenNear(vecs, metric, cap, efBuild, newIdx, layer, ep, chosen)
    ensures var dist := NodeDistance(vecs, metric, newIdx);
            chosen != [] && dist(chosen[0]) <= dist(ep) && Settled(layer, dist, chosen[0])
  {
    var dist := NodeDistance(vecs, metric, newIdx);
    hide NodeDistance;
    var cands, seen :| BeamOf(layer, dist, ep, efBuild, cands, seen)
      && Greedy(vecs, metric, newIdx, cands, |cands|, cap, chosen) && chosen != [] && chosen[0] == cands[0];
    NearestSettled(layer, dist, ep, efBuild, seen, cands);
  }

  /** One layer of an insertion: the new node's list is chosen near `ep`, the chosen nodes link back, and nothing else
      changes. */
  ghost predicate Joined(vecs: seq<Vec>, metric: Metric, cap: nat, efBuild: nat, newIdx: nat, ep: nat, was: Layer,
                         now: Layer)
  {
    && LayerLinked(vecs, metric, cap, newIdx, was, now) && now[newIdx] != []
    && ChosenNear(vecs, metric, cap, efBuild, newIdx, was, ep, now[newIdx])
  }

  /** One layer of `add`: beam search, choice of neighbours, links both ways. */
  method InsertAtLayer(nodes: seq<Node>, m: nat, metric: Metric, efBuild: nat, newIdx: nat, ep: nat, layer: nat)
      returns (r: seq<Node>, next: nat)
    requires WellLinked(nodes, m) && m > 0 && newIdx < |nodes| && ep < |nodes| && ep != newIdx
    requires layer < |nodes[newIdx].neighbours| && Unlinked(LayerOf(nodes, layer), newIdx)
    ensures WellLinked(r, m) && SameData(nodes, r) && |r[newIdx].neighbours| == |nodes[newIdx].neighbours|
    ensures OnlyLayer(nodes, r, layer)
    ensures Joined(Vectors(nodes), metric, MaxLinks(m, layer), efBuild, newIdx, ep, LayerOf(nodes, layer),
                   LayerOf(r, layer))
    ensures next < |nodes| && next != newIdx && FirstAt(LayerOf(r, layer), newIdx, next)
  {
    var selected;
    selected, next := ChooseAtLayer(nodes, m, metric, efBuild, newIdx, ep, layer);
    hide Unlinked, ChosenNear, LinkedTo, LayerOf, OnlyLayer, LayerLinked, Linking, Vectors;
    assert next in selected;
    var lists := nodes[newIdx].neighbours[layer := selected];
    assert forall l | 0 <= l < |lists| :: ListOk(lists[l], newIdx, |nodes|, MaxLinks(m, l));
    ReplaceList(nodes, m, newIdx, lists);
    var placed := nodes[newIdx := nodes[newIdx].(neighbours := lists)];
    hide WellLinked, ListOk;
    r := LinkAll(placed, metric, m, newIdx, layer, selected);
    PlacedThenLinked(nodes, m, metric, newIdx, layer, placed, selected, r);
  }

  lemma PlacedThenLinked(nodes: seq<Node>, m: nat, metric: Metric, newIdx: nat, layer: nat, placed: seq<Node>,
                         chosen: seq<nat>, r: seq<Node>)
    requires newIdx < |nodes| && layer < |nodes[newIdx].neighbours| && newIdx !in chosen && SameData(nodes, placed)
    requires placed == nodes[newIdx := nodes[newIdx].(neighbours := nodes[newIdx].neighbours[layer := chosen])]
    requires OnlyLayer(placed, r, layer)
    requires Linking(Vectors(placed), metric, MaxLinks(m, layer), newIdx, chosen, LayerOf(placed, layer),
                     LayerOf(r, layer))
    ensures Vectors(nodes) == Vectors(placed) && OnlyLayer(nodes, r, layer) && LayerOf(r, layer)[newIdx] == chosen
    ensures LayerLinked(Vectors(nodes), metric, MaxLinks(m, layer), newIdx, LayerOf(nodes, layer), LayerOf(r, layer))
  {
    hide LinkedTo;
    SameVectors(nodes, placed);
    OneNodeChanged(nodes, placed, newIdx, layer);
    assert LayerOf(placed, layer)[newIdx] == chosen;
  }

  ghost predicate FirstAt(layer: Layer, v: nat, first: nat) {
    v < |layer| && layer[v] != [] && layer[v][0] == first
  }

  /** What an insertion does to all layers: up to `top` the node joins, starting from the entries given, which follow
      the nearest found one layer up; the layers above keep their links. */
  ghost predicate JoinedAll(m: nat, metric: Metric, efBuild: nat, newIdx: nat, top: nat, entries: seq<nat>,
                            was: seq<Node>, now: seq<Node>)
  {
    && newIdx < |was| == |now| && |entries| == top + 1
    && (forall l: nat | l <= top ::
          Joined(Vectors(now), metric, if l == 0 then 2 * m else m, efBuild, newIdx, entries[l], LayerOf(was, l),
                 LayerOf(now, l)))
    && (forall l: nat | l < top :: FirstAt(LayerOf(now, l + 1), newIdx, entries[l]))
    && (forall l: nat | l > top :: LayerOf(now, l) == LayerOf(was, l))
  }

  /** The loop of `add` from layer `top` down to the bottom. */
  method LinkNode(nodes: seq<Node>, m: nat, metric: Metric, efBuild: nat, newIdx: nat, start: nat, top: nat)
      returns (r: seq<Node>, ghost entries: seq<nat>)
    requires WellLinked(nodes, m) && m > 0 && newIdx < |nodes| && start < |nodes| && start != newIdx
    requires top < |nodes[newIdx].neighbours| && Isolated(nodes, newIdx)
    ensures WellLinked(r, m) && SameData(nodes, r)
    ensures JoinedAll(m, metric, efBuild, newIdx, top, entries, nodes, r) && entries[top] == start
  {
    hide WellLinked, Joined, LayerOf, LinksAt, FirstAt, Unlinked, Vectors;
    var ep: nat, lyr: nat := start, 1 + top;
    r, entries := nodes, seq(top + 1, _ => start);
    while lyr > 0
      invariant WellLinked(r, m) && SameData(nodes, r) && ep < |nodes| && ep != newIdx
      invariant lyr <= top + 1 == |entries| && |r[newIdx].neighbours| == |nodes[newIdx].neighbours|
      invariant forall l: nat | l < lyr || l > top :: LayerOf(r, l) == LayerOf(nodes, l)
      invariant forall l: nat | lyr <= l <= top ::
        Joined(Vectors(nodes), metric, MaxLinks(m, l), efBuild, newIdx, entries[l], LayerOf(nodes, l), LayerOf(r, l))
      invariant if lyr > top then ep == start else entries[top] == start && FirstAt(LayerOf(r, lyr), newIdx, ep)
      invariant forall l: nat | lyr <= l < top :: FirstAt(LayerOf(r, l + 1), newIdx, entries[l])
    {
      lyr := lyr - 1;
      ghost var was := r;
      entries := entries[lyr := ep];
      r, ep := InsertAtLayer(r, m, metric, efBuild, newIdx, ep, lyr);
      SameVectors(nodes, was);
    }
    SameVectors(nodes, r);
  }

  // ---------------------------------------------------------------- the index

  datatype SearchResult = SearchResult(key: Bytes, distance: real, rank: nat)

  /** The node `add` pushes: one empty list for each of its layers. */
  function NewNode(vector: Vec, key: Bytes, level: nat): Node { Node(vector, key, seq(level + 1, _ => [])) }

  /** Where the descent to a node of level `level` ends: at the entry point itself if that is no higher, else no
      farther, at a local minimum of the layer above the node's own. */
  ghost predicate StartFound(nodes: seq<Node>, dist: Distance, entry: nat, entryLevel: nat, level: nat, start: nat) {
    if level >= entryLevel then start == entry
    else start < |nodes| && dist(start) <= dist(entry) && Settled(LayerOf(nodes, level + 1), dist, start)
  }

  lemma AppendedLayer(nodes: seq<Node>, n: Node, layer: nat)
    requires LinksAt(n, layer) == []
    ensures LayerOf(nodes + [n], layer) == LayerOf(nodes, layer) + [[]]
  {
  }

  /** Inserting into a connected bottom layer whose lists have room for all other nodes. */
  lemma AttachKeepsConnected(was: seq<Node>, m: nat, metric: Metric, efBuild: nat, n: Node, top: nat,
                             entries: seq<nat>, now: seq<Node>)
    requires WellLinked(was, m) && WellLinked(now, m) && Connected(LayerOf(was, 0)) && |was| <= 2 * m
    requires LinksAt(n, 0) == [] && JoinedAll(m, metric, efBuild, |was|, top, entries, was + [n], now)
    ensures Connected(LayerOf(now, 0))
  {
    AppendedLayer(was, n, 0);
    LayersOk(was, m, 0);
    LayersOk(now, m, 0);
    assert Joined(Vectors(now), metric, MaxLinks(m, 0), efBuild, |was|, entries[0], LayerOf(was + [n], 0),
                  LayerOf(now, 0));
    assert ListOk(LayerOf(now, 0)[|was|], |was|, |now|, MaxLinks(m, 0));
    hide Connected, WellLinked, LinkedTo, LayerOf, ChosenNear;
    JoinKeepsConnected(Vectors(now), metric, MaxLinks(m, 0), LayerOf(was, 0), LayerOf(now, 0));
  }

  /** `add` to an index with an entry point. */
  method Attach(was: seq<Node>, m: nat, metric: Metric, efBuild: nat, entry: nat, entryLevel: nat, n: Node, level: nat)
      returns (r: seq<Node>, ghost entries: seq<nat>)
    requires WellLinked(was, m) && m > 0 && entry < |was| && (|was| <= 2 * m + 1 ==> Connected(LayerOf(was, 0)))
    requires n == NewNode(n.vector, n.key, level)
    ensures WellLinked(r, m) && (|r| <= 2 * m + 1 ==> Connected(LayerOf(r, 0)))
    ensures |r| == |was| + 1 && SameData(was + [n], r)
    ensures var top := Smaller(level, entryLevel);
      && JoinedAll(m, metric, efBuild, |was|, top, entries, was + [n], r)
      && StartFound(was, NodeDistance(Vectors(r), metric, |was|), entry, entryLevel, level, entries[top])
  {
    var nodes := was + [n];
    AppendKeeps(was, m, n);
    NewNodeUnlinked(was, m, n);
    assert LinksAt(n, 0) == [];
    hide WellLinked, Connected, LayerOf, StartFound, NodeDistance, Vectors, Isolated, Joined, Settled, FirstAt;
    var ep := Descend(nodes, m, NodeDistance(Vectors(nodes), metric, |was|), entry, entryLevel, level + 1);
    DescentIsOld(was, n, NodeDistance(Vectors(nodes), metric, |was|), entry, entryLevel, level, ep);
    r, entries := LinkNode(nodes, m, metric, efBuild, |was|, ep, Smaller(level, entryLevel));
    SameVectors(nodes, r);
    if |r| <= 2 * m + 1 {
      hide JoinedAll;
      AttachKeepsConnected(was, m, metric, efBuild, n, Smaller(level, entryLevel), entries, r);
    }
  }

  /** The descent sees the index as it was before the push. */
  lemma DescentIsOld(was: seq<Node>, n: Node, dist: Distance, entry: nat, entryLevel: nat, level: nat, ep: nat)
    requires n == NewNode(n.vector, n.key, level) && ep < |was| && dist(ep) <= dist(entry)
    requires entryLevel < level + 1 ==> ep == entry
    requires level < entryLevel ==> Settled(LayerOf(was + [n], level + 1), dist, ep)
    ensures StartFound(was, dist, entry, entryLevel, level, ep)
  {
    AppendedLayer(was, n, level + 1);
  }

  /** Every list is admissible, only an empty index has no entry point, and while the bottom lists have room for every
      other node, all nodes reach each other there. */
  ghost predicate IndexOk(nodes: seq<Node>, m: nat, entryPoint: Option<nat>) {
    && WellLinked(nodes, m) && (|nodes| <= 2 * m + 1 ==> Connected(LayerOf(nodes, 0)))
    && (entryPoint.None? <==> nodes == []) && (entryPoint.Some? ==> entryPoint.value < |nodes|)
  }

  /** The node is appended and all others keep vector and key; on each layer it shares with the index it chooses its
      links from the beam around where the descent ended, and is linked back; a higher level makes it the entry. */
  ghost predicate Added(was: seq<Node>, entry: Option<nat>, entryLevel: nat, m: nat, metric: Metric, efBuild: nat,
                        n: Node, level: nat, entries: seq<nat>, now: seq<Node>, entry': Option<nat>, level': nat)
  {
    && SameData(was + [n], now)
    && (if was == [] || level > entryLevel then entry' == Some(|was|) && level' == level
        else entry' == entry && level' == entryLevel)
    && (entry.Some? ==>
          var top := Smaller(level, entryLevel);
          && JoinedAll(m, metric, efBuild, |was|, top, entries, was + [n], now)
          && StartFound(was, NodeDistance(Vectors(now), metric, |was|), entry.value, entryLevel, level, entries[top]))
  }

  method AddNode(was: seq<Node>, entry: Option<nat>, entryLevel: nat, m: nat, metric: Metric, efBuild: nat, n: Node,
                 level: nat)
      returns (now: seq<Node>, entry': Option<nat>, level': nat, ghost entries: seq<nat>)
    requires IndexOk(was, m, entry) && m > 0 && n == NewNode(n.vector, n.key, level)
    ensures IndexOk(now, m, entry')
    ensures Added(was, entry, entryLevel, m, metric, efBuild, n, level, entries, now, entry', level')
  {
    entry', level', entries := entry, entryLevel, [];
    if entry.None? {
      now := [n];
      entry', level' := Some(0), level;
      assert was + [n] == [n];
      assert Walk(LayerOf(now, 0), 0, 0, 0);
      return;
    }
    hide WellLinked, Connected, JoinedAll, StartFound, SameData;
    now, entries := Attach(was, m, metric, efBuild, entry.value, entryLevel, n, level);
    if level > entryLevel { entry', level' := Some(|was|), level; }
  }

  class HnswIndex {
    const dim: nat
    const m: nat
    const efBuild: nat
    const efSearch: nat
    const metric: Metric
    /** Scaling to unit length; fails on a zero vector. */
    const normalize: Vec -> Option<Vec>
    var nodes: seq<Node>
    var entryPoint: Option<nat>
    var entryLevel: nat

    ghost predicate Valid() reads this { m >= 2 && IndexOk(nodes, m, entryPoint) }

    constructor (dim: nat, m: nat, efBuild: nat, efSearch: nat, metric: Metric, normalize: Vec -> Option<Vec>)
      requires dim > 0 && m >= 2
      ensures Valid() && nodes == []
    {
      this.dim, this.m, this.efBuild, this.efSearch, this.metric, this.normalize :=
        dim, m, efBuild, efSearch, metric, normalize;
      nodes, entryPoint, entryLevel := [], None, 0;
    }

    /** `add` with the drawn level: a bad vector changes nothing; any other is `Added`. */
    method Add(key: Bytes, vector: Vec, level: nat) returns (ok: bool, ghost entries: seq<nat>)
      requires Valid()
      modifies this
      ensures Valid()
      ensures ok <==> |vector| == dim && normalize(vector).Some?
      ensures !ok ==> nodes == old(nodes) && entryPoint == old(entryPoint) && entryLevel == old(entryLevel)
      ensures ok ==> Added(old(nodes), old(entryPoint), old(entryLevel), m, metric, efBuild,
                           NewNode(normalize(vector).value, key, level), level, entries, nodes, entryPoint, entryLevel)
    {
      if |vector| != dim { return false, []; }
      var unit := normalize(vector);
      if unit.None? { return false, []; }
      hide IndexOk, Added, NewNode;
      nodes, entryPoint, entryLevel, entries :=
        AddNode(nodes, entryPoint, entryLevel, m, metric, efBuild, NewNode(unit.value, key, level), level);
      ok := true;
    }

    /** `search`: at most `k` results by ascending distance to the query, ranks in order, every key with its own
        distance; they are no farther than any neighbour of theirs left out, and the `k` nearest of everything reachable
        there, or all of it, when the beam is wide enough for it. In an index of at most `2 * m + 1` vectors everything
        is reachable: with a beam as wide as the index the `k` nearest of all stored vectors come back. Only an empty
        index or a bad query gives nothing. */
    method Search(query: Vec, k: nat) returns (results: seq<SearchResult>, ghost from: nat, ghost chosen: seq<nat>)
      requires Valid()
      ensures results == [] <==> nodes == [] || k == 0 || |query| != dim || normalize(query).None?
      ensures results != [] ==>
        && entryPoint.Some? && Found(nodes, metric, normalize(query).value, entryPoint.value,
                                     if efSearch > k then efSearch else k, k, results, from, chosen)
        && (|nodes| <= 2 * m + 1 && (|nodes| <= efSearch || |nodes| <= k) ==>
              NearestStored(nodes, metric, normalize(query).value, k, results, chosen))
    {
      results, from, chosen := [], 0, [];
      if nodes == [] || k == 0 || |query| != dim { return; }
      var unit := normalize(query);
      if unit.None? { return; }
      hide WellLinked, Connected, LayerOf, Found, NearestStored;
      results, from, chosen :=
        Find(nodes, m, metric, unit.value, entryPoint.value, entryLevel, if efSearch > k then efSearch else k, k);
    }
  }

  /** The results in order of rank, each with its node's key and distance to the query. */
  ghost predicate Listed(nodes: seq<Node>, metric: Metric, q: Vec, chosen: seq<nat>, results: seq<SearchResult>) {
    && |results| == |chosen| && (forall i | 0 <= i < |chosen| :: chosen[i] < |nodes|)
    && forall i | 0 <= i < |results| ::
         results[i] == SearchResult(nodes[chosen[i]].key, metric(nodes[chosen[i]].vector, q), i)
  }

  /** The nearest of the bottom-layer beam from a node no farther than the entry point. */
  ghost predicate Found(nodes: seq<Node>, metric: Metric, q: Vec, entry: nat, ef: nat, k: nat,
                        results: seq<SearchResult>, from: nat, chosen: seq<nat>)
  {
    && from < |nodes| && DistanceTo(nodes, metric, q)(from) <= DistanceTo(nodes, metric, q)(entry)
    && NearestOf(LayerOf(nodes, 0), DistanceTo(nodes, metric, q), from, ef, k, chosen)
    && Listed(nodes, metric, q, chosen, results)
  }

  /** `k` different stored vectors, or all of them, by ascending distance; none left out is nearer than any of them. */
  ghost predicate NearestStored(nodes: seq<Node>, metric: Metric, q: Vec, k: nat, results: seq<SearchResult>,
                                chosen: seq<nat>)
  {
    && |results| == Smaller(k, |nodes|) && NoRepeats(chosen) && Listed(nodes, metric, q, chosen, results)
    && (forall i, j | 0 <= i < j < |results| :: results[i].distance <= results[j].distance)
    && forall v, i | 0 <= v < |nodes| && v !in chosen && 0 <= i < |results| ::
         results[i].distance <= metric(nodes[v].vector, q)
  }

  /** The descent, the bottom-layer beam and the cut to `k`. */
  method Find(nodes: seq<Node>, m: nat, metric: Metric, q: Vec, entry: nat, entryLevel: nat, ef: nat, k: nat)
      returns (results: seq<SearchResult>, ghost from: nat, ghost chosen: seq<nat>)
    requires WellLinked(nodes, m) && entry < |nodes| && k > 0
    ensures results != [] && Found(nodes, metric, q, entry, ef, k, results, from, chosen)
    ensures Connected(LayerOf(nodes, 0)) && |nodes| <= ef ==> NearestStored(nodes, metric, q, k, results, chosen)
  {
    hide WellLinked, Connected, LayerOf, NearestOf, Settled, Isolated;
    var dist := DistanceTo(nodes, metric, q);
    var ep := Descend(nodes, m, dist, entry, entryLevel, 1);
    var best := NearestInBeam(nodes, m, dist, ep, ef, k);
    from, chosen := ep, best;
    results := MakeResults(nodes, dist, best);
    if Connected(LayerOf(nodes, 0)) && |nodes| <= ef { NearestOfAll(nodes, dist, ep, ef, k, best); }
  }

  method MakeResults(nodes: seq<Node>, dist: Distance, best: seq<nat>) returns (results: seq<SearchResult>)
    requires forall i | 0 <= i < |best| :: best[i] < |nodes|
    ensures |results| == |best|
    ensures forall i | 0 <= i < |best| :: results[i] == SearchResult(nodes[best[i]].key, dist(best[i]), i)
  {
    results := [];
    for i := 0 to |best|
      invariant |results| == i
      invariant forall j | 0 <= j < i :: results[j] == SearchResult(nodes[best[j]].key, dist(best[j]), j)
    {
      results := results + [SearchResult(nodes[best[i]].key, dist(best[i]), i)];
    }
  }

  /** A neighbour left out is at least as far as everything returned. */
  ghost predicate NothingNearerBeside(layer: Layer, dist: Distance, best: seq<nat>) {
    forall b, u, r | b in best && b < |layer| && u in layer[b] && u !in best && r in best :: dist(r) <= dist(u)
  }

  /** At most `k` nodes reached from `ep`, sorted and no farther than any neighbour of theirs left out; when the beam
      holds all that is reachable, the `k` nearest of it or all of it. */
  ghost predicate NearestOf(layer: Layer, dist: Distance, ep: nat, ef: nat, k: nat, best: seq<nat>) {
    && 0 < |best| <= k && Ordered(dist, best) && Members(best) <= Reach(layer, ep)
    && NothingNearerBeside(layer, dist, best)
    && (|Reach(layer, ep)| <= ef ==>
          && |best| == Smaller(k, |Reach(layer, ep)|)
          && forall v, r | v in Reach(layer, ep) && v !in best && r in best :: dist(r) <= dist(v))
  }

  /** The bottom-layer beam, cut to `k`. */
  method NearestInBeam(nodes: seq<Node>, m: nat, dist: Distance, ep: nat, ef: nat, k: nat) returns (best: seq<nat>)
    requires WellLinked(nodes, m) && ep < |nodes| && k > 0
    ensures NearestOf(LayerOf(nodes, 0), dist, ep, ef, k, best)
    ensures best != [] && forall i | 0 <= i < |best| :: best[i] < |nodes|
  {
    LayersOk(nodes, m, 0);
    hide WellLinked, Reach, Ordered, Expanded, InRange, NothingNearerBeside;
    var beam, seen := SearchLayer(LayerOf(nodes, 0), dist, ep, ef);
    best := if |beam| > k then beam[..k] else beam;
    BeamCut(LayerOf(nodes, 0), dist, ep, beam, seen, best);
    OrderedSize(dist, beam);
  }

  /** On a connected layer, with a beam for all nodes, the nearest reached are the nearest of all. */
  lemma NearestOfAll(nodes: seq<Node>, dist: Distance, ep: nat, ef: nat, k: nat, best: seq<nat>)
    requires Connected(LayerOf(nodes, 0)) && ep < |nodes| <= ef && NearestOf(LayerOf(nodes, 0), dist, ep, ef, k, best)
    ensures |best| == Smaller(k, |nodes|) && NoRepeats(best)
    ensures forall i, j | 0 <= i < j < |best| :: dist(best[i]) <= dist(best[j])
    ensures forall v, i | 0 <= v < |nodes| && v !in best && 0 <= i < |best| :: dist(best[i]) <= dist(v)
  {
    ConnectedReach(LayerOf(nodes, 0), ep);
    hide Reach, Connected, NothingNearerBeside;
    forall v, i | 0 <= v < |nodes| && v !in best && 0 <= i < |best| ensures dist(best[i]) <= dist(v) {
      assert best[i] in best && v in Reach(LayerOf(nodes, 0), ep);
    }
  }

  /** The front of a sorted beam inherits what the beam promises. */
  lemma BeamCut(layer: Layer, dist: Distance, ep: nat, beam: seq<nat>, seen: set<nat>, best: seq<nat>)
    requires Ordered(dist, beam) && Members(beam) <= seen <= Reach(layer, ep)
    requires Expanded(layer, seen, {}, Members(beam))
    requires best <= beam && forall v, r | v in seen && v !in beam && r in beam :: dist(r) <= dist(v)
    ensures Ordered(dist, best) && Members(best) <= Reach(layer, ep) && NothingNearerBeside(layer, dist, best)
    ensures forall i | 0 <= i < |best| :: best[i] < |layer|
    ensures forall v, r | v in seen && v !in best && r in best :: dist(r) <= dist(v)
  {
    forall i | 0 <= i < |best| ensures best[i] in beam && best[i] in Reach(layer, ep) && best[i] < |layer| {
      assert best[i] == beam[i] && beam[i] in Members(beam);
      ReachBound(layer, ep, beam[i]);
    }
    hide Reach;
    forall v, r | v in seen && v !in best && r in best ensures dist(r) <= dist(v) {
      var j :| 0 <= j < |best| && best[j] == r;
      assert beam[j] == r;
      if v in beam {
        var i :| 0 <= i < |beam| && beam[i] == v;
        assert i >= |best|;
      }
    }
    forall b | b in best && b < |layer| ensures forall u | u in layer[b] :: u in seen {
      assert b in beam && b in Members(beam);
    }
  }

  lemma NewNodeUnlinked(nodes: seq<Node>, m: nat, n: Node)
    requires WellLinked(nodes, m) && forall l | 0 <= l < |n.neighbours| :: n.neighbours[l] == []
    ensures Isolated(nodes + [n], |nodes|)
  {
    var all := nodes + [n];
    forall l: nat, u: nat | u < |all| ensures |nodes| !in LayerOf(all, l)[u] {
      if u < |nodes| && l < |nodes[u].neighbours| { assert ListOk(nodes[u].neighbours[l], u, |nodes|, MaxLinks(m, l)); }
    }
  }

  lemma AppendKeeps(nodes: seq<Node>, m: nat, n: Node)
    requires WellLinked(nodes, m) && forall l | 0 <= l < |n.neighbours| :: n.neighbours[l] == []
    ensures WellLinked(nodes + [n], m)
  {
    var all := nodes + [n];
    forall v, l | 0 <= v < |all| && 0 <= l < |all[v].neighbours|
      ensures ListOk(all[v].neighbours[l], v, |all|, MaxLinks(m, l))
    {
      if v < |nodes| { assert ListOk(nodes[v].neighbours[l], v, |nodes|, MaxLinks(m, l)); }
    }
  }
}
