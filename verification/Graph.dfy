/** The relation graph: adjacency lists while it is built, compressed sparse rows while it is queried, and
    breadth-first search against shortest walks in the lists the rows were made from. */
module Graph {
  import opened Common

  datatype Relation = Imports | Calls | Inherits | Tests | Defines

  datatype Edge = Edge(dst: nat, relation: Relation)

  type Adjacency = seq<seq<Edge>>

  datatype Csr = Csr(ptr: seq<nat>, dst: seq<nat>, rel: seq<Relation>)

  ghost predicate InRange(adj: Adjacency) {
    forall v, j | 0 <= v < |adj| && 0 <= j < |adj[v]| :: adj[v][j].dst < |adj|
  }

  // ---------------------------------------------------------------- compressed rows

  /** Row `v` of the arrays lists exactly the edges of `adj[v]`, in order. */
  ghost predicate RowMatches(csr: Csr, adj: Adjacency, v: nat)
    requires v < |adj|
  {
    && v + 1 < |csr.ptr| && csr.ptr[v + 1] == csr.ptr[v] + |adj[v]|
    && csr.ptr[v + 1] <= |csr.dst| && |csr.dst| == |csr.rel|
    && forall j | 0 <= j < |adj[v]| :: Edge(csr.dst[csr.ptr[v] + j], csr.rel[csr.ptr[v] + j]) == adj[v][j]
  }

  ghost predicate Represents(csr: Csr, adj: Adjacency) {
    && |csr.ptr| == |adj| + 1 && csr.ptr[0] == 0 && csr.ptr[|adj|] == |csr.dst|
    && forall v | 0 <= v < |adj| :: RowMatches(csr, adj, v)
  }

  /** One of the two passes of `build`. */
  method BuildRows(adj: Adjacency) returns (csr: Csr)
    ensures Represents(csr, adj)
  {
    var ptr: seq<nat>, dst: seq<nat>, rel: seq<Relation> := [], [], [];
    var offset: nat := 0;
    for i := 0 to |adj|
      invariant |ptr| == i && offset == |dst| == |rel| && (i > 0 ==> ptr[0] == 0) && (i == 0 ==> offset == 0)
      invariant forall v | 0 <= v < i :: RowMatches(Csr(ptr + [offset], dst, rel), adj, v)
    {
      ghost var before := Csr(ptr + [offset], dst, rel);
      ptr := ptr + [offset];
      for j := 0 to |adj[i]|
        invariant |dst| == |rel| == offset + j && before.dst <= dst && before.rel <= rel
        invariant forall l | 0 <= l < j :: Edge(dst[offset + l], rel[offset + l]) == adj[i][l]
      {
        dst := dst + [adj[i][j].dst];
        rel := rel + [adj[i][j].relation];
      }
      offset := offset + |adj[i]|;
      ghost var after := Csr(ptr + [offset], dst, rel);
      forall v | 0 <= v <= i ensures RowMatches(after, adj, v) {
        if v < i {
          assert RowMatches(before, adj, v);
          assert after.ptr[v] == before.ptr[v] && after.ptr[v + 1] == before.ptr[v + 1];
        }
      }
    }
    csr := Csr(ptr + [offset], dst, rel);
  }

  // ---------------------------------------------------------------- walks

  /** An edge from `v` to `t` that the filter lets through, carrying `relation`. */
  ghost predicate LinkedBy(adj: Adjacency, filter: Option<Relation>, v: nat, t: nat, relation: Relation) {
    && v < |adj| && (filter.None? || relation == filter.value)
    && exists j :: 0 <= j < |adj[v]| && adj[v][j] == Edge(t, relation)
  }

  ghost predicate Linked(adj: Adjacency, filter: Option<Relation>, v: nat, t: nat) {
    exists relation :: LinkedBy(adj, filter, v, t, relation)
  }

  /** Some walk of exactly `n` filtered edges leads from `s` to `t`. */
  ghost predicate Walk(adj: Adjacency, filter: Option<Relation>, s: nat, t: nat, n: nat)
    decreases n
  {
    if n == 0 then s == t
    else exists v: nat :: Walk(adj, filter, s, v, n - 1) && Linked(adj, filter, v, t)
  }

  /** `n` is the length of a shortest walk from `s` to `t`. */
  ghost predicate Distance(adj: Adjacency, filter: Option<Relation>, s: nat, t: nat, n: nat) {
    Walk(adj, filter, s, t, n) && forall m: nat | m < n :: !Walk(adj, filter, s, t, m)
  }

  // ---------------------------------------------------------------- breadth-first search

  datatype Visit = Visit(node: nat, depth: nat, relation: Option<Relation>)

  ghost predicate Seen(visits: seq<Visit>, t: nat) {
    exists i :: 0 <= i < |visits| && visits[i].node == t
  }

  /** `t` was found no deeper than `depth`. */
  ghost predicate SeenBy(visits: seq<Visit>, t: nat, depth: nat) {
    exists i :: 0 <= i < |visits| && visits[i].node == t && visits[i].depth <= depth
  }

  /** Each node once, in non-decreasing depth order, each reached by a walk as long as its depth. */
  ghost predicate Sound(adj: Adjacency, filter: Option<Relation>, s: nat, maxDepth: nat, visits: seq<Visit>) {
    && |visits| > 0 && visits[0] == Visit(s, 0, None)
    && (forall i, j | 0 <= i < j < |visits| :: visits[i].node != visits[j].node && visits[i].depth <= visits[j].depth)
    && (forall i | 0 <= i < |visits| ::
          && visits[i].node < |adj| && visits[i].depth <= maxDepth
          && Walk(adj, filter, s, visits[i].node, visits[i].depth))
    && (forall i | 0 < i < |visits| :: FoundThrough(adj, filter, visits, i))
  }

  /** Visit `i` was found from an earlier node one level up, over an edge with the recorded relation. */
  ghost predicate FoundThrough(adj: Adjacency, filter: Option<Relation>, visits: seq<Visit>, i: nat)
    requires i < |visits|
  {
    && visits[i].relation.Some?
    && exists j :: && 0 <= j < i && visits[j].depth + 1 == visits[i].depth
                   && LinkedBy(adj, filter, visits[j].node, visits[i].node, visits[i].relation.value)
  }

  /** The successors of `v` over the first `edges` entries of its row are found, no deeper than `depth`. */
  ghost predicate ExpandedTo(adj: Adjacency, filter: Option<Relation>, visits: seq<Visit>, v: nat, edges: nat,
                             depth: nat)
    requires v < |adj| && edges <= |adj[v]|
  {
    forall j | 0 <= j < edges && (filter.None? || adj[v][j].relation == filter.value) ::
      SeenBy(visits, adj[v][j].dst, depth)
  }

  /** The first `done` visits are fully expanded. */
  ghost predicate Expanded(adj: Adjacency, filter: Option<Relation>, maxDepth: nat, visits: seq<Visit>, done: nat)
    requires done <= |visits|
  {
    forall i | 0 <= i < done && visits[i].node < |adj| && visits[i].depth < maxDepth ::
      ExpandedTo(adj, filter, visits, visits[i].node, |adj[visits[i].node]|, visits[i].depth + 1)
  }

  lemma SeenByGrows(visits: seq<Visit>, v: Visit, t: nat, depth: nat)
    ensures SeenBy(visits, t, depth) ==> SeenBy(visits + [v], t, depth)
    ensures v.depth <= depth ==> SeenBy(visits + [v], v.node, depth)
    ensures Seen(visits + [v], t) <==> Seen(visits, t) || t == v.node
  {
    var w := visits + [v];
    assert w[|visits|] == v && forall i | 0 <= i < |visits| :: w[i] == visits[i];
  }

  /** Appending a newly found node keeps everything. */
  lemma VisitKeeps(adj: Adjacency, filter: Option<Relation>, s: nat, maxDepth: nat, visits: seq<Visit>, from: nat,
                   t: nat, relation: Relation)
    requires Sound(adj, filter, s, maxDepth, visits) && from < |visits| && Expanded(adj, filter, maxDepth, visits, from)
    requires forall i | 0 <= i < |visits| :: visits[i].depth <= visits[from].depth + 1
    requires visits[from].depth < maxDepth && t < |adj| && !Seen(visits, t)
    requires LinkedBy(adj, filter, visits[from].node, t, relation)
    ensures Sound(adj, filter, s, maxDepth, visits + [Visit(t, visits[from].depth + 1, Some(relation))])
    ensures Expanded(adj, filter, maxDepth, visits + [Visit(t, visits[from].depth + 1, Some(relation))], from)
  {
    var v := Visit(t, visits[from].depth + 1, Some(relation));
    var w := visits + [v];
    assert Linked(adj, filter, visits[from].node, t);
    assert Walk(adj, filter, s, t, v.depth);
    forall i | 0 < i < |w| ensures FoundThrough(adj, filter, w, i) {
      if i < |visits| {
        assert FoundThrough(adj, filter, visits, i);
        var j :| 0 <= j < i && visits[j].depth + 1 == visits[i].depth
                 && LinkedBy(adj, filter, visits[j].node, visits[i].node, visits[i].relation.value);
        assert w[j] == visits[j] && w[i] == visits[i];
      } else {
        assert w[from] == visits[from] && w[i] == v;
      }
    }
    forall i | 0 <= i < from && w[i].node < |adj| && w[i].depth < maxDepth
      ensures ExpandedTo(adj, filter, w, w[i].node, |adj[w[i].node]|, w[i].depth + 1)
    {
      assert w[i] == visits[i];
      ExpandedGrows(adj, filter, visits, v, w[i].node, |adj[w[i].node]|, w[i].depth + 1);
    }
  }

  lemma ExpandedGrows(adj: Adjacency, filter: Option<Relation>, visits: seq<Visit>, v: Visit, node: nat, edges: nat,
                      depth: nat)
    requires node < |adj| && edges <= |adj[node]| && ExpandedTo(adj, filter, visits, node, edges, depth)
    ensures ExpandedTo(adj, filter, visits + [v], node, edges, depth)
  {
    forall j | 0 <= j < edges && (filter.None? || adj[node][j].relation == filter.value)
      ensures SeenBy(visits + [v], adj[node][j].dst, depth)
    {
      SeenByGrows(visits, v, adj[node][j].dst, depth);
    }
  }

  /** When every visit is expanded, each node within `maxDepth` is found no deeper than any walk to it. */
  lemma {:induction false} AllFound(adj: Adjacency, filter: Option<Relation>, s: nat, maxDepth: nat, visits: seq<Visit>,
                                    t: nat, n: nat)
    requires Sound(adj, filter, s, maxDepth, visits) && Expanded(adj, filter, maxDepth, visits, |visits|)
    requires n <= maxDepth && Walk(adj, filter, s, t, n)
    ensures SeenBy(visits, t, n)
    decreases n
  {
    if n == 0 {
      assert visits[0].node == t;
    } else {
      var v: nat :| Walk(adj, filter, s, v, n - 1) && Linked(adj, filter, v, t);
      AllFound(adj, filter, s, maxDepth, visits, v, n - 1);
      var i :| 0 <= i < |visits| && visits[i].node == v && visits[i].depth <= n - 1;
      var relation :| LinkedBy(adj, filter, v, t, relation);
      var j :| 0 <= j < |adj[v]| && adj[v][j] == Edge(t, relation);
      assert ExpandedTo(adj, filter, visits, v, |adj[v]|, visits[i].depth + 1);
      var m :| 0 <= m < |visits| && visits[m].node == t && visits[m].depth <= visits[i].depth + 1;
    }
  }

  /** The meaning of a finished search: exactly the nodes within `maxDepth`, at their shortest distance. */
  lemma VisitsAreDistances(adj: Adjacency, filter: Option<Relation>, s: nat, maxDepth: nat, visits: seq<Visit>)
    requires Sound(adj, filter, s, maxDepth, visits) && Expanded(adj, filter, maxDepth, visits, |visits|)
    ensures forall i | 0 <= i < |visits| :: Distance(adj, filter, s, visits[i].node, visits[i].depth)
    ensures forall t, n: nat | n <= maxDepth && Walk(adj, filter, s, t, n) :: Seen(visits, t)
  {
    forall i, m: nat | 0 <= i < |visits| && m < visits[i].depth ensures !Walk(adj, filter, s, visits[i].node, m) {
      if Walk(adj, filter, s, visits[i].node, m) {
        AllFound(adj, filter, s, maxDepth, visits, visits[i].node, m);
        assert false;
      }
    }
    forall t, n: nat | n <= maxDepth && Walk(adj, filter, s, t, n) ensures Seen(visits, t) {
      AllFound(adj, filter, s, maxDepth, visits, t, n);
      var i :| 0 <= i < |visits| && visits[i].node == t && visits[i].depth <= n;
    }
  }

  /** The queue of `bfs` is the tail of its results: the entries from `done` on. */
  ghost predicate QueueIs(queue: seq<(nat, nat)>, visits: seq<Visit>, done: nat) {
    && done <= |visits| && |queue| == |visits| - done
    && forall i | 0 <= i < |queue| :: queue[i] == (visits[done + i].node, visits[done + i].depth)
  }

  ghost predicate VisitedIs(visited: map<nat, nat>, visits: seq<Visit>) {
    && (forall t :: t in visited <==> Seen(visits, t))
    && (forall i | 0 <= i < |visits| :: visits[i].node in visited && visited[visits[i].node] == visits[i].depth)
  }

  /** The search between two expansions: the first `done` visits are expanded, the rest are queued. */
  ghost predicate Searching(adj: Adjacency, filter: Option<Relation>, s: nat, maxDepth: nat,
                            visited: map<nat, nat>, queue: seq<(nat, nat)>, visits: seq<Visit>, done: nat) {
    && Sound(adj, filter, s, maxDepth, visits)
    && QueueIs(queue, visits, done) && VisitedIs(visited, visits)
    && Expanded(adj, filter, maxDepth, visits, done)
    && (done < |visits| ==> forall i | 0 <= i < |visits| :: visits[i].depth <= visits[done].depth + 1)
  }

  /** The search inside an expansion: visit `done` has left the queue and `edges` of its row are handled. */
  ghost predicate Expanding(adj: Adjacency, filter: Option<Relation>, s: nat, maxDepth: nat,
                            visited: map<nat, nat>, queue: seq<(nat, nat)>, visits: seq<Visit>, done: nat,
                            node: nat, depth: nat, edges: nat) {
    && Sound(adj, filter, s, maxDepth, visits)
    && QueueIs(queue, visits, done + 1) && VisitedIs(visited, visits)
    && Expanded(adj, filter, maxDepth, visits, done)
    && visits[done].node == node && visits[done].depth == depth < maxDepth
    && node < |adj| && edges <= |adj[node]| && ExpandedTo(adj, filter, visits, node, edges, depth + 1)
    && (forall i | 0 <= i < |visits| :: visits[i].depth <= depth + 1)
  }

  lemma SearchStarts(adj: Adjacency, filter: Option<Relation>, s: nat, maxDepth: nat)
    requires s < |adj|
    ensures Searching(adj, filter, s, maxDepth, map[s := 0], [(s, 0)], [Visit(s, 0, None)], 0)
  {
    var visits := [Visit(s, 0, None)];
    assert visits[0].node == s;
  }

  lemma ExpansionStarts(adj: Adjacency, filter: Option<Relation>, s: nat, maxDepth: nat,
                        visited: map<nat, nat>, queue: seq<(nat, nat)>, visits: seq<Visit>, done: nat)
    requires queue != [] && Searching(adj, filter, s, maxDepth, visited, queue, visits, done)
    ensures queue[0].0 < |adj| && queue[0].0 in visited
    ensures queue[0].1 < maxDepth ==>
              Expanding(adj, filter, s, maxDepth, visited, queue[1..], visits, done, queue[0].0, queue[0].1, 0)
    ensures queue[0].1 >= maxDepth ==> Searching(adj, filter, s, maxDepth, visited, queue[1..], visits, done + 1)
  {
    assert queue[0] == (visits[done].node, visits[done].depth);
    forall i | 0 <= i < |queue[1..]| ensures queue[1..][i] == (visits[done + 1 + i].node, visits[done + 1 + i].depth) {
      assert queue[1..][i] == queue[i + 1];
    }
  }

  lemma ExpansionEnds(adj: Adjacency, filter: Option<Relation>, s: nat, maxDepth: nat,
                      visited: map<nat, nat>, queue: seq<(nat, nat)>, visits: seq<Visit>, done: nat,
                      node: nat, depth: nat)
    requires node < |adj|
    requires Expanding(adj, filter, s, maxDepth, visited, queue, visits, done, node, depth, |adj[node]|)
    ensures Searching(adj, filter, s, maxDepth, visited, queue, visits, done + 1)
  {
  }

  /** An edge the filter rejects, or whose target is known, needs no action. */
  lemma EdgeSkipped(adj: Adjacency, filter: Option<Relation>, s: nat, maxDepth: nat,
                    visited: map<nat, nat>, queue: seq<(nat, nat)>, visits: seq<Visit>, done: nat,
                    node: nat, depth: nat, edges: nat)
    requires Expanding(adj, filter, s, maxDepth, visited, queue, visits, done, node, depth, edges)
    requires edges < |adj[node]|
    requires (filter.Some? && adj[node][edges].relation != filter.value) || adj[node][edges].dst in visited
    ensures Expanding(adj, filter, s, maxDepth, visited, queue, visits, done, node, depth, edges + 1)
  {
    if adj[node][edges].dst in visited {
      assert Seen(visits, adj[node][edges].dst);
      assert SeenBy(visits, adj[node][edges].dst, depth + 1);
    }
  }

  lemma EdgeFollowed(adj: Adjacency, filter: Option<Relation>, s: nat, maxDepth: nat,
                     visited: map<nat, nat>, queue: seq<(nat, nat)>, visits: seq<Visit>, done: nat,
                     node: nat, depth: nat, edges: nat)
    requires InRange(adj) && Expanding(adj, filter, s, maxDepth, visited, queue, visits, done, node, depth, edges)
    requires edges < |adj[node]|
    requires (filter.None? || adj[node][edges].relation == filter.value) && adj[node][edges].dst !in visited
    ensures var Edge(nb, relation) := adj[node][edges];
            Expanding(adj, filter, s, maxDepth, visited[nb := depth + 1], queue + [(nb, depth + 1)],
                      visits + [Visit(nb, depth + 1, Some(relation))], done, node, depth, edges + 1)
  {
    hide Sound, Expanded, ExpandedTo;
    var Edge(nb, relation) := adj[node][edges];
    var v := Visit(nb, depth + 1, Some(relation));
    assert !Seen(visits, nb);
    VisitKeeps(adj, filter, s, maxDepth, visits, done, nb, relation);
    ExpandedGrows(adj, filter, visits, v, node, edges, depth + 1);
    SeenByGrows(visits, v, nb, depth + 1);
    ExpandedOneMore(adj, filter, visits + [v], node, edges, depth + 1);
    forall t ensures Seen(visits + [v], t) <==> Seen(visits, t) || t == nb { SeenByGrows(visits, v, t, depth + 1); }
    forall i | 0 <= i < |visits| ensures visits[i].node != nb { assert Seen(visits, visits[i].node); }
  }

  lemma ExpandedOneMore(adj: Adjacency, filter: Option<Relation>, visits: seq<Visit>, node: nat, edges: nat, depth: nat)
    requires node < |adj| && edges < |adj[node]| && ExpandedTo(adj, filter, visits, node, edges, depth)
    requires SeenBy(visits, adj[node][edges].dst, depth)
    ensures ExpandedTo(adj, filter, visits, node, edges + 1, depth)
  {
  }

  /** The search of `bfs` on the compressed rows. It returns each node within `maxDepth` filtered edges of the start
      exactly once and nothing else, by non-decreasing depth, with depth equal to the shortest walk. */
  method Search(csr: Csr, ghost adj: Adjacency, start: nat, maxDepth: nat, filter: Option<Relation>)
      returns (visits: seq<Visit>)
    requires InRange(adj) && Represents(csr, adj) && start < |adj|
    ensures Sound(adj, filter, start, maxDepth, visits)
    ensures forall i | 0 <= i < |visits| :: Distance(adj, filter, start, visits[i].node, visits[i].depth)
    ensures forall t, n: nat | n <= maxDepth && Walk(adj, filter, start, t, n) :: Seen(visits, t)
  {
    hide Searching, Expanding, Walk, Distance, Sound, Expanded, ExpandedTo, Seen;
    var visited: map<nat, nat> := map[start := 0];
    var queue: seq<(nat, nat)> := [(start, 0)];
    visits := [Visit(start, 0, None)];
    SearchStarts(adj, filter, start, maxDepth);
    ghost var done := 0;
    ghost var all := Below(|adj|);
    while queue != []
      invariant Searching(adj, filter, start, maxDepth, visited, queue, visits, done)
      decreases all - visited.Keys, |queue|
    {
      ExpansionStarts(adj, filter, start, maxDepth, visited, queue, visits, done);
      var (node, depth) := queue[0];
      queue := queue[1..];
      if depth < maxDepth {
        assert RowMatches(csr, adj, node);
        var startEdge, endEdge := csr.ptr[node], csr.ptr[node + 1];
        ghost var visited0, queue0 := visited, queue;
        for i := startEdge to endEdge
          invariant Expanding(adj, filter, start, maxDepth, visited, queue, visits, done, node, depth, i - startEdge)
          invariant all - visited.Keys <= all - visited0.Keys
          invariant all - visited.Keys == all - visited0.Keys ==> queue == queue0
        {
          assert Edge(csr.dst[i], csr.rel[i]) == adj[node][i - startEdge];
          var nb := csr.dst[i];
          if (filter.Some? && csr.rel[i] != filter.value) || nb in visited {
            EdgeSkipped(adj, filter, start, maxDepth, visited, queue, visits, done, node, depth, i - startEdge);
          } else {
            EdgeFollowed(adj, filter, start, maxDepth, visited, queue, visits, done, node, depth, i - startEdge);
            assert nb in all - visited.Keys;
            visited := visited[nb := depth + 1];
            queue := queue + [(nb, depth + 1)];
            visits := visits + [Visit(nb, depth + 1, Some(csr.rel[i]))];
            assert nb !in all - visited.Keys;
          }
        }
        ExpansionEnds(adj, filter, start, maxDepth, visited, queue, visits, done, node, depth);
      }
      done := done + 1;
    }
    SearchEnds(adj, filter, start, maxDepth, visited, visits, done);
  }

  lemma SearchEnds(adj: Adjacency, filter: Option<Relation>, s: nat, maxDepth: nat,
                   visited: map<nat, nat>, visits: seq<Visit>, done: nat)
    requires Searching(adj, filter, s, maxDepth, visited, [], visits, done)
    ensures Sound(adj, filter, s, maxDepth, visits)
    ensures forall i | 0 <= i < |visits| :: Distance(adj, filter, s, visits[i].node, visits[i].depth)
    ensures forall t, n: nat | n <= maxDepth && Walk(adj, filter, s, t, n) :: Seen(visits, t)
  {
    VisitsAreDistances(adj, filter, s, maxDepth, visits);
  }

  // ---------------------------------------------------------------- forward and backward lists

  /** The backward lists hold exactly the reversed forward edges. */
  ghost predicate Mirrored(fwd: Adjacency, bwd: Adjacency) {
    forall u: nat, v: nat, r :: LinkedBy(fwd, None, u, v, r) <==> LinkedBy(bwd, None, v, u, r)
  }

  lemma MirroredLinks(fwd: Adjacency, bwd: Adjacency, filter: Option<Relation>, u: nat, v: nat)
    requires Mirrored(fwd, bwd)
    ensures Linked(fwd, filter, u, v) <==> Linked(bwd, filter, v, u)
  {
    if Linked(fwd, filter, u, v) {
      var r :| LinkedBy(fwd, filter, u, v, r);
      assert LinkedBy(fwd, None, u, v, r) && LinkedBy(bwd, None, v, u, r);
      assert LinkedBy(bwd, filter, v, u, r);
    }
    if Linked(bwd, filter, v, u) {
      var r :| LinkedBy(bwd, filter, v, u, r);
      assert LinkedBy(bwd, None, v, u, r) && LinkedBy(fwd, None, u, v, r);
      assert LinkedBy(fwd, filter, u, v, r);
    }
  }

  lemma {:induction false} WalkPrepend(adj: Adjacency, filter: Option<Relation>, s: nat, v: nat, t: nat, n: nat)
    requires Linked(adj, filter, s, v) && Walk(adj, filter, v, t, n)
    ensures Walk(adj, filter, s, t, n + 1)
    decreases n
  {
    if n == 0 {
      assert Walk(adj, filter, s, s, 0);
    } else {
      var w: nat :| Walk(adj, filter, v, w, n - 1) && Linked(adj, filter, w, t);
      WalkPrepend(adj, filter, s, v, w, n - 1);
    }
  }

  lemma {:induction false} WalkReversesOneWay(fwd: Adjacency, bwd: Adjacency, filter: Option<Relation>, s: nat, t: nat,
                                              n: nat)
    requires Mirrored(fwd, bwd) && Walk(fwd, filter, s, t, n)
    ensures Walk(bwd, filter, t, s, n)
    decreases n
  {
    if n > 0 {
      var v: nat :| Walk(fwd, filter, s, v, n - 1) && Linked(fwd, filter, v, t);
      WalkReversesOneWay(fwd, bwd, filter, s, v, n - 1);
      MirroredLinks(fwd, bwd, filter, v, t);
      WalkPrepend(bwd, filter, t, v, s, n - 1);
    }
  }

  /** A backward search finds exactly the nodes whose forward walks lead to its start, at the same distance. */
  lemma BackwardIsReverse(fwd: Adjacency, bwd: Adjacency, filter: Option<Relation>, s: nat, t: nat, n: nat)
    requires Mirrored(fwd, bwd)
    ensures Walk(bwd, filter, t, s, n) <==> Walk(fwd, filter, s, t, n)
  {
    if Walk(fwd, filter, s, t, n) { WalkReversesOneWay(fwd, bwd, filter, s, t, n); }
    if Walk(bwd, filter, t, s, n) {
      assert Mirrored(bwd, fwd);
      WalkReversesOneWay(bwd, fwd, filter, t, s, n);
    }
  }

  // ---------------------------------------------------------------- the graph object

  datatype TraversalResult = TraversalResult(key: string, depth: nat, relation: Option<Relation>)

  function AddTo(adj: Adjacency, v: nat, e: Edge): (r: Adjacency)
    requires v < |adj|
    ensures |r| == |adj|
  {
    adj[v := adj[v] + [e]]
  }

  lemma AddToLinks(adj: Adjacency, v: nat, e: Edge, a: nat, b: nat, r: Relation)
    requires v < |adj|
    ensures LinkedBy(AddTo(adj, v, e), None, a, b, r) <==> LinkedBy(adj, None, a, b, r) || (a == v && e == Edge(b, r))
  {
    var was, now := adj, AddTo(adj, v, e);
    if a < |adj| {
      forall j | 0 <= j < |was[a]| ensures now[a][j] == was[a][j] { }
      if a == v { assert now[a][|was[a]|] == e; }
    }
  }

  lemma AddNodeKeepsLinks(adj: Adjacency, a: nat, b: nat, r: Relation)
    ensures LinkedBy(adj + [[]], None, a, b, r) <==> LinkedBy(adj, None, a, b, r)
  {
    if a < |adj| { assert (adj + [[]])[a] == adj[a]; }
  }

  /** The lists have the same links. */
  ghost predicate SameLinks(a: Adjacency, b: Adjacency) {
    forall u: nat, v: nat, r :: LinkedBy(a, None, u, v, r) <==> LinkedBy(b, None, u, v, r)
  }

  /** `now` has the links of `was` and the one from `s` to `d`. */
  ghost predicate OneMoreLink(was: Adjacency, now: Adjacency, s: nat, d: nat, relation: Relation) {
    forall u: nat, v: nat, r ::
      LinkedBy(now, None, u, v, r) <==> LinkedBy(was, None, u, v, r) || (u == s && v == d && r == relation)
  }

  lemma LinkAfterNodes(a: Adjacency, b: Adjacency, c: Adjacency, now: Adjacency, s: nat, d: nat, relation: Relation)
    requires SameLinks(a, b) && SameLinks(b, c) && OneMoreLink(c, now, s, d, relation)
    ensures OneMoreLink(a, now, s, d, relation)
  {
    forall u: nat, v: nat, r ensures LinkedBy(a, None, u, v, r) <==> LinkedBy(c, None, u, v, r) {
      assert LinkedBy(a, None, u, v, r) <==> LinkedBy(b, None, u, v, r);
    }
  }

  lemma NodeAdded(fwd: Adjacency, bwd: Adjacency)
    requires InRange(fwd) && InRange(bwd) && Mirrored(fwd, bwd)
    ensures InRange(fwd + [[]]) && InRange(bwd + [[]]) && Mirrored(fwd + [[]], bwd + [[]]) && SameLinks(fwd, fwd + [[]])
  {
    forall a: nat, b: nat, r
      ensures LinkedBy(fwd + [[]], None, a, b, r) <==> LinkedBy(fwd, None, a, b, r)
      ensures LinkedBy(bwd + [[]], None, b, a, r) <==> LinkedBy(bwd, None, b, a, r)
    {
      AddNodeKeepsLinks(fwd, a, b, r);
      AddNodeKeepsLinks(bwd, b, a, r);
    }
  }

  lemma EdgeAdded(fwd: Adjacency, bwd: Adjacency, s: nat, d: nat, relation: Relation)
    requires InRange(fwd) && InRange(bwd) && Mirrored(fwd, bwd) && |fwd| == |bwd| && s < |fwd| && d < |fwd|
    ensures var f, b := AddTo(fwd, s, Edge(d, relation)), AddTo(bwd, d, Edge(s, relation));
            InRange(f) && InRange(b) && Mirrored(f, b) && OneMoreLink(fwd, f, s, d, relation)
  {
    var f, b := AddTo(fwd, s, Edge(d, relation)), AddTo(bwd, d, Edge(s, relation));
    forall u: nat, v: nat, r
      ensures LinkedBy(f, None, u, v, r) <==> LinkedBy(fwd, None, u, v, r) || (u == s && v == d && r == relation)
      ensures LinkedBy(b, None, v, u, r) <==> LinkedBy(bwd, None, v, u, r) || (u == s && v == d && r == relation)
    {
      AddToLinks(fwd, s, Edge(d, relation), u, v, r);
      AddToLinks(bwd, d, Edge(s, relation), v, u, r);
    }
  }

  ghost predicate KeysOk(keyToIdx: map<string, nat>, idxToKey: seq<string>) {
    && (forall k | k in keyToIdx :: keyToIdx[k] < |idxToKey| && idxToKey[keyToIdx[k]] == k)
    && (forall i | 0 <= i < |idxToKey| :: idxToKey[i] in keyToIdx && keyToIdx[idxToKey[i]] == i)
  }

  lemma IndexOfKey(keyToIdx: map<string, nat>, idxToKey: seq<string>, i: nat)
    requires KeysOk(keyToIdx, idxToKey) && i < |idxToKey|
    ensures idxToKey[i] in keyToIdx && keyToIdx[idxToKey[i]] == i
  {
  }

  class RelationGraph {
    var keyToIdx: map<string, nat>
    var idxToKey: seq<string>
    var fwdAdj: Adjacency
    var bwdAdj: Adjacency
    var fwd: Csr
    var bwd: Csr
    var built: bool

    /** Keys and indices are in one-to-one correspondence, both lists describe the same edges, and rows marked
        built are up to date. */
    ghost predicate Valid() reads this {
      && |idxToKey| == |fwdAdj| == |bwdAdj|
      && KeysOk(keyToIdx, idxToKey)
      && InRange(fwdAdj) && InRange(bwdAdj) && Mirrored(fwdAdj, bwdAdj)
      && (built ==> Represents(fwd, fwdAdj) && Represents(bwd, bwdAdj))
    }

    constructor ()
      ensures Valid() && idxToKey == [] && fwdAdj == []
    {
      keyToIdx, idxToKey, fwdAdj, bwdAdj := map[], [], [], [];
      fwd, bwd, built := Csr([], [], []), Csr([], [], []), false;
    }

    method AddNode(key: string) returns (idx: nat)
      requires Valid()
      modifies this
      ensures Valid() && idx < |idxToKey| && idxToKey[idx] == key
      ensures key in old(keyToIdx) ==> idxToKey == old(idxToKey) && fwdAdj == old(fwdAdj) && bwdAdj == old(bwdAdj)
      ensures key !in old(keyToIdx) ==> idxToKey == old(idxToKey) + [key] && idx == |old(idxToKey)|
                                        && fwdAdj == old(fwdAdj) + [[]] && bwdAdj == old(bwdAdj) + [[]]
      ensures SameLinks(old(fwdAdj), fwdAdj)
    {
      if key in keyToIdx { return keyToIdx[key]; }
      idx := |idxToKey|;
      NodeAdded(fwdAdj, bwdAdj);
      keyToIdx := keyToIdx[key := idx];
      idxToKey := idxToKey + [key];
      fwdAdj := fwdAdj + [[]];
      bwdAdj := bwdAdj + [[]];
      built := false;
    }

    /** After adding an edge, the links are the old ones and the new one. */
    method AddEdge(src: string, dst: string, relation: Relation)
      requires Valid()
      modifies this
      ensures Valid() && src in keyToIdx && dst in keyToIdx && old(idxToKey) <= idxToKey
      ensures OneMoreLink(old(fwdAdj), fwdAdj, keyToIdx[src], keyToIdx[dst], relation)
    {
      hide InRange, Mirrored, OneMoreLink, SameLinks, Represents, KeysOk, AddTo;
      ghost var f0 := fwdAdj;
      var s := AddNode(src);
      ghost var f1 := fwdAdj;
      var d := AddNode(dst);
      assert idxToKey[s] == src;
      IndexOfKey(keyToIdx, idxToKey, s);
      IndexOfKey(keyToIdx, idxToKey, d);
      EdgeAdded(fwdAdj, bwdAdj, s, d, relation);
      LinkAfterNodes(f0, f1, fwdAdj, AddTo(fwdAdj, s, Edge(d, relation)), s, d, relation);
      fwdAdj := AddTo(fwdAdj, s, Edge(d, relation));
      bwdAdj := AddTo(bwdAdj, d, Edge(s, relation));
      built := false;
    }

    method Build()
      requires Valid()
      modifies this`fwd, this`bwd, this`built
      ensures Valid() && built
    {
      fwd := BuildRows(fwdAdj);
      bwd := BuildRows(bwdAdj);
      built := true;
    }

    /** `bfs` by key: the results name, in order, the nodes of a finished search over the chosen direction. */
    method Bfs(start: string, backward: bool, maxDepth: nat, filter: Option<Relation>)
        returns (results: seq<TraversalResult>, ghost visits: seq<Visit>)
      requires Valid()
      modifies this`fwd, this`bwd, this`built
      ensures Valid()
      ensures start !in keyToIdx ==> results == []
      ensures start in keyToIdx ==>
        var adj, s := if backward then bwdAdj else fwdAdj, keyToIdx[start];
        && Sound(adj, filter, s, maxDepth, visits) && |results| == |visits|
        && (forall i | 0 <= i < |visits| ::
              && results[i] == TraversalResult(idxToKey[visits[i].node], visits[i].depth, visits[i].relation)
              && Distance(adj, filter, s, visits[i].node, visits[i].depth))
        && (forall t, n: nat | n <= maxDepth && Walk(adj, filter, s, t, n) :: Seen(visits, t))
    {
      hide Sound, Mirrored, Distance, Walk, Represents;
      if !built { Build(); }
      results, visits := [], [];
      if start !in keyToIdx { return; }
      var found := Search(if backward then bwd else fwd, if backward then bwdAdj else fwdAdj,
                          keyToIdx[start], maxDepth, filter);
      visits := found;
      NodesInRange(if backward then bwdAdj else fwdAdj, filter, keyToIdx[start], maxDepth, found);
      for i := 0 to |found|
        invariant |results| == i
        invariant forall j | 0 <= j < i ::
          results[j] == TraversalResult(idxToKey[visits[j].node], visits[j].depth, visits[j].relation)
      {
        results := results + [TraversalResult(idxToKey[found[i].node], found[i].depth, found[i].relation)];
      }
    }
  }

  lemma NodesInRange(adj: Adjacency, filter: Option<Relation>, s: nat, maxDepth: nat, visits: seq<Visit>)
    requires Sound(adj, filter, s, maxDepth, visits)
    ensures forall i | 0 <= i < |visits| :: visits[i].node < |adj|
  {
  }
}
