/**
  Reference evaluation graphs and what their canonical order is.

  This module holds the entities, the declarative notion of an accepted graph
  and of its canonical form, and the theory of that form.  The algorithm that
  computes it is in module `Canonicalizer`.
 */
module ReferenceGraph {
  import opened Ordering
  import opened Bytes

  type OpId = Path
  type TensorRef = Path

  datatype ActivationKind = ReLU | GeLU | SiLU | Tanh

  datatype ReferenceOp =
    | Linear
    | Embedding
    | Classifier
    | LinearStateBlock
    | Activation(kind: ActivationKind)
    | MatMul
    | Add
    | Mul
    | LayerNorm
    | Softmax

  datatype Node = Node(opId: OpId, op: ReferenceOp, inputs: seq<TensorRef>, outputs: seq<TensorRef>)

  datatype Edge = Edge(from: OpId, to: OpId, tensor: TensorRef)

  datatype Graph = Graph(nodes: seq<Node>, edges: seq<Edge>)

  datatype GraphError =
    | DuplicateNode(opId: OpId)
    | DuplicateEdge(edge: Edge)
    | MissingEdgeEndpoint(opId: OpId)
    | Cycle

  /** Derived `Ord` of an edge: `from`, then `to`, then `tensor`. */
  predicate EdgeLe(a: Edge, b: Edge)
  {
    LexLe([a.from, a.to, a.tensor], [b.from, b.to, b.tensor], PathLe)
  }

  lemma EdgeOrder()
    ensures TotalOrder(EdgeLe)
  {
    PathOrder();
    forall a, b ensures EdgeLe(a, b) || EdgeLe(b, a) {
      LexTotal([a.from, a.to, a.tensor], [b.from, b.to, b.tensor], PathLe);
    }
    forall a, b | EdgeLe(a, b) && EdgeLe(b, a) ensures a == b {
      var x, y := [a.from, a.to, a.tensor], [b.from, b.to, b.tensor];
      LexAntisymmetric(x, y, PathLe);
      assert x[0] == y[0] && x[1] == y[1] && x[2] == y[2];
    }
    forall a, b, c | EdgeLe(a, b) && EdgeLe(b, c) ensures EdgeLe(a, c) {
      LexTransitive([a.from, a.to, a.tensor], [b.from, b.to, b.tensor], [c.from, c.to, c.tensor], PathLe);
    }
  }

  /** By `from`, then `to`, then `tensor`. */
  ghost predicate EdgeBefore(a: Edge, b: Edge)
  {
    || Before(a.from, b.from)
    || (a.from == b.from && Before(a.to, b.to))
    || (a.from == b.from && a.to == b.to && Before(a.tensor, b.tensor))
  }

  lemma EdgeLeMeans(a: Edge, b: Edge)
    ensures EdgeLe(a, b) <==> a == b || EdgeBefore(a, b)
  {
    LexStep(a.from, [a.to, a.tensor], b.from, [b.to, b.tensor]);
    LexStep(a.to, [a.tensor], b.to, [b.tensor]);
    LexStep(a.tensor, [], b.tensor, []);
    assert [a.from, a.to, a.tensor] == [a.from] + [a.to, a.tensor];
    assert [b.from, b.to, b.tensor] == [b.from] + [b.to, b.tensor];
    assert [a.to, a.tensor] == [a.to] + [a.tensor] && [b.to, b.tensor] == [b.to] + [b.tensor];
    assert [a.tensor] == [a.tensor] + [] && [b.tensor] == [b.tensor] + [];
  }

  lemma LexStep(a: Path, xs: seq<Path>, b: Path, ys: seq<Path>)
    ensures LexLe([a] + xs, [b] + ys, PathLe) <==> Before(a, b) || (a == b && LexLe(xs, ys, PathLe))
  {
    PathLeMeans(a, b);
    assert ([a] + xs)[1..] == xs && ([b] + ys)[1..] == ys;
    assert a == b ==> !Before(a, b);
  }

  ghost predicate EdgesInOrder(edges: seq<Edge>)
  {
    forall i, j :: 0 <= i < j < |edges| ==> edges[i] == edges[j] || EdgeBefore(edges[i], edges[j])
  }

  lemma EdgesInOrderMeans(edges: seq<Edge>)
    ensures EdgesInOrder(edges) <==> SortedBy(edges, EdgeLe)
  {
    forall i, j | 0 <= i < j < |edges|
      ensures EdgeLe(edges[i], edges[j]) <==> edges[i] == edges[j] || EdgeBefore(edges[i], edges[j])
    {
      EdgeLeMeans(edges[i], edges[j]);
    }
  }

  function NodeId(node: Node): OpId { node.opId }

  function Ids(nodes: seq<Node>): (ids: seq<OpId>)
    ensures |ids| == |nodes|
    ensures forall i :: 0 <= i < |nodes| ==> ids[i] == nodes[i].opId
  {
    Map(NodeId, nodes)
  }

  function Succs(edges: seq<Edge>, u: OpId): set<OpId>
  {
    set e | e in edges && e.from == u :: e.to
  }

  function Preds(edges: seq<Edge>, v: OpId): set<OpId>
  {
    set e | e in edges && e.to == v :: e.from
  }

  // ---- Accepted graphs ----

  ghost predicate EndpointsExist(g: Graph)
  {
    forall e :: e in g.edges ==> e.from in Ids(g.nodes) && e.to in Ids(g.nodes)
  }

  ghost predicate IsWalk(edges: seq<Edge>, walk: seq<OpId>)
  {
    forall i :: 0 < i < |walk| ==> walk[i - 1] in Preds(edges, walk[i])
  }

  /** A closed walk of at least one edge; a self-edge is the shortest one. */
  ghost predicate IsCycle(edges: seq<Edge>, walk: seq<OpId>)
  {
    |walk| >= 2 && walk[0] == walk[|walk| - 1] && IsWalk(edges, walk)
  }

  ghost predicate HasCycle(edges: seq<Edge>)
  {
    exists walk :: IsCycle(edges, walk)
  }

  ghost predicate Wired(g: Graph)
  {
    Distinct(Ids(g.nodes)) && EndpointsExist(g) && Distinct(g.edges)
  }

  ghost predicate Accepted(g: Graph)
  {
    Wired(g) && !HasCycle(g.edges)
  }

  // ---- Canonical form ----

  ghost predicate Forward(order: seq<Node>, edges: seq<Edge>)
  {
    forall e, i, j ::
      e in edges && 0 <= i < |order| && 0 <= j < |order| && order[i].opId == e.from && order[j].opId == e.to
      ==> i < j
  }

  ghost predicate IsTopologicalOrder(order: seq<Node>, g: Graph)
  {
    Permutation(order, g.nodes) && Forward(order, g.edges)
  }

  /** The same ids, or the smaller id where the two orders first differ. */
  ghost predicate OrderLe(a: seq<Node>, b: seq<Node>)
  {
    Ids(a) == Ids(b) || exists k :: FirstDifference(Ids(a), Ids(b), k) && Before(Ids(a)[k], Ids(b)[k])
  }

  lemma OrderLeMeans(a: seq<Node>, b: seq<Node>)
    requires |a| == |b|
    ensures OrderLe(a, b) <==> LexLe(Ids(a), Ids(b), PathLe)
  {
    var x, y := Ids(a), Ids(b);
    LexMeans(x, y, PathLe);
    forall k | FirstDifference(x, y, k) ensures PathLe(x[k], y[k]) <==> Before(x[k], y[k]) {
      PathLeMeans(x[k], y[k]);
    }
  }

  /** The least topological order, with the edges sorted. */
  ghost predicate IsCanonicalFormOf(c: Graph, g: Graph)
  {
    && IsTopologicalOrder(c.nodes, g)
    && (forall order :: IsTopologicalOrder(order, g) ==> OrderLe(c.nodes, order))
    && Permutation(c.edges, g.edges)
    && EdgesInOrder(c.edges)
  }

  /** What each error says about the graph that provoked it. */
  ghost predicate Explains(error: GraphError, g: Graph)
  {
    match error
    case DuplicateNode(id) =>
      exists i, j :: 0 <= i < j < |g.nodes| && g.nodes[i].opId == g.nodes[j].opId == id
    case MissingEdgeEndpoint(id) =>
      && Distinct(Ids(g.nodes))
      && id !in Ids(g.nodes)
      && exists e :: e in g.edges && (e.from == id || e.to == id)
    case DuplicateEdge(e) =>
      && Distinct(Ids(g.nodes))
      && multiset(g.edges)[e] >= 2
      && e.from in Ids(g.nodes) && e.to in Ids(g.nodes)
    case Cycle =>
      Wired(g) && HasCycle(g.edges)
  }

  ghost predicate SameContent(g: Graph, h: Graph)
  {
    Permutation(g.nodes, h.nodes) && Permutation(g.edges, h.edges)
  }

  // ---- Edge sets ----

  lemma MemberEdges(edges: seq<Edge>, other: seq<Edge>)
    requires Permutation(edges, other)
    ensures forall v :: Preds(edges, v) == Preds(other, v)
    ensures forall u :: Succs(edges, u) == Succs(other, u)
    ensures HasCycle(edges) <==> HasCycle(other)
  {
    PermutationMembers(edges, other);
    assert forall v :: Preds(edges, v) == Preds(other, v);
    assert forall walk :: IsCycle(edges, walk) <==> IsCycle(other, walk);
  }

  lemma PredEdge(edges: seq<Edge>, u: OpId, v: OpId) returns (e: Edge)
    requires u in Preds(edges, v)
    ensures e in edges && e.from == u && e.to == v
  {
    e :| e in edges && e.to == v && e.from == u;
  }

  // ---- Permutations of nodes ----

  lemma IdsPermute(a: seq<Node>, b: seq<Node>)
    requires Permutation(a, b)
    ensures Permutation(Ids(a), Ids(b))
  {
    MapPermutes(NodeId, a, b);
  }

  /** With distinct ids, the ids of a rearrangement determine the rearrangement. */
  lemma IdsDecideNodes(a: seq<Node>, b: seq<Node>)
    requires Permutation(a, b) && Distinct(Ids(a)) && Ids(a) == Ids(b)
    ensures a == b
  {
    PermutationMembers(a, b);
    forall i | 0 <= i < |a| ensures a[i] == b[i] {
      assert b[i] in a;
      var k :| 0 <= k < |a| && a[k] == b[i];
      assert Ids(a)[k] == Ids(b)[i] == Ids(a)[i];
    }
  }

  lemma DistinctNodes(nodes: seq<Node>)
    requires Distinct(Ids(nodes))
    ensures Distinct(nodes)
  {
    forall i, j | 0 <= i < j < |nodes| ensures nodes[i] != nodes[j] {
      assert Ids(nodes)[i] != Ids(nodes)[j];
    }
  }

  /** Same distinct ids, drawn from the same nodes: a permutation. */
  lemma SameNodes(a: seq<Node>, b: seq<Node>)
    requires Distinct(Ids(a)) && Distinct(Ids(b)) && ToSet(Ids(a)) == ToSet(Ids(b))
    requires ToSet(a) <= ToSet(b)
    ensures Permutation(a, b)
  {
    DistinctNodes(a);
    DistinctNodes(b);
    DistinctCardinality(Ids(a));
    DistinctCardinality(Ids(b));
    assert forall node :: node in a ==> node in ToSet(a);
    DistinctInsidePermutes(a, b);
  }

  // ---- Theory ----

  /** Acceptance looks at the content of a graph, not at its order. */
  lemma AcceptedIsOrderBlind(g: Graph, h: Graph)
    requires SameContent(g, h)
    ensures Wired(g) <==> Wired(h)
    ensures Accepted(g) <==> Accepted(h)
  {
    IdsPermute(g.nodes, h.nodes);
    DistinctPermutes(Ids(g.nodes), Ids(h.nodes));
    PermutationMembers(Ids(g.nodes), Ids(h.nodes));
    DistinctPermutes(g.edges, h.edges);
    PermutationMembers(g.edges, h.edges);
    MemberEdges(g.edges, h.edges);
  }

  lemma TopologicalIsOrderBlind(order: seq<Node>, g: Graph, h: Graph)
    requires SameContent(g, h)
    ensures IsTopologicalOrder(order, g) <==> IsTopologicalOrder(order, h)
  {
    PermutationMembers(g.edges, h.edges);
  }

  /**
    The canonical form is unique, and any rearrangement of the nodes and edges
    of an accepted graph has the identical canonical form.
   */
  lemma CanonicalFormIsUnique(g: Graph, h: Graph, c: Graph, d: Graph)
    requires SameContent(g, h) && Wired(g)
    requires IsCanonicalFormOf(c, g) && IsCanonicalFormOf(d, h)
    ensures c == d
  {
    TopologicalIsOrderBlind(d.nodes, g, h);
    TopologicalIsOrderBlind(c.nodes, g, h);
    PathOrder();
    PermutationMembers(c.nodes, g.nodes);
    PermutationMembers(d.nodes, g.nodes);
    OrderLeMeans(c.nodes, d.nodes);
    OrderLeMeans(d.nodes, c.nodes);
    LexAntisymmetric(Ids(c.nodes), Ids(d.nodes), PathLe);
    IdsPermute(c.nodes, g.nodes);
    DistinctPermutes(Ids(c.nodes), Ids(g.nodes));
    IdsDecideNodes(c.nodes, d.nodes);
    EdgeOrder();
    EdgesInOrderMeans(c.edges);
    EdgesInOrderMeans(d.edges);
    SortedIsUnique(c.edges, d.edges, EdgeLe);
  }

  /** A canonical form is accepted and is its own canonical form. */
  lemma CanonicalFormIsFixed(c: Graph, g: Graph)
    requires Accepted(g) && IsCanonicalFormOf(c, g)
    ensures Accepted(c) && IsCanonicalFormOf(c, c)
  {
    AcceptedIsOrderBlind(c, g);
    forall order | IsTopologicalOrder(order, c) ensures OrderLe(c.nodes, order) {
      TopologicalIsOrderBlind(order, c, g);
    }
    PermutationMembers(c.edges, g.edges);
  }

  /** Along a walk through a topological order, positions strictly increase. */
  lemma {:induction false} WalkAdvances(order: seq<Node>, edges: seq<Edge>, walk: seq<OpId>, p: nat, q: nat)
    requires Forward(order, edges) && Distinct(Ids(order))
    requires forall e :: e in edges ==> e.from in Ids(order) && e.to in Ids(order)
    requires |walk| >= 2 && IsWalk(edges, walk)
    requires p < |order| && q < |order|
    requires order[p].opId == walk[0] && order[q].opId == walk[|walk| - 1]
    ensures p < q
    decreases |walk|
  {
    var n := |walk|;
    var e := PredEdge(edges, walk[n - 2], walk[n - 1]);
    if n > 2 {
      assert walk[n - 2] in Ids(order);
      var r :| 0 <= r < |order| && Ids(order)[r] == walk[n - 2];
      var shorter := walk[..n - 1];
      assert IsWalk(edges, shorter);
      WalkAdvances(order, edges, shorter, p, r);
      assert order[r].opId == e.from && order[q].opId == e.to;
    }
  }

  lemma TopologicalOrderForbidsCycles(order: seq<Node>, g: Graph)
    requires Wired(g) && IsTopologicalOrder(order, g)
    ensures !HasCycle(g.edges)
  {
    IdsPermute(order, g.nodes);
    DistinctPermutes(Ids(order), Ids(g.nodes));
    PermutationMembers(Ids(order), Ids(g.nodes));
    forall walk | IsCycle(g.edges, walk) ensures false {
      var e := PredEdge(g.edges, walk[0], walk[1]);
      var p :| 0 <= p < |order| && Ids(order)[p] == walk[0];
      WalkAdvances(order, g.edges, walk, p, p);
    }
  }

  /** An error refutes acceptance. */
  lemma ExplainedIsRejected(error: GraphError, g: Graph)
    requires Explains(error, g)
    ensures !Accepted(g)
  {
    match error
    case DuplicateNode(id) =>
      var i, j :| 0 <= i < j < |g.nodes| && g.nodes[i].opId == g.nodes[j].opId == id;
      assert Ids(g.nodes)[i] == Ids(g.nodes)[j];
    case MissingEdgeEndpoint(id) =>
    case DuplicateEdge(e) =>
      DistinctByMultiset(g.edges);
    case Cycle =>
  }

  // ---- Greedy runs ----

  /** Nodes not yet placed whose dependencies all are. */
  ghost function Ready(ids: set<OpId>, edges: seq<Edge>, placed: set<OpId>): set<OpId>
  {
    set v | v in ids && v !in placed && Preds(edges, v) <= placed
  }

  ghost predicate IsLeastOf(m: OpId, s: set<OpId>)
  {
    m in s && forall w :: w in s ==> PathLe(m, w)
  }

  /** Every element is the least node that was ready when it was placed. */
  ghost predicate IsGreedyRun(run: seq<OpId>, ids: set<OpId>, edges: seq<Edge>)
    decreases |run|
  {
    run == [] ||
    var before := run[..|run| - 1];
    IsGreedyRun(before, ids, edges) && IsLeastOf(run[|run| - 1], Ready(ids, edges, ToSet(before)))
  }

  lemma {:induction false} GreedyAt(run: seq<OpId>, ids: set<OpId>, edges: seq<Edge>, i: nat)
    requires IsGreedyRun(run, ids, edges) && i < |run|
    ensures IsLeastOf(run[i], Ready(ids, edges, ToSet(run[..i])))
    decreases |run|
  {
    var before := run[..|run| - 1];
    if i < |run| - 1 {
      GreedyAt(before, ids, edges, i);
      assert before[..i] == run[..i];
    }
  }

  lemma GreedyRunFacts(run: seq<OpId>, ids: set<OpId>, edges: seq<Edge>)
    requires IsGreedyRun(run, ids, edges)
    ensures Distinct(run) && ToSet(run) <= ids
    ensures forall v :: v in run ==> Preds(edges, v) <= ToSet(run)
  {
    forall i, j | 0 <= i < j < |run| ensures run[i] != run[j] {
      GreedyAt(run, ids, edges, j);
      assert run[..j][i] == run[i];
    }
    forall v | v in run ensures v in ids && Preds(edges, v) <= ToSet(run) {
      var i :| 0 <= i < |run| && run[i] == v;
      GreedyAt(run, ids, edges, i);
      assert ToSet(run[..i]) <= ToSet(run);
    }
  }

  /** A greedy run over all nodes is a topological order. */
  lemma GreedyRunIsForward(order: seq<Node>, ids: set<OpId>, edges: seq<Edge>)
    requires IsGreedyRun(Ids(order), ids, edges)
    ensures Forward(order, edges)
  {
    var run := Ids(order);
    GreedyRunFacts(run, ids, edges);
    forall e, i, j | e in edges && 0 <= i < |order| && 0 <= j < |order| &&
        order[i].opId == e.from && order[j].opId == e.to ensures i < j {
      GreedyAt(run, ids, edges, j);
      assert run[i] in Preds(edges, run[j]);
      var k :| 0 <= k < j && run[..j][k] == run[i];
      assert run[k] == run[i];
    }
  }

  /** From a common prefix on, a greedy run stays below every topological order. */
  lemma {:induction false} GreedyRunIsLeast(run: seq<OpId>, order: seq<Node>, ids: set<OpId>, edges: seq<Edge>, k: nat)
    requires IsGreedyRun(run, ids, edges)
    requires Forward(order, edges) && Distinct(Ids(order)) && ToSet(Ids(order)) == ids
    requires forall e :: e in edges ==> e.from in ids
    requires |run| == |order| && k <= |run| && run[..k] == Ids(order)[..k]
    ensures LexLe(run[k..], Ids(order)[k..], PathLe)
    decreases |run| - k
  {
    var other := Ids(order);
    if k < |run| {
      if run[k] == other[k] {
        assert run[..k + 1] == run[..k] + [run[k]] == other[..k + 1];
        GreedyRunIsLeast(run, order, ids, edges, k + 1);
        SameHeadLess(run, other, k);
      } else {
        GreedyAt(run, ids, edges, k);
        NextIsReady(order, ids, edges, k);
        LessHead(run, other, k);
      }
    }
  }

  lemma SameHeadLess(xs: seq<OpId>, ys: seq<OpId>, k: nat)
    requires k < |xs| && k < |ys| && xs[k] == ys[k] && LexLe(xs[k + 1..], ys[k + 1..], PathLe)
    ensures LexLe(xs[k..], ys[k..], PathLe)
  {
    assert xs[k..][1..] == xs[k + 1..] && ys[k..][1..] == ys[k + 1..];
  }

  lemma LessHead(xs: seq<OpId>, ys: seq<OpId>, k: nat)
    requires k < |xs| && k < |ys| && xs[k] != ys[k] && PathLe(xs[k], ys[k])
    ensures LexLe(xs[k..], ys[k..], PathLe)
  {
  }

  lemma NextIsReady(order: seq<Node>, ids: set<OpId>, edges: seq<Edge>, k: nat)
    requires Forward(order, edges) && Distinct(Ids(order)) && ToSet(Ids(order)) == ids
    requires forall e :: e in edges ==> e.from in ids
    requires k < |order|
    ensures Ids(order)[k] in Ready(ids, edges, ToSet(Ids(order)[..k]))
  {
    var other := Ids(order);
    var v := other[k];
    assert v in ids;
    forall u | u in Preds(edges, v) ensures u in other[..k] {
      var e := PredEdge(edges, u, v);
      assert u in other;
      var i :| 0 <= i < |other| && other[i] == u;
      assert order[i].opId == e.from && order[k].opId == e.to;
      assert other[..k][i] == u;
    }
    assert v !in other[..k];
  }

  // ---- A stuck run exposes a cycle ----

  /** Walks backwards inside `stuck` until a node repeats. */
  lemma {:induction false} CycleInside(stuck: set<OpId>, edges: seq<Edge>, walk: seq<OpId>)
    requires walk != [] && Distinct(walk) && ToSet(walk) <= stuck && IsWalk(edges, walk)
    requires forall v :: v in stuck ==> Preds(edges, v) * stuck != {}
    ensures HasCycle(edges)
    decreases |stuck| - |walk|
  {
    assert walk[0] in stuck;
    var u :| u in Preds(edges, walk[0]) * stuck;
    ExtendWalk(edges, u, walk);
    if u in walk {
      var k :| 0 <= k < |walk| && walk[k] == u;
      CloseWalk(edges, u, walk, k);
    } else {
      LongerWalkFits(stuck, u, walk);
      CycleInside(stuck, edges, [u] + walk);
    }
  }

  lemma LongerWalkFits(stuck: set<OpId>, u: OpId, walk: seq<OpId>)
    requires Distinct(walk) && ToSet(walk) <= stuck && u in stuck && u !in walk
    ensures Distinct([u] + walk) && ToSet([u] + walk) <= stuck && |walk| < |stuck|
  {
    var longer := [u] + walk;
    assert ToSet(longer) == {u} + ToSet(walk);
    DistinctCardinality(longer);
    SubsetCardinality(ToSet(longer), stuck);
  }

  lemma ExtendWalk(edges: seq<Edge>, u: OpId, walk: seq<OpId>)
    requires walk != [] && IsWalk(edges, walk) && u in Preds(edges, walk[0])
    ensures IsWalk(edges, [u] + walk)
  {
    var longer := [u] + walk;
    forall i | 0 < i < |longer| ensures longer[i - 1] in Preds(edges, longer[i]) {
      assert longer[i] == walk[i - 1];
      if i > 1 { assert longer[i - 1] == walk[i - 2]; }
    }
  }

  lemma CloseWalk(edges: seq<Edge>, u: OpId, walk: seq<OpId>, k: nat)
    requires k < |walk| && walk[k] == u && IsWalk(edges, [u] + walk)
    ensures HasCycle(edges)
  {
    var closed := ([u] + walk)[..k + 2];
    assert closed[k + 1] == walk[k];
    assert IsWalk(edges, closed) by {
      forall i | 0 < i < |closed| ensures closed[i - 1] in Preds(edges, closed[i]) {
        assert closed[i] == ([u] + walk)[i] && closed[i - 1] == ([u] + walk)[i - 1];
      }
    }
    assert IsCycle(edges, closed);
  }

  lemma SubsetCardinality<T>(a: set<T>, b: set<T>)
    requires a <= b
    ensures |a| <= |b|
  {
    assert b == a + (b - a);
  }

  lemma StuckHasCycle(ids: set<OpId>, edges: seq<Edge>, placed: set<OpId>)
    requires forall e :: e in edges ==> e.from in ids
    requires Ready(ids, edges, placed) == {} && !(ids <= placed)
    ensures HasCycle(edges)
  {
    var stuck := ids - placed;
    forall v | v in stuck ensures Preds(edges, v) * stuck != {} {
      assert v !in Ready(ids, edges, placed);
      var u :| u in Preds(edges, v) && u !in placed;
      assert u in Preds(edges, v) * stuck;
    }
    var v :| v in ids && v !in placed;
    CycleInside(stuck, edges, [v]);
  }
}
