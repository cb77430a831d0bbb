/**
  `ReferenceEvalGraph::canonicalized`: Kahn's algorithm with a sorted ready set.

  The three loops of the source are three methods here: indexing the nodes,
  linking the edges and draining the ready set.
 */
module Canonicalizer {
  import opened Wrappers
  import opened Ordering
  import opened Bytes
  import opened ReferenceGraph

  /** `byId` holds exactly the given nodes, under their ids. */
  ghost predicate Indexes(byId: map<OpId, Node>, nodes: seq<Node>)
  {
    && byId.Keys == ToSet(Ids(nodes))
    && (forall i :: 0 <= i < |nodes| ==> nodes[i].opId in byId && byId[nodes[i].opId] == nodes[i])
  }

  /** The successors recorded for `u`, none if it has no entry. */
  function Out(outgoing: map<OpId, set<OpId>>, u: OpId): set<OpId>
  {
    if u in outgoing then outgoing[u] else {}
  }

  /** Adjacency and in-degrees of `edges`, parallel edges counted once. */
  ghost predicate Links(outgoing: map<OpId, set<OpId>>, indegree: map<OpId, nat>, ids: set<OpId>, edges: seq<Edge>)
  {
    && indegree.Keys == ids
    && (forall v {:trigger indegree[v]} :: v in ids ==> indegree[v] == |Preds(edges, v)|)
    && (forall u :: Out(outgoing, u) == Succs(edges, u))
  }

  ghost predicate EndpointsIn(edges: seq<Edge>, ids: set<OpId>)
  {
    forall e :: e in edges ==> e.from in ids && e.to in ids
  }

  /**
    Succeeds exactly on accepted graphs, and then returns the canonical form;
    otherwise the error explains what is wrong with the graph.
   */
  method Canonicalized(g: Graph) returns (r: Result<Graph, GraphError>)
    ensures r.Ok? <==> Accepted(g)
    ensures r.Ok? ==> IsCanonicalFormOf(r.value, g)
    ensures r.Err? ==> Explains(r.error, g)
  {
    var indexed := IndexNodes(g.nodes);
    if indexed.Err? {
      ExplainedIsRejected(indexed.error, g);
      return Err(indexed.error);
    }
    var byId := indexed.value;
    var sortedEdges := Sort(g.edges, EdgeLe);
    EdgeOrder();
    SortCorrect(g.edges, EdgeLe);
    var linked := LinkEdges(Graph(g.nodes, sortedEdges), byId);
    assert SameContent(Graph(g.nodes, sortedEdges), g);
    AcceptedIsOrderBlind(Graph(g.nodes, sortedEdges), g);
    PermutationMembers(sortedEdges, g.edges);
    if linked.Err? {
      assert Explains(linked.error, g);
      ExplainedIsRejected(linked.error, g);
      return Err(linked.error);
    }
    var (outgoing, indegree) := linked.value;
    var ordered := DrainReady(byId, outgoing, indegree, g.nodes, sortedEdges);
    MemberEdges(sortedEdges, g.edges);
    if |ordered| != |byId| {
      DrainFallsShort(ordered, byId, g.nodes, sortedEdges);
      return Err(Cycle);
    }
    DrainIsComplete(ordered, byId, g, sortedEdges);
    return Ok(Graph(ordered, sortedEdges));
  }

  method IndexNodes(nodes: seq<Node>) returns (r: Result<map<OpId, Node>, GraphError>)
    ensures r.Ok? ==> Distinct(Ids(nodes)) && Indexes(r.value, nodes)
    ensures r.Err? ==> r.error.DuplicateNode? && Explains(r.error, Graph(nodes, []))
  {
    var byId: map<OpId, Node> := map[];
    ghost var seen: seq<Node> := [];
    for i := 0 to |nodes|
      invariant seen == nodes[..i]
      invariant Indexes(byId, seen) && Distinct(Ids(seen))
    {
      var node := nodes[i];
      if node.opId in byId {
        RepeatedId(nodes, byId, i);
        return Err(DuplicateNode(node.opId));
      }
      IndexStep(byId, seen, node);
      byId := byId[node.opId := node];
      assert nodes[..i + 1] == nodes[..i] + [node];
      seen := seen + [node];
    }
    assert seen == nodes;
    return Ok(byId);
  }

  lemma RepeatedId(nodes: seq<Node>, byId: map<OpId, Node>, i: nat)
    requires i < |nodes| && Indexes(byId, nodes[..i]) && nodes[i].opId in byId
    ensures Explains(DuplicateNode(nodes[i].opId), Graph(nodes, []))
  {
    assert nodes[i].opId in ToSet(Ids(nodes[..i]));
    var k :| 0 <= k < i && Ids(nodes[..i])[k] == nodes[i].opId;
    assert nodes[k].opId == nodes[i].opId;
  }

  lemma IndexStep(byId: map<OpId, Node>, seen: seq<Node>, node: Node)
    requires Indexes(byId, seen) && Distinct(Ids(seen)) && node.opId !in byId
    ensures Indexes(byId[node.opId := node], seen + [node]) && Distinct(Ids(seen + [node]))
  {
    IdsAppend(seen, node);
    assert node.opId !in ToSet(Ids(seen));
    assert ToSet(Ids(seen) + [node.opId]) == ToSet(Ids(seen)) + {node.opId};
  }

  method LinkEdges(g: Graph, byId: map<OpId, Node>)
    returns (r: Result<(map<OpId, set<OpId>>, map<OpId, nat>), GraphError>)
    requires Distinct(Ids(g.nodes)) && Indexes(byId, g.nodes)
    ensures r.Ok? ==> Wired(g) && Links(r.value.0, r.value.1, byId.Keys, g.edges)
    ensures r.Err? ==> (r.error.MissingEdgeEndpoint? || r.error.DuplicateEdge?) && Explains(r.error, g)
  {
    var edges := g.edges;
    var uniqueEdges: set<Edge> := {};
    var outgoing: map<OpId, set<OpId>> := map[];
    var indegree: map<OpId, nat> := map id | id in byId :: 0;
    assert forall v :: Preds([], v) == {};
    ghost var seen: seq<Edge> := [];
    for i := 0 to |edges|
      invariant seen == edges[..i]
      invariant uniqueEdges == ToSet(seen) && Distinct(seen)
      invariant EndpointsIn(seen, byId.Keys)
      invariant Links(outgoing, indegree, byId.Keys, seen)
    {
      var edge := edges[i];
      if edge.from !in byId {
        MissingIsExplained(g, byId, i, edge.from);
        return Err(MissingEdgeEndpoint(edge.from));
      }
      if edge.to !in byId {
        MissingIsExplained(g, byId, i, edge.to);
        return Err(MissingEdgeEndpoint(edge.to));
      }
      if edge in uniqueEdges {
        RepeatIsExplained(g, byId, i);
        return Err(DuplicateEdge(edge));
      }
      uniqueEdges := uniqueEdges + {edge};
      var successors := Out(outgoing, edge.from);
      LinkStep(outgoing, indegree, byId.Keys, seen, edge, successors);
      if edge.to !in successors {
        indegree := indegree[edge.to := indegree[edge.to] + 1];
      }
      outgoing := outgoing[edge.from := successors + {edge.to}];
      AppendDistinct(seen, edge);
      PrefixGrows(edges, i);
      seen := seen + [edge];
    }
    assert seen == edges;
    EndpointsAreWired(g, byId);
    return Ok((outgoing, indegree));
  }

  lemma EndpointsAreWired(g: Graph, byId: map<OpId, Node>)
    requires Distinct(Ids(g.nodes)) && Indexes(byId, g.nodes)
    requires EndpointsIn(g.edges, byId.Keys) && Distinct(g.edges)
    ensures Wired(g)
  {
  }

  lemma MissingIsExplained(g: Graph, byId: map<OpId, Node>, i: nat, id: OpId)
    requires Distinct(Ids(g.nodes)) && Indexes(byId, g.nodes)
    requires i < |g.edges| && id !in byId && (g.edges[i].from == id || g.edges[i].to == id)
    ensures Explains(MissingEdgeEndpoint(id), g)
  {
    assert g.edges[i] in g.edges;
  }

  lemma RepeatIsExplained(g: Graph, byId: map<OpId, Node>, i: nat)
    requires Distinct(Ids(g.nodes)) && Indexes(byId, g.nodes)
    requires i < |g.edges| && g.edges[i] in g.edges[..i]
    requires g.edges[i].from in byId && g.edges[i].to in byId
    ensures Explains(DuplicateEdge(g.edges[i]), g)
  {
    RepeatedEdge(g.edges, i);
  }

  lemma RepeatedEdge(edges: seq<Edge>, i: nat)
    requires i < |edges| && edges[i] in edges[..i]
    ensures multiset(edges)[edges[i]] >= 2
  {
    assert edges == edges[..i] + [edges[i]] + edges[i + 1..];
    assert edges[i] in multiset(edges[..i]);
  }

  /** Adding one edge moves an in-degree exactly when the dependency is new. */
  lemma LinkStep(
    outgoing: map<OpId, set<OpId>>, indegree: map<OpId, nat>, ids: set<OpId>, edges: seq<Edge>, edge: Edge,
    successors: set<OpId>)
    requires Links(outgoing, indegree, ids, edges) && edge.from in ids && edge.to in ids
    requires successors == Out(outgoing, edge.from)
    ensures var indegree' :=
              if edge.to !in successors then indegree[edge.to := indegree[edge.to] + 1] else indegree;
            Links(outgoing[edge.from := successors + {edge.to}], indegree', ids, edges + [edge])
  {
    var more := edges + [edge];
    var outgoing' := outgoing[edge.from := successors + {edge.to}];
    forall u ensures Out(outgoing', u) == Succs(more, u) {
      SuccsStep(edges, edge, u);
    }
    assert successors == Succs(edges, edge.from);
    forall v ensures |Preds(more, v)| == |Preds(edges, v)| + if v == edge.to && v !in successors then 1 else 0 {
      CountStep(edges, edge, v);
    }
  }

  lemma CountStep(edges: seq<Edge>, edge: Edge, v: OpId)
    ensures |Preds(edges + [edge], v)| ==
            |Preds(edges, v)| + if v == edge.to && v !in Succs(edges, edge.from) then 1 else 0
  {
    PredsStep(edges, edge, v);
    SuccIsPred(edges, edge.from, v);
    if v == edge.to && v in Succs(edges, edge.from) {
      assert Preds(edges, v) + {edge.from} == Preds(edges, v);
    }
  }

  lemma SuccsStep(edges: seq<Edge>, edge: Edge, u: OpId)
    ensures Succs(edges + [edge], u) == if u == edge.from then Succs(edges, u) + {edge.to} else Succs(edges, u)
  {
    var more := edges + [edge];
    forall w ensures w in Succs(more, u) <==> w in Succs(edges, u) || (u == edge.from && w == edge.to) {
      if w in Succs(edges, u) {
        var e :| e in edges && e.from == u && e.to == w;
        assert e in more;
      }
      assert edge in more;
    }
  }

  lemma PredsStep(edges: seq<Edge>, edge: Edge, v: OpId)
    ensures Preds(edges + [edge], v) == if v == edge.to then Preds(edges, v) + {edge.from} else Preds(edges, v)
  {
    var more := edges + [edge];
    forall w ensures w in Preds(more, v) <==> w in Preds(edges, v) || (v == edge.to && w == edge.from) {
      if w in Preds(edges, v) {
        var e :| e in edges && e.to == v && e.from == w;
        assert e in more;
      }
      assert edge in more;
    }
  }

  lemma SuccIsPred(edges: seq<Edge>, u: OpId, v: OpId)
    ensures v in Succs(edges, u) <==> u in Preds(edges, v)
  {
    if v in Succs(edges, u) {
      var e :| e in edges && e.from == u && e.to == v;
      assert e.from in Preds(edges, v);
    }
    if u in Preds(edges, v) {
      var e :| e in edges && e.to == v && e.from == u;
      assert e.to in Succs(edges, u);
    }
  }

  // ---- Draining ----

  /** Each count is the number of dependencies still missing. */
  ghost predicate CountsMissing(indegree: map<OpId, nat>, ids: set<OpId>, edges: seq<Edge>, placed: set<OpId>)
  {
    indegree.Keys == ids && forall v {:trigger indegree[v]} :: v in ids ==> indegree[v] == |Preds(edges, v) - placed|
  }

  /** Every dependency of a placed node is placed. */
  ghost predicate Closed(edges: seq<Edge>, placed: set<OpId>)
  {
    forall v :: v in placed ==> Preds(edges, v) <= placed
  }

  ghost predicate DrawnFrom(some: seq<Node>, nodes: seq<Node>)
  {
    ToSet(some) <= ToSet(nodes)
  }

  /** The nodes whose last missing dependency is being placed. */
  function Freed(successors: set<OpId>, indegree: map<OpId, nat>): set<OpId>
  {
    set v | v in successors && v in indegree && indegree[v] == 1
  }

  method DrainReady(
    byId: map<OpId, Node>, outgoing: map<OpId, set<OpId>>, initial: map<OpId, nat>,
    ghost nodes: seq<Node>, ghost edges: seq<Edge>)
    returns (ordered: seq<Node>)
    requires Indexes(byId, nodes) && Links(outgoing, initial, byId.Keys, edges)
    requires EndpointsIn(edges, byId.Keys)
    ensures IsGreedyRun(Ids(ordered), byId.Keys, edges)
    ensures Ready(byId.Keys, edges, ToSet(Ids(ordered))) == {}
    ensures DrawnFrom(ordered, nodes)
  {
    var indegree := initial;
    var ready := set id | id in indegree && indegree[id] == 0;
    ordered := [];
    InitiallyReady(outgoing, indegree, byId.Keys, edges);
    ghost var placed: set<OpId> := {};
    while ready != {}
      invariant placed == ToSet(Ids(ordered))
      invariant IsGreedyRun(Ids(ordered), byId.Keys, edges)
      invariant ready == Ready(byId.Keys, edges, placed)
      invariant CountsMissing(indegree, byId.Keys, edges, placed)
      invariant DrawnFrom(ordered, nodes)
      decreases byId.Keys - placed
    {
      var opId, waiting := PopFirst(ready);
      GreedyExtends(Ids(ordered), byId.Keys, edges, opId);
      GreedyIsClosed(Ids(ordered), byId.Keys, edges);
      IndexedNode(byId, nodes, opId);
      IdsAppend(ordered, byId[opId]);
      DrawnAppend(ordered, byId[opId], nodes);
      ordered := ordered + [byId[opId]];
      var successors := Out(outgoing, opId);
      indegree, ready := Release(opId, successors, indegree, waiting, byId.Keys, edges, placed);
      placed := placed + {opId};
    }
  }

  lemma InitiallyReady(outgoing: map<OpId, set<OpId>>, indegree: map<OpId, nat>, ids: set<OpId>, edges: seq<Edge>)
    requires Links(outgoing, indegree, ids, edges)
    ensures CountsMissing(indegree, ids, edges, {})
    ensures Ready(ids, edges, {}) == set id | id in indegree && indegree[id] == 0
  {
    forall v | v in ids ensures indegree[v] == |Preds(edges, v) - {}| {
      assert Preds(edges, v) - {} == Preds(edges, v);
    }
    ReadyIsZero(indegree, ids, edges, {});
  }

  lemma GreedyIsClosed(run: seq<OpId>, ids: set<OpId>, edges: seq<Edge>)
    requires IsGreedyRun(run, ids, edges)
    ensures Closed(edges, ToSet(run))
  {
    GreedyRunFacts(run, ids, edges);
  }

  lemma DrawnAppend(some: seq<Node>, node: Node, nodes: seq<Node>)
    requires DrawnFrom(some, nodes) && node in nodes
    ensures DrawnFrom(some + [node], nodes)
  {
  }

  lemma IdsAppend(nodes: seq<Node>, node: Node)
    ensures Ids(nodes + [node]) == Ids(nodes) + [node.opId]
  {
  }

  /** `BTreeSet::pop_first`. */
  method PopFirst(ready: set<OpId>) returns (first: OpId, rest: set<OpId>)
    requires ready != {}
    ensures IsLeastOf(first, ready) && rest == ready - {first}
  {
    PathOrder();
    LeastExists(ready, PathLe);
    first :| first in ready && forall w :: w in ready ==> PathLe(first, w);
    rest := ready - {first};
  }

  lemma IndexedNode(byId: map<OpId, Node>, nodes: seq<Node>, id: OpId)
    requires Indexes(byId, nodes) && id in byId
    ensures byId[id] in nodes && byId[id].opId == id
  {
    assert id in Ids(nodes);
    var i :| 0 <= i < |nodes| && Ids(nodes)[i] == id;
    assert byId[nodes[i].opId] == nodes[i];
  }

  lemma GreedyExtends(run: seq<OpId>, ids: set<OpId>, edges: seq<Edge>, next: OpId)
    requires IsGreedyRun(run, ids, edges)
    requires IsLeastOf(next, Ready(ids, edges, ToSet(run)))
    ensures IsGreedyRun(run + [next], ids, edges)
    ensures ToSet(run + [next]) == ToSet(run) + {next} && next in ids
  {
    assert (run + [next])[..|run|] == run;
  }

  lemma ReadyIsZero(indegree: map<OpId, nat>, ids: set<OpId>, edges: seq<Edge>, placed: set<OpId>)
    requires CountsMissing(indegree, ids, edges, placed)
    ensures Ready(ids, edges, placed) == set v | v in ids && v !in placed && indegree[v] == 0
  {
    forall v | v in ids ensures Preds(edges, v) <= placed <==> indegree[v] == 0 {
      var missing := Preds(edges, v) - placed;
      if missing == {} {
        assert forall u :: u in Preds(edges, v) && u !in placed ==> u in missing;
      }
    }
  }

  /**
    Decrements the in-degree of every successor of the node just placed.  No
    count underflows, and the ready set is again exact.
   */
  method Release(
    opId: OpId, successors: set<OpId>, initial: map<OpId, nat>, waiting: set<OpId>,
    ghost ids: set<OpId>, ghost edges: seq<Edge>, ghost placed: set<OpId>)
    returns (indegree: map<OpId, nat>, ready: set<OpId>)
    requires Closed(edges, placed) && CountsMissing(initial, ids, edges, placed)
    requires opId in Ready(ids, edges, placed) && waiting == Ready(ids, edges, placed) - {opId}
    requires successors == Succs(edges, opId)
    requires EndpointsIn(edges, ids)
    ensures CountsMissing(indegree, ids, edges, placed + {opId})
    ensures ready == Ready(ids, edges, placed + {opId})
  {
    SuccessorsCount(opId, initial, ids, edges, placed);
    indegree, ready := Decrement(successors, initial, waiting);
    ReleasedCounts(opId, initial, indegree, ids, edges, placed);
    ReleasedReady(opId, initial, indegree, ids, edges, placed);
  }

  /** One pass over the successors; the counts of no other node move. */
  method Decrement(successors: set<OpId>, initial: map<OpId, nat>, waiting: set<OpId>)
    returns (indegree: map<OpId, nat>, ready: set<OpId>)
    requires forall v :: v in successors ==> v in initial && initial[v] >= 1
    ensures indegree.Keys == initial.Keys
    ensures forall v {:trigger indegree[v]} :: v in initial ==>
      indegree[v] + (if v in successors then 1 else 0) == initial[v]
    ensures ready == waiting + Freed(successors, initial)
  {
    indegree := initial;
    ready := waiting;
    var rest := successors;
    ghost var released: set<OpId> := {};
    while rest != {}
      invariant rest + released == successors && rest !! released && indegree.Keys == initial.Keys
      invariant forall v {:trigger indegree[v]} :: v in initial ==>
        indegree[v] + (if v in released then 1 else 0) == initial[v]
      invariant ready == waiting + Freed(released, initial)
      decreases rest
    {
      var successor :| successor in rest;
      indegree := indegree[successor := indegree[successor] - 1];
      if indegree[successor] == 0 {
        ready := ready + {successor};
      }
      rest := rest - {successor};
      released := released + {successor};
    }
    assert released == successors;
  }

  /** Every successor of a ready node still counts it. */
  lemma SuccessorsCount(opId: OpId, initial: map<OpId, nat>, ids: set<OpId>, edges: seq<Edge>, placed: set<OpId>)
    requires CountsMissing(initial, ids, edges, placed) && EndpointsIn(edges, ids) && opId !in placed
    ensures forall v :: v in Succs(edges, opId) ==> v in ids && initial[v] >= 1
  {
    forall v | v in Succs(edges, opId) ensures v in ids && initial[v] >= 1 {
      MissingShrinks(ids, edges, placed, opId, v);
    }
  }

  lemma ReleasedCounts(
    opId: OpId, initial: map<OpId, nat>, indegree: map<OpId, nat>,
    ids: set<OpId>, edges: seq<Edge>, placed: set<OpId>)
    requires CountsMissing(initial, ids, edges, placed) && EndpointsIn(edges, ids) && opId !in placed
    requires indegree.Keys == ids
    requires forall v {:trigger indegree[v]} ::
      v in ids ==> indegree[v] + (if v in Succs(edges, opId) then 1 else 0) == initial[v]
    ensures CountsMissing(indegree, ids, edges, placed + {opId})
  {
    forall v | v in ids ensures indegree[v] == |Preds(edges, v) - (placed + {opId})| {
      SuccIsPred(edges, opId, v);
      if v in Succs(edges, opId) {
        MissingShrinks(ids, edges, placed, opId, v);
      } else {
        assert Preds(edges, v) - (placed + {opId}) == Preds(edges, v) - placed;
      }
    }
  }

  lemma ReleasedReady(
    opId: OpId, initial: map<OpId, nat>, indegree: map<OpId, nat>,
    ids: set<OpId>, edges: seq<Edge>, placed: set<OpId>)
    requires Closed(edges, placed) && opId in Ready(ids, edges, placed) && EndpointsIn(edges, ids)
    requires CountsMissing(initial, ids, edges, placed)
    requires CountsMissing(indegree, ids, edges, placed + {opId})
    requires forall v {:trigger indegree[v]} ::
      v in ids ==> indegree[v] + (if v in Succs(edges, opId) then 1 else 0) == initial[v]
    ensures Ready(ids, edges, placed + {opId}) ==
            (Ready(ids, edges, placed) - {opId}) + Freed(Succs(edges, opId), initial)
  {
    ReadyIsZero(indegree, ids, edges, placed + {opId});
    ReadyIsZero(initial, ids, edges, placed);
    SuccessorsAreUnplaced(opId, ids, edges, placed);
    ZeroSets(opId, initial, indegree, Succs(edges, opId), ids, placed);
  }

  lemma SuccessorsAreUnplaced(opId: OpId, ids: set<OpId>, edges: seq<Edge>, placed: set<OpId>)
    requires Closed(edges, placed) && opId in Ready(ids, edges, placed) && EndpointsIn(edges, ids)
    ensures forall v :: v in Succs(edges, opId) ==> v in ids && v !in placed && v != opId
  {
    forall v | v in Succs(edges, opId) ensures v in ids && v !in placed && v != opId {
      SuccessorIsUnplaced(opId, ids, edges, placed, v);
    }
  }

  lemma SuccessorIsUnplaced(opId: OpId, ids: set<OpId>, edges: seq<Edge>, placed: set<OpId>, v: OpId)
    requires Closed(edges, placed) && opId in Ready(ids, edges, placed) && EndpointsIn(edges, ids)
    requires v in Succs(edges, opId)
    ensures v in ids && v !in placed && v != opId
  {
    SuccessorIsIn(ids, edges, opId, v);
    SuccIsPred(edges, opId, v);
  }

  lemma ZeroSets(
    opId: OpId, initial: map<OpId, nat>, indegree: map<OpId, nat>, successors: set<OpId>,
    ids: set<OpId>, placed: set<OpId>)
    requires indegree.Keys == ids == initial.Keys
    requires forall v {:trigger indegree[v]} :: v in ids ==>
      indegree[v] + (if v in successors then 1 else 0) == initial[v]
    requires forall v :: v in successors ==> v in ids && v !in placed && v != opId
    ensures (set v | v in ids && v !in placed + {opId} && indegree[v] == 0) ==
            (set v | v in ids && v !in placed && initial[v] == 0) - {opId} + Freed(successors, initial)
  {
  }

  lemma SuccessorIsIn(ids: set<OpId>, edges: seq<Edge>, opId: OpId, v: OpId)
    requires v in Succs(edges, opId)
    requires EndpointsIn(edges, ids)
    ensures v in ids
  {
    var e :| e in edges && e.from == opId && e.to == v;
  }

  lemma MissingShrinks(ids: set<OpId>, edges: seq<Edge>, placed: set<OpId>, opId: OpId, v: OpId)
    requires v in Succs(edges, opId) && opId !in placed
    requires EndpointsIn(edges, ids)
    ensures v in ids
    ensures |Preds(edges, v) - placed| == |Preds(edges, v) - (placed + {opId})| + 1
  {
    SuccessorIsIn(ids, edges, opId, v);
    SuccIsPred(edges, opId, v);
    var more, less := Preds(edges, v) - placed, Preds(edges, v) - (placed + {opId});
    assert more == less + {opId};
  }

  // ---- Reading off the verdict ----

  lemma DrainFallsShort(ordered: seq<Node>, byId: map<OpId, Node>, nodes: seq<Node>, edges: seq<Edge>)
    requires IsGreedyRun(Ids(ordered), byId.Keys, edges)
    requires Ready(byId.Keys, edges, ToSet(Ids(ordered))) == {}
    requires EndpointsIn(edges, byId.Keys)
    requires |ordered| != |byId|
    ensures HasCycle(edges)
  {
    var run := Ids(ordered);
    GreedyRunFacts(run, byId.Keys, edges);
    DistinctCardinality(run);
    assert |byId.Keys| == |byId|;
    assert ToSet(run) != byId.Keys;
    StuckHasCycle(byId.Keys, edges, ToSet(run));
  }

  lemma DrainIsComplete(ordered: seq<Node>, byId: map<OpId, Node>, g: Graph, edges: seq<Edge>)
    requires Wired(g) && Indexes(byId, g.nodes)
    requires Permutation(edges, g.edges) && SortedBy(edges, EdgeLe)
    requires IsGreedyRun(Ids(ordered), byId.Keys, edges)
    requires DrawnFrom(ordered, g.nodes)
    requires |ordered| == |byId|
    ensures IsCanonicalFormOf(Graph(ordered, edges), g) && Accepted(g)
  {
    var run := Ids(ordered);
    PermutationMembers(edges, g.edges);
    GreedyRunFacts(run, byId.Keys, edges);
    DistinctCardinality(run);
    SubsetOfSameSize(ToSet(run), byId.Keys);
    SameNodes(ordered, g.nodes);
    GreedyRunIsForward(ordered, byId.Keys, edges);
    forall order | IsTopologicalOrder(order, g) ensures OrderLe(ordered, order) {
      DrainIsLeast(ordered, order, byId, g, edges);
    }
    TopologicalOrderForbidsCycles(ordered, g);
    EdgesInOrderMeans(edges);
  }

  lemma DrainIsLeast(ordered: seq<Node>, order: seq<Node>, byId: map<OpId, Node>, g: Graph, edges: seq<Edge>)
    requires Wired(g) && Indexes(byId, g.nodes) && Permutation(edges, g.edges)
    requires IsGreedyRun(Ids(ordered), byId.Keys, edges) && Permutation(ordered, g.nodes)
    requires IsTopologicalOrder(order, g)
    ensures OrderLe(ordered, order)
  {
    PermutationMembers(edges, g.edges);
    IdsPermute(order, g.nodes);
    DistinctPermutes(Ids(order), Ids(g.nodes));
    PermutationMembers(Ids(order), Ids(g.nodes));
    PermutationMembers(order, g.nodes);
    PermutationMembers(ordered, g.nodes);
    assert ToSet(Ids(order)) == byId.Keys;
    GreedyRunIsLeast(Ids(ordered), order, byId.Keys, edges, 0);
    OrderLeMeans(ordered, order);
    assert Ids(ordered)[0..] == Ids(ordered) && Ids(order)[0..] == Ids(order);
  }

  lemma SubsetOfSameSize<T>(a: set<T>, b: set<T>)
    requires a <= b && |a| == |b|
    ensures a == b
  {
    assert |b - a| == |b| - |a|;
    assert b == a + (b - a);
  }
}
