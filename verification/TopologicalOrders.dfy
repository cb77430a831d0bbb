/**
  Which topological orders a graph has: a path forces an order, and the absence
  of one leaves it open.
 */
module TopologicalOrders {
  import opened Ordering
  import opened ReferenceGraph

  ghost predicate Reaches(edges: seq<Edge>, from: OpId, to: OpId)
  {
    exists walk :: |walk| >= 2 && walk[0] == from && walk[|walk| - 1] == to && IsWalk(edges, walk)
  }

  lemma EdgeReaches(edges: seq<Edge>, u: OpId, v: OpId)
    requires u in Preds(edges, v)
    ensures Reaches(edges, u, v)
  {
    assert IsWalk(edges, [u, v]);
  }

  lemma StepReaches(edges: seq<Edge>, u: OpId, v: OpId, w: OpId)
    requires u in Preds(edges, v) && Reaches(edges, v, w)
    ensures Reaches(edges, u, w)
  {
    var walk :| |walk| >= 2 && walk[0] == v && walk[|walk| - 1] == w && IsWalk(edges, walk);
    ExtendWalk(edges, u, walk);
    var longer := [u] + walk;
    assert longer[0] == u && longer[|longer| - 1] == w;
  }

  lemma OrderFacts(order: seq<Node>, g: Graph)
    requires Wired(g) && Permutation(order, g.nodes)
    ensures Distinct(Ids(order)) && forall node :: node in order <==> node in g.nodes
    ensures forall id :: id in Ids(order) <==> id in Ids(g.nodes)
  {
    IdsPermute(order, g.nodes);
    DistinctPermutes(Ids(order), Ids(g.nodes));
    PermutationMembers(order, g.nodes);
    PermutationMembers(Ids(order), Ids(g.nodes));
  }

  /** Along a path, every topological order runs forward. */
  lemma ReachedLater(order: seq<Node>, g: Graph, p: nat, q: nat)
    requires Wired(g) && IsTopologicalOrder(order, g) && p < |order| && q < |order|
    requires Reaches(g.edges, order[p].opId, order[q].opId)
    ensures p < q
  {
    OrderFacts(order, g);
    var walk :| |walk| >= 2 && walk[0] == order[p].opId && walk[|walk| - 1] == order[q].opId && IsWalk(g.edges, walk);
    WalkAdvances(order, g.edges, walk, p, q);
  }

  // ---- Building orders ----

  /** Nothing is placed before its predecessors. */
  ghost predicate ClosedRun(run: seq<OpId>, edges: seq<Edge>)
  {
    Distinct(run) && forall i :: 0 <= i < |run| ==> Preds(edges, run[i]) <= ToSet(run[..i])
  }

  ghost predicate ClosedPart(part: set<OpId>, edges: seq<Edge>)
  {
    forall v :: v in part ==> Preds(edges, v) <= part
  }

  /** Without cycles, something of a closed part is always ready. */
  lemma SomethingReady(run: seq<OpId>, part: set<OpId>, edges: seq<Edge>) returns (v: OpId)
    requires ClosedPart(part, edges) && !HasCycle(edges) && !(part <= ToSet(run))
    ensures v in part && v !in run && Preds(edges, v) <= ToSet(run)
  {
    var stuck := part - ToSet(run);
    if forall v :: v in stuck ==> Preds(edges, v) * stuck != {} {
      var u :| u in stuck;
      CycleInside(stuck, edges, [u]);
    }
    v :| v in stuck && Preds(edges, v) * stuck == {};
    forall u | u in Preds(edges, v) ensures u in ToSet(run) {
      assert u !in Preds(edges, v) * stuck;
    }
  }

  lemma {:induction false} FillUp(run: seq<OpId>, part: set<OpId>, edges: seq<Edge>) returns (full: seq<OpId>)
    requires ClosedRun(run, edges) && ClosedPart(part, edges) && !HasCycle(edges)
    ensures ClosedRun(full, edges) && run <= full && ToSet(full) == ToSet(run) + part
    decreases |part - ToSet(run)|
  {
    if part <= ToSet(run) {
      full := run;
    } else {
      var longer := Place(run, part, edges);
      full := FillUp(longer, part, edges);
    }
  }

  lemma Place(run: seq<OpId>, part: set<OpId>, edges: seq<Edge>) returns (longer: seq<OpId>)
    requires ClosedRun(run, edges) && ClosedPart(part, edges) && !HasCycle(edges) && !(part <= ToSet(run))
    ensures ClosedRun(longer, edges) && run <= longer
    ensures ToSet(run) <= ToSet(longer) <= ToSet(run) + part
    ensures |part - ToSet(longer)| < |part - ToSet(run)|
  {
    var v := SomethingReady(run, part, edges);
    PlaceNext(run, v, edges);
    Shrinks(part, ToSet(run), v);
    longer := run + [v];
  }

  lemma PlaceNext(run: seq<OpId>, v: OpId, edges: seq<Edge>)
    requires ClosedRun(run, edges) && v !in run && Preds(edges, v) <= ToSet(run)
    ensures ClosedRun(run + [v], edges) && ToSet(run + [v]) == ToSet(run) + {v}
  {
    var longer := run + [v];
    AppendDistinct(run, v);
    forall i | 0 <= i < |longer| ensures Preds(edges, longer[i]) <= ToSet(longer[..i]) {
      assert longer[..i] == run[..i];
    }
  }

  lemma Shrinks(part: set<OpId>, placed: set<OpId>, v: OpId)
    requires v in part && v !in placed
    ensures |part - (placed + {v})| < |part - placed|
  {
    assert part - placed == (part - (placed + {v})) + {v};
  }

  lemma NodeNamed(nodes: seq<Node>, id: OpId) returns (node: Node)
    requires id in Ids(nodes)
    ensures node in nodes && node.opId == id
  {
    var i :| 0 <= i < |nodes| && Ids(nodes)[i] == id;
    node := nodes[i];
  }

  lemma {:induction false} NodesNamed(run: seq<OpId>, nodes: seq<Node>) returns (order: seq<Node>)
    requires forall id :: id in run ==> id in Ids(nodes)
    ensures Ids(order) == run && forall node :: node in order ==> node in nodes
  {
    if run == [] {
      order := [];
    } else {
      assert forall id :: id in run[1..] ==> id in run;
      var rest := NodesNamed(run[1..], nodes);
      var first := NodeNamed(nodes, run[0]);
      order := [first] + rest;
      assert Ids(order) == [first.opId] + Ids(rest);
    }
  }

  /** A closed run over all ids is a topological order. */
  lemma RunOrders(run: seq<OpId>, g: Graph) returns (order: seq<Node>)
    requires Wired(g) && ClosedRun(run, g.edges) && ToSet(run) == ToSet(Ids(g.nodes))
    ensures IsTopologicalOrder(order, g) && Ids(order) == run
  {
    assert forall id :: id in run ==> id in ToSet(run);
    order := NodesNamed(run, g.nodes);
    SameNodes(order, g.nodes);
    forall e, i, j | e in g.edges && 0 <= i < |order| && 0 <= j < |order|
        && order[i].opId == e.from && order[j].opId == e.to ensures i < j {
      assert run[i] == e.from && run[j] == e.to;
      assert e.from in Preds(g.edges, run[j]);
      var k :| 0 <= k < j && run[..j][k] == e.from;
    }
  }

  ghost function Ancestors(g: Graph, target: OpId): set<OpId>
  {
    set v | v in Ids(g.nodes) && (v == target || Reaches(g.edges, v, target))
  }

  lemma AncestorsAreClosed(g: Graph, target: OpId)
    requires EndpointsExist(g)
    ensures ClosedPart(Ancestors(g, target), g.edges)
  {
    forall v, u | v in Ancestors(g, target) && u in Preds(g.edges, v) ensures u in Ancestors(g, target) {
      var e := PredEdge(g.edges, u, v);
      if v == target {
        EdgeReaches(g.edges, u, v);
      } else {
        StepReaches(g.edges, u, v, target);
      }
    }
  }

  /** Some topological order puts nothing but its ancestors before a node. */
  lemma AncestorsFirst(g: Graph, target: Node) returns (order: seq<Node>, k: nat)
    requires Accepted(g) && target in g.nodes
    ensures IsTopologicalOrder(order, g) && k < |order| && order[k] == target
    ensures forall i :: 0 <= i < k ==> Reaches(g.edges, order[i].opId, target.opId)
  {
    var ids, part := ToSet(Ids(g.nodes)), Ancestors(g, target.opId);
    var t :| 0 <= t < |g.nodes| && g.nodes[t] == target;
    assert Ids(g.nodes)[t] == target.opId;
    AncestorsAreClosed(g, target.opId);
    AllIdsAreClosed(g);
    var front := FillUp([], part, g.edges);
    var run := FillUp(front, ids, g.edges);
    order := RunOrders(run, g);
    OrderFacts(order, g);
    assert target.opId in ToSet(front);
    k :| 0 <= k < |front| && front[k] == target.opId;
    assert run[k] == front[k];
    SameIdSameNode(order, k, target);
    forall i | 0 <= i < k ensures Reaches(g.edges, order[i].opId, target.opId) {
      assert order[i].opId == run[i] == front[i];
      assert front[i] in ToSet(front) && front[i] != front[k];
    }
  }

  lemma AllIdsAreClosed(g: Graph)
    requires EndpointsExist(g)
    ensures ClosedPart(ToSet(Ids(g.nodes)), g.edges)
  {
    forall v, u | v in ToSet(Ids(g.nodes)) && u in Preds(g.edges, v) ensures u in ToSet(Ids(g.nodes)) {
      var e := PredEdge(g.edges, u, v);
    }
  }

  lemma SameIdSameNode(order: seq<Node>, i: nat, node: Node)
    requires Distinct(Ids(order)) && i < |order| && node in order && order[i].opId == node.opId
    ensures order[i] == node
  {
    var k :| 0 <= k < |order| && order[k] == node;
    assert Ids(order)[k] == Ids(order)[i];
  }
}
