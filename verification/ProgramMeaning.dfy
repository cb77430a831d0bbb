/**
  When the order of a program's nodes matters, and when it does not.
 */
module ProgramMeaning {
  import opened Wrappers
  import opened Ordering
  import opened ReferenceGraph
  import opened TopologicalOrders
  import opened ProgramEvaluator
  import opened ProgramTerms

  /** No tensor is written by two nodes. */
  ghost predicate SingleProducer(nodes: seq<Node>)
  {
    forall m, n, id :: m in nodes && n in nodes && id in m.outputs && id in n.outputs ==> m == n
  }

  /** Whoever reads a tensor that another node writes is reached from that node. */
  ghost predicate DependenciesReach(g: Graph)
  {
    forall reader, writer, id ::
      reader in g.nodes && writer in g.nodes && reader != writer && id in Consumed(reader) && id in writer.outputs
      ==> Reaches(g.edges, writer.opId, reader.opId)
  }

  /** A node that overwrites a tensor it reads is the only node that writes it. */
  ghost predicate UpdatesAreAlone(nodes: seq<Node>)
  {
    forall m, n, id :: m in nodes && n in nodes && id in Consumed(m) && id in m.outputs && id in n.outputs ==> m == n
  }

  /** A graph whose edges imply the whole data flow. */
  ghost predicate Faithful(g: Graph)
  {
    Wired(g) && SingleProducer(g.nodes) && DependenciesReach(g)
  }

  // ---- Orders that respect the data flow ----

  /**
    Whatever the node at position `i` reads is written, if at all, before it, or
    by the node itself and by none before it.
   */
  ghost predicate ReadsLate(order: seq<Node>, i: nat)
    requires i < |order|
  {
    forall j, id {:trigger id in order[j].outputs} ::
      0 <= j < |order| && id in Consumed(order[i]) && id in order[j].outputs
      ==> j < i || (j == i && NotWritten(order, i, id))
  }

  ghost predicate DataOrdered(order: seq<Node>)
  {
    forall i {:trigger ReadsLate(order, i)} :: 0 <= i < |order| ==> ReadsLate(order, i)
  }

  /** As `DataOrdered`, but for the nodes that write something only. */
  ghost predicate ProductivelyOrdered(order: seq<Node>)
  {
    forall i {:trigger ReadsLate(order, i)} :: 0 <= i < |order| && order[i].outputs != [] ==> ReadsLate(order, i)
  }

  /** Every tensor is last written by the same node in both orders. */
  ghost predicate SameLastWriters(a: seq<Node>, b: seq<Node>)
  {
    forall i: nat, j: nat, id ::
      IsLastWriter(a, |a|, i, id) && IsLastWriter(b, |b|, j, id) ==> a[i] == b[j]
  }

  lemma SingleProducersAreLast(a: seq<Node>, b: seq<Node>)
    requires Permutation(a, b) && SingleProducer(a)
    ensures SameLastWriters(a, b) && SingleProducer(b)
  {
    PermutationMembers(a, b);
    forall i: nat, j: nat, id | IsLastWriter(a, |a|, i, id) && IsLastWriter(b, |b|, j, id) ensures a[i] == b[j] {
      assert a[i] in a && b[j] in b;
    }
  }

  lemma TopologicalIsDataOrdered(order: seq<Node>, g: Graph)
    requires Wired(g) && DependenciesReach(g) && UpdatesAreAlone(g.nodes) && IsTopologicalOrder(order, g)
    ensures DataOrdered(order)
  {
    forall i, j, id | 0 <= i < |order| && 0 <= j < |order| && id in Consumed(order[i]) && id in order[j].outputs
      ensures j < i || (j == i && NotWritten(order, i, id))
    {
      ReadIsLate(order, g, i, j, id);
    }
  }

  lemma ReadIsLate(order: seq<Node>, g: Graph, i: nat, j: nat, id: TensorRef)
    requires Wired(g) && DependenciesReach(g) && UpdatesAreAlone(g.nodes) && IsTopologicalOrder(order, g)
    requires i < |order| && j < |order| && id in Consumed(order[i]) && id in order[j].outputs
    ensures j < i || (j == i && NotWritten(order, i, id))
  {
    OrderFacts(order, g);
    assert order[i] in g.nodes && order[j] in g.nodes;
    if order[j] == order[i] {
      SamePlace(order, i, j);
      UpdatedAlone(order, g, i, id);
    } else {
      ReachedLater(order, g, j, i);
    }
  }

  lemma UpdatedAlone(order: seq<Node>, g: Graph, i: nat, id: TensorRef)
    requires Wired(g) && UpdatesAreAlone(g.nodes) && Permutation(order, g.nodes)
    requires i < |order| && id in Consumed(order[i]) && id in order[i].outputs
    ensures NotWritten(order, i, id)
  {
    OrderFacts(order, g);
    forall k | 0 <= k < i ensures id !in order[k].outputs {
      assert order[k] in g.nodes && order[i] in g.nodes && Ids(order)[k] != Ids(order)[i];
    }
  }

  lemma SamePlace(nodes: seq<Node>, i: nat, j: nat)
    requires Distinct(Ids(nodes)) && i < |nodes| && j < |nodes| && nodes[i] == nodes[j]
    ensures i == j
  {
    assert Ids(nodes)[i] == Ids(nodes)[j];
  }

  lemma WrittenInBoth(a: seq<Node>, b: seq<Node>, id: TensorRef)
    requires Permutation(a, b)
    ensures NotWritten(a, |a|, id) <==> NotWritten(b, |b|, id)
  {
    PermutationMembers(a, b);
    if !NotWritten(a, |a|, id) {
      var j := LastWriter(a, |a|, id);
      assert a[j] in b;
    }
    if !NotWritten(b, |b|, id) {
      var j := LastWriter(b, |b|, id);
      assert b[j] in a;
    }
  }

  lemma LastBefore(order: seq<Node>, n: nat, j: nat, id: TensorRef)
    requires IsLastWriter(order, |order|, j, id) && j < n <= |order|
    ensures IsLastWriter(order, n, j, id)
  {
  }

  /** What a node computes does not depend on which of two such orders it is placed in. */
  lemma {:induction false} SameTermAt(a: seq<Node>, b: seq<Node>, k: nat, n: nat)
    requires Permutation(a, b) && SameLastWriters(a, b) && ProductivelyOrdered(a) && ProductivelyOrdered(b)
    requires k < |a| && n < |b| && a[k] == b[n] && ReadsLate(a, k) && ReadsLate(b, n)
    ensures TermAt(a, k) == TermAt(b, n)
    decreases n
  {
    var ids := Consumed(a[k]);
    forall p | 0 <= p < |ids| ensures Resolved(ids[p], TermsOf(a[..k])) == Resolved(ids[p], TermsOf(b[..n])) {
      var id := ids[p];
      WrittenInBoth(a, b, id);
      if NotWritten(a, |a|, id) || id in a[k].outputs {
        LookUpNothing(a, k, id);
        LookUpNothing(b, n, id);
      } else {
        var i := LastWriter(a, |a|, id);
        var j := LastWriter(b, |b|, id);
        SameOperand(a, b, k, n, i, j, id);
        SameTermAt(a, b, i, j);
      }
    }
    SameArgs(ids, TermsOf(a[..k]), TermsOf(b[..n]));
  }

  lemma SameOperand(a: seq<Node>, b: seq<Node>, k: nat, n: nat, i: nat, j: nat, id: TensorRef)
    requires SameLastWriters(a, b) && k < |a| && n < |b| && ReadsLate(a, k) && ReadsLate(b, n)
    requires id in Consumed(a[k]) && id in Consumed(b[n]) && id !in a[k].outputs && id !in b[n].outputs
    requires IsLastWriter(a, |a|, i, id) && IsLastWriter(b, |b|, j, id)
    ensures i < k && j < n && a[i] == b[j] && a[i].outputs != []
    ensures Resolved(id, TermsOf(a[..k])) == TermAt(a, i) && Resolved(id, TermsOf(b[..n])) == TermAt(b, j)
  {
    LastBefore(a, k, i, id);
    LastBefore(b, n, j, id);
    LookUp(a, k, i, id);
    LookUp(b, n, j, id);
  }

  lemma SameArgs(ids: seq<TensorRef>, s: Terms, t: Terms)
    requires forall p :: 0 <= p < |ids| ==> Resolved(ids[p], s) == Resolved(ids[p], t)
    ensures Args(ids, s) == Args(ids, t)
  {
  }

  lemma FinalTerm(order: seq<Node>, j: nat, id: TensorRef)
    requires IsLastWriter(order, |order|, j, id)
    ensures id in TermsOf(order) && TermsOf(order)[id] == TermAt(order, j)
  {
    assert order[..|order|] == order;
    LookUp(order, |order|, j, id);
  }

  lemma NoFinalTerm(order: seq<Node>, id: TensorRef)
    requires NotWritten(order, |order|, id)
    ensures id !in TermsOf(order)
  {
    assert order[..|order|] == order;
    LookUpNothing(order, |order|, id);
  }

  lemma SameTerms(a: seq<Node>, b: seq<Node>)
    requires Permutation(a, b) && SameLastWriters(a, b) && ProductivelyOrdered(a) && ProductivelyOrdered(b)
    ensures TermsOf(a) == TermsOf(b)
  {
    forall id ensures id in TermsOf(a) <==> id in TermsOf(b)
      ensures id in TermsOf(a) ==> TermsOf(a)[id] == TermsOf(b)[id]
    {
      SameTerm(a, b, id);
    }
  }

  lemma SameTerm(a: seq<Node>, b: seq<Node>, id: TensorRef)
    requires Permutation(a, b) && SameLastWriters(a, b) && ProductivelyOrdered(a) && ProductivelyOrdered(b)
    ensures id in TermsOf(a) <==> id in TermsOf(b)
    ensures id in TermsOf(a) ==> TermsOf(a)[id] == TermsOf(b)[id]
  {
    WrittenInBoth(a, b, id);
    if NotWritten(a, |a|, id) {
      NoFinalTerm(a, id);
      NoFinalTerm(b, id);
    } else {
      var i := LastWriter(a, |a|, id);
      var j := LastWriter(b, |b|, id);
      FinalTerm(a, i, id);
      FinalTerm(b, j, id);
      SameTermAt(a, b, i, j);
    }
  }

  lemma AllSucceedAlike(a: seq<Node>, b: seq<Node>, setting: Setting)
    requires Permutation(a, b) && SameLastWriters(a, b) && DataOrdered(a) && DataOrdered(b)
    requires AllSucceed(a, |a|, setting)
    ensures AllSucceed(b, |b|, setting)
  {
    PermutationMembers(a, b);
    forall n | 0 <= n < |b| ensures Succeeds(b, n, setting) {
      assert b[n] in a;
      var k :| 0 <= k < |a| && a[k] == b[n];
      assert ReadsLate(a, k) && ReadsLate(b, n) && Succeeds(a, k, setting);
      SameTermAt(a, b, k, n);
    }
  }

  /** Two orders that respect the data flow succeed together and end in one environment. */
  lemma OrderedRunsAgree(a: seq<Node>, b: seq<Node>, setting: Setting)
    requires Permutation(a, b) && SameLastWriters(a, b) && DataOrdered(a) && DataOrdered(b)
    ensures Run(a, setting).Ok? <==> Run(b, setting).Ok?
    ensures Run(a, setting).Ok? ==> Run(a, setting).value.runtime == Run(b, setting).value.runtime
  {
    WholeRunDenotes(a, setting);
    WholeRunDenotes(b, setting);
    SameTerms(a, b);
    if AllSucceed(a, |a|, setting) {
      AllSucceedAlike(a, b, setting);
      SameTermsAgree(a, b, setting);
    }
    if AllSucceed(b, |b|, setting) {
      SwapSides(a, b);
      AllSucceedAlike(b, a, setting);
    }
  }

  lemma SwapSides(a: seq<Node>, b: seq<Node>)
    requires SameLastWriters(a, b)
    ensures SameLastWriters(b, a)
  {
  }

  /**
    Canonicalization preserves meaning: every two topological orders of a
    faithful graph succeed together and end in the same tensor environment.
   */
  lemma OrderIsIrrelevant(a: seq<Node>, b: seq<Node>, g: Graph, setting: Setting)
    requires Faithful(g) && IsTopologicalOrder(a, g) && IsTopologicalOrder(b, g)
    ensures Run(a, setting).Ok? <==> Run(b, setting).Ok?
    ensures Run(a, setting).Ok? ==> Run(a, setting).value.runtime == Run(b, setting).value.runtime
  {
    TopologicalIsDataOrdered(a, g);
    TopologicalIsDataOrdered(b, g);
    PermutationMembers(a, g.nodes);
    SingleProducersAreLast(a, b);
    OrderedRunsAgree(a, b, setting);
  }

  // ---- Which inputs are found ----

  /** Every unstored tensor that is read is produced by a node that reaches the reader. */
  ghost predicate ReadsReached(g: Graph, names: set<TensorRef>)
  {
    forall reader, id :: reader in g.nodes && id in Consumed(reader) && id !in names
      ==> exists writer :: writer in g.nodes && id in writer.outputs && Reaches(g.edges, writer.opId, reader.opId)
  }

  lemma ReachedInputsAreWritten(order: seq<Node>, g: Graph, names: set<TensorRef>)
    requires Wired(g) && ReadsReached(g, names) && IsTopologicalOrder(order, g)
    ensures InputsWritten(order, names)
  {
    OrderFacts(order, g);
    forall i, id | 0 <= i < |order| && id in Consumed(order[i]) && id !in names ensures !NotWritten(order, i, id) {
      assert order[i] in g.nodes;
      var writer :| writer in g.nodes && id in writer.outputs && Reaches(g.edges, writer.opId, order[i].opId);
      assert writer in order;
      var j :| 0 <= j < |order| && order[j] == writer;
      ReachedLater(order, g, j, i);
    }
  }

  lemma ReachedFromWriter(g: Graph, names: set<TensorRef>, reader: Node, id: TensorRef) returns (writer: Node)
    requires Accepted(g) && forall order :: IsTopologicalOrder(order, g) ==> InputsWritten(order, names)
    requires reader in g.nodes && id in Consumed(reader) && id !in names
    ensures writer in g.nodes && id in writer.outputs && Reaches(g.edges, writer.opId, reader.opId)
  {
    var order, k := AncestorsFirst(g, reader);
    OrderFacts(order, g);
    assert InputsWritten(order, names);
    assert !NotWritten(order, k, id);
    var j := LastWriter(order, k, id);
    writer := order[j];
    assert writer in order;
  }

  /**
    Every topological order of an accepted graph finds every unstored input
    exactly when each is produced by a node that reaches the reader.
   */
  lemma InputsAreFoundExactly(g: Graph, names: set<TensorRef>)
    requires Accepted(g)
    ensures (forall order :: IsTopologicalOrder(order, g) ==> InputsWritten(order, names)) <==> ReadsReached(g, names)
  {
    if ReadsReached(g, names) {
      forall order | IsTopologicalOrder(order, g) ensures InputsWritten(order, names) {
        ReachedInputsAreWritten(order, g, names);
      }
    }
    if forall order :: IsTopologicalOrder(order, g) ==> InputsWritten(order, names) {
      forall reader, id | reader in g.nodes && id in Consumed(reader) && id !in names
        ensures exists writer ::
          writer in g.nodes && id in writer.outputs && Reaches(g.edges, writer.opId, reader.opId)
      {
        var writer := ReachedFromWriter(g, names, reader, id);
      }
    }
  }

  lemma {:induction false} GatherFinds(ids: seq<TensorRef>, runtime: Env, stored: Env)
    requires forall id :: id in ids ==> ResolveInput(id, runtime, stored).Some?
    ensures Gather(ids, runtime, stored).Ok?
  {
    if ids != [] {
      assert ids[0] in ids;
      GatherFinds(ids[1..], runtime, stored);
    }
  }

  lemma NodeFindsInputs(order: seq<Node>, i: nat, setting: Setting)
    requires InputsWritten(order, setting.stored.Keys) && i < |order| && Run(order[..i], setting).Ok?
    ensures
      var value := EvalNode(order[i], Run(order[..i], setting).value.runtime, setting);
      value.Err? ==> !value.error.MissingInput?
  {
    var runtime := Run(order[..i], setting).value.runtime;
    RunDenotes(order, i, setting);
    forall id | id in Consumed(order[i]) ensures ResolveInput(id, runtime, setting.stored).Some? {
      if id !in setting.stored {
        var j := LastWriter(order, i, id);
        LookUp(order, i, j, id);
      }
    }
    GatherFinds(Consumed(order[i]), runtime, setting.stored);
  }

  /** When every unstored input is written earlier, no run fails for want of an input. */
  lemma {:induction false} InputsAreFound(order: seq<Node>, setting: Setting, n: nat)
    requires InputsWritten(order, setting.stored.Keys) && n <= |order|
    ensures Run(order[..n], setting).Err? ==> !Run(order[..n], setting).error.MissingInput?
    decreases n
  {
    if n > 0 {
      InputsAreFound(order, setting, n - 1);
      assert order[..n][..n - 1] == order[..n - 1];
      if Run(order[..n - 1], setting).Ok? {
        NodeFindsInputs(order, n - 1, setting);
        OneStep(order, n - 1, setting);
      } else {
        FailureSticks(order[..n], n - 1, setting);
      }
    }
  }

  // ---- From the order as written ----

  /** No node reads a stored name before the node that produces it. */
  ghost predicate NothingReadEarly(nodes: seq<Node>, names: set<TensorRef>)
  {
    forall i, j, id :: 0 <= i < j < |nodes| && id in Consumed(nodes[i]) && id in names ==> id !in nodes[j].outputs
  }

  /** As `NothingReadEarly`, but for the readers that write something only. */
  ghost predicate NoEarlyReader(nodes: seq<Node>, names: set<TensorRef>)
  {
    forall i, j, id ::
      0 <= i < j < |nodes| && nodes[i].outputs != [] && id in Consumed(nodes[i]) && id in names
      ==> id !in nodes[j].outputs
  }

  /** In a runnable order an unstored tensor is read after it is written. */
  lemma WrittenFirst(nodes: seq<Node>, i: nat, j: nat, id: TensorRef, names: set<TensorRef>)
    requires SingleProducer(nodes) && Distinct(Ids(nodes)) && InputsWritten(nodes, names)
    requires i < |nodes| && j < |nodes| && id in Consumed(nodes[i]) && id in nodes[j].outputs && id !in names
    ensures j < i
  {
    assert !NotWritten(nodes, i, id);
    var k := LastWriter(nodes, i, id);
    assert nodes[k] in nodes && nodes[j] in nodes;
    SamePlace(nodes, k, j);
  }

  /** The node at position `i` reads no stored name that a later node writes. */
  ghost predicate ReadsNothingEarly(nodes: seq<Node>, i: nat, names: set<TensorRef>)
    requires i < |nodes|
  {
    forall j, id {:trigger id in nodes[j].outputs} ::
      i < j < |nodes| && id in Consumed(nodes[i]) && id in names ==> id !in nodes[j].outputs
  }

  lemma ReaderIsLate(nodes: seq<Node>, i: nat, names: set<TensorRef>)
    requires SingleProducer(nodes) && Distinct(Ids(nodes)) && InputsWritten(nodes, names)
    requires i < |nodes| && ReadsNothingEarly(nodes, i, names)
    ensures ReadsLate(nodes, i)
  {
    forall j, id | 0 <= j < |nodes| && id in Consumed(nodes[i]) && id in nodes[j].outputs
      ensures j < i || (j == i && NotWritten(nodes, i, id))
    {
      ReadIsNotEarly(nodes, i, j, id, names);
    }
  }

  lemma ReadIsNotEarly(nodes: seq<Node>, i: nat, j: nat, id: TensorRef, names: set<TensorRef>)
    requires SingleProducer(nodes) && Distinct(Ids(nodes)) && InputsWritten(nodes, names)
    requires i < |nodes| && j < |nodes| && id in Consumed(nodes[i]) && id in nodes[j].outputs
    requires id in names ==> j <= i
    ensures j < i || (j == i && NotWritten(nodes, i, id))
  {
    if id !in names {
      WrittenFirst(nodes, i, j, id, names);
    } else if j == i {
      SoleWriter(nodes, i, id);
    }
  }

  lemma SoleWriter(nodes: seq<Node>, i: nat, id: TensorRef)
    requires SingleProducer(nodes) && Distinct(Ids(nodes)) && i < |nodes| && id in nodes[i].outputs
    ensures NotWritten(nodes, i, id)
  {
    forall k | 0 <= k < i ensures id !in nodes[k].outputs {
      assert nodes[k] in nodes && nodes[i] in nodes && Ids(nodes)[k] != Ids(nodes)[i];
    }
  }

  /**
    A working program keeps its meaning in every topological order, the
    canonical one in particular, unless it reads a stored name early.
   */
  lemma CanonicalOrderKeepsMeaning(g: Graph, order: seq<Node>, setting: Setting)
    requires Faithful(g) && IsTopologicalOrder(order, g) && NothingReadEarly(g.nodes, setting.stored.Keys)
    requires Run(g.nodes, setting).Ok?
    ensures Run(order, setting).Ok?
    ensures Run(order, setting).value.runtime == Run(g.nodes, setting).value.runtime
  {
    RunsAreRunnable(g.nodes, setting);
    forall i | 0 <= i < |g.nodes| ensures ReadsLate(g.nodes, i) {
      ReaderIsLate(g.nodes, i, setting.stored.Keys);
    }
    TopologicalIsDataOrdered(order, g);
    SingleProducersAreLast(g.nodes, order);
    OrderedRunsAgree(g.nodes, order, setting);
  }

  /** What a node both reads and writes, no earlier node writes. */
  ghost predicate UpdatesFirst(nodes: seq<Node>)
  {
    forall i, id :: 0 <= i < |nodes| && id in Consumed(nodes[i]) && id in nodes[i].outputs ==> NotWritten(nodes, i, id)
  }

  lemma RunnableInBoth(a: seq<Node>, b: seq<Node>, names: set<TensorRef>)
    requires Permutation(a, b) && UpdatesFirst(a) && DataOrdered(b) && Runnable(a, names)
    ensures Runnable(b, names)
  {
    PermutationMembers(a, b);
    forall i, id | 0 <= i < |b| && id in Consumed(b[i]) && id !in names ensures !NotWritten(b, i, id) {
      assert b[i] in a;
      var k :| 0 <= k < |a| && a[k] == b[i];
      assert !NotWritten(a, k, id);
      var w := LastWriter(a, k, id);
      assert a[w] in b;
      var j :| 0 <= j < |b| && b[j] == a[w];
      assert id !in b[i].outputs;
      assert ReadsLate(b, i);
    }
  }

  lemma FaithfulUpdatesFirst(g: Graph)
    requires Faithful(g)
    ensures UpdatesFirst(g.nodes)
  {
    forall i, id | 0 <= i < |g.nodes| && id in Consumed(g.nodes[i]) && id in g.nodes[i].outputs
      ensures NotWritten(g.nodes, i, id)
    {
      UpdatedAlone(g.nodes, g, i, id);
    }
  }

  lemma DataOrderedUpdatesFirst(order: seq<Node>)
    requires DataOrdered(order)
    ensures UpdatesFirst(order)
  {
    forall i, id | 0 <= i < |order| && id in Consumed(order[i]) && id in order[i].outputs
      ensures NotWritten(order, i, id)
    {
      assert ReadsLate(order, i);
    }
  }

  /** An early reader with outputs puts a stored tensor where the canonical order has a produced one. */
  lemma EarlyReadersTell(g: Graph, order: seq<Node>, i: nat, j: nat, id: TensorRef)
    requires Faithful(g) && IsTopologicalOrder(order, g)
    requires i < j < |g.nodes| && g.nodes[i].outputs != [] && id in Consumed(g.nodes[i]) && id in g.nodes[j].outputs
    ensures TermsOf(g.nodes) != TermsOf(order)
  {
    OrderFacts(order, g);
    var reader, tensor := g.nodes[i], g.nodes[i].outputs[0];
    assert reader in order;
    var p :| 0 <= p < |order| && order[p] == reader;
    OnlyWriter(g.nodes, i, |g.nodes|, tensor);
    FinalTerm(g.nodes, i, tensor);
    SingleProducersAreLast(g.nodes, order);
    OnlyWriter(order, p, |order|, tensor);
    FinalTerm(order, p, tensor);
    ReadsStored(g.nodes, i, j, id);
    ReadsProduced(g, order, i, j, p, id);
    var k :| 0 <= k < |Consumed(reader)| && Consumed(reader)[k] == id;
    assert TermAt(g.nodes, i).args[k] != TermAt(order, p).args[k];
  }

  /** In a topological order the reader finds the tensor produced. */
  lemma ReadsProduced(g: Graph, order: seq<Node>, i: nat, j: nat, p: nat, id: TensorRef)
    requires Faithful(g) && IsTopologicalOrder(order, g)
    requires i < j < |g.nodes| && id in Consumed(g.nodes[i]) && id in g.nodes[j].outputs
    requires p < |order| && order[p] == g.nodes[i]
    ensures Resolved(id, TermsOf(order[..p])).Apply?
  {
    OrderFacts(order, g);
    assert g.nodes[j] in order;
    var q :| 0 <= q < |order| && order[q] == g.nodes[j];
    assert g.nodes[i] in g.nodes && g.nodes[j] in g.nodes && Ids(g.nodes)[i] != Ids(g.nodes)[j];
    ReachedLater(order, g, q, p);
    var w := LastWriter(order, p, id);
    HoldsApplication(order, p, w, id);
  }

  lemma HoldsApplication(order: seq<Node>, n: nat, w: nat, id: TensorRef)
    requires IsLastWriter(order, n, w, id)
    ensures Resolved(id, TermsOf(order[..n])).Apply?
  {
    LookUp(order, n, w, id);
  }

  lemma OnlyWriter(nodes: seq<Node>, j: nat, n: nat, id: TensorRef)
    requires SingleProducer(nodes) && Distinct(Ids(nodes)) && j < n <= |nodes| && id in nodes[j].outputs
    ensures IsLastWriter(nodes, n, j, id)
  {
    forall k | j < k < n ensures id !in nodes[k].outputs {
      assert nodes[k] in nodes && nodes[j] in nodes && Ids(nodes)[j] != Ids(nodes)[k];
    }
  }

  lemma ReadsStored(nodes: seq<Node>, i: nat, j: nat, id: TensorRef)
    requires SingleProducer(nodes) && Distinct(Ids(nodes)) && i < j < |nodes| && id in nodes[j].outputs
    ensures Resolved(id, TermsOf(nodes[..i])) == Stored(id)
  {
    forall k | 0 <= k < i ensures id !in nodes[k].outputs {
      assert nodes[k] in nodes && nodes[j] in nodes && Ids(nodes)[k] != Ids(nodes)[j];
    }
    LookUpNothing(nodes, i, id);
  }

  /**
    For a faithful graph and given stored names, the order as written and a
    topological order agree for every kernel and every stored value exactly when
    no reader with outputs stands before the producer of a stored name it reads;
    a program that cannot run as written agrees with everything.
   */
  lemma ShadowingIsExact(g: Graph, order: seq<Node>, names: set<TensorRef>)
    requires Faithful(g) && IsTopologicalOrder(order, g)
    ensures AlwaysAgree(g.nodes, order, names) <==> (Runnable(g.nodes, names) ==> NoEarlyReader(g.nodes, names))
  {
    AgreementIsSameTerms(g.nodes, order, names);
    if Runnable(g.nodes, names) {
      TopologicalIsDataOrdered(order, g);
      FaithfulUpdatesFirst(g);
      RunnableInBoth(g.nodes, order, names);
      if NoEarlyReader(g.nodes, names) {
        NoEarlyReaderSameTerms(g, order, names);
      } else {
        var i, j, id :| 0 <= i < j < |g.nodes| && g.nodes[i].outputs != [] && id in Consumed(g.nodes[i])
          && id in names && id in g.nodes[j].outputs;
        EarlyReadersTell(g, order, i, j, id);
      }
    }
  }

  lemma NoEarlyReaderSameTerms(g: Graph, order: seq<Node>, names: set<TensorRef>)
    requires Faithful(g) && IsTopologicalOrder(order, g)
    requires Runnable(g.nodes, names) && NoEarlyReader(g.nodes, names)
    ensures TermsOf(g.nodes) == TermsOf(order)
  {
    forall i | 0 <= i < |g.nodes| && g.nodes[i].outputs != [] ensures ReadsLate(g.nodes, i) {
      ReaderIsLate(g.nodes, i, names);
    }
    TopologicalIsDataOrdered(order, g);
    SingleProducersAreLast(g.nodes, order);
    SameTerms(g.nodes, order);
  }

  /**
    A working program always keeps working, with the same environment, exactly
    when no reader with outputs reads early and the topological order does no
    work that the order as written does not.  The second condition is about nodes
    without outputs, which may fail on another operand.
   */
  lemma MeaningIsKeptExactly(g: Graph, order: seq<Node>, names: set<TensorRef>)
    requires Faithful(g) && IsTopologicalOrder(order, g)
    ensures AlwaysKeeps(g.nodes, order, names) <==>
      (Runnable(g.nodes, names) ==> NoEarlyReader(g.nodes, names) && NoNewWork(g.nodes, order))
  {
    KeepingIsSameWork(g.nodes, order, names);
    AgreementIsSameTerms(g.nodes, order, names);
    ShadowingIsExact(g, order, names);
    if Runnable(g.nodes, names) {
      TopologicalIsDataOrdered(order, g);
      FaithfulUpdatesFirst(g);
      RunnableInBoth(g.nodes, order, names);
    }
  }

  /** Where every node has an output, early readers alone decide. */
  lemma MeaningIsKeptWithOutputs(g: Graph, order: seq<Node>, names: set<TensorRef>)
    requires Faithful(g) && IsTopologicalOrder(order, g) && forall node :: node in g.nodes ==> node.outputs != []
    ensures AlwaysKeeps(g.nodes, order, names) <==> (Runnable(g.nodes, names) ==> NoEarlyReader(g.nodes, names))
  {
    MeaningIsKeptExactly(g, order, names);
    if Runnable(g.nodes, names) && NoEarlyReader(g.nodes, names) {
      forall setting: Setting | setting.stored.Keys == names ensures Keeps(g.nodes, order, setting) {
        assert forall i :: 0 <= i < |g.nodes| ==> g.nodes[i] in g.nodes;
        if Run(g.nodes, setting).Ok? {
          CanonicalOrderKeepsMeaning(g, order, setting);
        }
      }
    }
  }

  // ---- Overwriting ----

  /** One tensor per node, and no two nodes with one operation on the same inputs. */
  ghost predicate Unalike(nodes: seq<Node>)
  {
    && (forall node, x, y :: node in nodes && x in node.outputs && y in node.outputs ==> x == y)
    && (forall m, n :: m in nodes && n in nodes && m.op == n.op && Consumed(m) == Consumed(n) ==> m == n)
  }

  /** The term of an input: a node that overwrites what it reads has read the stored tensor. */
  ghost function Operand(node: Node, id: TensorRef, terms: Terms): Term
  {
    if id in node.outputs then Stored(id) else Resolved(id, terms)
  }

  lemma OperandIsFinal(order: seq<Node>, i: nat, id: TensorRef)
    requires i < |order| && ReadsLate(order, i) && id in Consumed(order[i])
    ensures Resolved(id, TermsOf(order[..i])) == Operand(order[i], id, TermsOf(order))
  {
    if id in order[i].outputs {
      LookUpNothing(order, i, id);
    } else {
      OthersAreFinal(order, i, id);
    }
  }

  lemma OthersAreFinal(order: seq<Node>, i: nat, id: TensorRef)
    requires i < |order| && ReadsLate(order, i) && id in Consumed(order[i]) && id !in order[i].outputs
    ensures Resolved(id, TermsOf(order[..i])) == Resolved(id, TermsOf(order))
  {
    if NotWritten(order, |order|, id) {
      LookUpNothing(order, i, id);
      NoFinalTerm(order, id);
    } else {
      var j := LastWriter(order, |order|, id);
      LastIsBefore(order, i, j, id);
      LookUp(order, i, j, id);
      FinalTerm(order, j, id);
    }
  }

  lemma LastIsBefore(order: seq<Node>, i: nat, j: nat, id: TensorRef)
    requires i < |order| && ReadsLate(order, i) && id in Consumed(order[i]) && id !in order[i].outputs
    requires IsLastWriter(order, |order|, j, id)
    ensures IsLastWriter(order, i, j, id)
  {
    LastBefore(order, i, j, id);
  }

  /** A written tensor holds its last writer's operation on that node's operands. */
  lemma LastWritersTerm(order: seq<Node>, id: TensorRef) returns (j: nat)
    requires DataOrdered(order) && id in TermsOf(order)
    ensures IsLastWriter(order, |order|, j, id) && IsTermOf(TermsOf(order)[id], order[j], TermsOf(order))
  {
    if NotWritten(order, |order|, id) {
      NoFinalTerm(order, id);
    }
    j := LastWriter(order, |order|, id);
    FinalTerm(order, j, id);
    assert ReadsLate(order, j);
    TermIsFinal(order, j);
  }

  ghost predicate IsTermOf(term: Term, node: Node, terms: Terms)
  {
    && term.Apply? && term.op == node.op && |term.args| == |Consumed(node)|
    && forall k :: 0 <= k < |term.args| ==> term.args[k] == Operand(node, Consumed(node)[k], terms)
  }

  lemma TermIsFinal(order: seq<Node>, i: nat)
    requires i < |order| && ReadsLate(order, i)
    ensures IsTermOf(TermAt(order, i), order[i], TermsOf(order))
  {
    var ids := Consumed(order[i]);
    forall k | 0 <= k < |ids|
      ensures Resolved(ids[k], TermsOf(order[..i])) == Operand(order[i], ids[k], TermsOf(order))
    {
      OperandIsFinal(order, i, ids[k]);
    }
  }

  /** Different names hold different terms. */
  lemma {:induction false} NoAliases(order: seq<Node>, x: TensorRef, y: TensorRef)
    requires DataOrdered(order) && Unalike(order) && x != y
    ensures Resolved(x, TermsOf(order)) != Resolved(y, TermsOf(order))
    decreases Resolved(x, TermsOf(order)), 0
  {
    var terms := TermsOf(order);
    if x in terms {
      var i := LastWritersTerm(order, x);
      if y in terms {
        var j := LastWritersTerm(order, y);
        if terms[x] == terms[y] {
          assert order[i] in order && order[j] in order;
          var k := DifferentName(order[i], order[j], terms[x], terms);
          NoAliasedOperands(order, order[i], order[j], Consumed(order[i])[k], Consumed(order[j])[k]);
        }
      }
    } else if y in terms {
      var j := LastWritersTerm(order, y);
    }
  }

  /** Operands of different names are different. */
  lemma {:induction false} NoAliasedOperands(order: seq<Node>, m: Node, n: Node, x: TensorRef, y: TensorRef)
    requires DataOrdered(order) && Unalike(order) && x != y
    ensures Operand(m, x, TermsOf(order)) != Operand(n, y, TermsOf(order))
    decreases Operand(m, x, TermsOf(order)), 1
  {
    var terms := TermsOf(order);
    if x !in m.outputs && y !in n.outputs {
      NoAliases(order, x, y);
    } else if x in terms && x !in m.outputs {
      var i := LastWritersTerm(order, x);
    } else if y in terms && y !in n.outputs {
      var j := LastWritersTerm(order, y);
    }
  }

  /** Different nodes with one term read different names. */
  lemma DifferentName(m: Node, n: Node, term: Term, terms: Terms) returns (k: nat)
    requires IsTermOf(term, m, terms) && IsTermOf(term, n, terms) && Consumed(m) != Consumed(n)
    ensures k < |term.args| && Consumed(m)[k] != Consumed(n)[k]
  {
    assert |Consumed(m)| == |Consumed(n)|;
    k :| 0 <= k < |Consumed(m)| && Consumed(m)[k] != Consumed(n)[k];
  }

  /**
    Without single producers, two orders that respect the data flow agree for
    every kernel and every stored value exactly when every tensor is last
    written by the same node in both.
   */
  lemma OverwritingIsExact(a: seq<Node>, b: seq<Node>, names: set<TensorRef>)
    requires Permutation(a, b) && DataOrdered(a) && DataOrdered(b) && Unalike(a)
    ensures AlwaysAgree(a, b, names) <==> (Runnable(a, names) ==> SameLastWriters(a, b))
  {
    AgreementIsSameTerms(a, b, names);
    if Runnable(a, names) {
      DataOrderedUpdatesFirst(a);
      RunnableInBoth(a, b, names);
      if SameLastWriters(a, b) {
        SameTerms(a, b);
      } else {
        var i: nat, j: nat, id :| IsLastWriter(a, |a|, i, id) && IsLastWriter(b, |b|, j, id) && a[i] != b[j];
        OtherWriterTells(a, b, i, j, id);
      }
    }
  }

  lemma OtherWriterTells(a: seq<Node>, b: seq<Node>, i: nat, j: nat, id: TensorRef)
    requires Permutation(a, b) && DataOrdered(a) && DataOrdered(b) && Unalike(a)
    requires IsLastWriter(a, |a|, i, id) && IsLastWriter(b, |b|, j, id) && a[i] != b[j]
    ensures TermsOf(a) != TermsOf(b)
  {
    if TermsOf(a) == TermsOf(b) {
      FinalTerm(a, i, id);
      FinalTerm(b, j, id);
      assert ReadsLate(a, i) && ReadsLate(b, j);
      TermIsFinal(a, i);
      TermIsFinal(b, j);
      PermutationMembers(a, b);
      assert a[i] in a && b[j] in b;
      var k := DifferentName(a[i], b[j], TermAt(a, i), TermsOf(a));
      NoAliasedOperands(a, a[i], b[j], Consumed(a[i])[k], Consumed(b[j])[k]);
    }
  }

  /** `w` writes `id` and is reached from every other node that does. */
  ghost predicate IsLastProducer(g: Graph, w: Node, id: TensorRef)
  {
    && w in g.nodes && id in w.outputs
    && forall u :: u in g.nodes && id in u.outputs && u != w ==> Reaches(g.edges, u.opId, w.opId)
  }

  /** The edges decide which node writes each tensor last. */
  ghost predicate LastProducersDecided(g: Graph)
  {
    forall u, id :: u in g.nodes && id in u.outputs ==> exists w :: IsLastProducer(g, w, id)
  }

  /** Every node is executable, and whatever is read is stored or produced by another node. */
  ghost predicate CanRun(g: Graph, names: set<TensorRef>)
  {
    && (forall node :: node in g.nodes ==> Executable(node))
    && forall reader, id :: reader in g.nodes && id in Consumed(reader) && id !in names
         ==> exists writer :: writer in g.nodes && writer != reader && id in writer.outputs
  }

  lemma CanRunIsRunnable(g: Graph, order: seq<Node>, names: set<TensorRef>)
    requires Wired(g) && DependenciesReach(g) && IsTopologicalOrder(order, g)
    ensures CanRun(g, names) <==> Runnable(order, names)
  {
    OrderFacts(order, g);
    if CanRun(g, names) {
      assert ReadsReached(g, names);
      ReachedInputsAreWritten(order, g, names);
    }
    if Runnable(order, names) {
      forall reader, id | reader in g.nodes && id in Consumed(reader) && id !in names
        ensures exists writer :: writer in g.nodes && writer != reader && id in writer.outputs
      {
        assert reader in order;
        var k :| 0 <= k < |order| && order[k] == reader;
        assert !NotWritten(order, k, id);
        var j := LastWriter(order, k, id);
        assert order[j] in order && Ids(order)[j] != Ids(order)[k];
      }
    }
  }

  lemma DecidedIsLast(g: Graph, order: seq<Node>, j: nat, id: TensorRef, w: Node)
    requires Wired(g) && IsTopologicalOrder(order, g)
    requires IsLastWriter(order, |order|, j, id) && IsLastProducer(g, w, id)
    ensures order[j] == w
  {
    OrderFacts(order, g);
    assert order[j] in order && w in order;
    var k :| 0 <= k < |order| && order[k] == w;
    if order[j] != w {
      ReachedLater(order, g, j, k);
    }
  }

  lemma DecidedMeansSame(g: Graph, a: seq<Node>, b: seq<Node>)
    requires Wired(g) && LastProducersDecided(g) && IsTopologicalOrder(a, g) && IsTopologicalOrder(b, g)
    ensures SameLastWriters(a, b)
  {
    OrderFacts(a, g);
    forall i: nat, j: nat, id | IsLastWriter(a, |a|, i, id) && IsLastWriter(b, |b|, j, id) ensures a[i] == b[j] {
      assert a[i] in a;
      var w :| IsLastProducer(g, w, id);
      DecidedIsLast(g, a, i, id, w);
      DecidedIsLast(g, b, j, id, w);
    }
  }

  /** A writer that does not reach the last one can be placed after it. */
  lemma AnotherLastWriter(g: Graph, u: Node, w: Node, id: TensorRef) returns (order: seq<Node>, j: nat)
    requires Accepted(g) && u in g.nodes && w in g.nodes && u != w && id in u.outputs && id in w.outputs
    requires !Reaches(g.edges, u.opId, w.opId)
    ensures IsTopologicalOrder(order, g) && IsLastWriter(order, |order|, j, id) && order[j] != w
  {
    var k: nat;
    order, k := AncestorsFirst(g, w);
    OrderFacts(order, g);
    assert u in order;
    var p :| 0 <= p < |order| && order[p] == u;
    assert k < p;
    j := LastWriter(order, |order|, id);
    if order[j] == w {
      SamePlace(order, j, k);
    }
  }

  ghost predicate AllOrdersAgree(g: Graph, names: set<TensorRef>)
  {
    forall a, b :: IsTopologicalOrder(a, g) && IsTopologicalOrder(b, g) ==> AlwaysAgree(a, b, names)
  }

  lemma AgreementDecides(g: Graph, names: set<TensorRef>, a: seq<Node>, i: nat, id: TensorRef)
    requires Accepted(g) && DependenciesReach(g) && UpdatesAreAlone(g.nodes) && Unalike(g.nodes)
    requires CanRun(g, names)
    requires AllOrdersAgree(g, names)
    requires IsTopologicalOrder(a, g) && IsLastWriter(a, |a|, i, id)
    ensures IsLastProducer(g, a[i], id)
  {
    OrderFacts(a, g);
    assert a[i] in a;
    forall u | u in g.nodes && id in u.outputs && u != a[i] ensures Reaches(g.edges, u.opId, a[i].opId) {
      if !Reaches(g.edges, u.opId, a[i].opId) {
        var b, j := AnotherLastWriter(g, u, a[i], id);
        TopologicalIsDataOrdered(a, g);
        TopologicalIsDataOrdered(b, g);
        CanRunIsRunnable(g, a, names);
        OverwritingIsExact(a, b, names);
      }
    }
  }

  /**
    Whether edges must decide who writes a tensor last: for a graph whose edges
    imply the data flow, all topological orders agree for every kernel and every
    stored value exactly when they do, or the program cannot run at all.
   */
  lemma OrdersAgreeExactly(g: Graph, names: set<TensorRef>)
    requires Accepted(g) && DependenciesReach(g) && UpdatesAreAlone(g.nodes) && Unalike(g.nodes)
    ensures AllOrdersAgree(g, names) <==>
      (CanRun(g, names) ==> LastProducersDecided(g))
  {
    if CanRun(g, names) ==> LastProducersDecided(g) {
      forall a, b | IsTopologicalOrder(a, g) && IsTopologicalOrder(b, g) ensures AlwaysAgree(a, b, names) {
        DecidedOrdersAgree(g, a, b, names);
      }
    }
    if CanRun(g, names) && AllOrdersAgree(g, names) {
      forall u, id | u in g.nodes && id in u.outputs ensures exists w :: IsLastProducer(g, w, id) {
        var a, k := AncestorsFirst(g, u);
        OrderFacts(a, g);
        assert a[k] == u;
        var i := LastWriter(a, |a|, id);
        AgreementDecides(g, names, a, i, id);
      }
    }
  }

  lemma DecidedOrdersAgree(g: Graph, a: seq<Node>, b: seq<Node>, names: set<TensorRef>)
    requires Accepted(g) && DependenciesReach(g) && UpdatesAreAlone(g.nodes) && Unalike(g.nodes)
    requires CanRun(g, names) ==> LastProducersDecided(g)
    requires IsTopologicalOrder(a, g) && IsTopologicalOrder(b, g)
    ensures AlwaysAgree(a, b, names)
  {
    OrderFacts(a, g);
    TopologicalIsDataOrdered(a, g);
    TopologicalIsDataOrdered(b, g);
    CanRunIsRunnable(g, a, names);
    OverwritingIsExact(a, b, names);
    if CanRun(g, names) {
      DecidedMeansSame(g, a, b);
    }
  }

  // ---- The observed logits ----

  /** Every other node reaches `sink` along the edges, and `sink` produces something. */
  ghost predicate IsOnlySink(sink: Node, g: Graph)
  {
    && sink in g.nodes && sink.outputs != []
    && forall node :: node in g.nodes && node != sink ==> Reaches(g.edges, node.opId, sink.opId)
  }

  lemma SinkComesLast(order: seq<Node>, g: Graph, sink: Node)
    requires Wired(g) && IsTopologicalOrder(order, g) && IsOnlySink(sink, g)
    ensures order != [] && order[|order| - 1] == sink
  {
    OrderFacts(order, g);
    assert sink in order;
    var q :| 0 <= q < |order| && order[q] == sink;
    var p := |order| - 1;
    if order[p] != sink {
      assert order[p] in g.nodes;
      ReachedLater(order, g, p, q);
    }
  }

  lemma LastOutput(order: seq<Node>, setting: Setting)
    requires order != [] && order[|order| - 1].outputs != [] && Run(order, setting).Ok?
    ensures
      var outputs := order[|order| - 1].outputs;
      Run(order, setting).value.last == Some(outputs[|outputs| - 1])
  {
  }

  /** With a single sink the logits, the token and the node count agree too. */
  lemma ObservationsAgree(a: seq<Node>, b: seq<Node>, g: Graph, sink: Node, setting: Setting)
    requires Faithful(g) && IsTopologicalOrder(a, g) && IsTopologicalOrder(b, g) && IsOnlySink(sink, g)
    ensures Observed(a, setting).Ok? <==> Observed(b, setting).Ok?
    ensures Run(a, setting).Ok? ==> Observed(a, setting) == Observed(b, setting)
  {
    OrderIsIrrelevant(a, b, g, setting);
    if Run(a, setting).Ok? {
      SinkComesLast(a, g, sink);
      SinkComesLast(b, g, sink);
      LastOutput(a, setting);
      LastOutput(b, setting);
      PermutationMembers(a, g.nodes);
      PermutationMembers(b, g.nodes);
    }
  }
}
