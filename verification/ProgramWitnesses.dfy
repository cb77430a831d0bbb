/**
  Accepted programs whose meaning canonicalization changes.

  Each has two ReLU nodes.  What is assumed of the kernel is that ReLU leaves the
  stored tensors at hand as they are, which holds of tensors without negative
  values.
 */
module ProgramWitnesses {
  import opened Wrappers
  import opened Ordering
  import opened Bytes
  import opened ReferenceGraph
  import opened TopologicalOrders
  import opened ProgramEvaluator
  import opened ProgramTerms
  import opened ProgramMeaning

  const NAME_U := Path([117])
  const NAME_V := Path([118])
  const NAME_W := Path([119])
  const RELU := Activation(ReLU)

  /** ReLU returns the tensor unchanged. */
  ghost predicate Passes(tensor: EvalTensor, setting: Setting)
  {
    setting.kernel(RELU, setting.prompt, [tensor]) == Some(tensor)
  }

  lemma NodePasses(node: Node, id: TensorRef, runtime: Env, setting: Setting, value: EvalTensor)
    requires node.op == RELU && node.inputs == [id] && Passes(value, setting)
    requires ResolveInput(id, runtime, setting.stored) == Some(value)
    ensures EvalNode(node, runtime, setting) == Ok(value)
  {
    assert Gather([id][1..], runtime, setting.stored) == Ok([]);
    var gathered := Gather([id], runtime, setting.stored);
    assert gathered.Ok? && gathered.value == [value] + [];
    assert gathered.value == [value];
  }

  lemma TwoNodesRun(
    first: Node, second: Node, p: TensorRef, q: TensorRef, u: EvalTensor, v: EvalTensor, setting: Setting)
    requires first.outputs == [p] && second.outputs == [q]
    requires EvalNode(first, map[], setting) == Ok(u) && EvalNode(second, map[p := u], setting) == Ok(v)
    ensures Run([first, second], setting).Ok?
    ensures Run([first, second], setting).value.runtime == map[p := u][q := v]
  {
    var nodes := [first, second];
    assert nodes[..0] == [] && nodes[..1] == [first] && nodes[..2] == nodes;
    OneStep(nodes, 0, setting);
    assert Run([first], setting).value.runtime == map[p := u];
    OneStep(nodes, 1, setting);
  }

  lemma TwoNodeOrder(order: seq<Node>, m: Node, n: Node)
    requires Permutation(order, [m, n]) && m != n
    ensures order == [m, n] || order == [n, m]
  {
    PermutationMembers(order, [m, n]);
    assert order[0] in [m, n] && order[1] in [m, n];
    DistinctPermutes(order, [m, n]);
    assert order[0] != order[1];
  }

  lemma LessFirst(m: Node, n: Node, order: seq<Node>)
    requires |m.opId.text| == |n.opId.text| == 1 && m.opId.text[0] < n.opId.text[0]
    requires order == [m, n] || order == [n, m]
    ensures OrderLe([m, n], order)
  {
    var x, y := Ids([m, n]), Ids([n, m]);
    assert x[0] == m.opId && y[0] == n.opId;
    assert FirstDifference(m.opId.text, n.opId.text, 0);
    assert Before(x[0], y[0]);
    assert FirstDifference(x, y, 0);
  }

  /** Without edges, two nodes come in the order of their ids. */
  lemma EdgelessPair(m: Node, n: Node)
    requires |m.opId.text| == |n.opId.text| == 1 && m.opId.text[0] < n.opId.text[0]
    ensures Accepted(Graph([n, m], [])) && IsCanonicalFormOf(Graph([m, n], []), Graph([n, m], []))
  {
    var g := Graph([n, m], []);
    assert Ids(g.nodes)[0] == n.opId && Ids(g.nodes)[1] == m.opId;
    forall walk ensures !IsCycle(g.edges, walk) {
      if |walk| >= 2 { assert Preds(g.edges, walk[1]) == {}; }
    }
    assert multiset([m, n]) == multiset(g.nodes);
    forall order | IsTopologicalOrder(order, g) ensures OrderLe([m, n], order) {
      TwoNodeOrder(order, n, m);
      LessFirst(m, n, order);
    }
  }

  // ---- Why the edges must be declared ----

  const READER := Node(Path([97]), RELU, [NAME_V], [NAME_W])
  const WRITER := Node(Path([98]), RELU, [NAME_U], [NAME_V])
  const UNDECLARED := Graph([WRITER, READER], [])

  /**
    An accepted graph need not declare its data flow.  This one runs as written;
    in canonical order the reader comes first and misses its input.
   */
  lemma CanonicalOrderNeedsEdges(setting: Setting, u: EvalTensor)
    requires NAME_V !in setting.stored && NAME_U in setting.stored && setting.stored[NAME_U] == u && Passes(u, setting)
    ensures Accepted(UNDECLARED) && IsCanonicalFormOf(Graph([READER, WRITER], []), UNDECLARED)
    ensures !ReadsReached(UNDECLARED, setting.stored.Keys)
    ensures Run(UNDECLARED.nodes, setting).Ok?
    ensures Run([READER, WRITER], setting) == Err(MissingInput(NAME_V))
  {
    EdgelessPair(READER, WRITER);
    ReaderLast(READER, WRITER, NAME_U, NAME_V, NAME_W, setting, u);
    ReaderMisses(READER, WRITER, NAME_V, setting);
    assert READER in UNDECLARED.nodes && NAME_V in Consumed(READER);
    forall from, to ensures !Reaches(UNDECLARED.edges, from, to) {
      NoEdgesNoWalks(from, to);
    }
  }

  lemma NoEdgesNoWalks(from: OpId, to: OpId)
    ensures !Reaches([], from, to)
  {
    forall walk | |walk| >= 2 ensures !IsWalk([], walk) {
      assert Preds([], walk[1]) == {};
    }
  }

  lemma ReaderLast(
    reader: Node, writer: Node, p: TensorRef, q: TensorRef, r: TensorRef, setting: Setting, u: EvalTensor)
    requires writer.op == RELU && writer.inputs == [p] && writer.outputs == [q]
    requires reader.op == RELU && reader.inputs == [q] && reader.outputs == [r]
    requires p in setting.stored && setting.stored[p] == u && Passes(u, setting)
    ensures Run([writer, reader], setting).Ok?
    ensures Run([writer, reader], setting).value.runtime == map[q := u][r := u]
  {
    NodePasses(writer, p, map[], setting, u);
    NodePasses(reader, q, map[q := u], setting, u);
    TwoNodesRun(writer, reader, q, r, u, u, setting);
  }

  lemma ReaderMisses(reader: Node, writer: Node, q: TensorRef, setting: Setting)
    requires reader.op == RELU && reader.inputs == [q] && q !in setting.stored
    ensures Run([reader, writer], setting) == Err(MissingInput(q))
  {
    var nodes := [reader, writer];
    assert nodes[..0] == [] && nodes[..1] == [reader];
    OneStep(nodes, 0, setting);
    FailureSticks(nodes, 1, setting);
  }

  // ---- Why nothing may be read early ----

  const READS_WRITTEN := Edge(WRITER.opId, READER.opId, NAME_V)
  const SHADOWED := Graph([READER, WRITER], [READS_WRITTEN])

  lemma ShadowedIsFaithful()
    ensures Faithful(SHADOWED)
  {
    var nodes := SHADOWED.nodes;
    assert Ids(nodes)[0] == READER.opId && Ids(nodes)[1] == WRITER.opId;
    assert READS_WRITTEN in SHADOWED.edges;
    EdgeReaches(SHADOWED.edges, WRITER.opId, READER.opId);
    forall reader, writer, id |
        reader in nodes && writer in nodes && id in Consumed(reader) && id in writer.outputs
      ensures writer == WRITER && reader == READER
    {
    }
  }

  lemma ShadowedCanonicalForm()
    ensures IsCanonicalFormOf(Graph([WRITER, READER], SHADOWED.edges), SHADOWED)
  {
    forall order | IsTopologicalOrder(order, SHADOWED) ensures OrderLe([WRITER, READER], order) {
      TwoNodeOrder(order, READER, WRITER);
      assert READS_WRITTEN in SHADOWED.edges;
      assert order == [WRITER, READER];
    }
    assert multiset([WRITER, READER]) == multiset(SHADOWED.nodes);
    assert READER.opId.text[0] != WRITER.opId.text[0];
  }

  lemma ReaderFirst(
    reader: Node, writer: Node, p: TensorRef, q: TensorRef, r: TensorRef, setting: Setting,
    u: EvalTensor, v: EvalTensor)
    requires writer.op == RELU && writer.inputs == [p] && writer.outputs == [q]
    requires reader.op == RELU && reader.inputs == [q] && reader.outputs == [r] && p != r
    requires p in setting.stored && setting.stored[p] == u && Passes(u, setting)
    requires q in setting.stored && setting.stored[q] == v && Passes(v, setting)
    ensures Run([reader, writer], setting).Ok?
    ensures Run([reader, writer], setting).value.runtime == map[r := v][q := u]
  {
    NodePasses(reader, q, map[], setting, v);
    NodePasses(writer, p, map[r := v], setting, u);
    TwoNodesRun(reader, writer, r, q, v, u, setting);
  }

  lemma NamesDiffer()
    ensures NAME_U != NAME_V && NAME_V != NAME_W && NAME_U != NAME_W
  {
    assert NAME_U.text[0] != NAME_V.text[0] && NAME_V.text[0] != NAME_W.text[0] && NAME_U.text[0] != NAME_W.text[0];
  }

  /**
    A stored tensor with the name of a produced one is read in the order as
    written and shadowed in canonical order, all data-flow edges declared.
   */
  lemma ShadowingChangesMeaning(setting: Setting, u: EvalTensor, v: EvalTensor)
    requires setting.stored == map[NAME_U := u, NAME_V := v] && u != v && Passes(u, setting) && Passes(v, setting)
    ensures Faithful(SHADOWED) && IsCanonicalFormOf(Graph([WRITER, READER], SHADOWED.edges), SHADOWED)
    ensures Run(SHADOWED.nodes, setting).Ok? && Run([WRITER, READER], setting).Ok?
    ensures !Agree(SHADOWED.nodes, [WRITER, READER], setting)
  {
    ShadowedIsFaithful();
    ShadowedCanonicalForm();
    NamesDiffer();
    ReaderFirst(READER, WRITER, NAME_U, NAME_V, NAME_W, setting, u, v);
    ReaderLast(READER, WRITER, NAME_U, NAME_V, NAME_W, setting, u);
    assert Run(SHADOWED.nodes, setting).value.runtime[NAME_W] == v;
    assert Run([WRITER, READER], setting).value.runtime[NAME_W] == u;
  }

  // ---- Why nothing may be overwritten ----

  const FIRST := Node(Path([97]), RELU, [NAME_U], [NAME_W])
  const SECOND := Node(Path([98]), RELU, [NAME_V], [NAME_W])
  const OVERWRITTEN := Graph([SECOND, FIRST], [])

  lemma LastWriteWins(
    m: Node, n: Node, p: TensorRef, q: TensorRef, r: TensorRef, setting: Setting, u: EvalTensor, v: EvalTensor)
    requires m.op == RELU && m.inputs == [p] && m.outputs == [r]
    requires n.op == RELU && n.inputs == [q] && n.outputs == [r] && q != r
    requires p in setting.stored && setting.stored[p] == u && Passes(u, setting)
    requires q in setting.stored && setting.stored[q] == v && Passes(v, setting)
    ensures Run([m, n], setting).Ok? && Run([m, n], setting).value.runtime == map[r := v]
  {
    NodePasses(m, p, map[], setting, u);
    NodePasses(n, q, map[r := u], setting, v);
    TwoNodesRun(m, n, r, r, u, v, setting);
  }

  lemma NothingProducedIsRead(g: Graph)
    requires g == OVERWRITTEN
    ensures DependenciesReach(g) && NothingReadEarly(g.nodes, {NAME_U, NAME_V}) && !SingleProducer(g.nodes)
  {
    NamesDiffer();
    assert FIRST in g.nodes && SECOND in g.nodes && NAME_W in FIRST.outputs && NAME_W in SECOND.outputs;
    assert FIRST.opId.text[0] != SECOND.opId.text[0];
    forall node, id | node in g.nodes && id in node.outputs ensures id == NAME_W {
    }
    forall node, id | node in g.nodes && id in Consumed(node) ensures id != NAME_W {
    }
  }

  /**
    Two nodes may write one tensor that nobody reads.  The graph is accepted and
    reads nothing early, and canonical order changes which write comes last.
   */
  lemma OverwritingChangesMeaning(setting: Setting, u: EvalTensor, v: EvalTensor)
    requires setting.stored == map[NAME_U := u, NAME_V := v] && u != v && Passes(u, setting) && Passes(v, setting)
    ensures Accepted(OVERWRITTEN) && IsCanonicalFormOf(Graph([FIRST, SECOND], []), OVERWRITTEN)
    ensures DependenciesReach(OVERWRITTEN) && NothingReadEarly(OVERWRITTEN.nodes, setting.stored.Keys)
    ensures !SingleProducer(OVERWRITTEN.nodes)
    ensures Run(OVERWRITTEN.nodes, setting).Ok? && Run([FIRST, SECOND], setting).Ok?
    ensures !Agree(OVERWRITTEN.nodes, [FIRST, SECOND], setting)
  {
    EdgelessPair(FIRST, SECOND);
    NothingProducedIsRead(OVERWRITTEN);
    assert setting.stored.Keys == {NAME_U, NAME_V};
    NamesDiffer();
    LastWriteWins(SECOND, FIRST, NAME_V, NAME_U, NAME_W, setting, v, u);
    LastWriteWins(FIRST, SECOND, NAME_U, NAME_V, NAME_W, setting, u, v);
    assert Run(OVERWRITTEN.nodes, setting).value.runtime[NAME_W] == u;
    assert Run([FIRST, SECOND], setting).value.runtime[NAME_W] == v;
  }

  // ---- A tensor may be updated in place ----

  const UPDATER := Node(Path([97]), RELU, [NAME_U], [NAME_U])

  /** A node that overwrites the stored tensor it reads needs no edge. */
  lemma UpdatingIsFaithful()
    ensures Faithful(Graph([UPDATER], [])) && Accepted(Graph([UPDATER], []))
  {
    forall walk ensures !IsCycle([], walk) {
      if |walk| >= 2 { assert Preds([], walk[1]) == {}; }
    }
  }
}
