/**
  What a program computes, kernels aside: the term each node builds from the
  stored tensors.  Two orders of a program agree for every kernel exactly when
  they build the same terms.
 */
module ProgramTerms {
  import opened Wrappers
  import opened ReferenceGraph
  import opened ProgramEvaluator

  datatype Term = Stored(id: TensorRef) | Apply(op: ReferenceOp, args: seq<Term>)

  type Terms = map<TensorRef, Term>

  function Resolved(id: TensorRef, terms: Terms): Term
  {
    if id in terms then terms[id] else Stored(id)
  }

  function Args(ids: seq<TensorRef>, terms: Terms): (args: seq<Term>)
    ensures |args| == |ids| && forall k :: 0 <= k < |ids| ==> args[k] == Resolved(ids[k], terms)
  {
    if ids == [] then [] else [Resolved(ids[0], terms)] + Args(ids[1..], terms)
  }

  function NodeTerm(node: Node, terms: Terms): Term
  {
    Apply(node.op, Args(Consumed(node), terms))
  }

  /** The terms of all tensors written by `nodes`, run in order. */
  function TermsOf(nodes: seq<Node>): Terms
    decreases |nodes|
  {
    if nodes == [] then map[] else
    var node := nodes[|nodes| - 1];
    var before := TermsOf(nodes[..|nodes| - 1]);
    before + map id | id in node.outputs :: NodeTerm(node, before)
  }

  /** The term built by the node at position `i` when its turn comes. */
  function TermAt(nodes: seq<Node>, i: nat): Term
    requires i < |nodes|
  {
    NodeTerm(nodes[i], TermsOf(nodes[..i]))
  }

  lemma TermsStep(nodes: seq<Node>, n: nat)
    requires n < |nodes|
    ensures TermsOf(nodes[..n + 1]) == TermsOf(nodes[..n]) + map id | id in nodes[n].outputs :: TermAt(nodes, n)
  {
    assert nodes[..n + 1][..n] == nodes[..n];
  }

  lemma Written(nodes: seq<Node>, n: nat, id: TensorRef)
    requires n < |nodes| && id in nodes[n].outputs
    ensures id in TermsOf(nodes[..n + 1]) && TermsOf(nodes[..n + 1])[id] == TermAt(nodes, n)
  {
    TermsStep(nodes, n);
  }

  lemma Unwritten(nodes: seq<Node>, n: nat, id: TensorRef)
    requires n < |nodes| && id !in nodes[n].outputs
    ensures id in TermsOf(nodes[..n + 1]) <==> id in TermsOf(nodes[..n])
    ensures id in TermsOf(nodes[..n]) ==> TermsOf(nodes[..n + 1])[id] == TermsOf(nodes[..n])[id]
  {
    TermsStep(nodes, n);
  }

  /** The tensor named `id` has the term that node `j` built. */
  ghost predicate IsBuiltBy(nodes: seq<Node>, n: nat, j: nat, id: TensorRef)
    requires n <= |nodes| && j < |nodes|
  {
    id in TermsOf(nodes[..n]) && TermsOf(nodes[..n])[id] == TermAt(nodes, j)
  }

  lemma StaysBuilt(nodes: seq<Node>, n: nat, j: nat, id: TensorRef)
    requires n < |nodes| && j < n && id !in nodes[n].outputs && IsBuiltBy(nodes, n, j, id)
    ensures IsBuiltBy(nodes, n + 1, j, id)
  {
    Unwritten(nodes, n, id);
  }

  lemma {:induction false} BuiltByLastWriter(nodes: seq<Node>, n: nat, j: nat, id: TensorRef)
    requires IsLastWriter(nodes, n, j, id)
    ensures IsBuiltBy(nodes, n, j, id)
    decreases n
  {
    var m: nat := n - 1;
    if j == m {
      Written(nodes, m, id);
    } else {
      StillLastWriter(nodes, m, j, id);
      BuiltByLastWriter(nodes, m, j, id);
      StaysBuilt(nodes, m, j, id);
    }
  }

  lemma LookUp(nodes: seq<Node>, n: nat, j: nat, id: TensorRef)
    requires IsLastWriter(nodes, n, j, id)
    ensures id in TermsOf(nodes[..n])
    ensures TermsOf(nodes[..n])[id] == TermAt(nodes, j)
  {
    BuiltByLastWriter(nodes, n, j, id);
  }

  lemma StillLastWriter(nodes: seq<Node>, n: nat, j: nat, id: TensorRef)
    requires IsLastWriter(nodes, n + 1, j, id) && j < n
    ensures IsLastWriter(nodes, n, j, id) && id !in nodes[n].outputs
  {
  }

  lemma {:induction false} LookUpNothing(nodes: seq<Node>, n: nat, id: TensorRef)
    requires n <= |nodes| && NotWritten(nodes, n, id)
    ensures id !in TermsOf(nodes[..n])
    decreases n
  {
    if n > 0 {
      Unwritten(nodes, n - 1, id);
      LookUpNothing(nodes, n - 1, id);
    }
  }

  // ---- Terms denote what a run computes ----

  function Denotation(term: Term, setting: Setting): Option<EvalTensor>
    decreases term, 0
  {
    match term
    case Stored(id) => if id in setting.stored then Some(setting.stored[id]) else None
    case Apply(op, args) =>
      match Denotations(args, setting)
      case None => None
      case Some(operands) => setting.kernel(op, setting.prompt, operands)
  }

  function Denotations(terms: seq<Term>, setting: Setting): (r: Option<seq<EvalTensor>>)
    ensures r.Some? ==> |r.value| == |terms|
    decreases terms, 1
  {
    if terms == [] then Some([]) else
    match Denotation(terms[0], setting)
    case None => None
    case Some(first) =>
      match Denotations(terms[1..], setting)
      case None => None
      case Some(rest) => Some([first] + rest)
  }

  /** The environment holds what the terms denote. */
  ghost predicate Denotes(terms: Terms, runtime: Env, setting: Setting)
  {
    terms.Keys == runtime.Keys && forall id :: id in terms ==> Denotation(terms[id], setting) == Some(runtime[id])
  }

  /** The node has an implemented operation and enough inputs for it. */
  predicate Executable(node: Node)
  {
    !node.op.LinearStateBlock? && |Consumed(node)| >= MinInputs(node.op)
  }

  lemma {:induction false} GatheredDenote(ids: seq<TensorRef>, terms: Terms, runtime: Env, setting: Setting)
    requires Denotes(terms, runtime, setting)
    ensures
      var gathered := Gather(ids, runtime, setting.stored);
      Denotations(Args(ids, terms), setting) == if gathered.Ok? then Some(gathered.value) else None
  {
    if ids != [] {
      assert Args(ids, terms)[1..] == Args(ids[1..], terms);
      GatheredDenote(ids[1..], terms, runtime, setting);
    }
  }

  lemma {:induction false} GatherCounts(ids: seq<TensorRef>, runtime: Env, stored: Env)
    requires Gather(ids, runtime, stored).Ok?
    ensures |Gather(ids, runtime, stored).value| == |ids|
  {
    if ids != [] {
      GatherCounts(ids[1..], runtime, stored);
    }
  }

  lemma NodeDenotes(node: Node, terms: Terms, runtime: Env, setting: Setting)
    requires Denotes(terms, runtime, setting)
    ensures
      var value := EvalNode(node, runtime, setting);
      && (value.Ok? <==> Executable(node) && Denotation(NodeTerm(node, terms), setting).Some?)
      && (value.Ok? ==> Denotation(NodeTerm(node, terms), setting) == Some(value.value))
  {
    GatheredDenote(Consumed(node), terms, runtime, setting);
    if Gather(Consumed(node), runtime, setting.stored).Ok? {
      GatherCounts(Consumed(node), runtime, setting.stored);
    }
  }

  /** The node at position `i` can run and its term denotes a tensor. */
  ghost predicate Succeeds(nodes: seq<Node>, i: nat, setting: Setting)
    requires i < |nodes|
  {
    Executable(nodes[i]) && Denotation(TermAt(nodes, i), setting).Some?
  }

  ghost predicate AllSucceed(nodes: seq<Node>, n: nat, setting: Setting)
    requires n <= |nodes|
  {
    forall i {:trigger Succeeds(nodes, i, setting)} :: 0 <= i < n ==> Succeeds(nodes, i, setting)
  }

  /** A run succeeds exactly when every node does, and ends in what the terms denote. */
  lemma {:induction false} RunDenotes(nodes: seq<Node>, n: nat, setting: Setting)
    requires n <= |nodes|
    ensures Run(nodes[..n], setting).Ok? <==> AllSucceed(nodes, n, setting)
    ensures Run(nodes[..n], setting).Ok? ==>
      Denotes(TermsOf(nodes[..n]), Run(nodes[..n], setting).value.runtime, setting)
    decreases n
  {
    if n > 0 {
      RunDenotes(nodes, n - 1, setting);
      OneMoreDenotes(nodes, n - 1, setting);
    }
  }

  lemma OneMoreDenotes(nodes: seq<Node>, n: nat, setting: Setting)
    requires n < |nodes| && (Run(nodes[..n], setting).Ok? <==> AllSucceed(nodes, n, setting))
    requires Run(nodes[..n], setting).Ok? ==>
      Denotes(TermsOf(nodes[..n]), Run(nodes[..n], setting).value.runtime, setting)
    ensures Run(nodes[..n + 1], setting).Ok? <==> AllSucceed(nodes, n + 1, setting)
    ensures Run(nodes[..n + 1], setting).Ok? ==>
      Denotes(TermsOf(nodes[..n + 1]), Run(nodes[..n + 1], setting).value.runtime, setting)
  {
    OneMore(nodes, n, setting);
    if Run(nodes[..n], setting).Ok? {
      StepDenotes(nodes, n, setting);
    } else {
      PrefixFails(nodes, n, setting);
    }
  }

  lemma OneMore(nodes: seq<Node>, n: nat, setting: Setting)
    requires n < |nodes|
    ensures AllSucceed(nodes, n + 1, setting) <==> AllSucceed(nodes, n, setting) && Succeeds(nodes, n, setting)
  {
  }

  lemma PrefixFails(nodes: seq<Node>, n: nat, setting: Setting)
    requires n < |nodes| && Run(nodes[..n], setting).Err?
    ensures Run(nodes[..n + 1], setting).Err?
  {
    assert nodes[..n + 1][..n] == nodes[..n];
    FailureSticks(nodes[..n + 1], n, setting);
  }

  lemma StepDenotes(nodes: seq<Node>, n: nat, setting: Setting)
    requires n < |nodes| && Run(nodes[..n], setting).Ok?
    requires Denotes(TermsOf(nodes[..n]), Run(nodes[..n], setting).value.runtime, setting)
    ensures Run(nodes[..n + 1], setting).Ok? <==> Succeeds(nodes, n, setting)
    ensures Run(nodes[..n + 1], setting).Ok? ==>
      Denotes(TermsOf(nodes[..n + 1]), Run(nodes[..n + 1], setting).value.runtime, setting)
  {
    var terms, state := TermsOf(nodes[..n]), Run(nodes[..n], setting).value;
    OneStep(nodes, n, setting);
    NodeDenotes(nodes[n], terms, state.runtime, setting);
    TermsStep(nodes, n);
    var value := EvalNode(nodes[n], state.runtime, setting);
    if value.Ok? {
      StoreDenotes(nodes[n].outputs, TermAt(nodes, n), terms, value.value, state, setting);
    }
  }

  lemma StoreDenotes(
    outputs: seq<TensorRef>, term: Term, terms: Terms, tensor: EvalTensor, state: State, setting: Setting)
    requires Denotes(terms, state.runtime, setting) && Denotation(term, setting) == Some(tensor)
    ensures Denotes(terms + map id | id in outputs :: term, Store(outputs, tensor, state).runtime, setting)
  {
  }

  lemma WholeRunDenotes(nodes: seq<Node>, setting: Setting)
    ensures Run(nodes, setting).Ok? <==> AllSucceed(nodes, |nodes|, setting)
    ensures Run(nodes, setting).Ok? ==> Denotes(TermsOf(nodes), Run(nodes, setting).value.runtime, setting)
  {
    assert nodes[..|nodes|] == nodes;
    RunDenotes(nodes, |nodes|, setting);
  }

  /** Equal terms denote equal environments. */
  lemma SameTermsAgree(a: seq<Node>, b: seq<Node>, setting: Setting)
    requires TermsOf(a) == TermsOf(b) && Run(a, setting).Ok? && Run(b, setting).Ok?
    ensures Run(a, setting).value.runtime == Run(b, setting).value.runtime
  {
    WholeRunDenotes(a, setting);
    WholeRunDenotes(b, setting);
  }

  // ---- Programs that can run ----

  /** Every tensor read is stored or written earlier. */
  ghost predicate InputsWritten(nodes: seq<Node>, names: set<TensorRef>)
  {
    forall i, id {:trigger NotWritten(nodes, i, id)} ::
      0 <= i < |nodes| && id in Consumed(nodes[i]) && id !in names ==> !NotWritten(nodes, i, id)
  }

  ghost predicate Runnable(nodes: seq<Node>, names: set<TensorRef>)
  {
    InputsWritten(nodes, names) && forall node :: node in nodes ==> Executable(node)
  }

  lemma {:induction false} DenotedArgument(terms: seq<Term>, setting: Setting, k: nat)
    requires Denotations(terms, setting).Some? && k < |terms|
    ensures Denotation(terms[k], setting).Some?
  {
    if k > 0 {
      DenotedArgument(terms[1..], setting, k - 1);
    }
  }

  lemma ReadsAreThere(nodes: seq<Node>, i: nat, id: TensorRef, setting: Setting)
    requires i < |nodes| && Succeeds(nodes, i, setting)
    requires id in Consumed(nodes[i]) && id !in setting.stored
    ensures !NotWritten(nodes, i, id)
  {
    var k :| 0 <= k < |Consumed(nodes[i])| && Consumed(nodes[i])[k] == id;
    DenotedArgument(Args(Consumed(nodes[i]), TermsOf(nodes[..i])), setting, k);
    if NotWritten(nodes, i, id) {
      LookUpNothing(nodes, i, id);
    }
  }

  /** Whatever runs is runnable. */
  lemma RunsAreRunnable(nodes: seq<Node>, setting: Setting)
    requires Run(nodes, setting).Ok?
    ensures Runnable(nodes, setting.stored.Keys)
  {
    WholeRunDenotes(nodes, setting);
    forall i, id | 0 <= i < |nodes| && id in Consumed(nodes[i]) && id !in setting.stored
      ensures !NotWritten(nodes, i, id)
    {
      assert Succeeds(nodes, i, setting);
      ReadsAreThere(nodes, i, id, setting);
    }
    forall node | node in nodes ensures Executable(node) {
      var i :| 0 <= i < |nodes| && nodes[i] == node;
      assert Succeeds(nodes, i, setting);
    }
  }

  // ---- The free setting ----

  function ActivationTag(kind: ActivationKind): nat
  {
    match kind
    case ReLU => 0
    case GeLU => 1
    case SiLU => 2
    case Tanh => 3
  }

  function OpTag(op: ReferenceOp): nat
  {
    match op
    case Linear => 1
    case Embedding => 2
    case Classifier => 3
    case LinearStateBlock => 4
    case MatMul => 5
    case Add => 6
    case Mul => 7
    case LayerNorm => 8
    case Softmax => 9
    case Activation(kind) => 10 + ActivationTag(kind)
  }

  /** A term written out as numbers; stored names start with 0, which is no tag. */
  function Code(term: Term): (code: seq<nat>)
    decreases term, 0
  {
    match term
    case Stored(id) => StoredCode(id)
    case Apply(op, args) => [OpTag(op)] + Frames(Codes(args))
  }

  function StoredCode(id: TensorRef): seq<nat>
  {
    [0] + seq(|id.text|, k requires 0 <= k < |id.text| => id.text[k] as nat)
  }

  function Codes(terms: seq<Term>): (codes: seq<seq<nat>>)
    ensures |codes| == |terms| && forall k :: 0 <= k < |terms| ==> codes[k] == Code(terms[k])
    decreases terms, 1
  {
    if terms == [] then [] else [Code(terms[0])] + Codes(terms[1..])
  }

  function Frames(codes: seq<seq<nat>>): seq<nat>
  {
    if codes == [] then [] else [|codes[0]|] + codes[0] + Frames(codes[1..])
  }

  lemma {:induction false} FramesUnique(xs: seq<seq<nat>>, ys: seq<seq<nat>>)
    requires Frames(xs) == Frames(ys)
    ensures xs == ys
  {
    if xs != [] && ys != [] {
      assert |xs[0]| == Frames(xs)[0] == Frames(ys)[0] == |ys[0]|;
      var n := |xs[0]| + 1;
      assert xs[0] == Frames(xs)[1..n] && ys[0] == Frames(ys)[1..n];
      assert Frames(xs[1..]) == Frames(xs)[n..] && Frames(ys[1..]) == Frames(ys)[n..];
      FramesUnique(xs[1..], ys[1..]);
      assert xs == [xs[0]] + xs[1..] && ys == [ys[0]] + ys[1..];
    }
  }

  lemma StoredCodeUnique(a: TensorRef, b: TensorRef)
    requires StoredCode(a) == StoredCode(b)
    ensures a == b
  {
    assert |a.text| == |StoredCode(a)| - 1 == |b.text|;
    forall k | 0 <= k < |a.text| ensures a.text[k] == b.text[k] {
      assert StoredCode(a)[k + 1] == StoredCode(b)[k + 1];
    }
  }

  lemma ApplyCode(op: ReferenceOp, args: seq<Term>, t: Term)
    requires Code(Apply(op, args)) == Code(t)
    ensures t.Apply? && t.op == op && Codes(t.args) == Codes(args)
  {
    match t
    case Stored(id) => StoredIsNoApplication(id, op, args);
    case Apply(other, more) => HeadAndFrames(OpTag(op), OpTag(other), Codes(args), Codes(more));
  }

  lemma StoredIsNoApplication(id: TensorRef, op: ReferenceOp, args: seq<Term>)
    ensures Code(Apply(op, args)) != Code(Stored(id))
  {
    assert Code(Apply(op, args))[0] == OpTag(op) && StoredCode(id)[0] == 0;
  }

  lemma HeadAndFrames(m: nat, n: nat, xs: seq<seq<nat>>, ys: seq<seq<nat>>)
    requires [m] + Frames(xs) == [n] + Frames(ys)
    ensures m == n && xs == ys
  {
    assert ([m] + Frames(xs))[0] == m && ([n] + Frames(ys))[0] == n;
    assert ([m] + Frames(xs))[1..] == Frames(xs) && ([n] + Frames(ys))[1..] == Frames(ys);
    FramesUnique(xs, ys);
  }

  /** Different terms have different codes. */
  lemma {:induction false} CodeUnique(s: Term, t: Term)
    requires Code(s) == Code(t)
    ensures s == t
    decreases s
  {
    assert Code(s)[0] == Code(t)[0];
    match s
    case Stored(id) =>
      StoredCodeUnique(id, t.id);
    case Apply(op, args) =>
      ApplyCode(op, args, t);
      forall k | 0 <= k < |args| ensures args[k] == t.args[k] {
        assert Codes(args)[k] == Codes(t.args)[k];
        CodeUnique(args[k], t.args[k]);
      }
  }

  function Shapes(tensors: seq<EvalTensor>): (shapes: seq<seq<nat>>)
    ensures |shapes| == |tensors| && forall k :: 0 <= k < |tensors| ==> shapes[k] == tensors[k].shape
  {
    seq(|tensors|, k requires 0 <= k < |tensors| => tensors[k].shape)
  }

  /** Returns the code it is given, unless that is the code of the refused term. */
  function FreeResult(code: seq<nat>, refused: Option<Term>): Option<EvalTensor>
  {
    if refused.Some? && code == Code(refused.value) then None else Some(EvalTensor(code, []))
  }

  function FreeKernel(refused: Option<Term>): Kernel
  {
    (op, prompt, operands) => FreeResult([OpTag(op)] + Frames(Shapes(operands)), refused)
  }

  /** A kernel and stored values that confuse no two terms; the kernel may refuse one term. */
  ghost function FreeSetting(names: set<TensorRef>, refused: Option<Term>): Setting
  {
    Setting(map id | id in names :: EvalTensor(StoredCode(id), []), [], FreeKernel(refused))
  }

  /** The term is built from stored names, without the refused term. */
  ghost predicate Over(term: Term, names: set<TensorRef>, refused: Option<Term>)
  {
    match term
    case Stored(id) => id in names
    case Apply(_, args) => Some(term) != refused && forall k :: 0 <= k < |args| ==> Over(args[k], names, refused)
  }

  lemma {:induction false} FreeDenotation(term: Term, names: set<TensorRef>, refused: Option<Term>)
    requires Over(term, names, refused)
    ensures Denotation(term, FreeSetting(names, refused)) == Some(EvalTensor(Code(term), []))
    decreases term, 0
  {
    match term
    case Stored(_) =>
    case Apply(op, args) =>
      FreeDenotations(args, names, refused);
      assert Shapes(Denotations(args, FreeSetting(names, refused)).value) == Codes(args);
      if refused.Some? && Code(term) == Code(refused.value) {
        CodeUnique(term, refused.value);
      }
  }

  lemma {:induction false} FreeDenotations(terms: seq<Term>, names: set<TensorRef>, refused: Option<Term>)
    requires forall k :: 0 <= k < |terms| ==> Over(terms[k], names, refused)
    ensures Denotations(terms, FreeSetting(names, refused)).Some?
    ensures forall k :: 0 <= k < |terms| ==>
      Denotations(terms, FreeSetting(names, refused)).value[k] == EvalTensor(Code(terms[k]), [])
    decreases terms, 1
  {
    if terms != [] {
      FreeDenotation(terms[0], names, refused);
      FreeDenotations(terms[1..], names, refused);
    }
  }

  ghost predicate AllOver(terms: Terms, names: set<TensorRef>, refused: Option<Term>)
  {
    forall id :: id in terms ==> Over(terms[id], names, refused)
  }

  /** Some node builds the term. */
  ghost predicate Builds(nodes: seq<Node>, term: Term)
  {
    exists i :: 0 <= i < |nodes| && TermAt(nodes, i) == term
  }

  ghost predicate NeverBuilds(nodes: seq<Node>, refused: Option<Term>)
  {
    refused.Some? ==> !Builds(nodes, refused.value)
  }

  lemma {:induction false} RunnableTerms(nodes: seq<Node>, n: nat, names: set<TensorRef>, refused: Option<Term>)
    requires InputsWritten(nodes, names) && NeverBuilds(nodes, refused) && n <= |nodes|
    ensures AllOver(TermsOf(nodes[..n]), names, refused)
    decreases n
  {
    if n > 0 {
      RunnableTerms(nodes, n - 1, names, refused);
      RunnableTerm(nodes, n - 1, names, refused);
      TermsStep(nodes, n - 1);
    }
  }

  lemma RunnableTerm(nodes: seq<Node>, n: nat, names: set<TensorRef>, refused: Option<Term>)
    requires InputsWritten(nodes, names) && NeverBuilds(nodes, refused)
    requires n < |nodes| && AllOver(TermsOf(nodes[..n]), names, refused)
    ensures Over(TermAt(nodes, n), names, refused)
  {
    var ids := Consumed(nodes[n]);
    assert forall k :: 0 <= k < |ids| ==> ids[k] in ids;
    forall k | 0 <= k < |ids| ensures Over(Resolved(ids[k], TermsOf(nodes[..n])), names, refused) {
      if ids[k] !in names {
        var j := LastWriter(nodes, n, ids[k]);
        LookUp(nodes, n, j, ids[k]);
      }
    }
  }

  lemma SucceedsFreely(nodes: seq<Node>, i: nat, names: set<TensorRef>, refused: Option<Term>)
    requires Runnable(nodes, names) && NeverBuilds(nodes, refused) && i < |nodes|
    ensures Succeeds(nodes, i, FreeSetting(names, refused))
  {
    RunnableTerms(nodes, i, names, refused);
    RunnableTerm(nodes, i, names, refused);
    FreeDenotation(TermAt(nodes, i), names, refused);
  }

  /** Whatever is runnable runs freely, and its environment spells out the terms. */
  lemma RunnablesRun(nodes: seq<Node>, names: set<TensorRef>, refused: Option<Term>)
    requires Runnable(nodes, names) && NeverBuilds(nodes, refused)
    ensures Run(nodes, FreeSetting(names, refused)).Ok?
    ensures Run(nodes, FreeSetting(names, refused)).value.runtime.Keys == TermsOf(nodes).Keys
    ensures forall id :: id in TermsOf(nodes) ==>
      Run(nodes, FreeSetting(names, refused)).value.runtime[id] == EvalTensor(Code(TermsOf(nodes)[id]), [])
  {
    var free, terms := FreeSetting(names, refused), TermsOf(nodes);
    forall i | 0 <= i < |nodes| ensures Succeeds(nodes, i, free) {
      SucceedsFreely(nodes, i, names, refused);
    }
    WholeRunDenotes(nodes, free);
    assert nodes[..|nodes|] == nodes;
    RunnableTerms(nodes, |nodes|, names, refused);
    forall id | id in terms ensures Denotation(terms[id], free) == Some(EvalTensor(Code(terms[id]), [])) {
      FreeDenotation(terms[id], names, refused);
    }
  }

  /** A program can be run for some kernel and stored values exactly when it is runnable. */
  lemma RunnableMeansRuns(nodes: seq<Node>, names: set<TensorRef>)
    ensures Runnable(nodes, names) <==>
      exists setting: Setting :: setting.stored.Keys == names && Run(nodes, setting).Ok?
  {
    if Runnable(nodes, names) {
      RunnablesRun(nodes, names, None);
      assert FreeSetting(names, None).stored.Keys == names;
    }
    if setting: Setting :| setting.stored.Keys == names && Run(nodes, setting).Ok? {
      RunsAreRunnable(nodes, setting);
    }
  }

  // ---- Agreement ----

  /** Where both orders run, they end in the same environment. */
  ghost predicate Agree(a: seq<Node>, b: seq<Node>, setting: Setting)
  {
    Run(a, setting).Ok? && Run(b, setting).Ok? ==> Run(a, setting).value.runtime == Run(b, setting).value.runtime
  }

  /** They agree for every kernel, prompt and choice of values for the stored names. */
  ghost predicate AlwaysAgree(a: seq<Node>, b: seq<Node>, names: set<TensorRef>)
  {
    forall setting: Setting :: setting.stored.Keys == names ==> Agree(a, b, setting)
  }

  /**
    Two node lists agree for every kernel and every stored value exactly when
    they build the same terms, or one of them cannot run at all.
   */
  lemma AgreementIsSameTerms(a: seq<Node>, b: seq<Node>, names: set<TensorRef>)
    ensures AlwaysAgree(a, b, names) <==>
      (Runnable(a, names) && Runnable(b, names) ==> TermsOf(a) == TermsOf(b))
  {
    if AlwaysAgree(a, b, names) && Runnable(a, names) && Runnable(b, names) {
      assert FreeSetting(names, None).stored.Keys == names;
      assert Agree(a, b, FreeSetting(names, None));
      FreeRunsTell(a, b, names);
    }
    if Runnable(a, names) && Runnable(b, names) ==> TermsOf(a) == TermsOf(b) {
      forall setting: Setting | setting.stored.Keys == names ensures Agree(a, b, setting) {
        if Run(a, setting).Ok? && Run(b, setting).Ok? {
          RunsAreRunnable(a, setting);
          RunsAreRunnable(b, setting);
          SameTermsAgree(a, b, setting);
        }
      }
    }
  }

  lemma FreeRunsTell(a: seq<Node>, b: seq<Node>, names: set<TensorRef>)
    requires Runnable(a, names) && Runnable(b, names) && Agree(a, b, FreeSetting(names, None))
    ensures TermsOf(a) == TermsOf(b)
  {
    RunnablesRun(a, names, None);
    RunnablesRun(b, names, None);
    forall id | id in TermsOf(a) ensures TermsOf(a)[id] == TermsOf(b)[id] {
      CodeUnique(TermsOf(a)[id], TermsOf(b)[id]);
    }
  }

  /** Whenever `a` runs, `b` runs too and ends in the same environment. */
  ghost predicate Keeps(a: seq<Node>, b: seq<Node>, setting: Setting)
  {
    Run(a, setting).Ok? ==>
      Run(b, setting).Ok? && Run(b, setting).value.runtime == Run(a, setting).value.runtime
  }

  ghost predicate AlwaysKeeps(a: seq<Node>, b: seq<Node>, names: set<TensorRef>)
  {
    forall setting: Setting :: setting.stored.Keys == names ==> Keeps(a, b, setting)
  }

  /** Every term that `b` builds, `a` builds too. */
  ghost predicate NoNewWork(a: seq<Node>, b: seq<Node>)
  {
    forall n :: 0 <= n < |b| ==> Builds(a, TermAt(b, n))
  }

  lemma SameTermSucceeds(a: seq<Node>, b: seq<Node>, n: nat, setting: Setting)
    requires AllSucceed(a, |a|, setting) && n < |b| && Builds(a, TermAt(b, n)) && Executable(b[n])
    ensures Succeeds(b, n, setting)
  {
    var k :| 0 <= k < |a| && TermAt(a, k) == TermAt(b, n);
    assert Succeeds(a, k, setting);
  }

  lemma NoNewWorkRuns(a: seq<Node>, b: seq<Node>, names: set<TensorRef>, setting: Setting)
    requires Runnable(b, names) && NoNewWork(a, b) && Run(a, setting).Ok?
    ensures Run(b, setting).Ok?
  {
    WholeRunDenotes(a, setting);
    forall n | 0 <= n < |b| ensures Succeeds(b, n, setting) {
      assert b[n] in b;
      SameTermSucceeds(a, b, n, setting);
    }
    WholeRunDenotes(b, setting);
  }

  /** A kernel that refuses a term only `b` builds stops `b` alone. */
  lemma NewWorkTells(a: seq<Node>, b: seq<Node>, n: nat, names: set<TensorRef>)
    requires Runnable(a, names) && n < |b| && !Builds(a, TermAt(b, n))
    ensures !AlwaysKeeps(a, b, names)
  {
    var term := TermAt(b, n);
    var setting := FreeSetting(names, Some(term));
    RunnablesRun(a, names, Some(term));
    assert setting.stored.Keys == names;
    if Run(b, setting).Ok? {
      WholeRunDenotes(b, setting);
      assert Succeeds(b, n, setting);
      RefusedFails(term, names);
    }
    assert !Keeps(a, b, setting);
  }

  lemma RefusedFails(term: Term, names: set<TensorRef>)
    requires term.Apply?
    ensures Denotation(term, FreeSetting(names, Some(term))).None?
  {
    var setting := FreeSetting(names, Some(term));
    if Denotations(term.args, setting).Some? {
      DenotedCodes(term.args, names, Some(term));
      assert Shapes(Denotations(term.args, setting).value) == Codes(term.args);
    }
  }

  /** Whatever a free setting makes of a term is its code. */
  lemma {:induction false} DenotedCode(term: Term, names: set<TensorRef>, refused: Option<Term>)
    requires Denotation(term, FreeSetting(names, refused)).Some?
    ensures Denotation(term, FreeSetting(names, refused)).value == EvalTensor(Code(term), [])
    decreases term, 0
  {
    match term
    case Stored(_) =>
    case Apply(op, args) =>
      DenotedCodes(args, names, refused);
      assert Shapes(Denotations(args, FreeSetting(names, refused)).value) == Codes(args);
  }

  lemma {:induction false} DenotedCodes(terms: seq<Term>, names: set<TensorRef>, refused: Option<Term>)
    requires Denotations(terms, FreeSetting(names, refused)).Some?
    ensures forall k :: 0 <= k < |terms| ==>
      Denotations(terms, FreeSetting(names, refused)).value[k] == EvalTensor(Code(terms[k]), [])
    decreases terms, 1
  {
    if terms != [] {
      DenotedCode(terms[0], names, refused);
      DenotedCodes(terms[1..], names, refused);
    }
  }

  /**
    `b` keeps whatever `a` does, for every kernel and every stored value, exactly
    when `b` can run, builds the same tensors and does no work that `a` does not,
    or `a` cannot run at all.
   */
  lemma KeepingIsSameWork(a: seq<Node>, b: seq<Node>, names: set<TensorRef>)
    ensures AlwaysKeeps(a, b, names) <==>
      (Runnable(a, names) ==> Runnable(b, names) && TermsOf(a) == TermsOf(b) && NoNewWork(a, b))
  {
    if Runnable(a, names) ==> Runnable(b, names) && TermsOf(a) == TermsOf(b) && NoNewWork(a, b) {
      forall setting: Setting | setting.stored.Keys == names ensures Keeps(a, b, setting) {
        if Run(a, setting).Ok? {
          RunsAreRunnable(a, setting);
          NoNewWorkRuns(a, b, names, setting);
          SameTermsAgree(a, b, setting);
        }
      }
    }
    if AlwaysKeeps(a, b, names) && Runnable(a, names) {
      KeepingTells(a, b, names);
    }
  }

  lemma KeepingTells(a: seq<Node>, b: seq<Node>, names: set<TensorRef>)
    requires AlwaysKeeps(a, b, names) && Runnable(a, names)
    ensures Runnable(b, names) && TermsOf(a) == TermsOf(b) && NoNewWork(a, b)
  {
    var free := FreeSetting(names, None);
    RunnablesRun(a, names, None);
    assert free.stored.Keys == names;
    assert Keeps(a, b, free);
    RunsAreRunnable(b, free);
    FreeRunsTell(a, b, names);
    forall n | 0 <= n < |b| ensures Builds(a, TermAt(b, n)) {
      if !Builds(a, TermAt(b, n)) {
        NewWorkTells(a, b, n, names);
      }
    }
  }
}
