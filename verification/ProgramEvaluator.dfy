/**
  Evaluation of a reference program in the order of its graph's nodes.

  The float kernels are a parameter: a kernel maps an operation, the prompt and
  the operand tensors to a tensor, or to `None` where the source's kernel
  asserts.  Everything else (operand resolution, the mutable environment, the
  choice of the logits and the argmax) is modelled as the source has it.  A
  panic of the source is an `Err`.
 */
module ProgramEvaluator {
  import opened Wrappers
  import opened Bytes
  import opened ReferenceGraph

  type CharId = byte

  /** Values are `f32` bit patterns. */
  datatype EvalTensor = EvalTensor(shape: seq<nat>, values: seq<u32>)

  type Env = map<TensorRef, EvalTensor>

  type Kernel = (ReferenceOp, seq<CharId>, seq<EvalTensor>) -> Option<EvalTensor>

  datatype EvalError =
    | MissingInput(id: TensorRef)
    | TooFewInputs(opId: OpId)
    | Unimplemented(opId: OpId)
    | KernelPanic(opId: OpId)
    | NoOutput
    | NonFiniteLogit(index: nat)
    | EmptyLogits

  /** A bundle's program together with what it is run on. */
  datatype Setting = Setting(stored: Env, prompt: seq<CharId>, kernel: Kernel)

  datatype State = State(runtime: Env, last: Option<TensorRef>)

  datatype Observations = Observations(logits: seq<u32>, argmaxToken: CharId, nodeCount: nat)

  // ---- One node ----

  function MinInputs(op: ReferenceOp): nat
  {
    match op
    case Embedding | Activation(_) | LayerNorm | Softmax => 1
    case Linear | Classifier | MatMul | Add | Mul => 2
    case LinearStateBlock => 0
  }

  /** `Linear` and `Classifier` read an optional bias. */
  function MaxInputs(op: ReferenceOp): nat
  {
    if op.Linear? || op.Classifier? then 3 else MinInputs(op)
  }

  /** The inputs a node actually reads; further inputs are ignored. */
  function Consumed(node: Node): seq<TensorRef>
  {
    if |node.inputs| <= MaxInputs(node.op) then node.inputs else node.inputs[..MaxInputs(node.op)]
  }

  /** Tensors computed so far shadow the stored ones. */
  function ResolveInput(id: TensorRef, runtime: Env, stored: Env): Option<EvalTensor>
  {
    if id in runtime then Some(runtime[id]) else if id in stored then Some(stored[id]) else None
  }

  function Gather(ids: seq<TensorRef>, runtime: Env, stored: Env): Result<seq<EvalTensor>, EvalError>
  {
    if ids == [] then Ok([]) else
    match ResolveInput(ids[0], runtime, stored)
    case None => Err(MissingInput(ids[0]))
    case Some(tensor) =>
      match Gather(ids[1..], runtime, stored)
      case Err(error) => Err(error)
      case Ok(rest) => Ok([tensor] + rest)
  }

  function EvalNode(node: Node, runtime: Env, setting: Setting): Result<EvalTensor, EvalError>
  {
    if node.op.LinearStateBlock? then Err(Unimplemented(node.opId)) else
    match Gather(Consumed(node), runtime, setting.stored)
    case Err(error) => Err(error)
    case Ok(operands) =>
      if |operands| < MinInputs(node.op) then Err(TooFewInputs(node.opId)) else
      match setting.kernel(node.op, setting.prompt, operands)
      case None => Err(KernelPanic(node.opId))
      case Some(tensor) => Ok(tensor)
  }

  function Store(outputs: seq<TensorRef>, tensor: EvalTensor, state: State): State
  {
    State(
      state.runtime + map id | id in outputs :: tensor,
      if outputs == [] then state.last else Some(outputs[|outputs| - 1]))
  }

  // ---- A whole program ----

  /** The state after running `nodes` in order. */
  function Run(nodes: seq<Node>, setting: Setting): Result<State, EvalError>
    decreases |nodes|
  {
    if nodes == [] then Ok(State(map[], None)) else
    var node := nodes[|nodes| - 1];
    match Run(nodes[..|nodes| - 1], setting)
    case Err(error) => Err(error)
    case Ok(state) =>
      match EvalNode(node, state.runtime, setting)
      case Err(error) => Err(error)
      case Ok(tensor) => Ok(Store(node.outputs, tensor, state))
  }

  /** `max_by` with ties broken towards the lower index. */
  function LowestArgmax(values: seq<u32>): (best: nat)
    requires values != []
    ensures best < |values|
    ensures forall i :: 0 <= i < |values| ==> FloatKey(values[i]) <= FloatKey(values[best])
    ensures forall i :: 0 <= i < best ==> FloatKey(values[i]) < FloatKey(values[best])
    decreases |values|
  {
    var n := |values|;
    if n == 1 then 0 else
    var best := LowestArgmax(values[..n - 1]);
    if FloatKey(values[best]) < FloatKey(values[n - 1]) then n - 1 else best
  }

  /** The index is cast to the one-byte token type. */
  function ArgmaxToken(values: seq<u32>): CharId
    requires values != []
  {
    LowestArgmax(values) % 0x100
  }

  function Observe(state: State, nodeCount: nat): Result<Observations, EvalError>
  {
    if state.last.None? || state.last.value !in state.runtime then Err(NoOutput) else
    var logits := state.runtime[state.last.value].values;
    if exists i :: 0 <= i < |logits| && !IsFinite(logits[i]) then Err(NonFiniteLogit(FirstNonFinite(logits)))
    else if logits == [] then Err(EmptyLogits)
    else Ok(Observations(logits, ArgmaxToken(logits), nodeCount))
  }

  function FirstNonFinite(values: seq<u32>): (index: nat)
    requires exists i :: 0 <= i < |values| && !IsFinite(values[i])
    ensures index < |values| && !IsFinite(values[index])
    ensures forall i :: 0 <= i < index ==> IsFinite(values[i])
  {
    if !IsFinite(values[0]) then 0 else
    assert exists i :: 0 <= i < |values[1..]| && !IsFinite(values[1..][i]) by {
      var i :| 0 <= i < |values| && !IsFinite(values[i]);
      assert values[1..][i - 1] == values[i];
    }
    1 + FirstNonFinite(values[1..])
  }

  function Observed(nodes: seq<Node>, setting: Setting): Result<Observations, EvalError>
  {
    match Run(nodes, setting)
    case Err(error) => Err(error)
    case Ok(state) => Observe(state, |nodes|)
  }

  /** No logit stands for a larger number. */
  ghost predicate IsMaximum(index: nat, values: seq<u32>)
  {
    index < |values| && forall i :: 0 <= i < |values| ==> ScaledValue(values[i]) <= ScaledValue(values[index])
  }

  ghost predicate IsLowestMaximum(index: nat, values: seq<u32>)
  {
    IsMaximum(index, values) && forall i :: 0 <= i < index ==> ScaledValue(values[i]) < ScaledValue(values[index])
  }

  // ---- What an evaluation means ----

  /** The last of the first `n` nodes that writes `id`. */
  ghost predicate IsLastWriter(nodes: seq<Node>, n: nat, j: nat, id: TensorRef)
  {
    j < n <= |nodes| && id in nodes[j].outputs && forall k :: j < k < n ==> id !in nodes[k].outputs
  }

  ghost predicate NotWritten(nodes: seq<Node>, n: nat, id: TensorRef)
    requires n <= |nodes|
  {
    forall k :: 0 <= k < n ==> id !in nodes[k].outputs
  }

  lemma {:induction false} LastWriter(nodes: seq<Node>, n: nat, id: TensorRef) returns (j: nat)
    requires n <= |nodes| && !NotWritten(nodes, n, id)
    ensures IsLastWriter(nodes, n, j, id)
    decreases n
  {
    if id in nodes[n - 1].outputs {
      j := n - 1;
    } else {
      j := LastWriter(nodes, n - 1, id);
    }
  }

  /** An operation given `given` inputs reads the first `read` of them. */
  ghost predicate Reads(op: ReferenceOp, given: nat, read: nat)
  {
    match op
    case Embedding | Activation(_) | LayerNorm | Softmax => given >= 1 && read == 1
    case MatMul | Add | Mul => given >= 2 && read == 2
    case Linear | Classifier => given >= 2 && read == if given == 2 then 2 else 3
    case LinearStateBlock => false
  }

  /** What `id` holds when the turn of node `n` comes: what its last writer computed, or else the stored tensor. */
  ghost predicate Holds(
    nodes: seq<Node>, results: seq<EvalTensor>, n: nat, id: TensorRef, stored: Env, tensor: EvalTensor)
    requires n <= |nodes| && n <= |results|
  {
    || (exists j: nat :: IsLastWriter(nodes, n, j, id) && tensor == results[j])
    || (NotWritten(nodes, n, id) && id in stored && tensor == stored[id])
  }

  ghost predicate AreOperands(
    nodes: seq<Node>, results: seq<EvalTensor>, n: nat, operands: seq<EvalTensor>, stored: Env)
    requires n < |nodes| && n <= |results|
  {
    && Reads(nodes[n].op, |nodes[n].inputs|, |operands|)
    && forall k :: 0 <= k < |operands| ==> Holds(nodes, results, n, nodes[n].inputs[k], stored, operands[k])
  }

  ghost predicate IsResult(nodes: seq<Node>, results: seq<EvalTensor>, n: nat, tensor: EvalTensor, setting: Setting)
    requires n < |nodes| && n <= |results|
  {
    exists operands ::
      && AreOperands(nodes, results, n, operands, setting.stored)
      && setting.kernel(nodes[n].op, setting.prompt, operands) == Some(tensor)
  }

  /** The results of the first nodes, each computed from what its inputs held. */
  ghost predicate IsTrace(nodes: seq<Node>, results: seq<EvalTensor>, setting: Setting)
  {
    && |results| <= |nodes|
    && forall n :: 0 <= n < |results| ==> IsResult(nodes, results, n, results[n], setting)
  }

  /** The last of the first `n` nodes that has outputs. */
  ghost predicate IsLastProducer(nodes: seq<Node>, n: nat, p: nat)
  {
    p < n <= |nodes| && nodes[p].outputs != [] && forall k :: p < k < n ==> nodes[k].outputs == []
  }

  ghost predicate AllFinite(values: seq<u32>)
  {
    forall i :: 0 <= i < |values| ==> IsFinite(values[i])
  }

  /** What a whole trace shows: the logits of the last producer and the lowest place of their maximum, as one byte. */
  ghost predicate Observes(o: Observations, nodes: seq<Node>, results: seq<EvalTensor>, setting: Setting)
  {
    && |results| == |nodes| == o.nodeCount && IsTrace(nodes, results, setting)
    && (exists p: nat :: IsLastProducer(nodes, |nodes|, p) && o.logits == results[p].values)
    && o.logits != [] && AllFinite(o.logits)
    && exists best: nat :: IsLowestMaximum(best, o.logits) && o.argmaxToken == best % 0x100
  }

  /** Why a run ends after `results`. */
  ghost predicate Fails(error: EvalError, nodes: seq<Node>, results: seq<EvalTensor>, setting: Setting)
  {
    if |results| < |nodes| then NodeFails(error, nodes, results, setting)
    else |results| == |nodes| && OutputFails(error, nodes, results)
  }

  ghost predicate OutputFails(error: EvalError, nodes: seq<Node>, results: seq<EvalTensor>)
    requires |results| == |nodes|
  {
    match error
    case NoOutput => forall k :: 0 <= k < |nodes| ==> nodes[k].outputs == []
    case NonFiniteLogit(index) =>
      exists p: nat :: IsLastProducer(nodes, |nodes|, p) && IsFirstNonFinite(index, results[p].values)
    case EmptyLogits => exists p: nat :: IsLastProducer(nodes, |nodes|, p) && results[p].values == []
    case _ => false
  }

  ghost predicate IsFirstNonFinite(index: nat, values: seq<u32>)
  {
    index < |values| && !IsFinite(values[index]) && AllFinite(values[..index])
  }

  ghost predicate NodeFails(error: EvalError, nodes: seq<Node>, results: seq<EvalTensor>, setting: Setting)
    requires |results| < |nodes|
  {
    var n, node := |results|, nodes[|results|];
    match error
    case MissingInput(id) => NotWritten(nodes, n, id) && id !in setting.stored && IsRead(node, id)
    case TooFewInputs(opId) =>
      opId == node.opId && !node.op.LinearStateBlock? && forall read: nat :: !Reads(node.op, |node.inputs|, read)
    case Unimplemented(opId) => opId == node.opId && node.op == LinearStateBlock
    case KernelPanic(opId) =>
      && opId == node.opId
      && exists operands ::
           && AreOperands(nodes, results, n, operands, setting.stored)
           && setting.kernel(node.op, setting.prompt, operands) == None
    case _ => false
  }

  /** `id` stands at a position that the operation reads when it has enough inputs. */
  ghost predicate IsRead(node: Node, id: TensorRef)
  {
    exists k: nat, given: nat, read: nat ::
      k < |node.inputs| && node.inputs[k] == id && Reads(node.op, given, read) && k < read
  }

  // ---- The environment follows the trace ----

  /** The environment after `results`: every written tensor holds what its last writer computed. */
  ghost predicate Tracks(runtime: Env, nodes: seq<Node>, results: seq<EvalTensor>)
    requires |results| <= |nodes|
  {
    forall id :: TracksOne(runtime, nodes, results, id)
  }

  ghost predicate TracksOne(runtime: Env, nodes: seq<Node>, results: seq<EvalTensor>, id: TensorRef)
    requires |results| <= |nodes|
  {
    && (NotWritten(nodes, |results|, id) ==> id !in runtime)
    && (forall j: nat :: IsLastWriter(nodes, |results|, j, id) ==> id in runtime && runtime[id] == results[j])
  }

  ghost predicate TracksLast(last: Option<TensorRef>, nodes: seq<Node>, n: nat)
    requires n <= |nodes|
  {
    && (last.None? <==> forall k :: 0 <= k < n ==> nodes[k].outputs == [])
    && (forall p: nat :: IsLastProducer(nodes, n, p) ==> last == Some(nodes[p].outputs[|nodes[p].outputs| - 1]))
  }

  lemma ResolvedHolds(id: TensorRef, runtime: Env, nodes: seq<Node>, results: seq<EvalTensor>, stored: Env)
    requires |results| <= |nodes| && Tracks(runtime, nodes, results)
    ensures forall tensor ::
      ResolveInput(id, runtime, stored) == Some(tensor) <==> Holds(nodes, results, |results|, id, stored, tensor)
    ensures ResolveInput(id, runtime, stored).None? <==> NotWritten(nodes, |results|, id) && id !in stored
  {
    assert TracksOne(runtime, nodes, results, id);
    if !NotWritten(nodes, |results|, id) {
      var j := LastWriter(nodes, |results|, id);
      assert id in runtime && runtime[id] == results[j];
    }
  }

  lemma {:induction false} GatherMeans(ids: seq<TensorRef>, operands: seq<EvalTensor>, runtime: Env, stored: Env)
    ensures Gather(ids, runtime, stored) == Ok(operands) <==>
      |operands| == |ids| && forall k :: 0 <= k < |ids| ==> ResolveInput(ids[k], runtime, stored) == Some(operands[k])
  {
    if ids != [] && operands != [] {
      GatherMeans(ids[1..], operands[1..], runtime, stored);
      assert operands == [operands[0]] + operands[1..];
    }
  }

  lemma {:induction false} GatherError(ids: seq<TensorRef>, runtime: Env, stored: Env)
    requires Gather(ids, runtime, stored).Err?
    ensures Gather(ids, runtime, stored).error.MissingInput?
    ensures Gather(ids, runtime, stored).error.id in ids
    ensures ResolveInput(Gather(ids, runtime, stored).error.id, runtime, stored).None?
  {
    if ResolveInput(ids[0], runtime, stored).Some? {
      GatherError(ids[1..], runtime, stored);
    }
  }

  /** The consumed inputs are those the operation reads. */
  lemma ConsumedAreRead(node: Node, read: nat)
    ensures Reads(node.op, |node.inputs|, read) <==>
      !node.op.LinearStateBlock? && MinInputs(node.op) <= |Consumed(node)| == read
    ensures Consumed(node) == node.inputs[..|Consumed(node)|]
  {
  }

  lemma OperandsHold(
    nodes: seq<Node>, results: seq<EvalTensor>, runtime: Env, operands: seq<EvalTensor>, stored: Env)
    requires |results| < |nodes| && Tracks(runtime, nodes, results)
    ensures AreOperands(nodes, results, |results|, operands, stored) <==>
      var node := nodes[|results|];
      && !node.op.LinearStateBlock? && MinInputs(node.op) <= |operands|
      && Gather(Consumed(node), runtime, stored) == Ok(operands)
  {
    var node := nodes[|results|];
    ConsumedAreRead(node, |operands|);
    GatherMeans(Consumed(node), operands, runtime, stored);
    forall k | 0 <= k < |operands| && |operands| == |Consumed(node)|
      ensures Holds(nodes, results, |results|, node.inputs[k], stored, operands[k]) <==>
              ResolveInput(Consumed(node)[k], runtime, stored) == Some(operands[k])
    {
      ResolvedHolds(node.inputs[k], runtime, nodes, results, stored);
    }
  }

  lemma NodeResult(nodes: seq<Node>, results: seq<EvalTensor>, runtime: Env, setting: Setting, tensor: EvalTensor)
    requires |results| < |nodes| && Tracks(runtime, nodes, results)
    ensures EvalNode(nodes[|results|], runtime, setting) == Ok(tensor) <==>
            IsResult(nodes, results, |results|, tensor, setting)
  {
    var node := nodes[|results|];
    forall operands ensures AreOperands(nodes, results, |results|, operands, setting.stored) <==>
      && !node.op.LinearStateBlock? && MinInputs(node.op) <= |operands|
      && Gather(Consumed(node), runtime, setting.stored) == Ok(operands)
    {
      OperandsHold(nodes, results, runtime, operands, setting.stored);
    }
  }

  lemma NodeError(nodes: seq<Node>, results: seq<EvalTensor>, runtime: Env, setting: Setting)
    requires |results| < |nodes| && Tracks(runtime, nodes, results)
    requires EvalNode(nodes[|results|], runtime, setting).Err?
    ensures NodeFails(EvalNode(nodes[|results|], runtime, setting).error, nodes, results, setting)
  {
    var node := nodes[|results|];
    var gathered := Gather(Consumed(node), runtime, setting.stored);
    if node.op.LinearStateBlock? {
    } else if gathered.Err? {
      GatherError(Consumed(node), runtime, setting.stored);
      ResolvedHolds(gathered.error.id, runtime, nodes, results, setting.stored);
      ConsumedIsRead(node, gathered.error.id);
    } else {
      GatherMeans(Consumed(node), gathered.value, runtime, setting.stored);
      OperandsHold(nodes, results, runtime, gathered.value, setting.stored);
      forall read: nat ensures Reads(node.op, |node.inputs|, read) ==> MinInputs(node.op) <= |Consumed(node)| {
        ConsumedAreRead(node, read);
      }
    }
  }

  lemma ConsumedIsRead(node: Node, id: TensorRef)
    requires id in Consumed(node) && !node.op.LinearStateBlock?
    ensures IsRead(node, id)
  {
    var k :| 0 <= k < |Consumed(node)| && Consumed(node)[k] == id;
    assert Reads(node.op, 3, MaxInputs(node.op)) && k < MaxInputs(node.op);
  }

  // ---- One step of the trace ----

  /** Results from node `m` on do not matter to node `m`. */
  lemma EarlierResultsDecide(
    nodes: seq<Node>, a: seq<EvalTensor>, b: seq<EvalTensor>, m: nat, tensor: EvalTensor, setting: Setting)
    requires m < |nodes| && m <= |a| && m <= |b| && a[..m] == b[..m]
    requires IsResult(nodes, a, m, tensor, setting)
    ensures IsResult(nodes, b, m, tensor, setting)
  {
    var operands :| AreOperands(nodes, a, m, operands, setting.stored)
      && setting.kernel(nodes[m].op, setting.prompt, operands) == Some(tensor);
    forall k | 0 <= k < |operands| ensures Holds(nodes, b, m, nodes[m].inputs[k], setting.stored, operands[k]) {
      SameHolds(nodes, a, b, m, nodes[m].inputs[k], setting.stored, operands[k]);
    }
  }

  lemma SameHolds(
    nodes: seq<Node>, a: seq<EvalTensor>, b: seq<EvalTensor>, m: nat, id: TensorRef, stored: Env, tensor: EvalTensor)
    requires m <= |nodes| && m <= |a| && m <= |b| && a[..m] == b[..m]
    requires Holds(nodes, a, m, id, stored, tensor)
    ensures Holds(nodes, b, m, id, stored, tensor)
  {
    if j: nat :| IsLastWriter(nodes, m, j, id) && tensor == a[j] {
      assert a[..m][j] == b[..m][j];
    }
  }

  lemma TraceGrows(nodes: seq<Node>, results: seq<EvalTensor>, tensor: EvalTensor, setting: Setting)
    requires IsTrace(nodes, results, setting) && |results| < |nodes|
    requires IsResult(nodes, results, |results|, tensor, setting)
    ensures IsTrace(nodes, results + [tensor], setting)
  {
    var more := results + [tensor];
    forall m | 0 <= m < |more| ensures IsResult(nodes, more, m, more[m], setting) {
      assert more[..m] == results[..m];
      EarlierResultsDecide(nodes, results, more, m, more[m], setting);
    }
  }

  lemma TracksGrows(nodes: seq<Node>, results: seq<EvalTensor>, state: State, tensor: EvalTensor)
    requires |results| < |nodes| && Tracks(state.runtime, nodes, results)
    ensures Tracks(Store(nodes[|results|].outputs, tensor, state).runtime, nodes, results + [tensor])
  {
    var next := Store(nodes[|results|].outputs, tensor, state);
    forall id ensures TracksOne(next.runtime, nodes, results + [tensor], id) {
      assert TracksOne(state.runtime, nodes, results, id);
      WrittenGrows(nodes, results, state, tensor, id);
    }
  }

  lemma LastWriterStep(nodes: seq<Node>, n: nat, j: nat, id: TensorRef)
    requires n < |nodes| && IsLastWriter(nodes, n + 1, j, id)
    ensures if id in nodes[n].outputs then j == n else IsLastWriter(nodes, n, j, id)
  {
  }

  lemma NotWrittenStep(nodes: seq<Node>, n: nat, id: TensorRef)
    requires n < |nodes| && NotWritten(nodes, n + 1, id)
    ensures NotWritten(nodes, n, id) && id !in nodes[n].outputs
  {
    assert id !in nodes[n].outputs;
  }

  lemma WrittenGrows(nodes: seq<Node>, results: seq<EvalTensor>, state: State, tensor: EvalTensor, id: TensorRef)
    requires |results| < |nodes| && TracksOne(state.runtime, nodes, results, id)
    ensures TracksOne(Store(nodes[|results|].outputs, tensor, state).runtime, nodes, results + [tensor], id)
  {
    var n, next, more := |results|, Store(nodes[|results|].outputs, tensor, state), results + [tensor];
    assert |more| == n + 1;
    forall j: nat | IsLastWriter(nodes, |more|, j, id)
      ensures id in next.runtime && next.runtime[id] == more[j]
    {
      LastWriterStep(nodes, n, j, id);
    }
    if NotWritten(nodes, |more|, id) {
      NotWrittenStep(nodes, n, id);
    }
  }

  lemma LastGrows(nodes: seq<Node>, n: nat, last: Option<TensorRef>, next: Option<TensorRef>)
    requires n < |nodes| && TracksLast(last, nodes, n)
    requires next == if nodes[n].outputs == [] then last else Some(nodes[n].outputs[|nodes[n].outputs| - 1])
    ensures TracksLast(next, nodes, n + 1)
  {
    forall p: nat | IsLastProducer(nodes, n + 1, p)
      ensures next == Some(nodes[p].outputs[|nodes[p].outputs| - 1])
    {
      if p < n {
        assert IsLastProducer(nodes, n, p) && nodes[n].outputs == [];
      }
    }
  }

  // ---- There is one trace ----

  lemma HoldsOneTensor(
    nodes: seq<Node>, results: seq<EvalTensor>, n: nat, id: TensorRef, stored: Env, x: EvalTensor, y: EvalTensor)
    requires n <= |nodes| && n <= |results|
    requires Holds(nodes, results, n, id, stored, x) && Holds(nodes, results, n, id, stored, y)
    ensures x == y
  {
  }

  lemma OneResult(nodes: seq<Node>, results: seq<EvalTensor>, n: nat, x: EvalTensor, y: EvalTensor, setting: Setting)
    requires n < |nodes| && n <= |results|
    requires IsResult(nodes, results, n, x, setting) && IsResult(nodes, results, n, y, setting)
    ensures x == y
  {
    var a :| AreOperands(nodes, results, n, a, setting.stored)
      && setting.kernel(nodes[n].op, setting.prompt, a) == Some(x);
    var b :| AreOperands(nodes, results, n, b, setting.stored)
      && setting.kernel(nodes[n].op, setting.prompt, b) == Some(y);
    assert |a| == |b|;
    forall k | 0 <= k < |a| ensures a[k] == b[k] {
      HoldsOneTensor(nodes, results, n, nodes[n].inputs[k], setting.stored, a[k], b[k]);
    }
    assert a == b;
  }

  lemma {:induction false} OneTrace(nodes: seq<Node>, a: seq<EvalTensor>, b: seq<EvalTensor>, setting: Setting, n: nat)
    requires IsTrace(nodes, a, setting) && IsTrace(nodes, b, setting) && n <= |a| && n <= |b|
    ensures a[..n] == b[..n]
    decreases n
  {
    if n > 0 {
      OneTrace(nodes, a, b, setting, n - 1);
      EarlierResultsDecide(nodes, b, a, n - 1, b[n - 1], setting);
      OneResult(nodes, a, n - 1, a[n - 1], b[n - 1], setting);
      assert a[..n] == a[..n - 1] + [a[n - 1]] && b[..n] == b[..n - 1] + [b[n - 1]];
    }
  }

  // ---- Running is following the trace ----

  /** The state after the nodes whose results are given. */
  ghost predicate Follows(state: State, nodes: seq<Node>, results: seq<EvalTensor>, setting: Setting)
  {
    && IsTrace(nodes, results, setting)
    && Tracks(state.runtime, nodes, results) && TracksLast(state.last, nodes, |results|)
  }

  lemma StepFollows(
    nodes: seq<Node>, results: seq<EvalTensor>, state: State, setting: Setting, tensor: EvalTensor)
    requires |results| < |nodes| && Follows(state, nodes, results, setting)
    requires EvalNode(nodes[|results|], state.runtime, setting) == Ok(tensor)
    ensures Follows(Store(nodes[|results|].outputs, tensor, state), nodes, results + [tensor], setting)
  {
    NodeResult(nodes, results, state.runtime, setting, tensor);
    TraceGrows(nodes, results, tensor, setting);
    TracksGrows(nodes, results, state, tensor);
    LastGrows(nodes, |results|, state.last, Store(nodes[|results|].outputs, tensor, state).last);
  }

  lemma StepFails(nodes: seq<Node>, results: seq<EvalTensor>, state: State, setting: Setting)
    requires |results| < |nodes| && Follows(state, nodes, results, setting)
    requires EvalNode(nodes[|results|], state.runtime, setting).Err?
    ensures Fails(EvalNode(nodes[|results|], state.runtime, setting).error, nodes, results, setting)
    ensures forall o, others :: !Observes(o, nodes, others, setting)
  {
    NodeError(nodes, results, state.runtime, setting);
    forall o, others | Observes(o, nodes, others, setting) ensures false {
      var n := |results|;
      OneTrace(nodes, results, others, setting, n);
      EarlierResultsDecide(nodes, others, results, n, others[n], setting);
      NodeResult(nodes, results, state.runtime, setting, others[n]);
    }
  }

  lemma {:induction false} LastProducer(nodes: seq<Node>, n: nat) returns (p: nat)
    requires n <= |nodes| && exists k :: 0 <= k < n && nodes[k].outputs != []
    ensures IsLastProducer(nodes, n, p)
    decreases n
  {
    if nodes[n - 1].outputs != [] {
      p := n - 1;
    } else {
      p := LastProducer(nodes, n - 1);
    }
  }

  /** The last output holds the result of the last producer. */
  lemma LogitsFollow(nodes: seq<Node>, results: seq<EvalTensor>, state: State, setting: Setting)
    requires |results| == |nodes| && Follows(state, nodes, results, setting)
    ensures state.last.None? <==> forall k :: 0 <= k < |nodes| ==> nodes[k].outputs == []
    ensures forall p: nat :: IsLastProducer(nodes, |nodes|, p) ==>
      state.last.Some? && state.last.value in state.runtime && state.runtime[state.last.value] == results[p]
  {
    forall p: nat | IsLastProducer(nodes, |nodes|, p)
      ensures state.last.Some? && state.last.value in state.runtime && state.runtime[state.last.value] == results[p]
    {
      var id := nodes[p].outputs[|nodes[p].outputs| - 1];
      assert TracksOne(state.runtime, nodes, results, id) && IsLastWriter(nodes, |nodes|, p, id);
    }
  }

  /** Reading the observations off the final state is reading them off the trace. */
  lemma ObserveFollows(nodes: seq<Node>, results: seq<EvalTensor>, state: State, setting: Setting)
    requires |results| == |nodes| && Follows(state, nodes, results, setting)
    ensures
      var r := Observe(state, |nodes|);
      && (r.Ok? ==> Observes(r.value, nodes, results, setting))
      && (r.Err? ==> Fails(r.error, nodes, results, setting) && forall o :: !Observes(o, nodes, results, setting))
  {
    LogitsFollow(nodes, results, state, setting);
    if state.last.Some? {
      var p := LastProducer(nodes, |nodes|);
      var logits := results[p].values;
      if logits != [] && AllFinite(logits) {
        LowestMaximumExists(logits);
      }
      forall q: nat | IsLastProducer(nodes, |nodes|, q) ensures q == p {
      }
    }
  }

  lemma LowestMaximumExists(values: seq<u32>)
    requires values != []
    ensures IsLowestMaximum(LowestArgmax(values), values)
  {
    var best := LowestArgmax(values);
    forall i | 0 <= i < |values|
      ensures ScaledValue(values[i]) <= ScaledValue(values[best])
      ensures i < best ==> ScaledValue(values[i]) < ScaledValue(values[best])
    {
      FloatKeyOrders(values[i], values[best]);
    }
  }

  lemma OneObservation(
    o: Observations, p: Observations, nodes: seq<Node>, a: seq<EvalTensor>, b: seq<EvalTensor>, setting: Setting)
    requires Observes(o, nodes, a, setting) && Observes(p, nodes, b, setting)
    ensures a == b && o == p
  {
    OneTrace(nodes, a, b, setting, |nodes|);
    assert a == a[..|nodes|] && b == b[..|nodes|];
  }

  // ---- The evaluator ----

  /**
    `evaluate_reference_program`.  It succeeds exactly when the nodes have a
    trace that shows observations, and reports those; otherwise it names the
    first failure.
   */
  method Evaluate(nodes: seq<Node>, setting: Setting) returns (r: Result<Observations, EvalError>)
    ensures r == Observed(nodes, setting)
    ensures r.Ok? ==> exists results :: Observes(r.value, nodes, results, setting)
    ensures forall o, results :: Observes(o, nodes, results, setting) ==> r == Ok(o)
    ensures r.Err? ==> exists results :: IsTrace(nodes, results, setting) && Fails(r.error, nodes, results, setting)
    ensures r.Ok? ==>
      (IsLowestMaximum(r.value.argmaxToken, r.value.logits) <==>
       exists i :: 0 <= i < |r.value.logits| && i < 0x100 && IsMaximum(i, r.value.logits))
  {
    var runtime: Env := map[];
    var last: Option<TensorRef> := None;
    ghost var results: seq<EvalTensor> := [];
    for step := 0 to |nodes|
      invariant Run(nodes[..step], setting) == Ok(State(runtime, last))
      invariant |results| == step && Follows(State(runtime, last), nodes, results, setting)
    {
      var node := nodes[step];
      var output := EvalNode(node, runtime, setting);
      OneStep(nodes, step, setting);
      if output.Err? {
        FailureSticks(nodes, step + 1, setting);
        StepFails(nodes, results, State(runtime, last), setting);
        return Err(output.error);
      }
      StepFollows(nodes, results, State(runtime, last), setting, output.value);
      runtime, last := StoreOutputs(node.outputs, output.value, runtime, last);
      results := results + [output.value];
    }
    assert nodes[..|nodes|] == nodes;
    r := Observe(State(runtime, last), |nodes|);
    Conclude(nodes, results, State(runtime, last), setting, r);
  }

  lemma Conclude(
    nodes: seq<Node>, results: seq<EvalTensor>, state: State, setting: Setting, r: Result<Observations, EvalError>)
    requires |results| == |nodes| && Follows(state, nodes, results, setting) && r == Observe(state, |nodes|)
    ensures r.Ok? ==> Observes(r.value, nodes, results, setting)
    ensures r.Err? ==> IsTrace(nodes, results, setting) && Fails(r.error, nodes, results, setting)
    ensures forall o, others :: Observes(o, nodes, others, setting) ==> r == Ok(o)
    ensures r.Ok? ==>
      (IsLowestMaximum(r.value.argmaxToken, r.value.logits) <==>
       exists i :: 0 <= i < |r.value.logits| && i < 0x100 && IsMaximum(i, r.value.logits))
  {
    ObserveFollows(nodes, results, state, setting);
    if r.Ok? {
      TokenIsLowestMaximum(r.value.logits);
    }
    forall o, others | Observes(o, nodes, others, setting) ensures r == Ok(o) {
      OneTrace(nodes, results, others, setting, |nodes|);
      assert results == results[..|nodes|] && others == others[..|nodes|];
      if r.Ok? {
        OneObservation(r.value, o, nodes, results, others, setting);
      }
    }
  }

  method StoreOutputs(outputs: seq<TensorRef>, tensor: EvalTensor, env: Env, previous: Option<TensorRef>)
    returns (runtime: Env, last: Option<TensorRef>)
    ensures State(runtime, last) == Store(outputs, tensor, State(env, previous))
  {
    runtime, last := env, previous;
    ghost var done: seq<TensorRef> := [];
    for k := 0 to |outputs|
      invariant done == outputs[..k]
      invariant runtime == Store(done, tensor, State(env, previous)).runtime
      invariant last == Store(done, tensor, State(env, previous)).last
    {
      StoreOne(done, outputs[k], tensor, State(env, previous));
      runtime := runtime[outputs[k] := tensor];
      last := Some(outputs[k]);
      assert outputs[..k + 1] == outputs[..k] + [outputs[k]];
      done := done + [outputs[k]];
    }
    assert done == outputs;
  }

  lemma StoreOne(outputs: seq<TensorRef>, id: TensorRef, tensor: EvalTensor, state: State)
    ensures Store(outputs + [id], tensor, state) ==
            State(Store(outputs, tensor, state).runtime[id := tensor], Some(id))
  {
  }

  lemma OneStep(nodes: seq<Node>, step: nat, setting: Setting)
    requires step < |nodes| && Run(nodes[..step], setting).Ok?
    ensures Run(nodes[..step + 1], setting) ==
            match EvalNode(nodes[step], Run(nodes[..step], setting).value.runtime, setting)
            case Err(error) => Err(error)
            case Ok(tensor) => Ok(Store(nodes[step].outputs, tensor, Run(nodes[..step], setting).value))
  {
    assert nodes[..step + 1][..step] == nodes[..step];
  }

  /** Once a prefix has failed, so has the whole program, with the same error. */
  lemma {:induction false} FailureSticks(nodes: seq<Node>, n: nat, setting: Setting)
    requires n <= |nodes| && Run(nodes[..n], setting).Err?
    ensures Run(nodes, setting) == Run(nodes[..n], setting)
    decreases |nodes|
  {
    if n == |nodes| {
      assert nodes[..n] == nodes;
    } else {
      var shorter := nodes[..|nodes| - 1];
      assert shorter[..n] == nodes[..n];
      FailureSticks(shorter, n, setting);
    }
  }

  // ---- The chosen token ----

  /** The token is the lowest index of the largest logit exactly when a largest logit has an index below 256. */
  lemma TokenIsLowestMaximum(values: seq<u32>)
    requires values != []
    ensures IsLowestMaximum(ArgmaxToken(values), values) <==>
      exists i :: 0 <= i < |values| && i < 0x100 && IsMaximum(i, values)
  {
    var best := LowestArgmax(values);
    LowestMaximumExists(values);
    if best >= 0x100 {
      assert ScaledValue(values[best % 0x100]) < ScaledValue(values[best]);
    } else {
      assert ArgmaxToken(values) == best;
    }
  }

  /** No charset of at most 256 characters is affected by the cast. */
  lemma SmallCharsetsAreSafe(values: seq<u32>)
    requires 0 < |values| <= 0x100
    ensures IsLowestMaximum(ArgmaxToken(values), values)
  {
    LowestMaximumExists(values);
  }

  /** 257 logits with the largest last: the reported token is 0. */
  lemma WrappedToken()
    ensures exists values: seq<u32> :: |values| == 257 && ArgmaxToken(values) == 0 && !IsLowestMaximum(0, values)
  {
    var values: seq<u32> := seq(257, i => if i == 256 then 0x3f80_0000 else 0);
    assert FloatKey(values[256]) > 0;
    LowestMaximumExists(values);
    assert LowestArgmax(values) == 256 by {
      assert FloatKey(values[LowestArgmax(values)]) >= FloatKey(values[256]);
    }
    assert ArgmaxToken(values) == 0;
  }
}
