# Verification of the artifact and ABI core

This project models, in Dafny, the parts of the repository on which identity and
safety of artifacts rest, and proves properties of the model.

- **Reference programs.** `ReferenceGraph` and `Canonicalizer` model Kahn's
  algorithm with a sorted ready set and prove that it returns the
  lexicographically least topological order exactly when the graph is well
  formed and acyclic; `TopologicalOrders` says which orders a graph leaves open.
  `ProgramEvaluator` runs the nodes over a mutable tensor environment and proves
  what is observed from the trace of the nodes' results alone.
  `ProgramTerms` gives every node the term it computes, and `ProgramMeaning`
  decides with terms when the order of the nodes matters. `ProgramWitnesses`
  holds the programs for which it does.
- **Identity encodings.** `CanonicalTensors`, `BundleTensors`, `CoreEncoding`
  and `CoreWriter` model the byte streams that are hashed. Each is proved
  uniquely decodable and independent of input order. `JsonCanonical` does the
  same for object key order.
- **Cross-validated accounting.** `ArtifactCores` (with `QuantSpecs`,
  `WeightPlans`, `SequenceSemantics`), `S7Comparison`, `S7Affinity` and
  `GutenbergManifest` model the validators, and prove what acceptance implies.
- **ABI state and codecs.** `Liveness`, `Continuation` and `Faults` model the
  saturating counters over whole runs and the fixed-layout codecs.

`Wrappers`, `Ordering` and `Bytes` are shared: results, sorting, little-endian
framing. `dafny verify dfyconfig.toml` checks everything.

Conventions: a panic of the source is an `Err`; `f32` values are bit patterns
where bytes matter; a path precedes another when it is a proper prefix of it, or
has the smaller byte where the two first differ; a `usize` has 64 bits; SHA-256
is not part of this model, so identity is stated on the bytes that are hashed.
Every validator is proved against a predicate that names none of its checks, and
its errors against what they say about the input.

## Findings

- `argmax_lowest_index` casts the index to the one-byte token type. The token is
  the lowest index of the maximum if and only if some index below 256 holds a
  maximum, so always for at most 256 logits (`TokenIsLowestMaximum`,
  `SmallCharsetsAreSafe`, `WrappedToken`).
- A graph is accepted without edges for its data flow. Canonical order can then
  place a reader before its producer (`CanonicalOrderNeedsEdges`). Every
  topological order finds every unstored input if and only if each is produced
  by a node that reaches the reader (`InputsAreFoundExactly`).
- A stored tensor may share its name with a produced one. A reader placed before
  the producer then changes meaning in canonical order
  (`ShadowingChangesMeaning`). In a program with single producers and declared
  data flow, the order as written and canonical order agree for every kernel and
  every stored value if and only if no reader with outputs stands so, or the
  program cannot run as written (`ShadowingIsExact`); `MeaningIsKeptExactly`
  also covers nodes without outputs, which may fail on another operand.
- Two nodes may write one tensor. Canonical order can change which write comes
  last (`OverwritingChangesMeaning`). With declared data flow, one tensor per
  node, no two nodes with the same operation and inputs and no second writer of a
  tensor that a node updates in place, all topological orders agree if and only
  if the edges decide the last producer of every tensor, or the program cannot
  run (`OrdersAgreeExactly`). Without those provisos, orders agree exactly when
  they build the same terms (`AgreementIsSameTerms`).
- The reference tensor preimage is injective because of validation, not by its
  framing (`PreimageInjective`, `UnvalidatedPreimagesCollide`).
- The byte cost of a weight plan saturates for some matrix if and only if the
  plan has a scale per weight, or two-byte scales for groups of two
  (`CostCanSaturate`); for every plan the artifact core accepts it is exact
  (`AcceptedCostIsStoredSize`).
- The Gutenberg manifest pins a deduplication policy by its text, but no check
  compares body hashes or duplicate targets (`DedupTargetsAreUnchecked`,
  `TwinsAreAccepted`). For given books and fates, acceptance implies the policy
  if and only if at most one book is retained and none is dropped as a duplicate
  (`PolicyHoldsExactly`).

## Model

| member | source | states |
|---|---|---|
| Bytes.PathLeMeans | gbf-artifact/src/ids.rs:8-9 | the derived order of paths puts a proper prefix first, and otherwise decides by the numerically smaller byte at the first difference |
| Canonicalizer.Canonicalized | gbf-artifact/src/reference_eval_graph.rs:77-161 | succeeds if and only if ids and edges are distinct, endpoints exist and no directed cycle exists (self-edges included); the result is the topological order whose ids come first, byte by byte, with the edges in ascending order; an error names a witness in the graph |
| Canonicalizer.IndexNodes | gbf-artifact/src/reference_eval_graph.rs:78-88 | the index holds exactly the given nodes under their ids, or an id occurs twice |
| Canonicalizer.LinkEdges | gbf-artifact/src/reference_eval_graph.rs:92-125 | every in-degree is the number of distinct predecessors (parallel edges count once) and the graph is well wired, or the error names the missing endpoint or repeated edge |
| Canonicalizer.DrainReady | gbf-artifact/src/reference_eval_graph.rs:127-151 | the loop places, at every step, the least node all of whose predecessors are placed, and stops with no such node left |
| Canonicalizer.PopFirst | gbf-artifact/src/reference_eval_graph.rs:133 | removes exactly the least ready id |
| Canonicalizer.Release | gbf-artifact/src/reference_eval_graph.rs:140-150 | after one node is placed, in-degrees count the predecessors still missing and the ready set is exact |
| Canonicalizer.Decrement | gbf-artifact/src/reference_eval_graph.rs:141-149 | each successor loses exactly one and the newly freed ones become ready; no in-degree is decremented below zero |
| ReferenceGraph.AcceptedIsOrderBlind | gbf-artifact/src/reference_eval_graph.rs:77-161 | acceptance depends on the multiset of nodes and edges only |
| ReferenceGraph.CanonicalFormIsUnique | gbf-artifact/src/reference_eval_graph.rs:77-161 | any rearrangement of nodes and edges of a well-wired graph has the identical canonical form (lexicographically least topological order, sorted edges) |
| ReferenceGraph.CanonicalFormIsFixed | gbf-artifact/src/reference_eval_graph.rs:77-161 | canonicalizing twice changes nothing |
| ReferenceGraph.TopologicalOrderForbidsCycles | gbf-artifact/src/reference_eval_graph.rs:153-155 | a graph with a topological order has no directed cycle |
| ReferenceGraph.StuckHasCycle | gbf-artifact/src/reference_eval_graph.rs:153-155 | when nodes remain and none is ready, a directed cycle exists, so the length test is exact |
| ReferenceGraph.GreedyRunIsLeast | gbf-artifact/src/reference_eval_graph.rs:127-151 | a run that always places the least ready node is lexicographically below every topological order |
| ReferenceGraph.GreedyRunIsForward | gbf-artifact/src/reference_eval_graph.rs:127-151 | such a run puts the source of every edge before its target |
| ReferenceGraph.OrderLeMeans | gbf-artifact/src/reference_eval_graph.rs:77-161 | the least order is decided by the smaller id where two orders first differ |
| ReferenceGraph.EdgeLeMeans | gbf-artifact/src/reference_eval_graph.rs:46-52 | edges ascend by source, then target, then tensor |
| ProgramEvaluator.Evaluate | gbf-artifact/src/bundle_program_evaluator.rs:24-114 | succeeds if and only if the nodes have a trace, each result being the kernel applied to what the inputs last held, whose last producer gave non-empty finite logits; it reports those logits, the node count and the lowest place of their maximum as one byte, which is the lowest maximum itself if and only if some maximum has an index below 256; otherwise it names the first failure |
| ProgramEvaluator.NodeResult | gbf-artifact/src/bundle_program_evaluator.rs:36-99 | a node evaluates to a tensor if and only if the kernel gives it for operands that are the results of the last writers, or stored where nothing was written |
| ProgramEvaluator.NodeError | gbf-artifact/src/bundle_program_evaluator.rs:36-99 | a node fails for a missing input it reads, too few inputs, the unimplemented operation or a refusing kernel, and the error says which |
| ProgramEvaluator.ConsumedAreRead | gbf-artifact/src/bundle_program_evaluator.rs:49-93 | unary operations read one input, binary ones two, linear ones two and an optional third; further inputs are ignored |
| ProgramEvaluator.OneTrace | gbf-artifact/src/bundle_program_evaluator.rs:36-99 | two traces of one program agree as far as both go |
| ProgramEvaluator.LogitsFollow | gbf-artifact/src/bundle_program_evaluator.rs:95-106 | the last remembered output holds the result of the last node that has outputs |
| ProgramEvaluator.StoreOutputs | gbf-artifact/src/bundle_program_evaluator.rs:95-98 | all outputs of a node map to its tensor, nothing else changes, and the last output is remembered |
| ProgramTerms.RunDenotes | gbf-artifact/src/bundle_program_evaluator.rs:36-99 | a run succeeds exactly when every node is executable and its term denotes a tensor, and then the environment is what the terms denote |
| ProgramTerms.RunnableMeansRuns | gbf-artifact/src/bundle_program_evaluator.rs:36-99 | some kernel and stored values let a program run if and only if every node is executable and every tensor read is stored or written earlier |
| ProgramTerms.AgreementIsSameTerms | gbf-artifact/src/bundle_program_evaluator.rs:36-99 | any two node lists agree for every kernel and every stored value if and only if they build the same terms, or one of them cannot run at all |
| ProgramMeaning.OrderedRunsAgree | gbf-artifact/src/bundle_program_evaluator.rs:36-99 | two orders that read everything late and end with the same last writers succeed together and end in one environment |
| ProgramMeaning.OrderIsIrrelevant | gbf-artifact/src/bundle_program_evaluator.rs:36-99 | with one producer per tensor and a path from every producer to all other nodes that read it, every two topological orders succeed together and end in the same environment; a node may overwrite a stored tensor it reads |
| ProgramMeaning.CanonicalOrderKeepsMeaning | gbf-artifact/src/bundle_program_evaluator.rs:36-99 | if such a program runs in the order it was written in and reads no stored name before the node that produces it, it runs in canonical order, and every topological order, with the same environment |
| ProgramMeaning.ShadowingIsExact | gbf-artifact/src/bundle_program_evaluator.rs:151-161 | for given stored names, the order as written and a topological order agree for every kernel and every stored value if and only if no reader with outputs stands before the producer of a stored name it reads, or the program cannot run as written |
| ProgramTerms.KeepingIsSameWork | gbf-artifact/src/bundle_program_evaluator.rs:36-99 | for any two node lists: whenever the first runs, the second runs with the same environment, for every kernel and every stored value, if and only if the second can run, builds the same tensors and does no new work, or the first cannot run at all |
| ProgramMeaning.MeaningIsKeptExactly | gbf-artifact/src/bundle_program_evaluator.rs:151-161 | a working program always keeps working with the same environment if and only if no reader with outputs reads early and the topological order does no work the written order does not, or it cannot run as written |
| ProgramMeaning.MeaningIsKeptWithOutputs | gbf-artifact/src/bundle_program_evaluator.rs:151-161 | where every node has an output, a working program always keeps working with the same environment if and only if no reader reads early, or it cannot run as written |
| ProgramMeaning.OverwritingIsExact | gbf-artifact/src/bundle_program_evaluator.rs:95-98 | without single producers, two orders that respect the data flow agree for every kernel and every stored value if and only if every tensor is last written by the same node in both |
| ProgramMeaning.OrdersAgreeExactly | gbf-artifact/src/bundle_program_evaluator.rs:95-98 | for a graph whose edges imply the data flow, all topological orders agree for every kernel and every stored value if and only if each tensor has a producer that all its other producers reach, or the program cannot run; nodes are pairwise unalike and a node that overwrites what it reads is its only writer |
| ProgramMeaning.InputsAreFound | gbf-artifact/src/bundle_program_evaluator.rs:151-161 | when every unstored input is written earlier, no run fails for want of an input |
| ProgramMeaning.InputsAreFoundExactly | gbf-artifact/src/reference_eval_graph.rs:97-151 | every topological order of an accepted graph finds every unstored input if and only if each is produced by a node that reaches the reader |
| TopologicalOrders.AncestorsFirst | gbf-artifact/src/reference_eval_graph.rs:127-151 | every node of an accepted graph has a topological order in which only its ancestors come before it |
| TopologicalOrders.ReachedLater | gbf-artifact/src/reference_eval_graph.rs:127-151 | along a path every topological order runs forward |
| ProgramMeaning.SinkComesLast | gbf-artifact/src/bundle_program_evaluator.rs:95-98 | if every node reaches one sink, that sink is last in every topological order |
| ProgramMeaning.ObservationsAgree | gbf-artifact/src/bundle_program_evaluator.rs:101-114 | with a single producing sink, logits, token and node count agree for all topological orders |
| ProgramEvaluator.LowestArgmax | gbf-artifact/src/bundle_program_evaluator.rs:324-335 | the chosen index holds a greatest key and every earlier key is smaller |
| ProgramEvaluator.LowestMaximumExists | gbf-artifact/src/bundle_program_evaluator.rs:324-335 | the chosen logit stands for a largest number, and every earlier one for a smaller number |
| Bytes.FloatKeyOrders | gbf-artifact/src/bundle_program_evaluator.rs:324-335 | comparing bit patterns as the model does compares the numbers they stand for, both zeros being equal |
| Bytes.FloatLandmarks | gbf-artifact/src/bundle_program_evaluator.rs:324-335 | the numbers of the smallest positive float, the smallest normal one, one and minus one |
| Bytes.FiniteIsBounded | gbf-artifact/src/bundle_program_evaluator.rs:337-344 | finite bit patterns are those whose size lies below that of infinity |
| ProgramEvaluator.TokenIsLowestMaximum | gbf-artifact/src/bundle_program_evaluator.rs:324-335 | the reported token is the lowest index of the maximum if and only if some index below 256 holds a maximum |
| ProgramEvaluator.SmallCharsetsAreSafe | gbf-artifact/src/bundle_program_evaluator.rs:324-335 | with at most 256 logits the token is always the lowest index of the maximum |
| ProgramEvaluator.WrappedToken | gbf-artifact/src/bundle_program_evaluator.rs:324-335 | 257 logits with the largest last are reported as token 0 |
| ProgramEvaluator.FirstNonFinite | gbf-artifact/src/bundle_program_evaluator.rs:337-344 | the reported index is the first non-finite logit |
| ProgramWitnesses.CanonicalOrderNeedsEdges | gbf-artifact/src/reference_eval_graph.rs:97-151 | a concrete accepted graph without its data-flow edge runs as written and misses an input in canonical order |
| ProgramWitnesses.ShadowingChangesMeaning | gbf-artifact/src/bundle_program_evaluator.rs:151-161 | a concrete program with all edges declared whose reader sees a stored tensor as written and the produced one of the same name in canonical order |
| ProgramWitnesses.OverwritingChangesMeaning | gbf-artifact/src/bundle_program_evaluator.rs:95-98 | a concrete accepted graph that reads nothing early, with two nodes writing one unread tensor, ends in another environment in canonical order |
| ProgramWitnesses.UpdatingIsFaithful | gbf-artifact/src/bundle_program_evaluator.rs:95-98 | a node that overwrites the stored tensor it reads is covered by the results on faithful graphs |
| CanonicalTensors.NewShape | gbf-artifact/src/tensor.rs:172-191 | accepts exactly non-empty positive dims whose product fits 64 bits, with the exact element count; errors name the first zero or a real overflow |
| CanonicalTensors.CheckValues | gbf-artifact/src/tensor.rs:349-366 | accepts exactly finite floats and trits in -1..1; an error names the first value that is not |
| CanonicalTensors.NewTensor | gbf-artifact/src/tensor.rs:53-83 | accepts exactly matching type, length and values; the digest is taken of the content bytes |
| CanonicalTensors.BuildContentBytes | gbf-artifact/src/tensor.rs:368-399 | the grown buffer is the specified content bytes |
| Bytes.LittleEndianDigits | gbf-artifact/src/tensor.rs:445-455 | byte k of an encoded integer is its digit k in base 256 |
| CanonicalTensors.PayloadByteAt | gbf-artifact/src/tensor.rs:401-419 | byte k of value i is its digit k in base 256; a negative trit wraps around |
| CanonicalTensors.ByteLenIsExact | gbf-artifact/src/tensor.rs:425-431 | the announced payload length is the number of payload bytes |
| CanonicalTensors.ContentBytesInjective | gbf-artifact/src/tensor.rs:368-399 | valid tensors with equal content bytes have equal layout and payload |
| CanonicalTensors.HashStream | gbf-artifact/src/tensor.rs:96-133 | the hasher is fed the tensor count and the frame of every tensor, ids ascending byte by byte and tensors of one id in the order given |
| CanonicalTensors.SortIsInIdOrder | gbf-artifact/src/tensor.rs:96-133 | sorting by id is stable |
| CanonicalTensors.FeedTensor | gbf-artifact/src/tensor.rs:113-124 | one tensor contributes name, type, rank, dims and payload, each framed |
| CanonicalTensors.StreamForgetsOrder | gbf-artifact/src/tensor.rs:96-133 | when tensors of one id agree up to kind, the stream does not depend on the input order |
| CanonicalTensors.StreamForgetsOrderExactly | gbf-artifact/src/tensor.rs:96-133 | all rearrangements of valid tensors give one stream if and only if tensors of one id agree up to kind |
| CanonicalTensors.StreamInjective | gbf-artifact/src/tensor.rs:96-133 | equal streams come from equal tensor sets up to tensor kind: no name, rank, type or payload boundary can be shifted |
| BundleTensors.ValidateTensor | gbf-artifact/src/bundle.rs:450-483 | accepts exactly non-zero dims whose product is the number of finite values; every error is true of the tensor |
| BundleTensors.CanonicalizeTensors | gbf-artifact/src/bundle.rs:434-448 | accepts exactly lists of valid tensors with distinct ids, and returns them with ids strictly ascending byte by byte; a duplicate error names a repeated id, any other is true of some tensor |
| BundleTensors.CheckSorted | gbf-artifact/src/bundle.rs:438-447 | the loop over the sorted list accepts exactly valid tensors with distinct ids |
| BundleTensors.CanonicalTensorsForgetOrder | gbf-artifact/src/bundle.rs:434-448 | two strictly ascending arrangements of the same tensors are the same list |
| BundleTensors.BuildPreimage | gbf-artifact/src/bundle.rs:485-503 | the grown buffer is the specified preimage |
| BundleTensors.PreimageInjective | gbf-artifact/src/bundle.rs:485-503 | validated tensors with equal preimages are equal, although the shape has no length prefix |
| BundleTensors.UnvalidatedPreimagesCollide | gbf-artifact/src/bundle.rs:485-503 | without validation two different inputs share a preimage |
| QuantSpecs.CanonicalizedKeepsTables | gbf-artifact/src/quant.rs:244-253 | canonical sorting permutes each of the four tables and makes those with distinct keys strictly ascending |
| QuantSpecs.AscendingTablesAreUnique | gbf-artifact/src/quant.rs:244-253 | strictly ascending tables of the same entries are the same tables |
| ArtifactCores.New | gbf-artifact/src/core.rs:50-66 | constructs if and only if the tables cross-validate against the tensors; the core holds the given tensors and entries, each list strictly ascending by its key, byte by byte; every error is true of the given tables and tensors |
| ArtifactCores.TensorIndex | gbf-artifact/src/core.rs:222-235 | the index holds exactly the tensors by id, or an id repeats |
| ArtifactCores.ValidateQuantSpec | gbf-artifact/src/core.rs:237-337 | the seven loops accept exactly the declarative cross-validation, and every error is true of the tables |
| ArtifactCores.CheckTernaryTable | gbf-artifact/src/core.rs:241-254 | projections are distinct and each entry validates, or the error says which does not |
| ArtifactCores.CheckWeightTable | gbf-artifact/src/core.rs:256-276 | weights and weight tensors are distinct and each entry validates |
| ArtifactCores.CheckProjections | gbf-artifact/src/core.rs:278-289 | every projection has the weight entry with its tensor and plan |
| ArtifactCores.CheckTernaryWeights | gbf-artifact/src/core.rs:291-304 | every weight entry with a plan has the projection with its tensor and plan |
| ArtifactCores.CheckCoverage | gbf-artifact/src/core.rs:306-314 | every deployable weight tensor has a weight entry |
| ArtifactCores.CheckActivations | gbf-artifact/src/core.rs:316-325 | activation keys are distinct and ranges finite and ordered |
| ArtifactCores.CheckNorms | gbf-artifact/src/core.rs:327-336 | norm keys are distinct and every norm plan validates against its lookup table |
| ArtifactCores.CoreForgetsOrder | gbf-artifact/src/core.rs:50-66 | permuting the tensors and any of the four tables changes neither the verdict nor the core that is constructed |
| ArtifactCores.ProjectionsMatchWeights | gbf-artifact/src/core.rs:237-337 | in an accepted core ternary projections and planned weight entries are in bijection with equal tensor and plan, and no two projections share a weight tensor |
| ArtifactCores.WeightTensorsCoveredOnce | gbf-artifact/src/core.rs:256-314 | every deployable weight tensor is named by exactly one weight entry |
| ArtifactCores.TernaryWeightsAreScaled | gbf-artifact/src/core.rs:350-462 | every ternary weight is a matrix whose scale tensor is present and holds one scale, one per row, or the least number of groups that cover the matrix, as its plan says |
| ArtifactCores.AcceptedCostIsStoredSize | gbf-artifact/src/core.rs:390-462 | for every accepted ternary weight the plan's byte cost is the least number of bytes for four trits each plus two bytes per scale, and these are the stored lengths of the two tensors |
| ArtifactCores.TernaryEntryMeans | gbf-artifact/src/core.rs:390-462 | a ternary entry is accepted if and only if its plan is supported and one matrix shape fits its weight, its scale tensor with as many scales as planned and its optional bias |
| ArtifactCores.WeightEntryMeans | gbf-artifact/src/core.rs:350-388 | an entry with a plan is accepted if and only if it names a stored ternary matrix, one without if and only if it names a stored dense weight of floats |
| ArtifactCores.NormEntryMeans | gbf-artifact/src/core.rs:474-563 | a norm entry is accepted if and only if its plan is sound in numbers and a table of the declared length is stored exactly for the table kind |
| ArtifactCores.OrderedMeans | gbf-artifact/src/core.rs:628-630 | a range is accepted if and only if both bounds are finite and the lower is the smaller number |
| ArtifactCores.DeployableKinds | gbf-artifact/src/core.rs:339-348 | deployable weights are the ternary and the four dense kinds: all but scales, biases, tables and the shared factor |
| ArtifactCores.TernaryErrorMeans | gbf-artifact/src/core.rs:390-462 | every rejection of a ternary entry is true of the plan, or of the tensor it names |
| ArtifactCores.WeightEntriesNameWeights | gbf-artifact/src/core.rs:350-388 | every weight entry of an accepted core names a stored deployable weight, and has a plan exactly when that weight is ternary |
| ArtifactCores.NormTablesFit | gbf-artifact/src/core.rs:474-507 | in an accepted core a norm plan has a lookup table exactly when its kind needs one, and the table is stored with the declared length |
| ArtifactCores.DerivedTablesAgree | gbf-artifact/src/quant.rs:181-196 | a specification that derives its weight table holds the given entries, one weight entry for each ternary one, and agreeing tables |
| CoreEncoding.CoreBytesInjective | gbf-artifact/src/core.rs:632-914 | equal semantic bytes force equal sequence semantics, equal (id, kind, content hash) lists and equal quantization entries, floats by bit pattern |
| CoreEncoding.TagsArePositions | gbf-artifact/src/core.rs:780-871 | every tag is the position of its variant in the declaration, counted from zero |
| CoreEncoding.SemanticBytesForgetOrder | gbf-artifact/src/core.rs:50-66 | the cores built from rearranged inputs have the same semantic bytes |
| CoreEncoding.SequenceUnique | gbf-artifact/src/core.rs:674-707 | sequence semantics can be cut off the front of the bytes in one way |
| CoreEncoding.TernaryEntryUnique | gbf-artifact/src/core.rs:709-715 | a ternary entry can be cut off in one way |
| CoreEncoding.WeightEntryUnique | gbf-artifact/src/core.rs:717-727 | a weight entry can be cut off in one way |
| CoreEncoding.ActivationEntryUnique | gbf-artifact/src/core.rs:729-735 | an activation entry can be cut off in one way |
| CoreEncoding.NormEntryUnique | gbf-artifact/src/core.rs:737-741 | a norm entry can be cut off in one way |
| CoreEncoding.WeightPlanUnique | gbf-artifact/src/core.rs:743-748 | a weight plan can be cut off in one way |
| CoreWriter.WriteSemanticBytes | gbf-artifact/src/core.rs:632-672 | the growing buffer ends as the encoding that is proved injective |
| WeightPlans.CostSaturatesOnce | gbf-artifact/src/weight_plan.rs:64-76 | the cost is the planned one, capped once at 64 bits: four trits or eight binary weights to a byte, or two bitplanes; one scale, one per row or the least cover by groups; two bytes for a Q8.8 scale and one for any other |
| WeightPlans.ScalesAreCounted | gbf-artifact/src/weight_plan.rs:93-102 | the scale count is one, the number of rows, or the least number of groups that cover the matrix |
| WeightPlans.WeightsArePacked | gbf-artifact/src/weight_plan.rs:137-144 | the weight bytes are the least that hold four trits or eight binary weights each, or two planes of eight trits a byte |
| WeightPlans.CostIsMonotone | gbf-artifact/src/weight_plan.rs:64-76 | more rows or columns never cost less, zero included |
| WeightPlans.CostIsStoredSize | gbf-artifact/src/canonical_tensor.rs:84-96 | for two-bit weights with Q8.8 scales the cost is the byte length of the weight tensor plus that of a scale tensor of the planned length |
| WeightPlans.ByteLengthIsExact | gbf-artifact/src/canonical_tensor.rs:84-96 | a shape has a byte length if and only if it has no zero dim and its stored size (four bytes a word, two a Q8.8 value, four trits a byte) fits 64 bits, and then it is that size; each error says which of these fails |
| WeightPlans.CheckedProductIsExact | gbf-artifact/src/canonical_tensor.rs:84-96 | the checked product gives up only when the exact product does not fit 128 bits |
| WeightPlans.CostCanSaturate | gbf-artifact/src/weight_plan.rs:64-76 | some matrix saturates the cost if and only if the plan has a scale per weight, or two-byte scales for groups of two |
| SequenceSemantics.BandsPartitionSlots | gbf-artifact/src/sequence.rs:247-283 | in an accepted multi-timescale state every slot lies in exactly one band, gets the rate that owns it, and all bands are contiguous, in order, in range and of slots / rates slots |
| SequenceSemantics.StateAcceptance | gbf-artifact/src/sequence.rs:247-273 | a linear state is accepted if and only if it has bytes and, for several rates, there is at least one and they divide the four-byte slots evenly; each error says what fails |
| SequenceSemantics.SingleRateEverywhere | gbf-artifact/src/sequence.rs:275-283 | a fixed or learned rate governs every slot |
| JsonCanonical.LastIsKept | gbf-artifact/src/hint_bundle.rs:138-152 | collecting into a map keeps the last entry of every key |
| JsonCanonical.CanonicalIsSorted | gbf-artifact/src/hint_bundle.rs:138-152 | keys are strictly ascending, byte by byte, at every depth |
| JsonCanonical.SortedIsCanonical | gbf-artifact/src/hint_bundle.rs:138-152 | a value already sorted is left alone |
| JsonCanonical.CanonicalizeIsIdempotent | gbf-artifact/src/hint_bundle.rs:138-152 | canonicalizing twice changes nothing |
| JsonCanonical.CanonicalFormDecides | gbf-artifact/src/hint_bundle.rs:138-152 | two values share a canonical form if and only if they are equal up to object key order at every depth |
| S7Comparison.Validate | gbf-artifact/src/s7_schema.rs:631-707 | accepts exactly the reports whose rows are valid, whose reported medians are within epsilon of true medians, and whose byte fields and verdicts are the re-derived ones; every error is true of the report |
| S7Comparison.ValidateMeasures | gbf-artifact/src/s7_schema.rs:631-707 | accepts exactly valid rows with reported medians that are not negative and within epsilon of true medians |
| S7Comparison.ValidateVerdicts | gbf-artifact/src/s7_schema.rs:631-707 | accepts exactly byte fields equal to the pinned ones, a signed 64-bit difference, and the tolerance, aggregate and Pareto verdicts that hold of them |
| S7Comparison.ValidateRows | gbf-artifact/src/s7_schema.rs:2476-2498 | accepts exactly one row for each of the seeds 0 to 4 with values not negative, deltas within epsilon and the parity verdict of the 0.05 margin; every error is true of the rows |
| S7Comparison.OrderStatisticsKeepMargin | gbf-artifact/src/s7_schema.rs:2599-2606 | a row-wise margin between two columns carries over to every order statistic, whatever the row order |
| S7Comparison.PassCleanConfirmsH4 | gbf-artifact/src/s7_schema.rs:631-707 | every accepted report with aggregate Pass-clean carries MoE dominance when MoE has no more bytes, else MoE superiority under byte equivalence, and so confirms H4, epsilon-tolerant medians notwithstanding |
| S7Comparison.ConfirmationMeans | gbf-artifact/src/s7_schema.rs:2552-2597 | H4 is confirmed if and only if MoE is better by more than epsilon with bytes within the tolerance, or equal with fewer bytes |
| S7Comparison.MedianIsMedian | gbf-artifact/src/s7_schema.rs:2599-2606 | the middle of the sorted values is one of them, with at most half of the values below it and more than half not above it |
| S7Comparison.MedianIsUnique | gbf-artifact/src/s7_schema.rs:2599-2606 | only one value is such a median |
| S7Comparison.VerdictMeans | gbf-artifact/src/s7_schema.rs:2552-2597 | the derived verdict is the one that holds: dominance is no worse in both measures, up to epsilon, and better in one; a tie is a tie in both; otherwise a better side costs more bytes, within the tolerance or beyond it |
| S7Comparison.SwappingSidesSwapsVerdict | gbf-artifact/src/s7_schema.rs:2552-2597 | swapping the two sides always swaps the Pareto verdict |
| S7Comparison.MedianForgetsOrder | gbf-artifact/src/s7_schema.rs:2599-2606 | whether a value reports the median does not depend on row order |
| S7Comparison.RowOrderIsIrrelevant | gbf-artifact/src/s7_schema.rs:631-707 | permuting the rows keeps a report valid |
| S7Affinity.ValidateMass | gbf-artifact/src/s7_schema.rs:2425-2447 | accepts exactly distinct in-range directions of total mass at most one; the 32-bit running sum never overflows; every error is true of the transitions |
| S7Affinity.SixteenDirections | gbf-artifact/src/s7_schema.rs:2425-2447 | at most sixteen directions can be read before a repeat, which bounds the running sum |
| S7Affinity.ValidateDigest | gbf-artifact/src/s7_schema.rs:1069-1076 | accepts exactly in-range digests with valid transition mass |
| S7Affinity.FromTransitions | gbf-artifact/src/s7_schema.rs:1238-1259 | succeeds exactly when layer and experts are in range; the result has one score per unordered pair, clamped to one, strictly ascending by the smaller id and then the larger |
| S7Affinity.PairJoins | gbf-artifact/src/s7_schema.rs:1132-1141 | the pair of a transition is the ordered pair of its two experts, and only that |
| S7Affinity.Emit | gbf-artifact/src/s7_schema.rs:1250-1258 | the summed map is emitted in key order, clamped to one |
| S7Affinity.NewSlotAffinity | gbf-artifact/src/s7_schema.rs:1217-1229 | accepts exactly in-range layers with in-range scores on distinct pairs |
| S7Affinity.FromDigest | gbf-artifact/src/s7_schema.rs:1231-1236 | succeeds on every valid digest and on no other, and otherwise names what is wrong with the digest |
| S7Affinity.FoldConservesMass | gbf-artifact/src/s7_schema.rs:1238-1259 | on valid mass no score clamps, the scores sum to the transition total and pairs strictly ascend |
| S7Affinity.FoldIgnoresDirection | gbf-artifact/src/s7_schema.rs:1238-1259 | reversing every transition changes nothing |
| S7Affinity.FoldForgetsOrder | gbf-artifact/src/s7_schema.rs:1238-1259 | reordering the transitions changes nothing |
| GutenbergManifest.ValidateSource | gbf-artifact/src/gutenberg_manifest.rs:63-122 | an accepted record has a split exactly when it was not dropped and a duplicate target exactly when dropped as a duplicate |
| GutenbergManifest.SourceAcceptance | gbf-artifact/src/gutenberg_manifest.rs:666-811 | a record is accepted if and only if its license, density, split, duplicate target and, field by field, provenance fit its drop reason; every error is true of the record |
| GutenbergManifest.ProvenanceAdvancesInStages | gbf-artifact/src/gutenberg_manifest.rs:625-835 | in an accepted record no later stage of provenance is present without the earlier ones, and the source blob is missing exactly when no plaintext format was supported |
| GutenbergManifest.ValidateBookIds | gbf-artifact/src/gutenberg_manifest.rs:903-915 | comparing neighbours accepts exactly the strictly ascending lists |
| GutenbergManifest.ValidateSources | gbf-artifact/src/gutenberg_manifest.rs:917-942 | accepts exactly one valid record per book id, in the same order |
| GutenbergManifest.CheckReasons | gbf-artifact/src/gutenberg_manifest.rs:974-1057 | accepts exactly when every reason's count is the declared one |
| GutenbergManifest.AcceptedIsAccounted | gbf-artifact/src/gutenberg_manifest.rs:316-373 | a manifest is accepted if and only if its header validates and ids, records and all twelve counts agree |
| GutenbergManifest.AcceptanceMeans | gbf-artifact/src/gutenberg_manifest.rs:316-373 | a manifest is accepted if and only if its header holds the pinned values and ranges, ids ascend, records match and fit, and each of the twelve declared counts is the number of books of its kind |
| GutenbergManifest.HeaderAcceptance | gbf-artifact/src/gutenberg_manifest.rs:316-373 | the header is accepted if and only if it holds the pinned fractions, lengths, floor, rate range and 32 lower-case hex digits; every error is true of it |
| GutenbergManifest.RejectionMeans | gbf-artifact/src/gutenberg_manifest.rs:316-373 | every rejection is true of the header, the ids, a record or a count |
| GutenbergManifest.AcceptedConservesBooks | gbf-artifact/src/gutenberg_manifest.rs:944-1058 | in every accepted manifest train plus validation plus dropped is the number of strictly ascending ids, the nine reason counts sum to the dropped total, and the declared positive minimum is retained |
| GutenbergManifest.OverflowNeedsEveryBookId | gbf-artifact/src/gutenberg_manifest.rs:1075-1077 | the count-overflow error occurs only on a manifest listing all 2^32 book ids with one fate |
| GutenbergManifest.DedupTargetsAreUnchecked | gbf-artifact/src/gutenberg_manifest.rs:15 | acceptance is blind to duplicate targets and body hashes, so the pinned deduplication policy is recorded, not enforced |
| GutenbergManifest.TwinsAreAccepted | gbf-artifact/src/gutenberg_manifest.rs:15 | an accepted manifest that retains one body twice |
| GutenbergManifest.PolicyHoldsExactly | gbf-artifact/src/gutenberg_manifest.rs:15 | for given books and fates, every accepted manifest obeys the pinned deduplication policy if and only if at most one book is retained and none is dropped as a duplicate |
| GutenbergManifest.CountsTell | gbf-artifact/src/gutenberg_manifest.rs:944-1058 | the declared counts of an accepted manifest say whether two books are retained or one is dropped as a duplicate |
| Liveness.LivenessCounters.constructor | gbf-abi/src/liveness.rs:28-36 | fresh counters with the given threshold |
| Liveness.LivenessCounters.RecordProgress | gbf-abi/src/liveness.rs:38-42 | takes the progress step of the state machine |
| Liveness.LivenessCounters.NoteIdleFrame | gbf-abi/src/liveness.rs:44-46 | takes the idle step and changes one field only |
| Liveness.LivenessCounters.ResetWith | gbf-abi/src/liveness.rs:54-56 | takes the reset step |
| Liveness.LivenessCounters.IsLivelocked | gbf-abi/src/liveness.rs:49-52 | reports the livelock predicate of the state |
| Liveness.LivenessCounters.ToBytes | gbf-abi/src/liveness.rs:59-67 | the filled array is the twelve-byte encoding |
| Liveness.DecCounters | gbf-abi/src/liveness.rs:70-82 | re-encoding what was read reproduces the bytes |
| Liveness.CountersAreRead | gbf-abi/src/liveness.rs:70-82 | each counter is the little-endian word at its offset |
| Liveness.CountersRoundTrip | gbf-abi/src/liveness.rs:59-82 | reading what was written reproduces the counters |
| Liveness.IdleFramesIsLongestSuffix | gbf-abi/src/liveness.rs:44-46 | the unbounded idle count is the length of the longest idle suffix, plus the earlier count when the whole run is idle |
| Liveness.RunCounts | gbf-abi/src/liveness.rs:38-56 | from any state and over every run, each counter is the saturation of its unbounded count, the threshold that of the last reset and the checkpoint that of the last progress or none after a reset |
| Liveness.LivelockIsExact | gbf-abi/src/liveness.rs:49-52 | over every run livelock is reported if and only if the threshold in force is non-zero and the unbounded idle count has reached it |
| Continuation.LastFaultRoundTrip | gbf-abi/src/continuation.rs:25-40 | the sentinel coding loses the explicit no-fault code and nothing else |
| Continuation.HeaderToBytes | gbf-abi/src/continuation.rs:137-150 | the filled array is the thirty-two-byte encoding |
| Continuation.HeaderCodec | gbf-abi/src/continuation.rs:165-195 | a header decodes exactly from the buffers that start with good bytes, and those are the bytes it encodes to |
| Continuation.ContinuationCodec | gbf-abi/src/continuation.rs:197-217 | splitting yields (header, tail) if and only if the two concatenate to the buffer, the tail has the expected length and the header bytes are good |
| Continuation.SplitSucceedsExactly | gbf-abi/src/continuation.rs:197-217 | splitting succeeds if and only if the length is 32 plus the tail, the version bytes are 0, 1, 0, the reserved bytes 3, 30 and 31 are zero, the schema word is not zero and the fault word is zero or a known code; the header holds each field where it stands, and every error is true of the bytes |
| Continuation.FreshHeaderRoundTrips | gbf-abi/src/continuation.rs:87-98 | a fresh header of a non-zero schema round-trips with any tail after any run of its counters |
| Continuation.FreshHeaderBytes | gbf-abi/src/continuation.rs:87-98 | a fresh header shows version 0.1.0, its schema, session and threshold, and zeros elsewhere |
| Faults.CodeFromU16 | gbf-abi/src/fault.rs:67-92 | a decoded code has the raw value it was decoded from |
| Faults.CodeRoundTrip | gbf-abi/src/fault.rs:67-92 | every code survives its raw value |
| Faults.DomainFromU16 | gbf-abi/src/fault.rs:130-146 | a decoded domain has the raw value it was decoded from |
| Faults.DomainRoundTrip | gbf-abi/src/fault.rs:130-146 | every domain survives its raw value |
| Faults.Classify | gbf-abi/src/fault.rs:149-189 | a code lies in the range of its domain and of no other |
| Faults.RangesMean | gbf-abi/src/fault.rs:149-164 | sixteen codes to a domain, the first and fourth sixteen shared by two domains each, and the internal codes from 0xff00 on |
| Faults.SnapshotToBytes | gbf-abi/src/fault.rs:339-363 | the filled array is the thirty-six-byte encoding |
| Faults.FirstNonZero | gbf-abi/src/fault.rs:276-280 | the first non-zero reserved byte is reported; none is reported exactly when all are zero |
| Faults.SnapshotCodec | gbf-abi/src/fault.rs:296-363 | reading accepts exactly the encodings of valid snapshots, each with one meaning |
| Faults.SnapshotVerdict | gbf-abi/src/fault.rs:264-336 | reading succeeds if and only if the six reserved bytes are zero, the first word is a known code and the second the domain of that code; every error is true of the bytes |
| Faults.ValidSnapshotsAreConstructed | gbf-abi/src/fault.rs:233-294 | a snapshot validates if and only if the constructor builds it from some fault code and counters with clean reserved bytes |

## Left out

- SHA-256, `DomainHash` and `CanonicalJson`: not part of this model; hashes are opaque and self-hash fields are dropped or enter as booleans.
- serde derives and the deserialization paths that bypass the checked constructors.
- Float kernels (`linear`, `mat_mul`, `softmax`, `layer_norm`, activations, embedding lookup): one uninterpreted function of operation, prompt and operands that may fail; rounding is not modelled.
- Bits-per-character values, decay fractions and unmappable rates are reals (or a marked non-finite value), so rounding does not occur; `f64::total_cmp` is the order of the reals.
- The order in which a `BTreeMap` is walked after validation is the order of the already sorted table it was filled from.
- Lists, texts and payloads are assumed shorter than 2^64, as a `usize` length implies.
- Error values carry what identifies the offender; display texts and some secondary fields are dropped. Several `InvalidQuantPlan` reasons are one case, the two Gutenberg field-presence errors and the compression mismatch are one case.
- Which of several true errors is reported first is stated for the evaluator's failing node and for the header and snapshot bytes; elsewhere an error is proved true of its input.
- `DecayRate::new` and `BoundedKvSemantics::new`: single range checks.
- Validation of `ArtifactPath` and `OpId` characters.
- Pinned text literals of schemas, licenses and policies enter as booleans saying whether they match.
- The bytes-pin self-hash and the switch-statistics and sweep summaries of the comparison report enter as booleans.
- `TailTooLarge` and `TotalSizeOverflow` of the continuation codec cannot occur with a 64-bit `usize` and are not modelled.
- JSON numbers and strings are opaque scalars; an object is the sequence of its entries with distinct keys.
- ProgramMeaning.CanonicalOrderKeepsMeaning: one direction; `MeaningIsKeptExactly` has both.
- ProgramMeaning.OverwritingIsExact: asks that nodes write one tensor each, that no two compute one operation on the same inputs and that what a node overwrites after reading it has no other writer; `AgreementIsSameTerms` is exact without that.
- ArtifactCores.AcceptedCostIsStoredSize: asks that the weight tensor was built by the checked constructor (`T.ValidTensor`), because an empty matrix costs nothing by definition.
- CanonicalTensors.StreamInjective: holds up to tensor kind, which the payload hash does not cover by design.
- GutenbergManifest.OverflowNeedsEveryBookId: one direction only; the same manifest can also be rejected earlier by its header.
- `QuantSpec_S3::verify_coverage`, `SequenceExportFacts`, the bundle constructors around the tensors and the graph, toy fixtures.
- The harness protocol, checkpoint schemas, trace registries, build identity, interrupt and shell enumerations of the ABI crate.
- The assembler, kernels, training and data scripts.
