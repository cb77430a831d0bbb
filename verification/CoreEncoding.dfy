/**
  The semantic byte encoding of an artifact core.

  `Enc*` functions say which bytes a value stands for; module `CoreWriter` has
  the buffer the source's `push_*` functions grow.  The encoding is uniquely
  decodable: the `*Unique` lemmas compose into `CoreBytesInjective`.
 */
module CoreEncoding {
  import opened Wrappers
  import opened Ordering
  import opened Bytes
  import opened WeightPlans
  import opened QuantSpecs
  import opened ArtifactCores
  import T = CanonicalTensors
  import S = SequenceSemantics

  /** What the encoding records of a tensor. */
  datatype TensorEntry = TensorEntry(id: Path, kind: T.TensorKind, contentHash: T.Hash256)

  function EntryOf(tensor: Tensor): TensorEntry
  {
    TensorEntry(tensor.id, tensor.kind, tensor.contentHash)
  }

  // ---- Tags ----

  function KindTag(kind: T.TensorKind): byte
  {
    match kind
    case TernaryWeight => 0
    case TernaryScale => 1
    case Bias => 2
    case RouterWeight => 3
    case RouterBias => 4
    case DenseWeight => 5
    case DenseBias => 6
    case Embedding => 7
    case Classifier => 8
    case NormLut => 9
    case SharedDenseAlpha => 10
  }

  function EncodingTag(encoding: WeightEncoding): byte
  {
    match encoding
    case Ternary2 => 0
    case SparseTernaryBitplanes => 1
    case Binary1 => 2
  }

  function ScaleFormatTag(format: ScaleFormat): byte
  {
    match format
    case Q8_8Scale => 0
    case Q4_4Scale => 1
    case Pow2Scale => 2
  }

  function QuantFormatTag(format: QuantFormat): byte
  {
    match format
    case Int8 => 0
    case UInt8 => 1
    case UInt4 => 2
  }

  function RangeModeTag(mode: RangeMode): byte
  {
    match mode
    case FixedRange => 0
    case LearnedRange => 1
    case EmaRange => 2
  }

  function EvalModeTag(mode: EvalMode): byte
  {
    if mode.Quantized? then 0 else 1
  }

  function NonlinearityTag(nonlinearity: Nonlinearity): byte
  {
    match nonlinearity
    case Identity => 0
    case Relu => 1
    case GeluClip => 2
    case SiluClip => 3
  }

  /** `tag` numbers the listed variants from zero. */
  ghost predicate Numbers<V>(tag: V -> byte, variants: seq<V>)
  {
    forall i :: 0 <= i < |variants| ==> tag(variants[i]) == i
  }

  /** Every tag is the position of its variant in the declaration. */
  lemma TagsArePositions()
    ensures Numbers(KindTag,
      [T.TernaryWeight, T.TernaryScale, T.Bias, T.RouterWeight, T.RouterBias, T.DenseWeight, T.DenseBias,
       T.Embedding, T.Classifier, T.NormLut, T.SharedDenseAlpha])
    ensures Numbers(T.TypeTag, [T.Float32, T.TernaryI2, T.Q8_8])
    ensures Numbers(EncodingTag, [Ternary2, SparseTernaryBitplanes, Binary1])
    ensures Numbers(ScaleFormatTag, [Q8_8Scale, Q4_4Scale, Pow2Scale])
    ensures Numbers(QuantFormatTag, [Int8, UInt8, UInt4])
    ensures Numbers(RangeModeTag, [FixedRange, LearnedRange, EmaRange])
    ensures Numbers(EvalModeTag, [Quantized, Passthrough])
    ensures Numbers(NonlinearityTag, [Identity, Relu, GeluClip, SiluClip])
  {
  }

  // ---- Values ----

  function EncPath(path: Path): seq<byte> { EncBytes(path.text) }

  function EncOptionalPath(path: Option<Path>): seq<byte>
  {
    match path
    case Some(p) => EncU8(1) + EncPath(p)
    case None => EncU8(0)
  }

  function EncList<T>(xs: seq<T>, enc: T -> seq<byte>): seq<byte>
  {
    EncU64(|xs|) + T.Concat(xs, enc)
  }

  function EncDecayPolicy(policy: S.DecayPolicy): seq<byte>
  {
    match policy
    case Fixed(rate) => EncU8(0) + EncU32(rate)
    case MultiTimescale(rates) => EncU8(1) + EncList(rates, T.Enc32)
    case Learned(rate) => EncU8(2) + EncU32(rate)
  }

  function EncSequence(spec: S.SequenceSpec): seq<byte>
  {
    match spec
    case LinearState(stateBytes, policy) => EncU8(0) + (EncU16(stateBytes) + EncDecayPolicy(policy))
    case BoundedKv(maxContext, kvBytes) => EncU8(1) + (EncU16(maxContext) + EncU16(kvBytes))
  }

  function EncTensorEntry(e: TensorEntry): seq<byte>
  {
    EncPath(e.id) + (EncU8(KindTag(e.kind)) + e.contentHash)
  }

  function EncGranularity(granularity: ScaleGranularity): seq<byte>
  {
    match granularity
    case PerTensor => EncU8(0)
    case PerOutputRow => EncU8(1)
    case PerGroup(size) => EncU8(2) + EncU16(size)
  }

  function EncThreshold(plan: ThresholdPlan): seq<byte>
  {
    match plan
    case FixedQ8_8 => EncU8(0)
    case AnnealedGlobalThenPerOutputRow => EncU8(1)
    case LearnedPerGroup(size) => EncU8(2) + EncU16(size)
  }

  function EncWeightPlan(plan: TernaryWeightPlan): seq<byte>
  {
    EncU8(EncodingTag(plan.encoding)) +
    (EncGranularity(plan.scaleGranularity) + (EncU8(ScaleFormatTag(plan.scaleFormat)) + EncThreshold(plan.threshold)))
  }

  function EncTernaryEntry(e: TernaryQuantEntry): seq<byte>
  {
    EncPath(e.projection) + (EncPath(e.weight) + (EncPath(e.scale) + (EncOptionalPath(e.bias) + EncWeightPlan(e.plan))))
  }

  function EncOptionalPlan(plan: Option<TernaryWeightPlan>): seq<byte>
  {
    match plan
    case Some(p) => EncU8(1) + EncWeightPlan(p)
    case None => EncU8(0)
  }

  function EncWeightEntry(e: WeightQuantEntry): seq<byte>
  {
    EncPath(e.weight) + (EncPath(e.tensor) + EncOptionalPlan(e.ternaryPlan))
  }

  function EncRange(range: ActivationRange): seq<byte>
  {
    EncU32(range.lo) + (EncU32(range.hi) + EncU8(RangeModeTag(range.mode)))
  }

  function EncActivationEntry(e: ActivationQuantEntry): seq<byte>
  {
    EncPath(e.activation) +
    (EncRange(e.range) +
     (EncU8(QuantFormatTag(e.quantFormat)) + (EncU8(EvalModeTag(e.evalMode)) + EncU8(NonlinearityTag(e.nonlinearity)))))
  }

  function EncPair(a: u32, b: u32): seq<byte> { EncU32(a) + EncU32(b) }

  function EncNormPlan(plan: NormPlan): seq<byte>
  {
    match plan
    case AffineClipLut(affine, clip, lut) =>
      EncU8(0) + (EncPair(affine.scale, affine.bias) +
                  (EncPair(clip.lo, clip.hi) + (EncPair(lut.inputLo, lut.inputHi) + EncU16(lut.entries))))
    case TileRmsThenAffineClip(tile, affine, clip) =>
      EncU8(1) + (EncU16(tile.tileWidth) +
                  (EncU32(tile.epsilon) + (EncPair(affine.scale, affine.bias) + EncPair(clip.lo, clip.hi))))
  }

  function EncNormEntry(e: NormQuantEntry): seq<byte>
  {
    EncPath(e.norm) + (EncNormPlan(e.plan) + EncOptionalPath(e.lut))
  }

  const CORE_DOMAIN: string := "gbf.artifact.core.v3"

  /** `artifact_core_semantic_bytes`. */
  function SemanticBytes(core: ArtifactCore): seq<byte>
  {
    EncBytes(Ascii(CORE_DOMAIN)) +
    (EncSequence(core.sequenceSemantics) +
     (EncList(Map(EntryOf, core.tensors), EncTensorEntry) +
      (EncList(core.quant.ternaryWeightPlans, EncTernaryEntry) +
       (EncList(core.quant.weightQuant, EncWeightEntry) +
        (EncList(core.quant.activationQuant, EncActivationEntry) +
         EncList(core.quant.normPlans, EncNormEntry))))))
  }

  // ---- Reassociation ----

  lemma Nest3(a: seq<byte>, b: seq<byte>, c: seq<byte>, s: seq<byte>)
    ensures (a + (b + c)) + s == a + (b + (c + s))
  {
    Assoc(a, b + c, s);
    Assoc(b, c, s);
  }

  lemma Nest4(a: seq<byte>, b: seq<byte>, c: seq<byte>, d: seq<byte>, s: seq<byte>)
    ensures (a + (b + (c + d))) + s == a + (b + (c + (d + s)))
  {
    Assoc(a, b + (c + d), s);
    Nest3(b, c, d, s);
  }

  lemma Nest5(a: seq<byte>, b: seq<byte>, c: seq<byte>, d: seq<byte>, e: seq<byte>, s: seq<byte>)
    ensures (a + (b + (c + (d + e)))) + s == a + (b + (c + (d + (e + s))))
  {
    Assoc(a, b + (c + (d + e)), s);
    Nest4(b, c, d, e, s);
  }

  // ---- Unique decodability ----

  ghost predicate PrefixUnique<T(!new)>(enc: T -> seq<byte>)
  {
    forall x, y, s, t {:trigger enc(x) + s, enc(y) + t} :: enc(x) + s == enc(y) + t ==> x == y && s == t
  }

  lemma ByteUnique(a: byte, b: byte, s: seq<byte>, t: seq<byte>)
    requires EncU8(a) + s == EncU8(b) + t
    ensures a == b && s == t
  {
    CutUnique(EncU8(a), EncU8(b), s, t);
    assert EncU8(a)[0] == EncU8(b)[0];
  }

  lemma PathUnique(x: Path, y: Path, s: seq<byte>, t: seq<byte>)
    requires EncPath(x) + s == EncPath(y) + t
    ensures x == y && s == t
  {
    BytesUnique(x.text, y.text, s, t);
  }

  function OptionTag<T>(x: Option<T>): byte { if x.Some? then 1 else 0 }

  function OptionalPathBody(x: Option<Path>): seq<byte> { if x.Some? then EncPath(x.value) else [] }

  lemma OptionalPathUnique(x: Option<Path>, y: Option<Path>, s: seq<byte>, t: seq<byte>)
    requires EncOptionalPath(x) + s == EncOptionalPath(y) + t
    ensures x == y && s == t
  {
    OptionalPathSplit(x, s);
    OptionalPathSplit(y, t);
    ByteUnique(OptionTag(x), OptionTag(y), OptionalPathBody(x) + s, OptionalPathBody(y) + t);
    if x.Some? {
      PathUnique(x.value, y.value, s, t);
    } else {
      assert [] + s == s && [] + t == t;
    }
  }

  lemma OptionalPathSplit(x: Option<Path>, s: seq<byte>)
    ensures EncOptionalPath(x) + s == EncU8(OptionTag(x)) + (OptionalPathBody(x) + s)
  {
    Assoc(EncU8(OptionTag(x)), OptionalPathBody(x), s);
    assert x.None? ==> EncU8(0) + [] == EncU8(0);
  }

  lemma {:induction false} ConcatPrefixUnique<T(!new)>(
    xs: seq<T>, ys: seq<T>, enc: T -> seq<byte>, s: seq<byte>, t: seq<byte>)
    requires PrefixUnique(enc) && |xs| == |ys|
    requires T.Concat(xs, enc) + s == T.Concat(ys, enc) + t
    ensures xs == ys && s == t
  {
    if xs == [] {
      assert s == T.Concat(xs, enc) + s && t == T.Concat(ys, enc) + t;
    } else {
      Assoc(enc(xs[0]), T.Concat(xs[1..], enc), s);
      Assoc(enc(ys[0]), T.Concat(ys[1..], enc), t);
      ConcatPrefixUnique(xs[1..], ys[1..], enc, s, t);
      assert xs == [xs[0]] + xs[1..] && ys == [ys[0]] + ys[1..];
    }
  }

  lemma ListUnique<T(!new)>(xs: seq<T>, ys: seq<T>, enc: T -> seq<byte>, s: seq<byte>, t: seq<byte>)
    requires PrefixUnique(enc) && |xs| < U64_LIMIT && |ys| < U64_LIMIT
    requires EncList(xs, enc) + s == EncList(ys, enc) + t
    ensures xs == ys && s == t
  {
    Assoc(EncU64(|xs|), T.Concat(xs, enc), s);
    Assoc(EncU64(|ys|), T.Concat(ys, enc), t);
    U64Unique(|xs|, |ys|, T.Concat(xs, enc) + s, T.Concat(ys, enc) + t);
    ConcatPrefixUnique(xs, ys, enc, s, t);
  }

  lemma WordsUnique()
    ensures PrefixUnique(T.Enc32)
  {
    forall x: u32, y: u32, s: seq<byte>, t: seq<byte> | T.Enc32(x) + s == T.Enc32(y) + t ensures x == y && s == t {
      U32Unique(x, y, s, t);
    }
  }

  ghost predicate PolicyFits(policy: S.DecayPolicy)
  {
    policy.MultiTimescale? ==> |policy.rates| < U64_LIMIT
  }

  function PolicyTag(policy: S.DecayPolicy): byte
  {
    match policy
    case Fixed(_) => 0
    case MultiTimescale(_) => 1
    case Learned(_) => 2
  }

  function PolicyBody(policy: S.DecayPolicy): seq<byte>
  {
    match policy
    case Fixed(rate) => EncU32(rate)
    case MultiTimescale(rates) => EncList(rates, T.Enc32)
    case Learned(rate) => EncU32(rate)
  }

  lemma PolicyUnique(p: S.DecayPolicy, q: S.DecayPolicy, s: seq<byte>, t: seq<byte>)
    requires PolicyFits(p) && PolicyFits(q)
    requires EncDecayPolicy(p) + s == EncDecayPolicy(q) + t
    ensures p == q && s == t
  {
    Assoc(EncU8(PolicyTag(p)), PolicyBody(p), s);
    Assoc(EncU8(PolicyTag(q)), PolicyBody(q), t);
    ByteUnique(PolicyTag(p), PolicyTag(q), PolicyBody(p) + s, PolicyBody(q) + t);
    match p
    case Fixed(rate) => U32Unique(rate, q.rate, s, t);
    case MultiTimescale(rates) =>
      WordsUnique();
      ListUnique(rates, q.rates, T.Enc32, s, t);
    case Learned(rate) => U32Unique(rate, q.initial, s, t);
  }

  ghost predicate SequenceFits(spec: S.SequenceSpec)
  {
    spec.LinearState? ==> PolicyFits(spec.policy)
  }

  function SequenceTag(spec: S.SequenceSpec): byte { if spec.LinearState? then 0 else 1 }

  function SequenceFirst(spec: S.SequenceSpec): u16 { if spec.LinearState? then spec.stateBytes else spec.maxContext }

  function SequenceRest(spec: S.SequenceSpec): seq<byte>
  {
    if spec.LinearState? then EncDecayPolicy(spec.policy) else EncU16(spec.kvBytesPerToken)
  }

  lemma SequenceUnique(a: S.SequenceSpec, b: S.SequenceSpec, s: seq<byte>, t: seq<byte>)
    requires SequenceFits(a) && SequenceFits(b)
    requires EncSequence(a) + s == EncSequence(b) + t
    ensures a == b && s == t
  {
    var (firstA, firstB) := (EncU16(SequenceFirst(a)), EncU16(SequenceFirst(b)));
    Nest3(EncU8(SequenceTag(a)), firstA, SequenceRest(a), s);
    Nest3(EncU8(SequenceTag(b)), firstB, SequenceRest(b), t);
    ByteUnique(SequenceTag(a), SequenceTag(b), firstA + (SequenceRest(a) + s), firstB + (SequenceRest(b) + t));
    U16Unique(SequenceFirst(a), SequenceFirst(b), SequenceRest(a) + s, SequenceRest(b) + t);
    match a
    case LinearState(_, policy) => PolicyUnique(policy, b.policy, s, t);
    case BoundedKv(_, kvBytes) => U16Unique(kvBytes, b.kvBytesPerToken, s, t);
  }

  lemma TensorEntryUnique(a: TensorEntry, b: TensorEntry, s: seq<byte>, t: seq<byte>)
    requires EncTensorEntry(a) + s == EncTensorEntry(b) + t
    ensures a == b && s == t
  {
    Nest3(EncPath(a.id), EncU8(KindTag(a.kind)), a.contentHash, s);
    Nest3(EncPath(b.id), EncU8(KindTag(b.kind)), b.contentHash, t);
    PathUnique(a.id, b.id, EncU8(KindTag(a.kind)) + (a.contentHash + s), EncU8(KindTag(b.kind)) + (b.contentHash + t));
    ByteUnique(KindTag(a.kind), KindTag(b.kind), a.contentHash + s, b.contentHash + t);
    CutUnique(a.contentHash, b.contentHash, s, t);
  }

  function GranularityTag(g: ScaleGranularity): byte
  {
    match g
    case PerTensor => 0
    case PerOutputRow => 1
    case PerGroup(_) => 2
  }

  function GranularityBody(g: ScaleGranularity): seq<byte> { if g.PerGroup? then EncU16(g.groupSize) else [] }

  lemma GranularityUnique(a: ScaleGranularity, b: ScaleGranularity, s: seq<byte>, t: seq<byte>)
    requires EncGranularity(a) + s == EncGranularity(b) + t
    ensures a == b && s == t
  {
    GranularitySplit(a, s);
    GranularitySplit(b, t);
    ByteUnique(GranularityTag(a), GranularityTag(b), GranularityBody(a) + s, GranularityBody(b) + t);
    if a.PerGroup? {
      U16Unique(a.groupSize, b.groupSize, s, t);
    } else {
      assert [] + s == s && [] + t == t;
    }
  }

  lemma GranularitySplit(a: ScaleGranularity, s: seq<byte>)
    ensures EncGranularity(a) + s == EncU8(GranularityTag(a)) + (GranularityBody(a) + s)
  {
    Assoc(EncU8(GranularityTag(a)), GranularityBody(a), s);
    assert EncU8(GranularityTag(a)) + [] == EncU8(GranularityTag(a));
  }

  function ThresholdTag(p: ThresholdPlan): byte
  {
    match p
    case FixedQ8_8 => 0
    case AnnealedGlobalThenPerOutputRow => 1
    case LearnedPerGroup(_) => 2
  }

  function ThresholdBody(p: ThresholdPlan): seq<byte>
  {
    if p.LearnedPerGroup? then EncU16(p.thresholdGroup) else []
  }

  lemma ThresholdUnique(a: ThresholdPlan, b: ThresholdPlan, s: seq<byte>, t: seq<byte>)
    requires EncThreshold(a) + s == EncThreshold(b) + t
    ensures a == b && s == t
  {
    ThresholdSplit(a, s);
    ThresholdSplit(b, t);
    ByteUnique(ThresholdTag(a), ThresholdTag(b), ThresholdBody(a) + s, ThresholdBody(b) + t);
    if a.LearnedPerGroup? {
      U16Unique(a.thresholdGroup, b.thresholdGroup, s, t);
    } else {
      assert [] + s == s && [] + t == t;
    }
  }

  lemma ThresholdSplit(a: ThresholdPlan, s: seq<byte>)
    ensures EncThreshold(a) + s == EncU8(ThresholdTag(a)) + (ThresholdBody(a) + s)
  {
    Assoc(EncU8(ThresholdTag(a)), ThresholdBody(a), s);
    assert EncU8(ThresholdTag(a)) + [] == EncU8(ThresholdTag(a));
  }

  lemma WeightPlanUnique(p: TernaryWeightPlan, q: TernaryWeightPlan, s: seq<byte>, t: seq<byte>)
    requires EncWeightPlan(p) + s == EncWeightPlan(q) + t
    ensures p == q && s == t
  {
    var (gp, gq) := (EncGranularity(p.scaleGranularity), EncGranularity(q.scaleGranularity));
    var (fp, fq) := (EncU8(ScaleFormatTag(p.scaleFormat)), EncU8(ScaleFormatTag(q.scaleFormat)));
    var (tp, tq) := (EncThreshold(p.threshold), EncThreshold(q.threshold));
    Nest4(EncU8(EncodingTag(p.encoding)), gp, fp, tp, s);
    Nest4(EncU8(EncodingTag(q.encoding)), gq, fq, tq, t);
    ByteUnique(EncodingTag(p.encoding), EncodingTag(q.encoding), gp + (fp + (tp + s)), gq + (fq + (tq + t)));
    GranularityUnique(p.scaleGranularity, q.scaleGranularity, fp + (tp + s), fq + (tq + t));
    ByteUnique(ScaleFormatTag(p.scaleFormat), ScaleFormatTag(q.scaleFormat), tp + s, tq + t);
    ThresholdUnique(p.threshold, q.threshold, s, t);
  }

  lemma TernaryEntryUnique(a: TernaryQuantEntry, b: TernaryQuantEntry, s: seq<byte>, t: seq<byte>)
    requires EncTernaryEntry(a) + s == EncTernaryEntry(b) + t
    ensures a == b && s == t
  {
    var a1, b1 := EncWeightPlan(a.plan) + s, EncWeightPlan(b.plan) + t;
    var a2, b2 := EncOptionalPath(a.bias) + a1, EncOptionalPath(b.bias) + b1;
    var a3, b3 := EncPath(a.scale) + a2, EncPath(b.scale) + b2;
    Nest5(EncPath(a.projection), EncPath(a.weight), EncPath(a.scale), EncOptionalPath(a.bias),
      EncWeightPlan(a.plan), s);
    Nest5(EncPath(b.projection), EncPath(b.weight), EncPath(b.scale), EncOptionalPath(b.bias),
      EncWeightPlan(b.plan), t);
    PathUnique(a.projection, b.projection, EncPath(a.weight) + a3, EncPath(b.weight) + b3);
    PathUnique(a.weight, b.weight, a3, b3);
    PathUnique(a.scale, b.scale, a2, b2);
    OptionalPathUnique(a.bias, b.bias, a1, b1);
    WeightPlanUnique(a.plan, b.plan, s, t);
  }

  function OptionalPlanBody(x: Option<TernaryWeightPlan>): seq<byte> { if x.Some? then EncWeightPlan(x.value) else [] }

  lemma OptionalPlanUnique(x: Option<TernaryWeightPlan>, y: Option<TernaryWeightPlan>, s: seq<byte>, t: seq<byte>)
    requires EncOptionalPlan(x) + s == EncOptionalPlan(y) + t
    ensures x == y && s == t
  {
    OptionalPlanSplit(x, s);
    OptionalPlanSplit(y, t);
    ByteUnique(OptionTag(x), OptionTag(y), OptionalPlanBody(x) + s, OptionalPlanBody(y) + t);
    if x.Some? {
      WeightPlanUnique(x.value, y.value, s, t);
    } else {
      assert [] + s == s && [] + t == t;
    }
  }

  lemma OptionalPlanSplit(x: Option<TernaryWeightPlan>, s: seq<byte>)
    ensures EncOptionalPlan(x) + s == EncU8(OptionTag(x)) + (OptionalPlanBody(x) + s)
  {
    Assoc(EncU8(OptionTag(x)), OptionalPlanBody(x), s);
    assert EncU8(0) + [] == EncU8(0);
  }

  lemma WeightEntryUnique(a: WeightQuantEntry, b: WeightQuantEntry, s: seq<byte>, t: seq<byte>)
    requires EncWeightEntry(a) + s == EncWeightEntry(b) + t
    ensures a == b && s == t
  {
    var a1, b1 := EncOptionalPlan(a.ternaryPlan) + s, EncOptionalPlan(b.ternaryPlan) + t;
    Nest3(EncPath(a.weight), EncPath(a.tensor), EncOptionalPlan(a.ternaryPlan), s);
    Nest3(EncPath(b.weight), EncPath(b.tensor), EncOptionalPlan(b.ternaryPlan), t);
    PathUnique(a.weight, b.weight, EncPath(a.tensor) + a1, EncPath(b.tensor) + b1);
    PathUnique(a.tensor, b.tensor, a1, b1);
    OptionalPlanUnique(a.ternaryPlan, b.ternaryPlan, s, t);
  }

  lemma RangeUnique(a: ActivationRange, b: ActivationRange, s: seq<byte>, t: seq<byte>)
    requires EncRange(a) + s == EncRange(b) + t
    ensures a == b && s == t
  {
    var a1, b1 := EncU8(RangeModeTag(a.mode)) + s, EncU8(RangeModeTag(b.mode)) + t;
    Nest3(EncU32(a.lo), EncU32(a.hi), EncU8(RangeModeTag(a.mode)), s);
    Nest3(EncU32(b.lo), EncU32(b.hi), EncU8(RangeModeTag(b.mode)), t);
    U32Unique(a.lo, b.lo, EncU32(a.hi) + a1, EncU32(b.hi) + b1);
    U32Unique(a.hi, b.hi, a1, b1);
    ByteUnique(RangeModeTag(a.mode), RangeModeTag(b.mode), s, t);
  }

  lemma ActivationEntryUnique(a: ActivationQuantEntry, b: ActivationQuantEntry, s: seq<byte>, t: seq<byte>)
    requires EncActivationEntry(a) + s == EncActivationEntry(b) + t
    ensures a == b && s == t
  {
    var (fa, fb) := (EncU8(QuantFormatTag(a.quantFormat)), EncU8(QuantFormatTag(b.quantFormat)));
    var (ea, eb) := (EncU8(EvalModeTag(a.evalMode)), EncU8(EvalModeTag(b.evalMode)));
    var (na, nb) := (EncU8(NonlinearityTag(a.nonlinearity)), EncU8(NonlinearityTag(b.nonlinearity)));
    Nest5(EncPath(a.activation), EncRange(a.range), fa, ea, na, s);
    Nest5(EncPath(b.activation), EncRange(b.range), fb, eb, nb, t);
    PathUnique(a.activation, b.activation,
      EncRange(a.range) + (fa + (ea + (na + s))), EncRange(b.range) + (fb + (eb + (nb + t))));
    RangeUnique(a.range, b.range, fa + (ea + (na + s)), fb + (eb + (nb + t)));
    ByteUnique(QuantFormatTag(a.quantFormat), QuantFormatTag(b.quantFormat), ea + (na + s), eb + (nb + t));
    ByteUnique(EvalModeTag(a.evalMode), EvalModeTag(b.evalMode), na + s, nb + t);
    ByteUnique(NonlinearityTag(a.nonlinearity), NonlinearityTag(b.nonlinearity), s, t);
  }

  lemma PairUnique(a: u32, b: u32, c: u32, d: u32, s: seq<byte>, t: seq<byte>)
    requires EncPair(a, b) + s == EncPair(c, d) + t
    ensures a == c && b == d && s == t
  {
    Assoc(EncU32(a), EncU32(b), s);
    Assoc(EncU32(c), EncU32(d), t);
    U32Unique(a, c, EncU32(b) + s, EncU32(d) + t);
    U32Unique(b, d, s, t);
  }

  function NormTag(plan: NormPlan): byte { if plan.AffineClipLut? then 0 else 1 }

  function NormBody(plan: NormPlan): seq<byte>
  {
    match plan
    case AffineClipLut(affine, clip, lut) =>
      EncPair(affine.scale, affine.bias) +
      (EncPair(clip.lo, clip.hi) + (EncPair(lut.inputLo, lut.inputHi) + EncU16(lut.entries)))
    case TileRmsThenAffineClip(tile, affine, clip) =>
      EncU16(tile.tileWidth) +
      (EncU32(tile.epsilon) + (EncPair(affine.scale, affine.bias) + EncPair(clip.lo, clip.hi)))
  }

  lemma NormPlanUnique(p: NormPlan, q: NormPlan, s: seq<byte>, t: seq<byte>)
    requires EncNormPlan(p) + s == EncNormPlan(q) + t
    ensures p == q && s == t
  {
    Assoc(EncU8(NormTag(p)), NormBody(p), s);
    Assoc(EncU8(NormTag(q)), NormBody(q), t);
    ByteUnique(NormTag(p), NormTag(q), NormBody(p) + s, NormBody(q) + t);
    if p.AffineClipLut? {
      LutBodyUnique(p, q, s, t);
    } else {
      TileBodyUnique(p, q, s, t);
    }
  }

  lemma LutBodyUnique(p: NormPlan, q: NormPlan, s: seq<byte>, t: seq<byte>)
    requires p.AffineClipLut? && q.AffineClipLut? && NormBody(p) + s == NormBody(q) + t
    ensures p == q && s == t
  {
    var (ap, aq) := (EncPair(p.affine.scale, p.affine.bias), EncPair(q.affine.scale, q.affine.bias));
    var (cp, cq) := (EncPair(p.clip.lo, p.clip.hi), EncPair(q.clip.lo, q.clip.hi));
    var (lp, lq) := (EncPair(p.lutSpec.inputLo, p.lutSpec.inputHi), EncPair(q.lutSpec.inputLo, q.lutSpec.inputHi));
    var (np, nq) := (EncU16(p.lutSpec.entries), EncU16(q.lutSpec.entries));
    Nest4(ap, cp, lp, np, s);
    Nest4(aq, cq, lq, nq, t);
    PairUnique(p.affine.scale, p.affine.bias, q.affine.scale, q.affine.bias,
      cp + (lp + (np + s)), cq + (lq + (nq + t)));
    PairUnique(p.clip.lo, p.clip.hi, q.clip.lo, q.clip.hi, lp + (np + s), lq + (nq + t));
    PairUnique(p.lutSpec.inputLo, p.lutSpec.inputHi, q.lutSpec.inputLo, q.lutSpec.inputHi, np + s, nq + t);
    U16Unique(p.lutSpec.entries, q.lutSpec.entries, s, t);
  }

  lemma TileBodyUnique(p: NormPlan, q: NormPlan, s: seq<byte>, t: seq<byte>)
    requires p.TileRmsThenAffineClip? && q.TileRmsThenAffineClip? && NormBody(p) + s == NormBody(q) + t
    ensures p == q && s == t
  {
    var (ap, aq) := (EncPair(p.affine.scale, p.affine.bias), EncPair(q.affine.scale, q.affine.bias));
    var (cp, cq) := (EncPair(p.clip.lo, p.clip.hi), EncPair(q.clip.lo, q.clip.hi));
    var (ep, eq) := (EncU32(p.tile.epsilon), EncU32(q.tile.epsilon));
    Nest4(EncU16(p.tile.tileWidth), ep, ap, cp, s);
    Nest4(EncU16(q.tile.tileWidth), eq, aq, cq, t);
    U16Unique(p.tile.tileWidth, q.tile.tileWidth, ep + (ap + (cp + s)), eq + (aq + (cq + t)));
    U32Unique(p.tile.epsilon, q.tile.epsilon, ap + (cp + s), aq + (cq + t));
    PairUnique(p.affine.scale, p.affine.bias, q.affine.scale, q.affine.bias, cp + s, cq + t);
    PairUnique(p.clip.lo, p.clip.hi, q.clip.lo, q.clip.hi, s, t);
  }

  lemma NormEntryUnique(a: NormQuantEntry, b: NormQuantEntry, s: seq<byte>, t: seq<byte>)
    requires EncNormEntry(a) + s == EncNormEntry(b) + t
    ensures a == b && s == t
  {
    var a1, b1 := EncOptionalPath(a.lut) + s, EncOptionalPath(b.lut) + t;
    Nest3(EncPath(a.norm), EncNormPlan(a.plan), EncOptionalPath(a.lut), s);
    Nest3(EncPath(b.norm), EncNormPlan(b.plan), EncOptionalPath(b.lut), t);
    PathUnique(a.norm, b.norm, EncNormPlan(a.plan) + a1, EncNormPlan(b.plan) + b1);
    NormPlanUnique(a.plan, b.plan, a1, b1);
    OptionalPathUnique(a.lut, b.lut, s, t);
  }

  lemma EntriesPrefixUnique()
    ensures PrefixUnique(EncTensorEntry) && PrefixUnique(EncTernaryEntry) && PrefixUnique(EncWeightEntry)
    ensures PrefixUnique(EncActivationEntry) && PrefixUnique(EncNormEntry)
  {
    forall x: TensorEntry, y: TensorEntry, s: seq<byte>, t: seq<byte> |
        EncTensorEntry(x) + s == EncTensorEntry(y) + t
      ensures x == y && s == t
    { TensorEntryUnique(x, y, s, t); }
    forall x: TernaryQuantEntry, y: TernaryQuantEntry, s: seq<byte>, t: seq<byte> |
        EncTernaryEntry(x) + s == EncTernaryEntry(y) + t
      ensures x == y && s == t
    { TernaryEntryUnique(x, y, s, t); }
    forall x: WeightQuantEntry, y: WeightQuantEntry, s: seq<byte>, t: seq<byte> |
        EncWeightEntry(x) + s == EncWeightEntry(y) + t
      ensures x == y && s == t
    { WeightEntryUnique(x, y, s, t); }
    forall x: ActivationQuantEntry, y: ActivationQuantEntry, s: seq<byte>, t: seq<byte> |
        EncActivationEntry(x) + s == EncActivationEntry(y) + t
      ensures x == y && s == t
    { ActivationEntryUnique(x, y, s, t); }
    forall x: NormQuantEntry, y: NormQuantEntry, s: seq<byte>, t: seq<byte> |
        EncNormEntry(x) + s == EncNormEntry(y) + t
      ensures x == y && s == t
    { NormEntryUnique(x, y, s, t); }
  }

  /** Lists are `Vec`s: their lengths are `usize`s. */
  ghost predicate Encodable(core: ArtifactCore)
  {
    && SequenceFits(core.sequenceSemantics)
    && |core.tensors| < U64_LIMIT
    && |core.quant.ternaryWeightPlans| < U64_LIMIT && |core.quant.weightQuant| < U64_LIMIT
    && |core.quant.activationQuant| < U64_LIMIT && |core.quant.normPlans| < U64_LIMIT
  }

  lemma TablesUnique(p: QuantSpec, q: QuantSpec)
    requires |p.ternaryWeightPlans| < U64_LIMIT && |p.weightQuant| < U64_LIMIT
    requires |p.activationQuant| < U64_LIMIT && |p.normPlans| < U64_LIMIT
    requires |q.ternaryWeightPlans| < U64_LIMIT && |q.weightQuant| < U64_LIMIT
    requires |q.activationQuant| < U64_LIMIT && |q.normPlans| < U64_LIMIT
    requires EncTables(p) == EncTables(q)
    ensures p == q
  {
    EntriesPrefixUnique();
    var (np, nq) := (EncList(p.normPlans, EncNormEntry), EncList(q.normPlans, EncNormEntry));
    var ap := EncList(p.activationQuant, EncActivationEntry) + np;
    var aq := EncList(q.activationQuant, EncActivationEntry) + nq;
    var (wp, wq) := (EncList(p.weightQuant, EncWeightEntry) + ap, EncList(q.weightQuant, EncWeightEntry) + aq);
    ListUnique(p.ternaryWeightPlans, q.ternaryWeightPlans, EncTernaryEntry, wp, wq);
    ListUnique(p.weightQuant, q.weightQuant, EncWeightEntry, ap, aq);
    ListUnique(p.activationQuant, q.activationQuant, EncActivationEntry, np, nq);
    assert np + [] == np && nq + [] == nq;
    ListUnique(p.normPlans, q.normPlans, EncNormEntry, [], []);
  }

  /** The four quantization tables, in the order they are written. */
  function EncTables(q: QuantSpec): seq<byte>
  {
    EncList(q.ternaryWeightPlans, EncTernaryEntry) +
    (EncList(q.weightQuant, EncWeightEntry) +
     (EncList(q.activationQuant, EncActivationEntry) + EncList(q.normPlans, EncNormEntry)))
  }

  /**
    The semantic bytes determine the sequence semantics, every tensor's id, kind
    and content hash, and every quantization entry, floats by bit pattern.
   */
  lemma CoreBytesInjective(a: ArtifactCore, b: ArtifactCore)
    requires Encodable(a) && Encodable(b) && SemanticBytes(a) == SemanticBytes(b)
    ensures a.sequenceSemantics == b.sequenceSemantics
    ensures Map(EntryOf, a.tensors) == Map(EntryOf, b.tensors)
    ensures a.quant == b.quant
  {
    var domain := Ascii(CORE_DOMAIN);
    var (ta, tb) := (Map(EntryOf, a.tensors), Map(EntryOf, b.tensors));
    var restA := EncList(ta, EncTensorEntry) + EncTables(a.quant);
    var restB := EncList(tb, EncTensorEntry) + EncTables(b.quant);
    BytesUnique(domain, domain, EncSequence(a.sequenceSemantics) + restA, EncSequence(b.sequenceSemantics) + restB);
    SequenceUnique(a.sequenceSemantics, b.sequenceSemantics, restA, restB);
    EntriesPrefixUnique();
    ListUnique(ta, tb, EncTensorEntry, EncTables(a.quant), EncTables(b.quant));
    TablesUnique(a.quant, b.quant);
  }

  /** The cores built from rearranged inputs have the same semantic bytes. */
  lemma SemanticBytesForgetOrder(
    xs: seq<Tensor>, ys: seq<Tensor>, p: QuantSpec, q: QuantSpec, spec: S.SequenceSpec,
    c: ArtifactCore, d: ArtifactCore)
    requires Permutation(xs, ys) && SameTables(p, q)
    requires IsCoreOf(c, xs, p, spec) && IsCoreOf(d, ys, q, spec)
    ensures SemanticBytes(c) == SemanticBytes(d)
  {
    CoreForgetsOrder(xs, ys, p, q, spec, c, d);
  }
}
