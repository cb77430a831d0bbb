/**
  The artifact core: construction and the cross-validation of its quantization
  tables against its tensors.
 */
module ArtifactCores {
  import opened Wrappers
  import opened Ordering
  import opened Bytes
  import opened WeightPlans
  import opened QuantSpecs
  import T = CanonicalTensors
  import S = SequenceSemantics

  type Tensor = T.Tensor
  type Index = map<Path, Tensor>

  datatype ArtifactCore = ArtifactCore(sequenceSemantics: S.SequenceSpec, tensors: seq<Tensor>, quant: QuantSpec)

  datatype Table = TernaryProjections | WeightQuants | WeightQuantTensors | Activations | Norms

  datatype CoreError =
    | DuplicateTensor(id: Path)
    | DuplicateQuantEntry(table: Table, path: Path)
    | MissingTensor(id: Path)
    | TensorKindMismatch(id: Path, expectedKind: T.TensorKind)
    | TensorElementTypeMismatch(id: Path, expectedType: T.ElementType)
    | TensorRankMismatch(id: Path, expectedRank: nat)
    | TensorShapeMismatch(id: Path, expectedShape: seq<u32>)
    | InvalidActivationRange(path: Path)
    | InvalidNormPlan(path: Path)
    | MissingNormLut(path: Path)
    | UnexpectedNormLut(path: Path, lut: Path)
    | MissingWeightQuantEntry(path: Path)
    | MissingTernaryQuantEntry(path: Path)
    | WeightQuantPlanMismatch(path: Path)
    | InvalidQuantPlan(path: Path)

  type Verdict = Result<(), CoreError>

  // ---- Single-entry checks ----

  function Then(first: Verdict, second: Verdict): Verdict
  {
    if first.Err? then first else second
  }

  function ExpectTensor(tensor: Tensor, kind: T.TensorKind, elementType: T.ElementType): Verdict
  {
    if tensor.kind != kind then Err(TensorKindMismatch(tensor.id, kind))
    else if tensor.layout.elementType != elementType then Err(TensorElementTypeMismatch(tensor.id, elementType))
    else Ok(())
  }

  function ExpectRank(tensor: Tensor, rank: nat): Verdict
  {
    if |tensor.layout.shape.dims| != rank then Err(TensorRankMismatch(tensor.id, rank)) else Ok(())
  }

  function ExpectShape(tensor: Tensor, shape: seq<u32>): Verdict
  {
    if tensor.layout.shape.dims != shape then Err(TensorShapeMismatch(tensor.id, shape)) else Ok(())
  }

  predicate IsDeployableWeight(kind: T.TensorKind)
  {
    kind.TernaryWeight? || kind.RouterWeight? || kind.DenseWeight? || kind.Embedding? || kind.Classifier?
  }

  function ValidateWeightEntry(e: WeightQuantEntry, tensors: Index): Verdict
  {
    if e.tensor !in tensors then Err(MissingTensor(e.tensor)) else
    var tensor := tensors[e.tensor];
    match e.ternaryPlan
    case Some(_) => Then(ExpectTensor(tensor, T.TernaryWeight, T.TernaryI2), ExpectRank(tensor, 2))
    case None =>
      if !tensor.layout.elementType.Float32? then Err(TensorElementTypeMismatch(tensor.id, T.Float32))
      else if !IsDeployableWeight(tensor.kind) || tensor.kind.TernaryWeight? then Err(InvalidQuantPlan(e.weight))
      else Ok(())
  }

  function ValidateTernaryEntry(e: TernaryQuantEntry, tensors: Index): Verdict
  {
    if !e.plan.encoding.Ternary2? || !e.plan.scaleFormat.Q8_8Scale? || e.plan.threshold.LearnedPerGroup?
    then Err(InvalidQuantPlan(e.projection))
    else if e.weight !in tensors then Err(MissingTensor(e.weight)) else
    var weight := tensors[e.weight];
    var weightCheck := Then(ExpectTensor(weight, T.TernaryWeight, T.TernaryI2), ExpectRank(weight, 2));
    if weightCheck.Err? then weightCheck else
    var rows, cols := weight.layout.shape.dims[0], weight.layout.shape.dims[1];
    if e.scale !in tensors then Err(MissingTensor(e.scale)) else
    var scale := tensors[e.scale];
    var scaleCheck := ExpectTensor(scale, T.TernaryScale, T.Q8_8);
    if scaleCheck.Err? then scaleCheck else
    var count := ScaleCount(e.plan.scaleGranularity, rows, cols);
    if count > 0xffff_ffff then Err(InvalidQuantPlan(e.projection)) else
    var shapeCheck := ExpectShape(scale, [count]);
    if shapeCheck.Err? then shapeCheck else
    match e.bias
    case None => Ok(())
    case Some(id) =>
      if id !in tensors then Err(MissingTensor(id))
      else Then(ExpectTensor(tensors[id], T.Bias, T.Float32), ExpectShape(tensors[id], [rows]))
  }

  predicate FiniteAndOrdered(lo: u32, hi: u32)
  {
    IsFinite(lo) && IsFinite(hi) && FloatKey(lo) < FloatKey(hi)
  }

  function ValidateActivationEntry(e: ActivationQuantEntry): Verdict
  {
    if FiniteAndOrdered(e.range.lo, e.range.hi) then Ok(()) else Err(InvalidActivationRange(e.activation))
  }

  predicate ValidAffineClip(affine: Affine, clip: Clip)
  {
    IsFinite(affine.scale) && IsFinite(affine.bias) && FiniteAndOrdered(clip.lo, clip.hi)
  }

  function ValidateNormEntry(e: NormQuantEntry, tensors: Index): Verdict
  {
    match e.plan
    case AffineClipLut(affine, clip, lut) =>
      if !ValidAffineClip(affine, clip) || !FiniteAndOrdered(lut.inputLo, lut.inputHi) || lut.entries < 2
      then Err(InvalidNormPlan(e.norm))
      else if e.lut.None? then Err(MissingNormLut(e.norm))
      else if e.lut.value !in tensors then Err(MissingTensor(e.lut.value))
      else Then(ExpectTensor(tensors[e.lut.value], T.NormLut, T.Float32),
                ExpectShape(tensors[e.lut.value], [lut.entries]))
    case TileRmsThenAffineClip(tile, affine, clip) =>
      if tile.tileWidth == 0 || !IsFinite(tile.epsilon) || FloatKey(tile.epsilon) <= 0 || !ValidAffineClip(affine, clip)
      then Err(InvalidNormPlan(e.norm))
      else if e.lut.Some? then Err(UnexpectedNormLut(e.norm, e.lut.value))
      else Ok(())
  }

  // ---- What an accepted entry is ----

  ghost predicate SupportedPlan(plan: TernaryWeightPlan)
  {
    plan.encoding == Ternary2 && plan.scaleFormat == Q8_8Scale && !plan.threshold.LearnedPerGroup?
  }

  ghost predicate Stored(tensors: Index, id: Path, kind: T.TensorKind, elementType: T.ElementType, dims: seq<u32>)
  {
    && id in tensors
    && tensors[id].kind == kind
    && tensors[id].layout.elementType == elementType
    && tensors[id].layout.shape.dims == dims
  }

  /** The tensors of a projection fit one matrix of `rows` by `cols` with `scales` scales. */
  ghost predicate FitsMatrix(e: TernaryQuantEntry, tensors: Index, rows: u32, cols: u32, scales: u32)
  {
    && Stored(tensors, e.weight, T.TernaryWeight, T.TernaryI2, [rows, cols])
    && PlannedScales(e.plan.scaleGranularity, rows, cols, scales)
    && Stored(tensors, e.scale, T.TernaryScale, T.Q8_8, [scales])
    && (e.bias.Some? ==> Stored(tensors, e.bias.value, T.Bias, T.Float32, [rows]))
  }

  /** A supported plan that fits some matrix. */
  ghost predicate TernaryEntryOk(e: TernaryQuantEntry, tensors: Index)
  {
    SupportedPlan(e.plan) && exists rows: u32, cols: u32, scales: u32 :: FitsMatrix(e, tensors, rows, cols, scales)
  }

  /** A ternary entry is accepted exactly when a supported plan fits some matrix. */
  lemma TernaryEntryMeans(e: TernaryQuantEntry, tensors: Index)
    ensures ValidateTernaryEntry(e, tensors).Ok? <==> TernaryEntryOk(e, tensors)
  {
    if ValidateTernaryEntry(e, tensors).Ok? {
      var dims := tensors[e.weight].layout.shape.dims;
      assert dims == [dims[0], dims[1]];
      var count := ScaleCount(e.plan.scaleGranularity, dims[0], dims[1]);
      ScalesAreCounted(e.plan.scaleGranularity, dims[0], dims[1], count);
      assert FitsMatrix(e, tensors, dims[0], dims[1], count);
    }
    forall rows: u32, cols: u32, scales: u32 | SupportedPlan(e.plan) && FitsMatrix(e, tensors, rows, cols, scales)
      ensures ValidateTernaryEntry(e, tensors).Ok?
    {
      ScalesAreCounted(e.plan.scaleGranularity, rows, cols, scales);
    }
  }

  ghost predicate IsDenseWeight(kind: T.TensorKind)
  {
    kind in {T.RouterWeight, T.DenseWeight, T.Embedding, T.Classifier}
  }

  /** Deployable weights are all kinds but scales, biases, tables and the shared dense factor. */
  lemma DeployableKinds(kind: T.TensorKind)
    ensures IsDeployableWeight(kind) <==> kind == T.TernaryWeight || IsDenseWeight(kind)
    ensures IsDeployableWeight(kind) <==>
      kind !in {T.TernaryScale, T.Bias, T.RouterBias, T.DenseBias, T.NormLut, T.SharedDenseAlpha}
  {
  }

  /** A planned entry names a ternary matrix, any other a dense weight of floats. */
  ghost predicate WeightEntryOk(e: WeightQuantEntry, tensors: Index)
  {
    if e.ternaryPlan.Some?
    then exists rows: u32, cols: u32 :: Stored(tensors, e.tensor, T.TernaryWeight, T.TernaryI2, [rows, cols])
    else e.tensor in tensors && IsDenseWeight(tensors[e.tensor].kind) &&
         tensors[e.tensor].layout.elementType == T.Float32
  }

  lemma WeightEntryMeans(e: WeightQuantEntry, tensors: Index)
    ensures ValidateWeightEntry(e, tensors).Ok? <==> WeightEntryOk(e, tensors)
  {
    if e.ternaryPlan.Some? && ValidateWeightEntry(e, tensors).Ok? {
      var dims := tensors[e.tensor].layout.shape.dims;
      assert dims == [dims[0], dims[1]];
      assert Stored(tensors, e.tensor, T.TernaryWeight, T.TernaryI2, [dims[0], dims[1]]);
    }
  }

  /** Finite bounds, in order as numbers. */
  ghost predicate OrderedFloats(lo: u32, hi: u32)
  {
    IsFinite(lo) && IsFinite(hi) && ScaledValue(lo) < ScaledValue(hi)
  }

  lemma OrderedMeans(lo: u32, hi: u32)
    ensures FiniteAndOrdered(lo, hi) <==> OrderedFloats(lo, hi)
  {
    FloatKeyOrders(lo, hi);
  }

  ghost predicate SoundPlan(plan: NormPlan)
  {
    && IsFinite(plan.affine.scale) && IsFinite(plan.affine.bias) && OrderedFloats(plan.clip.lo, plan.clip.hi)
    && match plan
       case AffineClipLut(_, _, lut) => OrderedFloats(lut.inputLo, lut.inputHi) && lut.entries >= 2
       case TileRmsThenAffineClip(tile, _, _) =>
         tile.tileWidth >= 1 && IsFinite(tile.epsilon) && ScaledValue(tile.epsilon) > 0
  }

  lemma SoundPlanMeans(plan: NormPlan)
    ensures SoundPlan(plan) <==>
      match plan
      case AffineClipLut(affine, clip, lut) =>
        ValidAffineClip(affine, clip) && FiniteAndOrdered(lut.inputLo, lut.inputHi) && lut.entries >= 2
      case TileRmsThenAffineClip(tile, affine, clip) =>
        tile.tileWidth != 0 && IsFinite(tile.epsilon) && FloatKey(tile.epsilon) > 0 && ValidAffineClip(affine, clip)
  {
    OrderedMeans(plan.clip.lo, plan.clip.hi);
    match plan
    case AffineClipLut(_, _, lut) => OrderedMeans(lut.inputLo, lut.inputHi);
    case TileRmsThenAffineClip(tile, _, _) =>
      FloatKeyOrders(0, tile.epsilon);
      assert ScaledValue(0) == 0;
  }

  /** A norm entry needs a sound plan, and a fitting table exactly when the plan is of the table kind. */
  ghost predicate NormEntryOk(e: NormQuantEntry, tensors: Index)
  {
    && SoundPlan(e.plan)
    && match e.plan
       case AffineClipLut(_, _, lut) =>
         e.lut.Some? && Stored(tensors, e.lut.value, T.NormLut, T.Float32, [lut.entries])
       case TileRmsThenAffineClip(_, _, _) => e.lut.None?
  }

  lemma NormEntryMeans(e: NormQuantEntry, tensors: Index)
    ensures ValidateNormEntry(e, tensors).Ok? <==> NormEntryOk(e, tensors)
  {
    SoundPlanMeans(e.plan);
  }

  // ---- Acceptance, declaratively ----

  function TensorId(tensor: Tensor): Path { tensor.id }

  predicate TensorLe(a: Tensor, b: Tensor) { PathLe(a.id, b.id) }

  /** A table keyed by `key`, as the source's maps hold it. */
  ghost predicate Keyed<E>(table: map<Path, E>, entries: seq<E>, key: E -> Path)
  {
    && table.Keys == ToSet(Map(key, entries))
    && forall e :: e in entries ==> key(e) in table && table[key(e)] == e
  }

  lemma KeyedGrows<E>(table: map<Path, E>, entries: seq<E>, key: E -> Path, i: nat)
    requires i < |entries| && Keyed(table, entries[..i], key) && DistinctKeys(entries[..i], key)
    ensures key(entries[i]) !in table ==>
      Keyed(table[key(entries[i]) := entries[i]], entries[..i + 1], key) && DistinctKeys(entries[..i + 1], key)
    ensures key(entries[i]) in table ==> Repeated(Map(key, entries), key(entries[i])) && !DistinctKeys(entries, key)
  {
    var keys := Map(key, entries);
    PrefixGrows(entries, i);
    PrefixGrows(keys, i);
    MapPrefix(entries, i, key);
    MapPrefix(entries, i + 1, key);
    if key(entries[i]) in table {
      RepeatIsNotDistinct(keys, i);
    } else {
      AppendDistinct(keys[..i], keys[i]);
    }
  }

  lemma KeyedMember<E>(table: map<Path, E>, entries: seq<E>, key: E -> Path, k: Path)
    requires Keyed(table, entries, key) && k in table
    ensures table[k] in entries && key(table[k]) == k
  {
    assert k in Map(key, entries);
    var i :| 0 <= i < |entries| && Map(key, entries)[i] == k;
    assert entries[i] in entries;
  }

  ghost predicate Indexes(index: Index, tensors: seq<Tensor>)
  {
    Keyed(index, tensors, TensorId)
  }

  ghost predicate TernaryTableOk(q: QuantSpec, index: Index)
  {
    && DistinctKeys(q.ternaryWeightPlans, Projection)
    && forall e :: e in q.ternaryWeightPlans ==> TernaryEntryOk(e, index)
  }

  ghost predicate WeightTableOk(q: QuantSpec, index: Index)
  {
    && DistinctKeys(q.weightQuant, WeightKey) && DistinctKeys(q.weightQuant, WeightTensor)
    && forall e :: e in q.weightQuant ==> WeightEntryOk(e, index)
  }

  ghost predicate Mirrored(w: WeightQuantEntry, q: QuantSpec)
  {
    exists e :: e in q.ternaryWeightPlans && FromTernary(e) == w
  }

  /** Each table's ternary entries are mirrored in the other. */
  ghost predicate TablesAgree(q: QuantSpec)
  {
    && (forall e :: e in q.ternaryWeightPlans ==> FromTernary(e) in q.weightQuant)
    && (forall w :: w in q.weightQuant && w.ternaryPlan.Some? ==> Mirrored(w, q))
  }

  ghost predicate WeightsCovered(q: QuantSpec, tensors: seq<Tensor>)
  {
    forall tensor :: tensor in tensors && IsDeployableWeight(tensor.kind)
      ==> exists w :: w in q.weightQuant && w.tensor == tensor.id
  }

  ghost predicate ActivationsOk(q: QuantSpec)
  {
    && DistinctKeys(q.activationQuant, ActivationKey)
    && forall e :: e in q.activationQuant ==> OrderedFloats(e.range.lo, e.range.hi)
  }

  ghost predicate NormsOk(q: QuantSpec, index: Index)
  {
    && DistinctKeys(q.normPlans, NormKey)
    && forall e :: e in q.normPlans ==> NormEntryOk(e, index)
  }

  ghost predicate QuantAccepted(q: QuantSpec, tensors: seq<Tensor>, index: Index)
  {
    && TernaryTableOk(q, index) && WeightTableOk(q, index) && TablesAgree(q)
    && WeightsCovered(q, tensors) && ActivationsOk(q) && NormsOk(q, index)
  }

  ghost predicate CoreAccepted(tensors: seq<Tensor>, q: QuantSpec)
  {
    && DistinctKeys(tensors, TensorId)
    && exists index :: Indexes(index, tensors) && QuantAccepted(q, tensors, index)
  }

  // ---- Rejections ----

  /** `name` is stored, and the stored tensor carries `id`. */
  ghost predicate Names(index: Index, name: Path, id: Path)
  {
    name in index && index[name].id == id
  }

  /** The tensor stored under `name` is the one the error blames, and rightly. */
  ghost predicate Misfit(
    error: CoreError, index: Index, name: Path, kind: T.TensorKind, elementType: T.ElementType)
  {
    match error
    case MissingTensor(id) => id == name && name !in index
    case TensorKindMismatch(id, expected) => Names(index, name, id) && index[name].kind != expected == kind
    case TensorElementTypeMismatch(id, expected) =>
      Names(index, name, id) && index[name].layout.elementType != expected == elementType
    case _ => false
  }

  ghost predicate Misshapen(error: CoreError, index: Index, name: Path, shape: seq<u32>)
  {
    && error.TensorShapeMismatch? && error.expectedShape == shape
    && Names(index, name, error.id) && index[name].layout.shape.dims != shape
  }

  ghost predicate NotAMatrix(error: CoreError, index: Index, name: Path)
  {
    && error.TensorRankMismatch? && error.expectedRank == 2
    && Names(index, name, error.id) && |index[name].layout.shape.dims| != 2
  }

  ghost predicate ExplainsTernary(error: CoreError, e: TernaryQuantEntry, index: Index)
  {
    || Misfit(error, index, e.weight, T.TernaryWeight, T.TernaryI2) || NotAMatrix(error, index, e.weight)
    || Misfit(error, index, e.scale, T.TernaryScale, T.Q8_8)
    || (error == InvalidQuantPlan(e.projection) && !SupportedPlan(e.plan))
    || (e.weight in index && |index[e.weight].layout.shape.dims| == 2 &&
        var dims := index[e.weight].layout.shape.dims;
        || (error == InvalidQuantPlan(e.projection) && TooManyScales(e.plan, dims[0], dims[1]))
        || (exists scales: u32 ::
              PlannedScales(e.plan.scaleGranularity, dims[0], dims[1], scales) &&
              Misshapen(error, index, e.scale, [scales]))
        || (e.bias.Some? && (Misfit(error, index, e.bias.value, T.Bias, T.Float32) ||
                             Misshapen(error, index, e.bias.value, [dims[0]]))))
  }

  ghost predicate TooManyScales(plan: TernaryWeightPlan, rows: u32, cols: u32)
  {
    exists scales: nat :: PlannedScales(plan.scaleGranularity, rows, cols, scales) && scales >= 0x1_0000_0000
  }

  ghost predicate ExplainsWeight(error: CoreError, e: WeightQuantEntry, index: Index)
  {
    if e.ternaryPlan.Some? then
      Misfit(error, index, e.tensor, T.TernaryWeight, T.TernaryI2) || NotAMatrix(error, index, e.tensor)
    else
      || (Misfit(error, index, e.tensor, T.DenseWeight, T.Float32) && !error.TensorKindMismatch?)
      || (error == InvalidQuantPlan(e.weight) && e.tensor in index && !IsDenseWeight(index[e.tensor].kind))
  }

  ghost predicate ExplainsNorm(error: CoreError, e: NormQuantEntry, index: Index)
  {
    match e.plan
    case AffineClipLut(affine, clip, lut) =>
      || (error == InvalidNormPlan(e.norm) && !SoundPlan(e.plan))
      || (error == MissingNormLut(e.norm) && e.lut.None?)
      || (e.lut.Some? && (Misfit(error, index, e.lut.value, T.NormLut, T.Float32) ||
                          Misshapen(error, index, e.lut.value, [lut.entries])))
    case TileRmsThenAffineClip(_, _, _) =>
      || (error == InvalidNormPlan(e.norm) && !SoundPlan(e.plan))
      || (e.lut.Some? && error == UnexpectedNormLut(e.norm, e.lut.value))
  }

  /** An error of a single entry, true of that entry. */
  ghost predicate EntryRejected(error: CoreError, q: QuantSpec, index: Index)
  {
    || (exists e :: e in q.ternaryWeightPlans && ExplainsTernary(error, e, index))
    || (exists e :: e in q.weightQuant && ExplainsWeight(error, e, index))
    || (exists e :: e in q.activationQuant && error == InvalidActivationRange(e.activation) &&
          !OrderedFloats(e.range.lo, e.range.hi))
    || (exists e :: e in q.normPlans && ExplainsNorm(error, e, index))
  }

  ghost predicate NoWeightEntry(q: QuantSpec, path: Path)
  {
    forall w :: w in q.weightQuant ==> w.weight != path
  }

  ghost predicate NoEntryForTensor(q: QuantSpec, path: Path)
  {
    forall w :: w in q.weightQuant ==> w.tensor != path
  }

  ghost predicate NoProjection(q: QuantSpec, path: Path)
  {
    forall e :: e in q.ternaryWeightPlans ==> e.projection != path
  }

  ghost predicate Disagree(q: QuantSpec, path: Path, e: TernaryQuantEntry, w: WeightQuantEntry)
  {
    && e in q.ternaryWeightPlans && w in q.weightQuant && e.projection == path == w.weight
    && (e.weight != w.tensor || w.ternaryPlan != Some(e.plan))
  }

  /** What a rejection says about the tables and tensors it was given. */
  ghost predicate Explains(error: CoreError, q: QuantSpec, tensors: seq<Tensor>, index: Index)
  {
    match error
    case DuplicateTensor(id) => Repeated(Map(TensorId, tensors), id)
    case DuplicateQuantEntry(TernaryProjections, path) => Repeated(Map(Projection, q.ternaryWeightPlans), path)
    case DuplicateQuantEntry(WeightQuants, path) => Repeated(Map(WeightKey, q.weightQuant), path)
    case DuplicateQuantEntry(WeightQuantTensors, path) => Repeated(Map(WeightTensor, q.weightQuant), path)
    case DuplicateQuantEntry(Activations, path) => Repeated(Map(ActivationKey, q.activationQuant), path)
    case DuplicateQuantEntry(Norms, path) => Repeated(Map(NormKey, q.normPlans), path)
    case MissingWeightQuantEntry(path) =>
      || (NoWeightEntry(q, path) && exists e :: e in q.ternaryWeightPlans && e.projection == path)
      || (NoEntryForTensor(q, path) &&
          exists tensor :: tensor in tensors && tensor.id == path && IsDeployableWeight(tensor.kind))
    case MissingTernaryQuantEntry(path) =>
      NoProjection(q, path) && exists w :: w in q.weightQuant && w.weight == path && w.ternaryPlan.Some?
    case WeightQuantPlanMismatch(path) => exists e, w :: Disagree(q, path, e, w)
    case _ => EntryRejected(error, q, index)
  }

  lemma TernaryErrorMeans(e: TernaryQuantEntry, index: Index)
    requires ValidateTernaryEntry(e, index).Err?
    ensures ExplainsTernary(ValidateTernaryEntry(e, index).error, e, index)
  {
    if e.weight in index && |index[e.weight].layout.shape.dims| == 2 {
      var dims := index[e.weight].layout.shape.dims;
      var count := ScaleCount(e.plan.scaleGranularity, dims[0], dims[1]);
      ScalesAreCounted(e.plan.scaleGranularity, dims[0], dims[1], count);
    }
  }

  lemma TernaryErrorExplained(q: QuantSpec, tensors: seq<Tensor>, index: Index, e: TernaryQuantEntry)
    requires e in q.ternaryWeightPlans && ValidateTernaryEntry(e, index).Err?
    ensures Explains(ValidateTernaryEntry(e, index).error, q, tensors, index)
  {
    TernaryErrorMeans(e, index);
  }

  lemma WeightErrorExplained(q: QuantSpec, tensors: seq<Tensor>, index: Index, e: WeightQuantEntry)
    requires e in q.weightQuant && ValidateWeightEntry(e, index).Err?
    ensures Explains(ValidateWeightEntry(e, index).error, q, tensors, index)
  {
    assert ExplainsWeight(ValidateWeightEntry(e, index).error, e, index);
  }

  lemma ActivationErrorExplained(q: QuantSpec, tensors: seq<Tensor>, index: Index, e: ActivationQuantEntry)
    requires e in q.activationQuant && ValidateActivationEntry(e).Err?
    ensures Explains(ValidateActivationEntry(e).error, q, tensors, index)
  {
    OrderedMeans(e.range.lo, e.range.hi);
  }

  lemma NormErrorExplained(q: QuantSpec, tensors: seq<Tensor>, index: Index, e: NormQuantEntry)
    requires e in q.normPlans && ValidateNormEntry(e, index).Err?
    ensures Explains(ValidateNormEntry(e, index).error, q, tensors, index)
  {
    SoundPlanMeans(e.plan);
    assert ExplainsNorm(ValidateNormEntry(e, index).error, e, index);
  }

  // ---- Construction ----

  /** `ArtifactCore::new`. */
  method New(tensors: seq<Tensor>, quant: QuantSpec, semantics: S.SequenceSpec)
    returns (r: Result<ArtifactCore, CoreError>)
    ensures r.Ok? <==> CoreAccepted(tensors, quant)
    ensures r.Ok? ==> IsCoreOf(r.value, tensors, quant, semantics)
    ensures r.Err? && r.error.DuplicateTensor? ==> Repeated(Map(TensorId, tensors), r.error.id)
    ensures r.Err? && !r.error.DuplicateTensor? ==>
      exists index :: Indexes(index, tensors) && Explains(r.error, quant, tensors, index)
  {
    var sorted := Sort(tensors, TensorLe);
    SortedByKey(tensors, TensorId, TensorLe);
    DistinctKeysPermute(sorted, tensors, TensorId);
    var canonical := Canonicalized(quant);
    CanonicalizedKeepsTables(quant);
    var index, duplicate := TensorIndex(sorted);
    if duplicate.Some? {
      MapPermutes(TensorId, sorted, tensors);
      return Err(DuplicateTensor(duplicate.value));
    }
    IndexIsOrderBlind(index, sorted, tensors);
    var verdict := ValidateQuantSpec(canonical, sorted, index);
    AcceptanceIsOrderBlind(sorted, tensors, canonical, quant, index);
    if verdict.Err? {
      RejectionIsOrderBlind(verdict.error, sorted, tensors, canonical, quant, index);
      return Err(verdict.error);
    }
    AcceptedKeysDiffer(canonical, quant, sorted, index);
    return Ok(ArtifactCore(semantics, sorted, canonical));
  }

  /** The given tensors and entries, the tensors and each table in strictly ascending key order. */
  ghost predicate IsCoreOf(core: ArtifactCore, tensors: seq<Tensor>, q: QuantSpec, semantics: S.SequenceSpec)
  {
    && core.sequenceSemantics == semantics
    && Permutation(core.tensors, tensors) && AscendingBy(core.tensors, TensorId)
    && SameTables(core.quant, q) && TablesAscend(core.quant)
  }

  lemma AcceptedKeysDiffer(canonical: QuantSpec, quant: QuantSpec, tensors: seq<Tensor>, index: Index)
    requires SameTables(canonical, quant) && QuantAccepted(canonical, tensors, index)
    ensures AllKeysDistinct(quant)
  {
    DistinctKeysPermute(canonical.weightQuant, quant.weightQuant, WeightKey);
    DistinctKeysPermute(canonical.ternaryWeightPlans, quant.ternaryWeightPlans, Projection);
    DistinctKeysPermute(canonical.activationQuant, quant.activationQuant, ActivationKey);
    DistinctKeysPermute(canonical.normPlans, quant.normPlans, NormKey);
  }

  /** An explanation of the sorted tables is one of the given tables. */
  lemma RejectionIsOrderBlind(
    error: CoreError, a: seq<Tensor>, b: seq<Tensor>, p: QuantSpec, q: QuantSpec, index: Index)
    requires Permutation(a, b) && SameTables(p, q) && Explains(error, p, a, index)
    ensures Explains(error, q, b, index)
  {
    PermutationMembers(a, b);
    PermutationMembers(p.weightQuant, q.weightQuant);
    PermutationMembers(p.ternaryWeightPlans, q.ternaryWeightPlans);
    PermutationMembers(p.activationQuant, q.activationQuant);
    PermutationMembers(p.normPlans, q.normPlans);
    MapPermutes(TensorId, a, b);
    MapPermutes(WeightKey, p.weightQuant, q.weightQuant);
    MapPermutes(WeightTensor, p.weightQuant, q.weightQuant);
    MapPermutes(Projection, p.ternaryWeightPlans, q.ternaryWeightPlans);
    MapPermutes(ActivationKey, p.activationQuant, q.activationQuant);
    MapPermutes(NormKey, p.normPlans, q.normPlans);
    if error.WeightQuantPlanMismatch? {
      var e, w :| Disagree(p, error.path, e, w);
      assert Disagree(q, error.path, e, w);
    }
  }

  method TensorIndex(tensors: seq<Tensor>) returns (index: Index, duplicate: Option<Path>)
    ensures duplicate.None? <==> DistinctKeys(tensors, TensorId)
    ensures duplicate.None? ==> Indexes(index, tensors)
    ensures duplicate.Some? ==> Repeated(Map(TensorId, tensors), duplicate.value)
  {
    index, duplicate := map[], None;
    for i := 0 to |tensors|
      invariant Keyed(index, tensors[..i], TensorId) && DistinctKeys(tensors[..i], TensorId)
    {
      KeyedGrows(index, tensors, TensorId, i);
      if tensors[i].id in index {
        duplicate := Some(tensors[i].id);
        return;
      }
      index := index[tensors[i].id := tensors[i]];
    }
    assert tensors[..|tensors|] == tensors;
  }

  lemma MapPrefix<A, B>(xs: seq<A>, i: nat, f: A -> B)
    requires i <= |xs|
    ensures Map(f, xs[..i]) == Map(f, xs)[..i]
  {
  }

  /** `validate_quant_spec`: the seven passes in the order of the source. */
  method ValidateQuantSpec(q: QuantSpec, tensors: seq<Tensor>, index: Index) returns (r: Verdict)
    ensures r.Ok? <==> QuantAccepted(q, tensors, index)
    ensures r.Err? ==> Explains(r.error, q, tensors, index)
  {
    var ternary := CheckTernaryTable(q, tensors, index);
    if ternary.Err? { return Err(ternary.error); }
    var weights := CheckWeightTable(q, tensors, index);
    if weights.Err? { return Err(weights.error); }
    var (byKey, byTensor) := weights.value;
    r := CheckProjections(q, byKey, tensors, index);
    if r.Err? { return; }
    r := CheckTernaryWeights(q, ternary.value, tensors, index);
    if r.Err? { return; }
    r := CheckCoverage(q, tensors, byTensor, index);
    if r.Err? { return; }
    r := CheckActivations(q, tensors, index);
    if r.Err? { return; }
    r := CheckNorms(q, tensors, index);
  }

  method CheckTernaryTable(q: QuantSpec, ghost tensors: seq<Tensor>, index: Index)
    returns (r: Result<map<Path, TernaryQuantEntry>, CoreError>)
    ensures r.Ok? <==> TernaryTableOk(q, index)
    ensures r.Err? ==> Explains(r.error, q, tensors, index)
    ensures r.Ok? ==> Keyed(r.value, q.ternaryWeightPlans, Projection)
  {
    var entries := q.ternaryWeightPlans;
    var table: map<Path, TernaryQuantEntry> := map[];
    for i := 0 to |entries|
      invariant TernariesRead(table, entries[..i], index)
    {
      var entry := entries[i];
      TernaryStep(table, entries, i, index);
      if entry.projection in table {
        return Err(DuplicateQuantEntry(TernaryProjections, entry.projection));
      }
      table := table[entry.projection := entry];
      var valid := ValidateTernaryEntry(entry, index);
      TernaryEntryMeans(entry, index);
      if valid.Err? {
        TernaryErrorExplained(q, tensors, index, entry);
        return Err(valid.error);
      }
    }
    assert entries[..|entries|] == entries;
    return Ok(table);
  }

  /** What the ternary pass knows after reading `entries`. */
  ghost predicate TernariesRead(table: map<Path, TernaryQuantEntry>, entries: seq<TernaryQuantEntry>, index: Index)
  {
    && Keyed(table, entries, Projection) && DistinctKeys(entries, Projection)
    && forall e :: e in entries ==> TernaryEntryOk(e, index)
  }

  lemma TernaryStep(
    table: map<Path, TernaryQuantEntry>, entries: seq<TernaryQuantEntry>, i: nat, index: Index)
    requires i < |entries| && TernariesRead(table, entries[..i], index)
    ensures entries[i].projection in table ==>
      Repeated(Map(Projection, entries), entries[i].projection) && !DistinctKeys(entries, Projection)
    ensures entries[i].projection !in table && TernaryEntryOk(entries[i], index) ==>
      TernariesRead(table[entries[i].projection := entries[i]], entries[..i + 1], index)
  {
    KeyedGrows(table, entries, Projection, i);
    PrefixGrows(entries, i);
  }

  method CheckWeightTable(q: QuantSpec, ghost tensors: seq<Tensor>, index: Index)
    returns (r: Result<(map<Path, WeightQuantEntry>, map<Path, WeightQuantEntry>), CoreError>)
    ensures r.Ok? <==> WeightTableOk(q, index)
    ensures r.Err? ==> Explains(r.error, q, tensors, index)
    ensures r.Ok? ==> Keyed(r.value.0, q.weightQuant, WeightKey) && Keyed(r.value.1, q.weightQuant, WeightTensor)
  {
    var entries := q.weightQuant;
    var byKey: map<Path, WeightQuantEntry> := map[];
    var byTensor: map<Path, WeightQuantEntry> := map[];
    for i := 0 to |entries|
      invariant WeightsRead(byKey, byTensor, entries[..i], index)
    {
      var entry := entries[i];
      WeightStep(byKey, byTensor, entries, i, index);
      if entry.weight in byKey {
        return Err(DuplicateQuantEntry(WeightQuants, entry.weight));
      }
      if entry.tensor in byTensor {
        return Err(DuplicateQuantEntry(WeightQuantTensors, entry.tensor));
      }
      byKey := byKey[entry.weight := entry];
      byTensor := byTensor[entry.tensor := entry];
      var valid := ValidateWeightEntry(entry, index);
      WeightEntryMeans(entry, index);
      if valid.Err? {
        WeightErrorExplained(q, tensors, index, entry);
        return Err(valid.error);
      }
    }
    assert entries[..|entries|] == entries;
    return Ok((byKey, byTensor));
  }

  /** What the weight pass knows after reading `entries`. */
  ghost predicate WeightsRead(
    byKey: map<Path, WeightQuantEntry>, byTensor: map<Path, WeightQuantEntry>,
    entries: seq<WeightQuantEntry>, index: Index)
  {
    && Keyed(byKey, entries, WeightKey) && DistinctKeys(entries, WeightKey)
    && Keyed(byTensor, entries, WeightTensor) && DistinctKeys(entries, WeightTensor)
    && forall e :: e in entries ==> WeightEntryOk(e, index)
  }

  lemma WeightStep(
    byKey: map<Path, WeightQuantEntry>, byTensor: map<Path, WeightQuantEntry>,
    entries: seq<WeightQuantEntry>, i: nat, index: Index)
    requires i < |entries| && WeightsRead(byKey, byTensor, entries[..i], index)
    ensures entries[i].weight in byKey ==>
      Repeated(Map(WeightKey, entries), entries[i].weight) && !DistinctKeys(entries, WeightKey)
    ensures entries[i].tensor in byTensor ==>
      Repeated(Map(WeightTensor, entries), entries[i].tensor) && !DistinctKeys(entries, WeightTensor)
    ensures
      entries[i].weight !in byKey && entries[i].tensor !in byTensor && WeightEntryOk(entries[i], index) ==>
        WeightsRead(byKey[entries[i].weight := entries[i]], byTensor[entries[i].tensor := entries[i]],
                    entries[..i + 1], index)
  {
    KeyedGrows(byKey, entries, WeightKey, i);
    KeyedGrows(byTensor, entries, WeightTensor, i);
    PrefixGrows(entries, i);
  }

  /**
    Every ternary projection has its weight entry.  The source walks its map in
    key order, which is the order of the canonical table.
   */
  method CheckProjections(
    q: QuantSpec, byKey: map<Path, WeightQuantEntry>, ghost tensors: seq<Tensor>, ghost index: Index)
    returns (r: Verdict)
    requires Keyed(byKey, q.weightQuant, WeightKey)
    ensures r.Ok? <==> forall e :: e in q.ternaryWeightPlans ==> FromTernary(e) in q.weightQuant
    ensures r.Err? ==> Explains(r.error, q, tensors, index)
  {
    var entries := q.ternaryWeightPlans;
    for i := 0 to |entries|
      invariant forall e :: e in entries[..i] ==> FromTernary(e) in q.weightQuant
    {
      var entry := entries[i];
      PrefixGrows(entries, i);
      assert entry in entries;
      if FromTernary(entry) in q.weightQuant {
        assert WeightKey(FromTernary(entry)) in byKey && byKey[entry.projection] == FromTernary(entry);
      }
      if entry.projection !in byKey {
        return Err(MissingWeightQuantEntry(entry.projection));
      }
      var weightEntry := byKey[entry.projection];
      KeyedMember(byKey, q.weightQuant, WeightKey, entry.projection);
      if weightEntry.tensor != entry.weight || weightEntry.ternaryPlan != Some(entry.plan) {
        assert Disagree(q, entry.projection, entry, weightEntry);
        return Err(WeightQuantPlanMismatch(entry.projection));
      }
      assert weightEntry == FromTernary(entry);
    }
    assert entries[..|entries|] == entries;
    return Ok(());
  }

  method CheckTernaryWeights(
    q: QuantSpec, ternary: map<Path, TernaryQuantEntry>, ghost tensors: seq<Tensor>, ghost index: Index)
    returns (r: Verdict)
    requires Keyed(ternary, q.ternaryWeightPlans, Projection)
    ensures r.Ok? <==> forall w :: w in q.weightQuant && w.ternaryPlan.Some? ==> Mirrored(w, q)
    ensures r.Err? ==> Explains(r.error, q, tensors, index)
  {
    var entries := q.weightQuant;
    for i := 0 to |entries|
      invariant forall w :: w in entries[..i] && w.ternaryPlan.Some? ==> Mirrored(w, q)
    {
      var entry := entries[i];
      PrefixGrows(entries, i);
      assert entry in entries;
      if entry.ternaryPlan.Some? {
        MirrorIsKeyed(q, ternary, entry);
        if entry.weight !in ternary {
          return Err(MissingTernaryQuantEntry(entry.weight));
        }
        var other := ternary[entry.weight];
        KeyedMember(ternary, q.ternaryWeightPlans, Projection, entry.weight);
        if other.weight != entry.tensor || other.plan != entry.ternaryPlan.value {
          assert Disagree(q, entry.weight, other, entry);
          return Err(WeightQuantPlanMismatch(entry.weight));
        }
        assert FromTernary(other) == entry;
      }
    }
    assert entries[..|entries|] == entries;
    return Ok(());
  }

  lemma MirrorIsKeyed(q: QuantSpec, ternary: map<Path, TernaryQuantEntry>, w: WeightQuantEntry)
    requires Keyed(ternary, q.ternaryWeightPlans, Projection)
    ensures Mirrored(w, q) ==> w.weight in ternary && FromTernary(ternary[w.weight]) == w
  {
    if e :| e in q.ternaryWeightPlans && FromTernary(e) == w {
      assert Projection(e) in ternary;
    }
  }

  method CheckCoverage(
    q: QuantSpec, tensors: seq<Tensor>, byTensor: map<Path, WeightQuantEntry>, ghost index: Index)
    returns (r: Verdict)
    requires Keyed(byTensor, q.weightQuant, WeightTensor)
    ensures r.Ok? <==> WeightsCovered(q, tensors)
    ensures r.Err? ==> Explains(r.error, q, tensors, index)
  {
    for i := 0 to |tensors|
      invariant WeightsCovered(q, tensors[..i])
    {
      var tensor := tensors[i];
      PrefixGrows(tensors, i);
      assert tensor in tensors;
      if IsDeployableWeight(tensor.kind) && tensor.id !in byTensor {
        assert forall w :: w in q.weightQuant ==> WeightTensor(w) in byTensor;
        return Err(MissingWeightQuantEntry(tensor.id));
      }
      if tensor.id in byTensor {
        KeyedMember(byTensor, q.weightQuant, WeightTensor, tensor.id);
      }
    }
    assert tensors[..|tensors|] == tensors;
    return Ok(());
  }

  method CheckActivations(q: QuantSpec, ghost tensors: seq<Tensor>, ghost index: Index) returns (r: Verdict)
    ensures r.Ok? <==> ActivationsOk(q)
    ensures r.Err? ==> Explains(r.error, q, tensors, index)
  {
    var entries := q.activationQuant;
    var keys := Map(ActivationKey, entries);
    var seen: set<Path> := {};
    for i := 0 to |entries|
      invariant seen == ToSet(keys[..i]) && Distinct(keys[..i])
      invariant forall e :: e in entries[..i] ==> OrderedFloats(e.range.lo, e.range.hi)
    {
      var entry := entries[i];
      PrefixGrows(keys, i);
      PrefixGrows(entries, i);
      if entry.activation in seen {
        RepeatIsNotDistinct(keys, i);
        return Err(DuplicateQuantEntry(Activations, entry.activation));
      }
      AppendDistinct(keys[..i], entry.activation);
      seen := seen + {entry.activation};
      var valid := ValidateActivationEntry(entry);
      OrderedMeans(entry.range.lo, entry.range.hi);
      if valid.Err? {
        ActivationErrorExplained(q, tensors, index, entry);
        return Err(valid.error);
      }
    }
    assert entries[..|entries|] == entries && keys[..|keys|] == keys;
    return Ok(());
  }

  method CheckNorms(q: QuantSpec, ghost tensors: seq<Tensor>, index: Index) returns (r: Verdict)
    ensures r.Ok? <==> NormsOk(q, index)
    ensures r.Err? ==> Explains(r.error, q, tensors, index)
  {
    var entries := q.normPlans;
    var keys := Map(NormKey, entries);
    var seen: set<Path> := {};
    for i := 0 to |entries|
      invariant seen == ToSet(keys[..i]) && Distinct(keys[..i])
      invariant forall e :: e in entries[..i] ==> NormEntryOk(e, index)
    {
      var entry := entries[i];
      PrefixGrows(keys, i);
      PrefixGrows(entries, i);
      if entry.norm in seen {
        RepeatIsNotDistinct(keys, i);
        return Err(DuplicateQuantEntry(Norms, entry.norm));
      }
      AppendDistinct(keys[..i], entry.norm);
      seen := seen + {entry.norm};
      var valid := ValidateNormEntry(entry, index);
      NormEntryMeans(entry, index);
      if valid.Err? {
        NormErrorExplained(q, tensors, index, entry);
        return Err(valid.error);
      }
    }
    assert entries[..|entries|] == entries && keys[..|keys|] == keys;
    return Ok(());
  }

  // ---- Order ----

  lemma IndexIsUnique(i: Index, j: Index, tensors: seq<Tensor>)
    requires Indexes(i, tensors) && Indexes(j, tensors)
    ensures i == j
  {
    forall id | id in i ensures i[id] == j[id] {
      var k :| 0 <= k < |tensors| && Map(TensorId, tensors)[k] == id;
      assert tensors[k] in tensors;
    }
  }

  lemma IndexIsOrderBlind(index: Index, a: seq<Tensor>, b: seq<Tensor>)
    requires Permutation(a, b)
    ensures Indexes(index, a) <==> Indexes(index, b)
  {
    PermutationMembers(a, b);
    MapPermutes(TensorId, a, b);
    PermutationMembers(Map(TensorId, a), Map(TensorId, b));
    assert ToSet(Map(TensorId, a)) == ToSet(Map(TensorId, b));
  }

  lemma TablesAreOrderBlind(a: seq<Tensor>, b: seq<Tensor>, p: QuantSpec, q: QuantSpec, index: Index)
    requires Permutation(a, b) && SameTables(p, q)
    ensures QuantAccepted(p, a, index) <==> QuantAccepted(q, b, index)
  {
    PermutationMembers(a, b);
    PermutationMembers(p.weightQuant, q.weightQuant);
    PermutationMembers(p.ternaryWeightPlans, q.ternaryWeightPlans);
    PermutationMembers(p.activationQuant, q.activationQuant);
    PermutationMembers(p.normPlans, q.normPlans);
    DistinctKeysPermute(p.weightQuant, q.weightQuant, WeightKey);
    DistinctKeysPermute(p.weightQuant, q.weightQuant, WeightTensor);
    DistinctKeysPermute(p.ternaryWeightPlans, q.ternaryWeightPlans, Projection);
    DistinctKeysPermute(p.activationQuant, q.activationQuant, ActivationKey);
    DistinctKeysPermute(p.normPlans, q.normPlans, NormKey);
    assert forall w :: Mirrored(w, p) <==> Mirrored(w, q);
  }

  lemma AcceptanceIsOrderBlind(a: seq<Tensor>, b: seq<Tensor>, p: QuantSpec, q: QuantSpec, index: Index)
    requires Permutation(a, b) && SameTables(p, q)
    requires DistinctKeys(a, TensorId) && Indexes(index, a)
    ensures CoreAccepted(b, q) <==> QuantAccepted(p, a, index)
  {
    DistinctKeysPermute(a, b, TensorId);
    IndexIsOrderBlind(index, a, b);
    TablesAreOrderBlind(a, b, p, q, index);
    forall other | Indexes(other, b) ensures other == index {
      IndexIsUnique(other, index, b);
    }
  }

  /**
    Permuting the tensors and any of the four tables changes neither the verdict
    nor the constructed core.
   */
  lemma CoreForgetsOrder(
    a: seq<Tensor>, b: seq<Tensor>, p: QuantSpec, q: QuantSpec, semantics: S.SequenceSpec,
    c: ArtifactCore, d: ArtifactCore)
    requires Permutation(a, b) && SameTables(p, q)
    ensures CoreAccepted(a, p) <==> CoreAccepted(b, q)
    ensures IsCoreOf(c, a, p, semantics) && IsCoreOf(d, b, q, semantics) ==> c == d
  {
    VerdictForgetsOrder(a, b, p, q);
    if IsCoreOf(c, a, p, semantics) && IsCoreOf(d, b, q, semantics) {
      AscendingIsUnique(c.tensors, d.tensors, TensorId);
      AscendingTablesAreUnique(c.quant, d.quant);
    }
  }

  lemma VerdictForgetsOrder(a: seq<Tensor>, b: seq<Tensor>, p: QuantSpec, q: QuantSpec)
    requires Permutation(a, b) && SameTables(p, q)
    ensures CoreAccepted(a, p) <==> CoreAccepted(b, q)
  {
    DistinctKeysPermute(a, b, TensorId);
    if index :| Indexes(index, a) && DistinctKeys(a, TensorId) {
      AcceptanceIsOrderBlind(a, b, p, q, index);
      AcceptanceIsOrderBlind(a, a, p, p, index);
    } else if index :| Indexes(index, b) && DistinctKeys(b, TensorId) {
      IndexIsOrderBlind(index, a, b);
    }
  }

  // ---- What acceptance implies ----

  ghost function TernaryEntries(q: QuantSpec): set<WeightQuantEntry>
  {
    set w | w in q.weightQuant && w.ternaryPlan.Some?
  }

  /**
    In an accepted core the ternary projections and the ternary weight entries
    are in bijection, with equal tensor and plan, and no two projections share a
    weight tensor.
   */
  lemma ProjectionsMatchWeights(tensors: seq<Tensor>, q: QuantSpec)
    requires CoreAccepted(tensors, q)
    ensures TernaryEntries(q) == ToSet(Map(FromTernary, q.ternaryWeightPlans))
    ensures |TernaryEntries(q)| == |q.ternaryWeightPlans|
    ensures forall d, e :: d in q.ternaryWeightPlans && e in q.ternaryWeightPlans && d.weight == e.weight ==> d == e
  {
    var index :| Indexes(index, tensors) && QuantAccepted(q, tensors, index);
    MirrorIsTernaryEntries(q);
    MirrorIsDistinct(q.ternaryWeightPlans);
    DistinctCardinality(Map(FromTernary, q.ternaryWeightPlans));
    forall d, e | d in q.ternaryWeightPlans && e in q.ternaryWeightPlans && d.weight == e.weight ensures d == e {
      SharedWeightIsShared(q, d, e);
    }
  }

  lemma SharedWeightIsShared(q: QuantSpec, d: TernaryQuantEntry, e: TernaryQuantEntry)
    requires TablesAgree(q)
    requires DistinctKeys(q.weightQuant, WeightTensor) && DistinctKeys(q.ternaryWeightPlans, Projection)
    requires d in q.ternaryWeightPlans && e in q.ternaryWeightPlans && d.weight == e.weight
    ensures d == e
  {
    KeyDecides(q.weightQuant, WeightTensor, FromTernary(d), FromTernary(e));
    KeyDecides(q.ternaryWeightPlans, Projection, d, e);
  }

  lemma MirrorIsTernaryEntries(q: QuantSpec)
    requires TablesAgree(q)
    ensures TernaryEntries(q) == ToSet(Map(FromTernary, q.ternaryWeightPlans))
  {
    var mirror := Map(FromTernary, q.ternaryWeightPlans);
    forall w | w in mirror ensures w in TernaryEntries(q) {
      var i :| 0 <= i < |mirror| && mirror[i] == w;
      assert q.ternaryWeightPlans[i] in q.ternaryWeightPlans;
    }
    forall w | w in TernaryEntries(q) ensures w in mirror {
      assert Mirrored(w, q);
      var e :| e in q.ternaryWeightPlans && FromTernary(e) == w;
      var i :| 0 <= i < |mirror| && q.ternaryWeightPlans[i] == e;
      assert mirror[i] == w;
    }
  }

  lemma MirrorIsDistinct(entries: seq<TernaryQuantEntry>)
    requires DistinctKeys(entries, Projection)
    ensures Distinct(Map(FromTernary, entries))
  {
    forall i, j | 0 <= i < j < |entries| ensures Map(FromTernary, entries)[i] != Map(FromTernary, entries)[j] {
      assert Map(Projection, entries)[i] != Map(Projection, entries)[j];
    }
  }

  /** Every deployable weight tensor is named by exactly one weight entry. */
  lemma WeightTensorsCoveredOnce(tensors: seq<Tensor>, q: QuantSpec, tensor: Tensor)
    requires CoreAccepted(tensors, q) && tensor in tensors && IsDeployableWeight(tensor.kind)
    ensures exists w :: w in q.weightQuant && w.tensor == tensor.id
    ensures forall v, w :: v in q.weightQuant && w in q.weightQuant && v.tensor == tensor.id == w.tensor ==> v == w
  {
    var index :| Indexes(index, tensors) && QuantAccepted(q, tensors, index);
    forall v, w | v in q.weightQuant && w in q.weightQuant && v.tensor == tensor.id == w.tensor ensures v == w {
      KeyDecides(q.weightQuant, WeightTensor, v, w);
    }
  }

  /** The scale tensor of a weight matrix, as long as its plan says. */
  ghost predicate IsScaleOf(scale: Tensor, e: TernaryQuantEntry, weight: Tensor)
  {
    var dims := weight.layout.shape.dims;
    && |dims| == 2
    && scale.id == e.scale && scale.kind == T.TernaryScale && scale.layout.elementType == T.Q8_8
    && |scale.layout.shape.dims| == 1
    && PlannedScales(e.plan.scaleGranularity, dims[0], dims[1], scale.layout.shape.dims[0])
  }

  /**
    Every ternary weight tensor is a matrix with a projection, and its scale
    tensor is present and exactly as long as the plan says.
   */
  lemma TernaryWeightsAreScaled(tensors: seq<Tensor>, q: QuantSpec, weight: Tensor)
    returns (e: TernaryQuantEntry, scale: Tensor)
    requires CoreAccepted(tensors, q) && weight in tensors && weight.kind == T.TernaryWeight
    ensures e in q.ternaryWeightPlans && e.weight == weight.id
    ensures scale in tensors && IsScaleOf(scale, e, weight)
    ensures e.plan.encoding.Ternary2? && e.plan.scaleFormat.Q8_8Scale?
  {
    var index :| Indexes(index, tensors) && QuantAccepted(q, tensors, index);
    var w :| w in q.weightQuant && w.tensor == weight.id;
    assert index[weight.id] == weight;
    e := TernaryEntryOf(q, index, w);
    scale := IndexedTensor(tensors, index, e.scale);
  }

  lemma TernaryEntryOf(q: QuantSpec, index: Index, w: WeightQuantEntry) returns (e: TernaryQuantEntry)
    requires TernaryTableOk(q, index) && WeightTableOk(q, index) && TablesAgree(q)
    requires w in q.weightQuant && w.tensor in index && index[w.tensor].kind == T.TernaryWeight
    ensures e in q.ternaryWeightPlans && FromTernary(e) == w
    ensures e.plan.encoding.Ternary2? && e.plan.scaleFormat.Q8_8Scale?
    ensures e.scale in index && (index[e.scale].id == e.scale ==> IsScaleOf(index[e.scale], e, index[w.tensor]))
  {
    assert WeightEntryOk(w, index);
    assert w.ternaryPlan.Some? && Mirrored(w, q);
    e :| e in q.ternaryWeightPlans && FromTernary(e) == w;
    assert TernaryEntryOk(e, index);
    var rows: u32, cols: u32, scales: u32 :| FitsMatrix(e, index, rows, cols, scales);
  }

  lemma IndexedTensor(tensors: seq<Tensor>, index: Index, id: Path) returns (tensor: Tensor)
    requires Indexes(index, tensors) && id in index
    ensures tensor in tensors && tensor.id == id && index[id] == tensor
  {
    var k :| 0 <= k < |tensors| && Map(TensorId, tensors)[k] == id;
    tensor := tensors[k];
  }

  /** The plan's byte cost is what the weight and its scale occupy, to the byte. */
  lemma AcceptedCostIsStoredSize(tensors: seq<Tensor>, q: QuantSpec, weight: Tensor)
    returns (e: TernaryQuantEntry, scale: Tensor)
    requires CoreAccepted(tensors, q) && weight in tensors && weight.kind == T.TernaryWeight
    requires T.ValidTensor(weight.layout, weight.payload)
    ensures e in q.ternaryWeightPlans && e.weight == weight.id
    ensures scale in tensors && IsScaleOf(scale, e, weight)
    ensures
      var dims := weight.layout.shape.dims;
      dims == [dims[0], dims[1]] && CostIsTight(e.plan, dims[0], dims[1], scale.layout.shape.dims[0])
  {
    e, scale := TernaryWeightsAreScaled(tensors, q, weight);
    var dims, scaleDims := weight.layout.shape.dims, scale.layout.shape.dims;
    assert dims == [dims[0], dims[1]];
    MatrixCostIsTight(e.plan, dims[0], dims[1], scaleDims[0]);
  }

  /** The two stored lengths together, both of them tight. */
  ghost predicate CostIsTight(plan: TernaryWeightPlan, rows: u32, cols: u32, scales: u32)
  {
    var packed, stored := ByteLength(Ternary2Packed, [rows, cols]), ByteLength(Q8_8Fixed, [scales]);
    && packed.Ok? && stored.Ok?
    && ByteCost(plan, rows, cols) == packed.value + stored.value
    && Tight(packed.value, stored.value, rows, cols, scales)
  }

  lemma MatrixCostIsTight(plan: TernaryWeightPlan, rows: u32, cols: u32, scales: u32)
    requires rows > 0 && cols > 0 && PlannedScales(plan.scaleGranularity, rows, cols, scales)
    requires plan.encoding.Ternary2? && plan.scaleFormat.Q8_8Scale?
    ensures CostIsTight(plan, rows, cols, scales)
  {
    CostIsStoredSize(plan, rows, cols, scales);
    LengthOfMatrix(Ternary2Packed, rows, cols);
    LengthOfVector(Q8_8Fixed, scales);
  }

  /** Every weight entry names a stored weight, and has a plan exactly when that weight is ternary. */
  lemma WeightEntriesNameWeights(tensors: seq<Tensor>, q: QuantSpec, w: WeightQuantEntry) returns (tensor: Tensor)
    requires CoreAccepted(tensors, q) && w in q.weightQuant
    ensures tensor in tensors && tensor.id == w.tensor && IsDeployableWeight(tensor.kind)
    ensures w.ternaryPlan.Some? <==> tensor.kind == T.TernaryWeight
    ensures tensor.layout.elementType == if w.ternaryPlan.Some? then T.TernaryI2 else T.Float32
  {
    var index :| Indexes(index, tensors) && QuantAccepted(q, tensors, index);
    assert WeightEntryOk(w, index);
    tensor := IndexedTensor(tensors, index, w.tensor);
  }

  /** A norm plan has a lookup table exactly when it is of the table kind, and the table has the declared length. */
  lemma NormTablesFit(tensors: seq<Tensor>, q: QuantSpec, e: NormQuantEntry)
    requires CoreAccepted(tensors, q) && e in q.normPlans
    ensures e.plan.AffineClipLut? <==> e.lut.Some?
    ensures e.lut.Some? ==>
      e.plan.lutSpec.entries >= 2 &&
      exists lut :: lut in tensors && lut.id == e.lut.value && lut.kind == T.NormLut &&
        lut.layout.elementType == T.Float32 && lut.layout.shape.dims == [e.plan.lutSpec.entries]
  {
    var index :| Indexes(index, tensors) && QuantAccepted(q, tensors, index);
    assert NormEntryOk(e, index);
    if e.lut.Some? {
      var lut := IndexedTensor(tensors, index, e.lut.value);
    }
  }

  /**
    A specification built by `NewQuantSpec` holds the given entries and one
    weight entry for each ternary one, so that its tables always agree.
   */
  lemma DerivedTablesAgree(
    ternary: seq<TernaryQuantEntry>, activations: seq<ActivationQuantEntry>, norms: seq<NormQuantEntry>)
    ensures
      var q := NewQuantSpec(ternary, activations, norms);
      && TablesAgree(q) && |q.weightQuant| == |ternary|
      && Permutation(q.ternaryWeightPlans, ternary)
      && Permutation(q.activationQuant, activations) && Permutation(q.normPlans, norms)
    ensures
      DistinctKeys(ternary, Projection) && DistinctKeys(activations, ActivationKey) && DistinctKeys(norms, NormKey) ==>
        TablesAscend(NewQuantSpec(ternary, activations, norms))
  {
    var raw := QuantSpec(Map(FromTernary, ternary), ternary, activations, norms);
    var q := Canonicalized(raw);
    CanonicalizedKeepsTables(raw);
    assert Map(WeightKey, raw.weightQuant) == Map(Projection, ternary);
    PermutationMembers(q.weightQuant, raw.weightQuant);
    PermutationMembers(q.ternaryWeightPlans, ternary);
    forall e | e in q.ternaryWeightPlans ensures FromTernary(e) in q.weightQuant {
      DerivedFrom(ternary, e);
    }
    forall w | w in q.weightQuant ensures Mirrored(w, q) {
      var e := DerivedBy(ternary, w);
      assert e in q.ternaryWeightPlans;
    }
  }

  lemma DerivedFrom(ternary: seq<TernaryQuantEntry>, e: TernaryQuantEntry)
    requires e in ternary
    ensures FromTernary(e) in Map(FromTernary, ternary)
  {
    var i :| 0 <= i < |ternary| && ternary[i] == e;
    assert Map(FromTernary, ternary)[i] == FromTernary(e);
  }

  lemma DerivedBy(ternary: seq<TernaryQuantEntry>, w: WeightQuantEntry) returns (e: TernaryQuantEntry)
    requires w in Map(FromTernary, ternary)
    ensures e in ternary && FromTernary(e) == w
  {
    var i :| 0 <= i < |ternary| && Map(FromTernary, ternary)[i] == w;
    e := ternary[i];
  }
}
