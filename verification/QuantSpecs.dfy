/** Quantization references of an artifact and their canonical order. */
module QuantSpecs {
  import opened Wrappers
  import opened Ordering
  import opened Bytes
  import opened WeightPlans

  datatype WeightQuantEntry = WeightQuantEntry(weight: Path, tensor: Path, ternaryPlan: Option<TernaryWeightPlan>)

  datatype TernaryQuantEntry = TernaryQuantEntry(
    projection: Path, weight: Path, scale: Path, bias: Option<Path>, plan: TernaryWeightPlan)

  datatype RangeMode = FixedRange | LearnedRange | EmaRange
  datatype QuantFormat = Int8 | UInt8 | UInt4
  datatype EvalMode = Quantized | Passthrough
  datatype Nonlinearity = Identity | Relu | GeluClip | SiluClip

  /** Bounds are `f32` bit patterns, here and below. */
  datatype ActivationRange = ActivationRange(lo: u32, hi: u32, mode: RangeMode)

  datatype ActivationQuantEntry = ActivationQuantEntry(
    activation: Path, range: ActivationRange, quantFormat: QuantFormat, evalMode: EvalMode, nonlinearity: Nonlinearity)

  datatype Affine = Affine(scale: u32, bias: u32)
  datatype Clip = Clip(lo: u32, hi: u32)
  datatype LutSpec = LutSpec(inputLo: u32, inputHi: u32, entries: u16)
  datatype TileSpec = TileSpec(tileWidth: u16, epsilon: u32)

  datatype NormPlan =
    | AffineClipLut(affine: Affine, clip: Clip, lutSpec: LutSpec)
    | TileRmsThenAffineClip(tile: TileSpec, affine: Affine, clip: Clip)

  datatype NormQuantEntry = NormQuantEntry(norm: Path, plan: NormPlan, lut: Option<Path>)

  datatype QuantSpec = QuantSpec(
    weightQuant: seq<WeightQuantEntry>,
    ternaryWeightPlans: seq<TernaryQuantEntry>,
    activationQuant: seq<ActivationQuantEntry>,
    normPlans: seq<NormQuantEntry>)

  // ---- Keys ----

  function WeightKey(e: WeightQuantEntry): Path { e.weight }
  function WeightTensor(e: WeightQuantEntry): Path { e.tensor }
  function Projection(e: TernaryQuantEntry): Path { e.projection }
  function ActivationKey(e: ActivationQuantEntry): Path { e.activation }
  function NormKey(e: NormQuantEntry): Path { e.norm }

  predicate WeightLe(a: WeightQuantEntry, b: WeightQuantEntry) { PathLe(a.weight, b.weight) }
  predicate TernaryLe(a: TernaryQuantEntry, b: TernaryQuantEntry) { PathLe(a.projection, b.projection) }
  predicate ActivationLe(a: ActivationQuantEntry, b: ActivationQuantEntry) { PathLe(a.activation, b.activation) }
  predicate NormLe(a: NormQuantEntry, b: NormQuantEntry) { PathLe(a.norm, b.norm) }

  /** `QuantSpec::sort_canonical`: each table is sorted by its own key. */
  function Canonicalized(q: QuantSpec): QuantSpec
  {
    QuantSpec(
      Sort(q.weightQuant, WeightLe),
      Sort(q.ternaryWeightPlans, TernaryLe),
      Sort(q.activationQuant, ActivationLe),
      Sort(q.normPlans, NormLe))
  }

  ghost predicate SameTables(p: QuantSpec, q: QuantSpec)
  {
    && Permutation(p.weightQuant, q.weightQuant)
    && Permutation(p.ternaryWeightPlans, q.ternaryWeightPlans)
    && Permutation(p.activationQuant, q.activationQuant)
    && Permutation(p.normPlans, q.normPlans)
  }

  ghost predicate DistinctKeys<T>(xs: seq<T>, key: T -> Path)
  {
    Distinct(Map(key, xs))
  }

  lemma DistinctKeysPermute<T>(xs: seq<T>, ys: seq<T>, key: T -> Path)
    requires Permutation(xs, ys)
    ensures DistinctKeys(xs, key) <==> DistinctKeys(ys, key)
  {
    MapPermutes(key, xs, ys);
    DistinctPermutes(Map(key, xs), Map(key, ys));
  }

  /** With distinct keys, equal keys mean the same entry. */
  lemma KeyDecides<T>(xs: seq<T>, key: T -> Path, a: T, b: T)
    requires DistinctKeys(xs, key) && a in xs && b in xs && key(a) == key(b)
    ensures a == b
  {
    var i :| 0 <= i < |xs| && xs[i] == a;
    var j :| 0 <= j < |xs| && xs[j] == b;
    assert Map(key, xs)[i] == Map(key, xs)[j];
  }

  ghost predicate AllKeysDistinct(q: QuantSpec)
  {
    && DistinctKeys(q.weightQuant, WeightKey)
    && DistinctKeys(q.ternaryWeightPlans, Projection)
    && DistinctKeys(q.activationQuant, ActivationKey)
    && DistinctKeys(q.normPlans, NormKey)
  }

  /** Each table strictly ascends by its own key. */
  ghost predicate TablesAscend(q: QuantSpec)
  {
    && AscendingBy(q.weightQuant, WeightKey)
    && AscendingBy(q.ternaryWeightPlans, Projection)
    && AscendingBy(q.activationQuant, ActivationKey)
    && AscendingBy(q.normPlans, NormKey)
  }

  /** Canonical order permutes each table and, with distinct keys, makes it strictly ascending. */
  lemma CanonicalizedKeepsTables(q: QuantSpec)
    ensures SameTables(Canonicalized(q), q)
    ensures AllKeysDistinct(q) ==> TablesAscend(Canonicalized(q))
  {
    SortedByKey(q.weightQuant, WeightKey, WeightLe);
    SortedByKey(q.ternaryWeightPlans, Projection, TernaryLe);
    SortedByKey(q.activationQuant, ActivationKey, ActivationLe);
    SortedByKey(q.normPlans, NormKey, NormLe);
  }

  /** Ascending tables of the same entries are the same tables. */
  lemma AscendingTablesAreUnique(p: QuantSpec, q: QuantSpec)
    requires SameTables(p, q) && TablesAscend(p) && TablesAscend(q)
    ensures p == q
  {
    AscendingIsUnique(p.weightQuant, q.weightQuant, WeightKey);
    AscendingIsUnique(p.ternaryWeightPlans, q.ternaryWeightPlans, Projection);
    AscendingIsUnique(p.activationQuant, q.activationQuant, ActivationKey);
    AscendingIsUnique(p.normPlans, q.normPlans, NormKey);
  }

  // ---- Deriving the weight table ----

  /** `WeightQuantEntry::from_ternary`. */
  function FromTernary(e: TernaryQuantEntry): WeightQuantEntry
  {
    WeightQuantEntry(e.projection, e.weight, Some(e.plan))
  }

  /** `QuantSpec::new`: the weight table is derived from the ternary one. */
  function NewQuantSpec(
    ternary: seq<TernaryQuantEntry>, activations: seq<ActivationQuantEntry>, norms: seq<NormQuantEntry>): QuantSpec
  {
    Canonicalized(QuantSpec(Map(FromTernary, ternary), ternary, activations, norms))
  }
}
