/**
  Ternary weight plans and the byte arithmetic around them: the saturating cost
  of a plan and the checked byte length of a stored tensor.
 */
module WeightPlans {
  import opened Wrappers
  import opened Bytes
  import T = CanonicalTensors

  type NonZeroU16 = x: int | 1 <= x < 0x1_0000 witness 1

  datatype WeightEncoding = Ternary2 | SparseTernaryBitplanes | Binary1

  datatype ScaleGranularity = PerTensor | PerOutputRow | PerGroup(groupSize: NonZeroU16)

  datatype ScaleFormat = Q8_8Scale | Q4_4Scale | Pow2Scale

  datatype ThresholdPlan = FixedQ8_8 | AnnealedGlobalThenPerOutputRow | LearnedPerGroup(thresholdGroup: NonZeroU16)

  datatype TernaryWeightPlan = TernaryWeightPlan(
    encoding: WeightEncoding,
    scaleGranularity: ScaleGranularity,
    scaleFormat: ScaleFormat,
    threshold: ThresholdPlan)

  const U128_MAX: nat := 0xffff_ffff_ffff_ffff_ffff_ffff_ffff_ffff
  const U64_MAX: nat := 0xffff_ffff_ffff_ffff

  function Min(a: nat, b: nat): nat { if a <= b then a else b }

  function DivCeil(n: nat, d: nat): nat
    requires d > 0
  {
    (n + d - 1) / d
  }

  function SaturatingMul(a: nat, b: nat): nat { Min(a * b, U128_MAX) }

  function SaturatingAdd(a: nat, b: nat): nat { Min(a + b, U128_MAX) }

  function WeightBytes(encoding: WeightEncoding, rows: u32, cols: u32): nat
  {
    var weights := rows * cols;
    match encoding
    case Ternary2 => DivCeil(SaturatingMul(weights, 2), 8)
    case SparseTernaryBitplanes => SaturatingMul(DivCeil(weights, 8), 2)
    case Binary1 => DivCeil(weights, 8)
  }

  function ScaleCount(granularity: ScaleGranularity, rows: u32, cols: u32): nat
  {
    match granularity
    case PerTensor => 1
    case PerOutputRow => rows
    case PerGroup(size) => DivCeil(rows * cols, size)
  }

  function ScaleWidth(format: ScaleFormat): nat
  {
    if format.Q8_8Scale? then 2 else 1
  }

  /** `TernaryWeightPlan::compute_byte_cost`. */
  function ByteCost(plan: TernaryWeightPlan, rows: u32, cols: u32): nat
  {
    if rows == 0 || cols == 0 then 0 else
    var weights := WeightBytes(plan.encoding, rows, cols);
    var scales := SaturatingMul(ScaleCount(plan.scaleGranularity, rows, cols), ScaleWidth(plan.scaleFormat));
    Min(SaturatingAdd(weights, scales), U64_MAX)
  }

  // ---- Stored tensors ----

  datatype Dtype = Fp32 | Ternary2Packed | Q8_8Fixed | I32

  function BitsPerElement(dtype: Dtype): nat
  {
    match dtype
    case Fp32 | I32 => 32
    case Ternary2Packed => 2
    case Q8_8Fixed => 16
  }

  datatype SchemaError = EmptyShape | ZeroDim(index: nat) | ShapeElementOverflow | ByteLengthOverflow

  function FirstZero(shape: seq<u32>): (index: nat)
    requires 0 in shape
    ensures index < |shape| && shape[index] == 0 && forall i :: 0 <= i < index ==> shape[i] != 0
  {
    if shape[0] == 0 then 0 else 1 + FirstZero(shape[1..])
  }

  /** `try_fold` with `checked_mul` on `u128`. */
  function CheckedProduct(product: nat, shape: seq<u32>): Option<nat>
    decreases |shape|
  {
    if shape == [] then Some(product)
    else if product * shape[0] > U128_MAX then None
    else CheckedProduct(product * shape[0], shape[1..])
  }

  /** `byte_length`. */
  function ByteLength(dtype: Dtype, shape: seq<u32>): Result<nat, SchemaError>
  {
    if shape == [] then Err(EmptyShape)
    else if 0 in shape then Err(ZeroDim(FirstZero(shape)))
    else match CheckedProduct(1, shape)
    case None => Err(ShapeElementOverflow)
    case Some(elements) =>
      if elements * BitsPerElement(dtype) > U128_MAX then Err(ByteLengthOverflow) else
      var bytes := DivCeil(elements * BitsPerElement(dtype), 8);
      if bytes > U64_MAX then Err(ByteLengthOverflow) else Ok(bytes)
  }

  // ---- Arithmetic ----

  lemma MulMonotone(a: nat, b: nat, c: nat, d: nat)
    requires a <= c && b <= d
    ensures a * b <= c * d
  {
    assert c * d - a * b == (c - a) * d + a * (d - b);
    NonNegative(c - a, d);
    NonNegative(a, d - b);
  }

  lemma NonNegative(a: nat, b: nat)
    ensures 0 <= a * b
  {
  }

  lemma DivCeilMonotone(m: nat, n: nat, d: nat)
    requires d > 0 && m <= n
    ensures DivCeil(m, d) <= DivCeil(n, d)
  {
    DivMonotone(m + d - 1, n + d - 1, d);
  }

  lemma DivMonotone(m: nat, n: nat, d: nat)
    requires d > 0 && m <= n
    ensures m / d <= n / d
  {
    var q := m / d;
    var r := n / d;
    if q >= r + 1 {
      assert q * d <= m && n < (r + 1) * d;
      MulMonotone(r + 1, d, q, d);
    }
  }

  lemma DivCeilBound(n: nat, d: nat)
    requires d > 0
    ensures DivCeil(n, d) <= n
  {
    var q := (n + d - 1) / d;
    if q >= n + 1 {
      assert q * d <= n + d - 1;
      MulMonotone(n + 1, d, q, d);
      MulMonotone(n, 1, n, d);
      assert false;
    }
  }

  lemma ElementsFit(rows: u32, cols: u32)
    ensures rows * cols <= 0xffff_ffff * 0xffff_ffff
  {
    MulMonotone(rows, cols, 0xffff_ffff, 0xffff_ffff);
  }

  // ---- What the sizes mean ----

  predicate Covers(boxes: nat, items: nat, size: nat) { items <= boxes * size }

  /** The least number of boxes of `size` that hold `items`. */
  ghost predicate LeastCover(boxes: nat, items: nat, size: nat)
  {
    Covers(boxes, items, size) && forall fewer: nat :: Covers(fewer, items, size) ==> boxes <= fewer
  }

  /** One scale, one for each row, or just enough for groups of `size` to cover the matrix. */
  ghost predicate PlannedScales(granularity: ScaleGranularity, rows: u32, cols: u32, scales: nat)
  {
    match granularity
    case PerTensor => scales == 1
    case PerOutputRow => scales == rows
    case PerGroup(size) => LeastCover(scales, rows * cols, size)
  }

  /** Four trits, or eight binary weights, to a byte; two bitplanes of eight trits to a byte each. */
  ghost predicate PlannedWeights(encoding: WeightEncoding, elements: nat, bytes: nat)
  {
    match encoding
    case Ternary2 => LeastCover(bytes, elements, 4)
    case SparseTernaryBitplanes => exists plane: nat :: LeastCover(plane, elements, 8) && bytes == plane + plane
    case Binary1 => LeastCover(bytes, elements, 8)
  }

  /** The unbounded cost: packed weights, and two bytes for a Q8.8 scale or one for any other. */
  ghost predicate PlannedCost(plan: TernaryWeightPlan, rows: u32, cols: u32, cost: nat)
  {
    if rows == 0 || cols == 0 then cost == 0 else
    exists weights: nat, scales: nat ::
      && PlannedWeights(plan.encoding, rows * cols, weights)
      && PlannedScales(plan.scaleGranularity, rows, cols, scales)
      && cost == weights + (if plan.scaleFormat == Q8_8Scale then scales * 2 else scales)
  }

  /** Four bytes to a word, two to a Q8.8 value, four trits to a byte. */
  ghost predicate StoredBytes(dtype: Dtype, elements: nat, bytes: nat)
  {
    match dtype
    case Fp32 | I32 => bytes == 4 * elements
    case Q8_8Fixed => bytes == 2 * elements
    case Ternary2Packed => LeastCover(bytes, elements, 4)
  }

  lemma DivCeilCovers(n: nat, d: nat)
    requires d > 0
    ensures n <= DivCeil(n, d) * d < n + d
  {
    var q := (n + d - 1) / d;
    assert n + d - 1 == q * d + (n + d - 1) % d;
  }

  lemma CoverIsDivCeil(boxes: nat, items: nat, size: nat)
    requires size > 0
    ensures LeastCover(boxes, items, size) <==> boxes == DivCeil(items, size)
  {
    var q := DivCeil(items, size);
    DivCeilCovers(items, size);
    assert Covers(q, items, size);
    forall fewer: nat | Covers(fewer, items, size) ensures q <= fewer {
      if fewer < q {
        MulMonotone(fewer + 1, size, q, size);
        Distribute(fewer, size);
      }
    }
  }

  lemma Distribute(q: nat, d: nat)
    ensures (q + 1) * d == q * d + d
  {
  }

  lemma ScalesAreCounted(granularity: ScaleGranularity, rows: u32, cols: u32, scales: nat)
    ensures PlannedScales(granularity, rows, cols, scales) <==> scales == ScaleCount(granularity, rows, cols)
  {
    match granularity
    case PerGroup(size) => CoverIsDivCeil(scales, rows * cols, size);
    case _ =>
  }

  lemma WeightsArePacked(encoding: WeightEncoding, elements: nat, bytes: nat)
    ensures PlannedWeights(encoding, elements, bytes) <==> bytes == PackedBytes(encoding, elements)
  {
    match encoding
    case Ternary2 =>
      CoverIsDivCeil(bytes, elements, 4);
      assert DivCeil(elements * 2, 8) == DivCeil(elements, 4);
    case SparseTernaryBitplanes =>
      var plane := DivCeil(elements, 8);
      CoverIsDivCeil(plane, elements, 8);
      assert LeastCover(plane, elements, 8) && PackedBytes(encoding, elements) == plane + plane;
      forall other: nat | LeastCover(other, elements, 8) ensures other == plane {
        CoverIsDivCeil(other, elements, 8);
      }
    case Binary1 => CoverIsDivCeil(bytes, elements, 8);
  }

  lemma CostIsPlanned(plan: TernaryWeightPlan, rows: u32, cols: u32, cost: nat)
    ensures PlannedCost(plan, rows, cols, cost) <==> cost == ExactCost(plan, rows, cols)
  {
    if rows > 0 && cols > 0 {
      var weights := PackedBytes(plan.encoding, rows * cols);
      var scales := ScaleCount(plan.scaleGranularity, rows, cols);
      WeightsArePacked(plan.encoding, rows * cols, weights);
      ScalesAreCounted(plan.scaleGranularity, rows, cols, scales);
      forall w: nat | PlannedWeights(plan.encoding, rows * cols, w) ensures w == weights {
        WeightsArePacked(plan.encoding, rows * cols, w);
      }
      forall n: nat | PlannedScales(plan.scaleGranularity, rows, cols, n) ensures n == scales {
        ScalesAreCounted(plan.scaleGranularity, rows, cols, n);
      }
    }
  }

  lemma StoredIsPacked(dtype: Dtype, elements: nat, bytes: nat)
    ensures StoredBytes(dtype, elements, bytes) <==> bytes == DivCeil(elements * BitsPerElement(dtype), 8)
  {
    if dtype.Ternary2Packed? {
      CoverIsDivCeil(bytes, elements, 4);
    }
  }

  // ---- Stored sizes are exact ----

  /** Folding with a checked product gives up only when the exact product does not fit. */
  lemma {:induction false} CheckedProductIsExact(product: nat, shape: seq<u32>)
    requires product > 0 && product <= U128_MAX && 0 !in shape
    ensures CheckedProduct(product, shape) ==
      if product * T.Product(shape) <= U128_MAX then Some(product * T.Product(shape)) else None
    decreases |shape|
  {
    if shape != [] {
      var first, rest := shape[0], shape[1..];
      assert shape == [first] + rest;
      T.ProductAppends([first], rest);
      assert [first][..0] == [] && T.Product([first]) == first;
      T.ProductPositive(rest);
      T.Regroup(product, first, T.Product(rest));
      MulMonotone(1, 1, product, first);
      if product * first > U128_MAX {
        MulMonotone(product * first, 1, product * first, T.Product(rest));
      } else {
        CheckedProductIsExact(product * first, rest);
      }
    }
  }

  /** What each refusal of `byte_length` says. */
  ghost predicate ExplainsLength(error: SchemaError, shape: seq<u32>, bytes: nat)
  {
    match error
    case EmptyShape => shape == []
    case ZeroDim(index) => index < |shape| && shape[index] == 0 && 0 !in shape[..index]
    case ShapeElementOverflow => 0 !in shape && T.Product(shape) > 0xffff_ffff_ffff_ffff_ffff_ffff_ffff_ffff
    case ByteLengthOverflow =>
      && 0 !in shape && T.Product(shape) <= 0xffff_ffff_ffff_ffff_ffff_ffff_ffff_ffff
      && bytes > 0xffff_ffff_ffff_ffff
  }

  /** `byte_length` succeeds exactly when the stored size fits 64 bits, and is that size. */
  lemma ByteLengthIsExact(dtype: Dtype, shape: seq<u32>, bytes: nat)
    requires StoredBytes(dtype, T.Product(shape), bytes)
    ensures ByteLength(dtype, shape).Ok? <==> shape != [] && 0 !in shape && bytes <= 0xffff_ffff_ffff_ffff
    ensures ByteLength(dtype, shape).Ok? ==> ByteLength(dtype, shape).value == bytes
    ensures ByteLength(dtype, shape).Err? ==> ExplainsLength(ByteLength(dtype, shape).error, shape, bytes)
  {
    StoredIsPacked(dtype, T.Product(shape), bytes);
    if shape != [] && 0 !in shape {
      CheckedProductIsExact(1, shape);
      var bits := T.Product(shape) * BitsPerElement(dtype);
      if bits > U128_MAX {
        DivMonotone(U128_MAX, bits + 7, 8);
      }
    }
  }

  /** A byte for every four trits begun, and two for every scale. */
  ghost predicate Tight(packed: nat, stored: nat, rows: u32, cols: u32, scales: u32)
  {
    LeastCover(packed, rows * cols, 4) && stored == 2 * scales
  }

  lemma LengthOfMatrix(dtype: Dtype, rows: u32, cols: u32)
    ensures ByteLength(dtype, [rows, cols]).Ok? ==>
      StoredBytes(dtype, rows * cols, ByteLength(dtype, [rows, cols]).value)
  {
    assert [rows, cols][..1] == [rows] && [rows][..0] == [];
    assert T.Product([rows]) == rows && T.Product([rows, cols]) == rows * cols;
    LengthIsStored(dtype, [rows, cols]);
  }

  lemma LengthOfVector(dtype: Dtype, count: u32)
    ensures ByteLength(dtype, [count]).Ok? ==> StoredBytes(dtype, count, ByteLength(dtype, [count]).value)
  {
    assert [count][..0] == [] && T.Product([count]) == count;
    LengthIsStored(dtype, [count]);
  }

  lemma LengthIsStored(dtype: Dtype, shape: seq<u32>)
    ensures ByteLength(dtype, shape).Ok? ==> StoredBytes(dtype, T.Product(shape), ByteLength(dtype, shape).value)
  {
    var bytes := DivCeil(T.Product(shape) * BitsPerElement(dtype), 8);
    StoredIsPacked(dtype, T.Product(shape), bytes);
    ByteLengthIsExact(dtype, shape, bytes);
  }

  // ---- The cost is honest ----

  /** Bytes of `elements` packed weights, in unbounded arithmetic. */
  function PackedBytes(encoding: WeightEncoding, elements: nat): nat
  {
    match encoding
    case Ternary2 => DivCeil(elements * 2, 8)
    case SparseTernaryBitplanes => DivCeil(elements, 8) * 2
    case Binary1 => DivCeil(elements, 8)
  }

  function ExactCost(plan: TernaryWeightPlan, rows: u32, cols: u32): nat
  {
    if rows == 0 || cols == 0 then 0 else
    PackedBytes(plan.encoding, rows * cols) +
    ScaleCount(plan.scaleGranularity, rows, cols) * ScaleWidth(plan.scaleFormat)
  }

  lemma CostIsCapped(plan: TernaryWeightPlan, rows: u32, cols: u32)
    ensures ByteCost(plan, rows, cols) == Min(ExactCost(plan, rows, cols), U64_MAX)
  {
    ElementsFit(rows, cols);
    DivCeilBound(rows * cols, 8);
    DivCeilBound(rows * cols * 2, 8);
    match plan.scaleGranularity
    case PerGroup(size) => DivCeilBound(rows * cols, size);
    case _ =>
  }

  /** The cost is the planned one, and only the final cast can saturate; the `u128` steps never do. */
  lemma CostSaturatesOnce(plan: TernaryWeightPlan, rows: u32, cols: u32) returns (cost: nat)
    ensures PlannedCost(plan, rows, cols, cost)
    ensures forall other: nat :: PlannedCost(plan, rows, cols, other) ==> other == cost
    ensures ByteCost(plan, rows, cols) == if cost <= 0xffff_ffff_ffff_ffff then cost else 0xffff_ffff_ffff_ffff
  {
    cost := ExactCost(plan, rows, cols);
    CostIsCapped(plan, rows, cols);
    forall other: nat ensures PlannedCost(plan, rows, cols, other) <==> other == cost {
      CostIsPlanned(plan, rows, cols, other);
    }
  }

  lemma PackedMonotone(encoding: WeightEncoding, m: nat, n: nat)
    requires m <= n
    ensures PackedBytes(encoding, m) <= PackedBytes(encoding, n)
  {
    DivCeilMonotone(m, n, 8);
    DivCeilMonotone(m * 2, n * 2, 8);
  }

  lemma ScalesMonotone(granularity: ScaleGranularity, rows: u32, cols: u32, moreRows: u32, moreCols: u32)
    requires rows <= moreRows && cols <= moreCols
    ensures ScaleCount(granularity, rows, cols) <= ScaleCount(granularity, moreRows, moreCols)
  {
    MulMonotone(rows, cols, moreRows, moreCols);
    match granularity
    case PerGroup(size) => DivCeilMonotone(rows * cols, moreRows * moreCols, size);
    case _ =>
  }

  lemma SumMonotone(a: nat, b: nat, w: nat, c: nat, d: nat)
    requires a <= c && b <= d
    ensures a + b * w <= c + d * w
  {
    MulMonotone(b, w, d, w);
  }

  /** Larger matrices never cost less, empty matrices included. */
  lemma CostIsMonotone(plan: TernaryWeightPlan, rows: u32, cols: u32, moreRows: u32, moreCols: u32)
    requires rows <= moreRows && cols <= moreCols
    ensures ByteCost(plan, rows, cols) <= ByteCost(plan, moreRows, moreCols)
  {
    if rows > 0 && cols > 0 {
      CostIsCapped(plan, rows, cols);
      CostIsCapped(plan, moreRows, moreCols);
      MulMonotone(rows, cols, moreRows, moreCols);
      PackedMonotone(plan.encoding, rows * cols, moreRows * moreCols);
      ScalesMonotone(plan.scaleGranularity, rows, cols, moreRows, moreCols);
      SumMonotone(
        PackedBytes(plan.encoding, rows * cols), ScaleCount(plan.scaleGranularity, rows, cols),
        ScaleWidth(plan.scaleFormat),
        PackedBytes(plan.encoding, moreRows * moreCols), ScaleCount(plan.scaleGranularity, moreRows, moreCols));
    }
  }

  lemma SomeScales(granularity: ScaleGranularity, rows: u32, cols: u32, scales: nat)
    requires rows > 0 && cols > 0 && PlannedScales(granularity, rows, cols, scales)
    ensures scales > 0
  {
    MulMonotone(1, 1, rows, cols);
    if granularity.PerGroup? {
      assert Covers(scales, rows * cols, granularity.groupSize);
    }
  }

  /**
    For the plans the artifact core accepts, the cost is the stored size: the
    packed weight tensor plus the scale tensor, to the byte.
   */
  lemma CostIsStoredSize(plan: TernaryWeightPlan, rows: u32, cols: u32, scales: u32)
    requires rows > 0 && cols > 0
    requires plan.encoding.Ternary2? && plan.scaleFormat.Q8_8Scale?
    requires PlannedScales(plan.scaleGranularity, rows, cols, scales)
    ensures ByteLength(Ternary2Packed, [rows, cols]).Ok? && ByteLength(Q8_8Fixed, [scales]).Ok?
    ensures ByteCost(plan, rows, cols) ==
            ByteLength(Ternary2Packed, [rows, cols]).value + ByteLength(Q8_8Fixed, [scales]).value
  {
    CostIsCapped(plan, rows, cols);
    ScalesAreCounted(plan.scaleGranularity, rows, cols, scales);
    SomeScales(plan.scaleGranularity, rows, cols, scales);
    ElementsFit(rows, cols);
    var shape: seq<u32> := [rows, cols];
    assert shape[1..] == [cols] && [cols][1..] == [];
    assert CheckedProduct(1, shape) == CheckedProduct(rows, [cols]) == Some(rows * cols);
    assert CheckedProduct(1, [scales]) == Some(scales);
    assert DivCeil(rows * cols * 2, 8) <= rows * cols by {
      MulMonotone(1, 1, rows, cols);
      DivMonotone(rows * cols * 2 + 7, rows * cols * 8 + 7, 8);
    }
    assert DivCeil(scales * 16, 8) == scales * 2;
  }

  // ---- When the cost saturates ----

  /** Some matrix costs more than 64 bits can say. */
  ghost predicate Saturates(plan: TernaryWeightPlan)
  {
    exists rows: u32, cols: u32, cost: nat :: PlannedCost(plan, rows, cols, cost) && cost > 0xffff_ffff_ffff_ffff
  }

  /** A scale for every weight, or two bytes of scale for every other one. */
  predicate ScalesDominate(plan: TernaryWeightPlan)
  {
    plan.scaleGranularity == PerGroup(1) || (plan.scaleGranularity == PerGroup(2) && plan.scaleFormat.Q8_8Scale?)
  }

  lemma DivCeilShrinks(n: nat, small: nat, large: nat)
    requires 0 < small <= large
    ensures DivCeil(n, large) <= DivCeil(n, small)
  {
    var q, r := DivCeil(n, small), DivCeil(n, large);
    DivCeilCovers(n, small);
    DivCeilCovers(n, large);
    MulMonotone(q, small, q, large);
    if r >= q + 1 {
      MulMonotone(q + 1, large, r, large);
      Distribute(q, large);
    }
  }

  lemma LargestMatrix(plan: TernaryWeightPlan)
    requires ScalesDominate(plan)
    ensures ExactCost(plan, 0xffff_ffff, 0xffff_ffff) > U64_MAX
  {
    var elements: nat := 0xffff_ffff * 0xffff_ffff;
    assert PackedBytes(plan.encoding, elements) >= 0x1fff_ffff_c000_0000;
    assert ScaleCount(plan.scaleGranularity, 0xffff_ffff, 0xffff_ffff) * ScaleWidth(plan.scaleFormat) >= elements;
  }

  lemma ModestScales(plan: TernaryWeightPlan, rows: u32, cols: u32)
    requires !ScalesDominate(plan) && rows > 0 && cols > 0
    ensures ScaleCount(plan.scaleGranularity, rows, cols) * ScaleWidth(plan.scaleFormat) <= 0xaaaa_aaaa_0000_0000
  {
    ElementsFit(rows, cols);
    match plan.scaleGranularity
    case PerGroup(size) =>
      if size >= 3 {
        DivCeilShrinks(rows * cols, 3, size);
      }
    case _ =>
  }

  /** The cost saturates for some matrix exactly for the plans whose scales dominate. */
  lemma CostCanSaturate(plan: TernaryWeightPlan)
    ensures Saturates(plan) <==> ScalesDominate(plan)
  {
    if ScalesDominate(plan) {
      LargestMatrix(plan);
      CostIsPlanned(plan, 0xffff_ffff, 0xffff_ffff, ExactCost(plan, 0xffff_ffff, 0xffff_ffff));
    } else {
      forall rows: u32, cols: u32, cost: nat | PlannedCost(plan, rows, cols, cost)
        ensures cost <= 0xffff_ffff_ffff_ffff
      {
        CostIsPlanned(plan, rows, cols, cost);
        if rows > 0 && cols > 0 {
          ModestScales(plan, rows, cols);
          ElementsFit(rows, cols);
          ModestWeights(plan.encoding, rows * cols);
        }
      }
    }
  }

  lemma ModestWeights(encoding: WeightEncoding, elements: nat)
    requires elements <= 0xffff_ffff * 0xffff_ffff
    ensures PackedBytes(encoding, elements) <= 0x4000_0000_0000_0000
  {
  }
}
