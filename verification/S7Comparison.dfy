/**
  The dense-vs-MoE comparison report: re-derived medians and verdicts.

  Bits-per-character values are reals here, so a value is always finite and
  rounding does not occur.  The self-hash of the bytes pin and the two nested
  summaries enter as booleans saying whether they validate.
 */
module S7Comparison {
  import opened Wrappers
  import opened Ordering
  import opened Bytes

  const SEED_COUNT: nat := 5
  const PARITY_MARGIN: real := 0.05
  const EPSILON: real := 0.000000000001

  datatype Parity = ParityPass | ParityFail

  datatype Aggregate = PassClean | FailParity | FailBytes

  datatype Pareto =
    | MoeDominates
    | DenseDominates
    | MoeWinsUnderByteEquivalence
    | DenseWinsUnderByteEquivalence
    | Incomparable
    | Tied

  datatype PerSeed = PerSeed(seed: u64, moe: real, dense: real, delta: real, parity: Parity)

  datatype BytesPin = BytesPin(deployedMoe: u64, deployedDense: u64, tolerance: u64, selfHashValid: bool)

  datatype Report = Report(
    schemaMatches: bool,
    pin: BytesPin,
    perSeed: seq<PerSeed>,
    medianMoe: real,
    medianDense: real,
    bytesMoe: u64,
    bytesDense: u64,
    bytesDiff: int,
    withinTolerance: bool,
    aggregate: Aggregate,
    pareto: Pareto,
    switchStatsValid: bool,
    sweepValid: bool)

  datatype SchemaError =
    | UnexpectedSchemaLiteral
    | PinSelfHashInvalid
    | PerSeedLengthMismatch(observed: nat)
    | NegativeValue
    | DeltaMismatch(seed: u64)
    | ParityMismatch(seed: u64)
    | DuplicateSeed(seed: u64)
    | MissingSeed(seed: u64)
    | MedianMismatch
    | DeployedBytesMismatch
    | BytesDiffOverflow
    | BytesDiffMismatch
    | WithinToleranceMismatch
    | AggregateMismatch
    | ParetoMismatch
    | SummaryInvalid

  // ---- Derived verdicts ----

  predicate Close(a: real, b: real) { -EPSILON <= a - b <= EPSILON }

  function AbsDiff(a: u64, b: u64): nat { if a <= b then b - a else a - b }

  function DeriveParity(moe: real, dense: real): Parity
  {
    if moe < dense - PARITY_MARGIN then ParityPass else ParityFail
  }

  predicate AllPass(rows: seq<PerSeed>)
  {
    forall i :: 0 <= i < |rows| ==> rows[i].parity.ParityPass?
  }

  function DeriveAggregate(perSeed: seq<PerSeed>, bytesDiff: nat, tolerance: u64): Aggregate
  {
    if bytesDiff > tolerance then FailBytes
    else if AllPass(perSeed) then PassClean
    else FailParity
  }

  function DerivePareto(moe: real, dense: real, bytesMoe: u64, bytesDense: u64, tolerance: u64): Pareto
  {
    var equal := Close(moe, dense);
    var moeLess := moe < dense && !equal;
    var denseLess := dense < moe && !equal;
    if (moeLess || equal) && bytesMoe <= bytesDense && (moeLess || bytesMoe < bytesDense) then MoeDominates
    else if (denseLess || equal) && bytesDense <= bytesMoe && (denseLess || bytesDense < bytesMoe) then DenseDominates
    else if equal && bytesMoe == bytesDense then Tied
    else if AbsDiff(bytesMoe, bytesDense) <= tolerance && moeLess then MoeWinsUnderByteEquivalence
    else if AbsDiff(bytesMoe, bytesDense) <= tolerance && denseLess then DenseWinsUnderByteEquivalence
    else Incomparable
  }

  predicate ConfirmsH4(pareto: Pareto) { pareto.MoeDominates? || pareto.MoeWinsUnderByteEquivalence? }

  predicate RealLe(a: real, b: real) { a <= b }

  function Moe(row: PerSeed): real { row.moe }
  function Dense(row: PerSeed): real { row.dense }

  /** The upper median: the middle of the sorted values. */
  function Median(values: seq<real>): real
    requires values != []
  {
    SortCorrect(values, RealLe);
    PermutationMembers(Sort(values, RealLe), values);
    Sort(values, RealLe)[|values| / 2]
  }

  // ---- Validity, declaratively ----

  /** Equal up to the reporting epsilon of 1e-12. */
  ghost predicate Agree(a: real, b: real)
  {
    a <= b + 0.000000000001 && b <= a + 0.000000000001
  }

  /** A seed passes when its MoE value is better by more than 0.05. */
  ghost predicate ParityHolds(row: PerSeed)
  {
    row.parity == ParityPass <==> row.moe + 0.05 < row.dense
  }

  ghost predicate RowValid(row: PerSeed)
  {
    row.moe >= 0.0 && row.dense >= 0.0 && Agree(row.delta, row.dense - row.moe) && ParityHolds(row)
  }

  function Seed(row: PerSeed): u64 { row.seed }

  /** One valid row for each of the seeds 0 to 4. */
  ghost predicate RowsValid(rows: seq<PerSeed>)
  {
    && |rows| == 5
    && (forall row :: row in rows ==> RowValid(row))
    && Distinct(Map(Seed, rows))
    && (forall seed: u64 :: seed < 5 ==> seed in Map(Seed, rows))
  }

  /** How many values lie strictly below `v`. */
  function CountBelow(xs: seq<real>, v: real): nat
  {
    if xs == [] then 0 else (if xs[0] < v then 1 else 0) + CountBelow(xs[1..], v)
  }

  /** How many values do not exceed `v`. */
  function CountAtMost(xs: seq<real>, v: real): nat
  {
    if xs == [] then 0 else (if xs[0] <= v then 1 else 0) + CountAtMost(xs[1..], v)
  }

  /** One of the values, with at most half of them below it and more than half not above it. */
  ghost predicate IsMedian(m: real, values: seq<real>)
  {
    m in values && 2 * CountBelow(values, m) <= |values| < 2 * CountAtMost(values, m)
  }

  /** The reported value is within epsilon of a median of the values. */
  ghost predicate ReportsMedian(reported: real, values: seq<real>)
  {
    exists m :: IsMedian(m, values) && Agree(reported, m)
  }

  ghost predicate WithinTolerance(r: Report)
  {
    r.bytesDense <= r.bytesMoe + r.pin.tolerance && r.bytesMoe <= r.bytesDense + r.pin.tolerance
  }

  ghost predicate AggregateHolds(r: Report)
  {
    match r.aggregate
    case FailBytes => !WithinTolerance(r)
    case PassClean => WithinTolerance(r) && forall row :: row in r.perSeed ==> row.parity == ParityPass
    case FailParity => WithinTolerance(r) && exists row :: row in r.perSeed && row.parity == ParityFail
  }

  /**
    A side dominates when it is no worse in both measures and better in one; a
    tie is a tie in both.  Otherwise the better side costs more bytes, within the
    tolerance or beyond.
   */
  ghost predicate VerdictHolds(
    verdict: Pareto, moe: real, dense: real, bytesMoe: u64, bytesDense: u64, tolerance: u64)
  {
    var moeBetter, denseBetter := moe + 0.000000000001 < dense, dense + 0.000000000001 < moe;
    match verdict
    case MoeDominates => !denseBetter && bytesMoe <= bytesDense && (moeBetter || bytesMoe < bytesDense)
    case DenseDominates => !moeBetter && bytesDense <= bytesMoe && (denseBetter || bytesDense < bytesMoe)
    case Tied => !moeBetter && !denseBetter && bytesMoe == bytesDense
    case MoeWinsUnderByteEquivalence => moeBetter && bytesDense < bytesMoe <= bytesDense + tolerance
    case DenseWinsUnderByteEquivalence => denseBetter && bytesMoe < bytesDense <= bytesMoe + tolerance
    case Incomparable =>
      (moeBetter && bytesMoe > bytesDense + tolerance) || (denseBetter && bytesDense > bytesMoe + tolerance)
  }

  ghost predicate MeasuresValid(r: Report)
  {
    && RowsValid(r.perSeed) && r.medianMoe >= 0.0 && r.medianDense >= 0.0
    && ReportsMedian(r.medianMoe, Map(Moe, r.perSeed)) && ReportsMedian(r.medianDense, Map(Dense, r.perSeed))
  }

  ghost predicate VerdictsValid(r: Report)
  {
    && r.pin.deployedMoe == r.bytesMoe && r.pin.deployedDense == r.bytesDense
    && -0x8000_0000_0000_0000 <= r.bytesDiff < 0x8000_0000_0000_0000
    && r.bytesDiff == r.bytesDense - r.bytesMoe
    && (r.withinTolerance <==> WithinTolerance(r))
    && AggregateHolds(r)
    && VerdictHolds(r.pareto, r.medianMoe, r.medianDense, r.bytesMoe, r.bytesDense, r.pin.tolerance)
  }

  ghost predicate ReportValid(r: Report)
  {
    r.schemaMatches && r.pin.selfHashValid && MeasuresValid(r) && VerdictsValid(r) && r.switchStatsValid && r.sweepValid
  }

  /** What each rejection says about the rows or the report. */
  ghost predicate ExplainsRows(error: SchemaError, rows: seq<PerSeed>)
  {
    match error
    case PerSeedLengthMismatch(observed) => observed == |rows| != 5
    case NegativeValue => exists row :: row in rows && (row.moe < 0.0 || row.dense < 0.0)
    case DeltaMismatch(seed) =>
      exists row :: row in rows && row.seed == seed && !Agree(row.delta, row.dense - row.moe)
    case ParityMismatch(seed) => exists row :: row in rows && row.seed == seed && !ParityHolds(row)
    case DuplicateSeed(seed) => Repeated(Map(Seed, rows), seed)
    case MissingSeed(seed) => seed < 5 && seed !in Map(Seed, rows)
    case _ => false
  }

  ghost predicate Explains(error: SchemaError, r: Report)
  {
    match error
    case UnexpectedSchemaLiteral => !r.schemaMatches
    case PinSelfHashInvalid => !r.pin.selfHashValid
    case NegativeValue => r.medianMoe < 0.0 || r.medianDense < 0.0 || ExplainsRows(error, r.perSeed)
    case MedianMismatch =>
      !ReportsMedian(r.medianMoe, Map(Moe, r.perSeed)) || !ReportsMedian(r.medianDense, Map(Dense, r.perSeed))
    case DeployedBytesMismatch => r.pin.deployedMoe != r.bytesMoe || r.pin.deployedDense != r.bytesDense
    case BytesDiffOverflow => !(-0x8000_0000_0000_0000 <= r.bytesDense - r.bytesMoe < 0x8000_0000_0000_0000)
    case BytesDiffMismatch => r.bytesDiff != r.bytesDense - r.bytesMoe
    case WithinToleranceMismatch => r.withinTolerance <==> !WithinTolerance(r)
    case AggregateMismatch => !AggregateHolds(r)
    case ParetoMismatch =>
      !VerdictHolds(r.pareto, r.medianMoe, r.medianDense, r.bytesMoe, r.bytesDense, r.pin.tolerance)
    case SummaryInvalid => !r.switchStatsValid || !r.sweepValid
    case _ => ExplainsRows(error, r.perSeed)
  }

  // ---- Validation ----

  function ValidateRow(row: PerSeed): Result<(), SchemaError>
  {
    if row.moe < 0.0 || row.dense < 0.0 then Err(NegativeValue)
    else if !Close(row.delta, row.dense - row.moe) then Err(DeltaMismatch(row.seed))
    else if row.parity != DeriveParity(row.moe, row.dense) then Err(ParityMismatch(row.seed))
    else Ok(())
  }

  /** `validate_dense_vs_moe_per_seed`. */
  method ValidateRows(rows: seq<PerSeed>) returns (r: Result<(), SchemaError>)
    ensures r.Ok? <==> RowsValid(rows)
    ensures r.Err? ==> ExplainsRows(r.error, rows)
  {
    if |rows| != SEED_COUNT {
      return Err(PerSeedLengthMismatch(|rows|));
    }
    var seeds := Map(Seed, rows);
    var seen: set<u64> := {};
    for i := 0 to |rows|
      invariant seen == ToSet(seeds[..i]) && Distinct(seeds[..i])
      invariant forall row :: row in rows[..i] ==> RowValid(row)
    {
      PrefixGrows(rows, i);
      PrefixGrows(seeds, i);
      var valid := ValidateRow(rows[i]);
      if valid.Err? {
        assert rows[i] in rows;
        return Err(valid.error);
      }
      if rows[i].seed in seen {
        RepeatIsNotDistinct(seeds, i);
        return Err(DuplicateSeed(rows[i].seed));
      }
      AppendDistinct(seeds[..i], rows[i].seed);
      seen := seen + {rows[i].seed};
    }
    assert rows[..|rows|] == rows && seeds[..|seeds|] == seeds;
    for seed := 0 to SEED_COUNT
      invariant forall s: u64 :: s < seed ==> s in seeds
    {
      if seed !in seen {
        assert (seed as u64) !in seeds;
        return Err(MissingSeed(seed));
      }
    }
    return Ok(());
  }

  /** `S7DenseVsMoeComparisonReport::validate`: every derived field is recomputed. */
  method Validate(report: Report) returns (r: Result<(), SchemaError>)
    ensures r.Ok? <==> ReportValid(report)
    ensures r.Err? ==> Explains(r.error, report)
  {
    if !report.schemaMatches { return Err(UnexpectedSchemaLiteral); }
    if !report.pin.selfHashValid { return Err(PinSelfHashInvalid); }
    r := ValidateMeasures(report);
    if r.Err? { return; }
    r := ValidateVerdicts(report);
    if r.Err? { return; }
    if !report.switchStatsValid || !report.sweepValid { return Err(SummaryInvalid); }
  }

  method ValidateMeasures(report: Report) returns (r: Result<(), SchemaError>)
    ensures r.Ok? <==> MeasuresValid(report)
    ensures r.Err? ==> Explains(r.error, report)
  {
    r := ValidateRows(report.perSeed);
    if r.Err? { return; }
    MedianChecked(report.medianMoe, Map(Moe, report.perSeed));
    MedianChecked(report.medianDense, Map(Dense, report.perSeed));
    if report.medianMoe < 0.0 || report.medianDense < 0.0 { return Err(NegativeValue); }
    if !Close(report.medianMoe, Median(Map(Moe, report.perSeed))) { return Err(MedianMismatch); }
    if !Close(report.medianDense, Median(Map(Dense, report.perSeed))) { return Err(MedianMismatch); }
  }

  method ValidateVerdicts(report: Report) returns (r: Result<(), SchemaError>)
    ensures r.Ok? <==> VerdictsValid(report)
    ensures r.Err? ==> Explains(r.error, report)
  {
    if report.pin.deployedMoe != report.bytesMoe { return Err(DeployedBytesMismatch); }
    if report.pin.deployedDense != report.bytesDense { return Err(DeployedBytesMismatch); }
    var expectedDiff := report.bytesDense - report.bytesMoe;
    if !(-0x8000_0000_0000_0000 <= expectedDiff < 0x8000_0000_0000_0000) { return Err(BytesDiffOverflow); }
    if report.bytesDiff != expectedDiff { return Err(BytesDiffMismatch); }
    var distance := AbsDiff(report.bytesDense, report.bytesMoe);
    if report.withinTolerance != (distance <= report.pin.tolerance) { return Err(WithinToleranceMismatch); }
    AggregateChecked(report);
    if report.aggregate != DeriveAggregate(report.perSeed, distance, report.pin.tolerance) {
      return Err(AggregateMismatch);
    }
    VerdictMeans(
      report.pareto, report.medianMoe, report.medianDense, report.bytesMoe, report.bytesDense, report.pin.tolerance);
    if report.pareto !=
      DerivePareto(report.medianMoe, report.medianDense, report.bytesMoe, report.bytesDense, report.pin.tolerance)
    {
      return Err(ParetoMismatch);
    }
    return Ok(());
  }

  // ---- Order statistics ----

  lemma {:induction false} CountsSplit(xs: seq<real>, ys: seq<real>, v: real)
    ensures CountBelow(xs + ys, v) == CountBelow(xs, v) + CountBelow(ys, v)
    ensures CountAtMost(xs + ys, v) == CountAtMost(xs, v) + CountAtMost(ys, v)
  {
    if xs == [] {
      assert xs + ys == ys;
    } else {
      assert (xs + ys)[1..] == xs[1..] + ys;
      CountsSplit(xs[1..], ys, v);
    }
  }

  lemma {:induction false} CountsPermute(xs: seq<real>, ys: seq<real>, v: real)
    requires Permutation(xs, ys)
    ensures CountBelow(xs, v) == CountBelow(ys, v) && CountAtMost(xs, v) == CountAtMost(ys, v)
    decreases |xs|
  {
    if xs == [] {
      assert multiset(ys) == multiset{} && ys == [];
    } else {
      var k := PositionIn(xs[0], xs, ys);
      RemoveBoth(xs, ys, k);
      assert xs[..0] + xs[1..] == xs[1..];
      CountsPermute(xs[1..], ys[..k] + ys[k + 1..], v);
      assert ys == ys[..k] + ([ys[k]] + ys[k + 1..]);
      CountsSplit(ys[..k], [ys[k]] + ys[k + 1..], v);
      CountsSplit([ys[k]], ys[k + 1..], v);
      CountsSplit(ys[..k], ys[k + 1..], v);
    }
  }

  lemma {:induction false} AllBelow(xs: seq<real>, v: real)
    ensures (forall i :: 0 <= i < |xs| ==> xs[i] <= v) ==> CountAtMost(xs, v) == |xs|
    ensures (forall i :: 0 <= i < |xs| ==> xs[i] >= v) ==> CountBelow(xs, v) == 0
    ensures CountBelow(xs, v) <= |xs|
  {
    if xs != [] {
      AllBelow(xs[1..], v);
    }
  }

  /** The k-th smallest value has at least k + 1 values not above it. */
  lemma RankFromBelow(sorted: seq<real>, k: nat)
    requires SortedBy(sorted, RealLe) && k < |sorted|
    ensures CountAtMost(sorted, sorted[k]) >= k + 1
  {
    assert sorted == sorted[..k + 1] + sorted[k + 1..];
    CountsSplit(sorted[..k + 1], sorted[k + 1..], sorted[k]);
    var low := sorted[..k + 1];
    forall i | 0 <= i < |low| ensures low[i] <= sorted[k] {
      if i < k { assert RealLe(sorted[i], sorted[k]); }
    }
    AllBelow(sorted[..k + 1], sorted[k]);
  }

  /** With k + 1 values below `v`, the k-th smallest is below `v`. */
  lemma RankFromAbove(sorted: seq<real>, k: nat, v: real)
    requires SortedBy(sorted, RealLe) && k < |sorted| && CountBelow(sorted, v) >= k + 1
    ensures sorted[k] < v
  {
    if sorted[k] >= v {
      assert sorted == sorted[..k] + sorted[k..];
      CountsSplit(sorted[..k], sorted[k..], v);
      forall i | 0 <= i < |sorted[k..]| ensures sorted[k..][i] >= v {
        if i > 0 { assert RealLe(sorted[k], sorted[k + i]); }
      }
      AllBelow(sorted[k..], v);
      AllBelow(sorted[..k], v);
      assert false;
    }
  }

  lemma {:induction false} ShiftCounts(xs: seq<real>, ys: seq<real>, margin: real, v: real)
    requires |xs| == |ys| && forall i :: 0 <= i < |xs| ==> xs[i] < ys[i] - margin
    ensures CountBelow(xs, v - margin) >= CountAtMost(ys, v)
  {
    if xs != [] {
      ShiftCounts(xs[1..], ys[1..], margin, v);
    }
  }

  /** A row-wise margin carries over to every order statistic. */
  lemma OrderStatisticsKeepMargin(xs: seq<real>, ys: seq<real>, margin: real, k: nat)
    requires |xs| == |ys| && k < |xs|
    requires forall i :: 0 <= i < |xs| ==> xs[i] < ys[i] - margin
    ensures |Sort(xs, RealLe)| == |Sort(ys, RealLe)| == |xs|
    ensures Sort(xs, RealLe)[k] < Sort(ys, RealLe)[k] - margin
  {
    StatisticFromBelow(ys, k);
    ShiftStatistic(xs, ys, margin, Sort(ys, RealLe)[k], k);
  }

  lemma ShiftStatistic(xs: seq<real>, ys: seq<real>, margin: real, v: real, k: nat)
    requires |xs| == |ys| && k < |xs| && CountAtMost(ys, v) >= k + 1
    requires forall i :: 0 <= i < |xs| ==> xs[i] < ys[i] - margin
    ensures |Sort(xs, RealLe)| == |xs| && Sort(xs, RealLe)[k] < v - margin
  {
    ShiftCounts(xs, ys, margin, v);
    StatisticFromAbove(xs, k, v - margin);
  }

  lemma StatisticFromBelow(ys: seq<real>, k: nat)
    requires k < |ys|
    ensures |Sort(ys, RealLe)| == |ys| && CountAtMost(ys, Sort(ys, RealLe)[k]) >= k + 1
  {
    SortedReals(ys);
    RankFromBelow(Sort(ys, RealLe), k);
    SortedCounts(ys, Sort(ys, RealLe)[k]);
  }

  lemma StatisticFromAbove(xs: seq<real>, k: nat, v: real)
    requires k < |xs| && CountBelow(xs, v) >= k + 1
    ensures |Sort(xs, RealLe)| == |xs| && Sort(xs, RealLe)[k] < v
  {
    SortedReals(xs);
    SortedCounts(xs, v);
    RankFromAbove(Sort(xs, RealLe), k, v);
  }

  lemma SortedReals(xs: seq<real>)
    ensures SortedBy(Sort(xs, RealLe), RealLe) && |Sort(xs, RealLe)| == |xs|
  {
    SortCorrect(xs, RealLe);
    PermutationMembers(Sort(xs, RealLe), xs);
  }

  lemma SortedCounts(xs: seq<real>, v: real)
    ensures CountBelow(Sort(xs, RealLe), v) == CountBelow(xs, v)
    ensures CountAtMost(Sort(xs, RealLe), v) == CountAtMost(xs, v)
  {
    SortCorrect(xs, RealLe);
    CountsPermute(Sort(xs, RealLe), xs, v);
  }

  /** The middle of the sorted values is a median. */
  lemma MedianIsMedian(values: seq<real>)
    requires values != []
    ensures IsMedian(Median(values), values)
  {
    var sorted, k := Sort(values, RealLe), |values| / 2;
    SortCorrect(values, RealLe);
    PermutationMembers(sorted, values);
    assert sorted[k] in sorted;
    StatisticFromBelow(values, k);
    SortedCounts(values, sorted[k]);
    if CountBelow(sorted, sorted[k]) >= k + 1 {
      RankFromAbove(sorted, k, sorted[k]);
    }
  }

  lemma {:induction false} CountsNest(xs: seq<real>, v: real, w: real)
    requires v < w
    ensures CountAtMost(xs, v) <= CountBelow(xs, w)
  {
    if xs != [] {
      CountsNest(xs[1..], v, w);
    }
  }

  lemma MedianIsUnique(m: real, n: real, values: seq<real>)
    requires IsMedian(m, values) && IsMedian(n, values)
    ensures m == n
  {
    if m < n { CountsNest(values, m, n); }
    if n < m { CountsNest(values, n, m); }
  }

  lemma MedianChecked(reported: real, values: seq<real>)
    requires values != []
    ensures Close(reported, Median(values)) <==> ReportsMedian(reported, values)
  {
    MedianIsMedian(values);
    forall m | IsMedian(m, values) ensures m == Median(values) {
      MedianIsUnique(m, Median(values), values);
    }
  }

  lemma AggregateChecked(r: Report)
    ensures AggregateHolds(r) <==>
      r.aggregate == DeriveAggregate(r.perSeed, AbsDiff(r.bytesDense, r.bytesMoe), r.pin.tolerance)
    ensures AbsDiff(r.bytesDense, r.bytesMoe) <= r.pin.tolerance <==> WithinTolerance(r)
  {
    assert AllPass(r.perSeed) <==> forall row :: row in r.perSeed ==> row.parity == ParityPass;
  }

  // ---- Theory ----

  /**
    Every valid report with aggregate Pass-clean carries a Pareto verdict that
    confirms H4, reported medians being off by up to epsilon notwithstanding.
   */
  lemma PassCleanConfirmsH4(r: Report)
    requires ReportValid(r) && r.aggregate == PassClean
    ensures ConfirmsH4(r.pareto)
    ensures r.pareto == if r.bytesMoe <= r.bytesDense then MoeDominates else MoeWinsUnderByteEquivalence
  {
    var (xs, ys) := (Map(Moe, r.perSeed), Map(Dense, r.perSeed));
    forall i | 0 <= i < |xs| ensures xs[i] < ys[i] - PARITY_MARGIN {
      assert r.perSeed[i] in r.perSeed && RowValid(r.perSeed[i]);
    }
    OrderStatisticsKeepMargin(xs, ys, PARITY_MARGIN, |xs| / 2);
    assert Median(xs) < Median(ys) - PARITY_MARGIN;
    MedianChecked(r.medianMoe, xs);
    MedianChecked(r.medianDense, ys);
    assert r.medianMoe < r.medianDense && !Close(r.medianMoe, r.medianDense);
  }

  /** H4 is confirmed by a better value within the byte tolerance, or an equal value for fewer bytes. */
  lemma ConfirmationMeans(moe: real, dense: real, bytesMoe: u64, bytesDense: u64, tolerance: u64)
    ensures ConfirmsH4(DerivePareto(moe, dense, bytesMoe, bytesDense, tolerance)) <==>
      || (moe + 0.000000000001 < dense && bytesMoe <= bytesDense + tolerance)
      || (Agree(moe, dense) && bytesMoe < bytesDense)
  {
  }

  function SwapSides(pareto: Pareto): Pareto
  {
    match pareto
    case MoeDominates => DenseDominates
    case DenseDominates => MoeDominates
    case MoeWinsUnderByteEquivalence => DenseWinsUnderByteEquivalence
    case DenseWinsUnderByteEquivalence => MoeWinsUnderByteEquivalence
    case Incomparable => Incomparable
    case Tied => Tied
  }

  /** The verdict favours neither side by construction: swapping inputs swaps it. */
  lemma SwappingSidesSwapsVerdict(moe: real, dense: real, bytesMoe: u64, bytesDense: u64, tolerance: u64)
    ensures DerivePareto(dense, moe, bytesDense, bytesMoe, tolerance) ==
            SwapSides(DerivePareto(moe, dense, bytesMoe, bytesDense, tolerance))
  {
  }

  /** The derived verdict is the one that holds, and only that one holds. */
  lemma VerdictMeans(verdict: Pareto, moe: real, dense: real, bytesMoe: u64, bytesDense: u64, tolerance: u64)
    ensures verdict == DerivePareto(moe, dense, bytesMoe, bytesDense, tolerance) <==>
            VerdictHolds(verdict, moe, dense, bytesMoe, bytesDense, tolerance)
  {
  }

  lemma MedianForgetsOrder(m: real, xs: seq<real>, ys: seq<real>)
    requires Permutation(xs, ys) && ReportsMedian(m, xs)
    ensures ReportsMedian(m, ys)
  {
    var median :| IsMedian(median, xs) && Agree(m, median);
    PermutationMembers(xs, ys);
    CountsPermute(xs, ys, median);
    assert IsMedian(median, ys);
  }

  /** The order of the seed rows does not matter to validity. */
  lemma RowOrderIsIrrelevant(r: Report, rows: seq<PerSeed>)
    requires Permutation(r.perSeed, rows) && ReportValid(r)
    ensures ReportValid(r.(perSeed := rows))
  {
    PermutationMembers(r.perSeed, rows);
    MapPermutes(Seed, r.perSeed, rows);
    DistinctPermutes(Map(Seed, r.perSeed), Map(Seed, rows));
    PermutationMembers(Map(Seed, r.perSeed), Map(Seed, rows));
    MapPermutes(Moe, r.perSeed, rows);
    MedianForgetsOrder(r.medianMoe, Map(Moe, r.perSeed), Map(Moe, rows));
    MapPermutes(Dense, r.perSeed, rows);
    MedianForgetsOrder(r.medianDense, Map(Dense, r.perSeed), Map(Dense, rows));
  }
}
