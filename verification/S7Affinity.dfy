/**
  Expert-slot affinity: directed transition mass folded into unordered pairs.
 */
module S7Affinity {
  import opened Wrappers
  import opened Ordering
  import opened Bytes

  const N_BLOCKS: nat := 4
  const N_EXPERTS: nat := 4
  const Q8_8_ONE: nat := 256
  const U32_MAX: nat := 0xffff_ffff

  type ExpertId = u16

  datatype Transition = Transition(from: ExpertId, to: ExpertId, mass: u16)

  datatype Pair = Pair(lo: ExpertId, hi: ExpertId)

  datatype Affinity = Affinity(pair: Pair, score: u16)

  datatype Digest = Digest(
    schemaMatches: bool, layer: u16, nExperts: u16, sameExpertRate: u16, transitions: seq<Transition>)

  datatype SlotAffinity = SlotAffinity(layer: u16, affinities: seq<Affinity>)

  datatype AffinityError =
    | UnexpectedSchemaVersion
    | LayerIdOutOfRange(layer: u16)
    | UnexpectedExpertCount(observed: u16)
    | ExpertIdOutOfRange(expert: ExpertId)
    | Q8_8OutOfRange(value: u16)
    | DuplicateTransition(entry: Transition)
    | MassExceedsOne(total: nat)
    | DuplicatePair(pair: Pair)

  // ---- Pairs ----

  /** The two experts of a transition, the smaller id first. */
  function PairOf(t: Transition): Pair
  {
    if t.from <= t.to then Pair(t.from, t.to) else Pair(t.to, t.from)
  }

  /** A pair is that of a transition exactly when it is ordered and joins the same two experts. */
  lemma PairJoins(t: Transition, p: Pair)
    ensures PairOf(t) == p <==> p.lo <= p.hi && multiset{p.lo, p.hi} == multiset{t.from, t.to}
  {
    if p.lo <= p.hi && multiset{p.lo, p.hi} == multiset{t.from, t.to} {
      assert p.lo in multiset{t.from, t.to} && p.hi in multiset{t.from, t.to};
      assert t.from in multiset{p.lo, p.hi} && t.to in multiset{p.lo, p.hi};
    }
  }

  /** Derived `Ord`: by `lo`, then by `hi`. */
  predicate PairLe(a: Pair, b: Pair)
  {
    a.lo < b.lo || (a.lo == b.lo && a.hi <= b.hi)
  }

  lemma PairOrder()
    ensures TotalOrder(PairLe)
  {
  }

  // ---- Masses ----

  function Total(ts: seq<Transition>): nat
  {
    if ts == [] then 0 else Total(ts[..|ts| - 1]) + ts[|ts| - 1].mass
  }

  /** The mass flowing between the two experts of `p`, in both directions. */
  function PairMass(ts: seq<Transition>, p: Pair): nat
  {
    if ts == [] then 0
    else PairMass(ts[..|ts| - 1], p) + if PairOf(ts[|ts| - 1]) == p then ts[|ts| - 1].mass else 0
  }

  function Pairs(ts: seq<Transition>): set<Pair>
  {
    set t | t in ts :: PairOf(t)
  }

  lemma PairsAppend(ts: seq<Transition>, t: Transition)
    ensures Pairs(ts + [t]) == Pairs(ts) + {PairOf(t)}
  {
    forall p ensures p in Pairs(ts + [t]) <==> p in Pairs(ts) || p == PairOf(t) {
      if p in Pairs(ts) {
        var u :| u in ts && PairOf(u) == p;
        assert u in ts + [t];
      }
      assert t in ts + [t];
    }
  }

  // ---- Digest validation ----

  function Direction(t: Transition): (ExpertId, ExpertId) { (t.from, t.to) }

  ghost predicate EntryValid(t: Transition)
  {
    t.from < 4 && t.to < 4 && t.mass <= 0x100
  }

  ghost predicate MassValid(ts: seq<Transition>)
  {
    && (forall t :: t in ts ==> EntryValid(t))
    && Distinct(Map(Direction, ts))
    && Total(ts) <= 0x100
  }

  ghost predicate DigestValid(d: Digest)
  {
    && d.schemaMatches && d.layer < 4 && d.nExperts == 4
    && d.sameExpertRate <= 0x100 && MassValid(d.transitions)
  }

  /** What each rejection says about the transitions or the digest. */
  ghost predicate ExplainsMass(error: AffinityError, ts: seq<Transition>)
  {
    match error
    case ExpertIdOutOfRange(expert) => expert >= 4 && exists t :: t in ts && (t.from == expert || t.to == expert)
    case Q8_8OutOfRange(value) => value > 0x100 && exists t :: t in ts && t.mass == value
    case DuplicateTransition(entry) => Repeated(Map(Direction, ts), (entry.from, entry.to))
    case MassExceedsOne(total) => total == Total(ts) && total > 0x100
    case _ => false
  }

  ghost predicate ExplainsDigest(error: AffinityError, d: Digest)
  {
    || (error == UnexpectedSchemaVersion && !d.schemaMatches)
    || (error == LayerIdOutOfRange(d.layer) && d.layer >= 4)
    || (error == UnexpectedExpertCount(d.nExperts) && d.nExperts != 4)
    || (error == Q8_8OutOfRange(d.sameExpertRate) && d.sameExpertRate > 0x100)
    || ExplainsMass(error, d.transitions)
  }

  function Row(seen: set<(ExpertId, ExpertId)>, k: ExpertId): set<(ExpertId, ExpertId)>
  {
    set d | d in seen && d.0 == k
  }

  lemma FourPerRow(seen: set<(ExpertId, ExpertId)>, k: ExpertId)
    requires forall d :: d in seen ==> d.0 < N_EXPERTS && d.1 < N_EXPERTS
    ensures |Row(seen, k)| <= 4
  {
    var full: set<(ExpertId, ExpertId)> := {(k, 0)} + {(k, 1)} + {(k, 2)} + {(k, 3)};
    assert |full| <= 4;
    assert Row(seen, k) <= full;
    assert full == Row(seen, k) + (full - Row(seen, k));
  }

  function Below(seen: set<(ExpertId, ExpertId)>, k: nat): set<(ExpertId, ExpertId)>
  {
    set d | d in seen && d.0 < k
  }

  lemma {:induction false} FourPerRowBelow(seen: set<(ExpertId, ExpertId)>, k: nat)
    requires forall d :: d in seen ==> d.0 < N_EXPERTS && d.1 < N_EXPERTS
    requires k <= N_EXPERTS
    ensures |Below(seen, k)| <= 4 * k
  {
    if k > 0 {
      FourPerRowBelow(seen, k - 1);
      FourPerRow(seen, k - 1);
      assert Below(seen, k) == Below(seen, k - 1) + Row(seen, k - 1);
    }
  }

  /** Sixteen directions at most, so the running sum stays far below `u32::MAX`. */
  lemma SixteenDirections(seen: set<(ExpertId, ExpertId)>)
    requires forall d :: d in seen ==> d.0 < N_EXPERTS && d.1 < N_EXPERTS
    ensures |seen| <= 16
  {
    FourPerRowBelow(seen, N_EXPERTS);
    assert Below(seen, N_EXPERTS) == seen;
  }

  /** `validate_transition_mass`; its one caller has checked the expert count. */
  method ValidateMass(ts: seq<Transition>) returns (r: Result<(), AffinityError>)
    ensures r.Ok? <==> MassValid(ts)
    ensures r.Err? ==> ExplainsMass(r.error, ts)
  {
    var total: u32 := 0;
    var seen: set<(ExpertId, ExpertId)> := {};
    var directions := Map(Direction, ts);
    for i := 0 to |ts|
      invariant total == Total(ts[..i]) && total <= Q8_8_ONE * |seen|
      invariant seen == ToSet(directions[..i]) && Distinct(directions[..i])
      invariant forall d :: d in seen ==> d.0 < N_EXPERTS && d.1 < N_EXPERTS
      invariant forall t :: t in ts[..i] ==> EntryValid(t)
    {
      var entry := ts[i];
      assert entry in ts;
      if entry.from >= N_EXPERTS { return Err(ExpertIdOutOfRange(entry.from)); }
      if entry.to >= N_EXPERTS { return Err(ExpertIdOutOfRange(entry.to)); }
      if entry.mass > Q8_8_ONE { return Err(Q8_8OutOfRange(entry.mass)); }
      SixteenDirections(seen);
      total := total + entry.mass;
      PrefixGrows(ts, i);
      PrefixGrows(directions, i);
      if (entry.from, entry.to) in seen {
        RepeatIsNotDistinct(directions, i);
        return Err(DuplicateTransition(entry));
      }
      AppendDistinct(directions[..i], directions[i]);
      seen := seen + {(entry.from, entry.to)};
    }
    assert ts[..|ts|] == ts && directions[..|directions|] == directions;
    if total > Q8_8_ONE {
      return Err(MassExceedsOne(total));
    }
    return Ok(());
  }

  /** `TemporalSwitchDigest::validate`. */
  method ValidateDigest(d: Digest) returns (r: Result<(), AffinityError>)
    ensures r.Ok? <==> DigestValid(d)
    ensures r.Err? ==> ExplainsDigest(r.error, d)
  {
    if !d.schemaMatches { return Err(UnexpectedSchemaVersion); }
    if d.layer >= N_BLOCKS { return Err(LayerIdOutOfRange(d.layer)); }
    if d.nExperts != N_EXPERTS { return Err(UnexpectedExpertCount(d.nExperts)); }
    if d.sameExpertRate > Q8_8_ONE { return Err(Q8_8OutOfRange(d.sameExpertRate)); }
    r := ValidateMass(d.transitions);
  }

  // ---- Folding ----

  function Min(a: nat, b: nat): nat { if a <= b then a else b }

  ghost predicate Ascending(affinities: seq<Affinity>)
  {
    forall i, j :: 0 <= i < j < |affinities| ==>
      PairBefore(affinities[i].pair, affinities[j].pair)
  }

  /** By the smaller id, then by the larger one. */
  ghost predicate PairBefore(a: Pair, b: Pair)
  {
    a.lo < b.lo || (a.lo == b.lo && a.hi < b.hi)
  }

  function PairKey(a: Affinity): Pair { a.pair }

  function ClampedToOne(mass: nat): u16 { if mass <= 0x100 then mass else 0x100 }

  /** The folded form of `ts`: one clamped score per pair, in pair order. */
  ghost predicate IsFoldOf(affinities: seq<Affinity>, ts: seq<Transition>)
  {
    && Ascending(affinities)
    && ToSet(Map(PairKey, affinities)) == Pairs(ts)
    && forall a :: a in affinities ==> a.score == ClampedToOne(PairMass(ts, a.pair))
  }

  ghost predicate SumsTo(summed: map<Pair, nat>, ts: seq<Transition>)
  {
    summed.Keys == Pairs(ts) && forall p :: p in summed ==> summed[p] == Min(PairMass(ts, p), U32_MAX)
  }

  /** `from_directional_transitions`. */
  method FromTransitions(layer: u16, ts: seq<Transition>) returns (r: Result<SlotAffinity, AffinityError>)
    ensures r.Ok? <==> layer < 4 && forall t :: t in ts ==> t.from < 4 && t.to < 4
    ensures r.Ok? ==> r.value.layer == layer && IsFoldOf(r.value.affinities, ts)
    ensures r.Err? ==>
      || (r.error == LayerIdOutOfRange(layer) && layer >= 4)
      || (r.error.ExpertIdOutOfRange? && ExplainsMass(r.error, ts))
  {
    if layer >= N_BLOCKS { return Err(LayerIdOutOfRange(layer)); }
    var summed: map<Pair, nat> := map[];
    for i := 0 to |ts|
      invariant SumsTo(summed, ts[..i])
      invariant forall t :: t in ts[..i] ==> t.from < N_EXPERTS && t.to < N_EXPERTS
    {
      var entry := ts[i];
      assert entry in ts;
      if entry.from >= N_EXPERTS { return Err(ExpertIdOutOfRange(entry.from)); }
      if entry.to >= N_EXPERTS { return Err(ExpertIdOutOfRange(entry.to)); }
      var pair := PairOf(entry);
      PrefixGrows(ts, i);
      SumStep(summed, ts[..i], entry);
      var total := if pair in summed then summed[pair] else 0;
      summed := summed[pair := Min(total + entry.mass, U32_MAX)];
    }
    assert ts[..|ts|] == ts;
    var affinities := Emit(summed);
    EmittedFold(affinities, summed, ts);
    r := NewSlotAffinity(layer, affinities);
  }

  lemma {:induction false} AbsentPair(ts: seq<Transition>, p: Pair)
    requires p !in Pairs(ts)
    ensures PairMass(ts, p) == 0
  {
    if ts != [] {
      var n := |ts| - 1;
      assert ts[n] in ts;
      assert forall t :: t in ts[..n] ==> t in ts;
      AbsentPair(ts[..n], p);
    }
  }

  lemma SumStep(summed: map<Pair, nat>, ts: seq<Transition>, t: Transition)
    requires SumsTo(summed, ts)
    ensures var p := PairOf(t);
      SumsTo(summed[p := Min((if p in summed then summed[p] else 0) + t.mass, U32_MAX)], ts + [t])
  {
    PairsAppend(ts, t);
    assert (ts + [t])[..|ts|] == ts;
    if PairOf(t) !in summed {
      AbsentPair(ts, PairOf(t));
    }
  }

  ghost predicate Emitted(affinities: seq<Affinity>, summed: map<Pair, nat>, rest: set<Pair>)
  {
    && rest <= summed.Keys && Ascending(affinities)
    && ToSet(Map(PairKey, affinities)) == summed.Keys - rest
    && (forall a, p :: a in affinities && p in rest ==> PairLe(a.pair, p))
    && (forall a :: a in affinities ==> a.pair in summed && a.score == Min(summed[a.pair], Q8_8_ONE))
  }

  /** The map in key order, each score clamped to one. */
  method Emit(summed: map<Pair, nat>) returns (affinities: seq<Affinity>)
    ensures Emitted(affinities, summed, {})
  {
    affinities := [];
    var rest := summed.Keys;
    while rest != {}
      invariant Emitted(affinities, summed, rest)
      decreases rest
    {
      LeastPair(rest);
      var pair :| pair in rest && forall p :: p in rest ==> PairLe(pair, p);
      EmitStep(affinities, summed, rest, pair);
      affinities := affinities + [Affinity(pair, Min(summed[pair], Q8_8_ONE))];
      rest := rest - {pair};
    }
  }

  lemma LeastPair(s: set<Pair>)
    requires s != {}
    ensures exists m :: m in s && forall p :: p in s ==> PairLe(m, p)
  {
    PairOrder();
    LeastExists(s, PairLe);
  }

  lemma EmitStep(affinities: seq<Affinity>, summed: map<Pair, nat>, rest: set<Pair>, pair: Pair)
    requires Emitted(affinities, summed, rest)
    requires pair in rest && forall p :: p in rest ==> PairLe(pair, p)
    ensures Emitted(affinities + [Affinity(pair, Min(summed[pair], Q8_8_ONE))], summed, rest - {pair})
  {
    var next := Affinity(pair, Min(summed[pair], Q8_8_ONE));
    var longer := affinities + [next];
    forall i | 0 <= i < |affinities| ensures longer[i].pair != pair && PairLe(longer[i].pair, pair) {
      assert longer[i] in affinities;
      assert Map(PairKey, affinities)[i] in ToSet(Map(PairKey, affinities));
    }
    assert Map(PairKey, longer) == Map(PairKey, affinities) + [pair];
    assert ToSet(Map(PairKey, longer)) == ToSet(Map(PairKey, affinities)) + {pair};
  }

  lemma EmittedFold(affinities: seq<Affinity>, summed: map<Pair, nat>, ts: seq<Transition>)
    requires Emitted(affinities, summed, {}) && SumsTo(summed, ts)
    ensures IsFoldOf(affinities, ts)
  {
  }

  ghost predicate AffinitiesValid(affinities: seq<Affinity>)
  {
    (forall a :: a in affinities ==> a.score <= 0x100) && Distinct(Map(PairKey, affinities))
  }

  /** `ExpertSlotAffinity::new` and its `validate`. */
  method NewSlotAffinity(layer: u16, affinities: seq<Affinity>) returns (r: Result<SlotAffinity, AffinityError>)
    ensures r.Ok? <==> layer < 4 && AffinitiesValid(affinities)
    ensures r.Ok? ==> r.value == SlotAffinity(layer, affinities)
    ensures r.Err? ==>
      || (r.error == LayerIdOutOfRange(layer) && layer >= 4)
      || (r.error.Q8_8OutOfRange? && r.error.value > 0x100 && exists a :: a in affinities && a.score == r.error.value)
      || (r.error.DuplicatePair? && Repeated(Map(PairKey, affinities), r.error.pair))
  {
    if layer >= N_BLOCKS { return Err(LayerIdOutOfRange(layer)); }
    var pairs := Map(PairKey, affinities);
    var seen: set<Pair> := {};
    for i := 0 to |affinities|
      invariant seen == ToSet(pairs[..i]) && Distinct(pairs[..i])
      invariant forall a :: a in affinities[..i] ==> a.score <= Q8_8_ONE
    {
      var affinity := affinities[i];
      assert affinity in affinities;
      PrefixGrows(affinities, i);
      PrefixGrows(pairs, i);
      if affinity.score > Q8_8_ONE { return Err(Q8_8OutOfRange(affinity.score)); }
      if affinity.pair in seen {
        RepeatIsNotDistinct(pairs, i);
        return Err(DuplicatePair(affinity.pair));
      }
      AppendDistinct(pairs[..i], affinity.pair);
      seen := seen + {affinity.pair};
    }
    assert affinities[..|affinities|] == affinities && pairs[..|pairs|] == pairs;
    return Ok(SlotAffinity(layer, affinities));
  }

  /** `from_temporal_switch_digest`: it succeeds on every valid digest. */
  method FromDigest(d: Digest) returns (r: Result<SlotAffinity, AffinityError>)
    ensures r.Ok? <==> DigestValid(d)
    ensures r.Err? ==> ExplainsDigest(r.error, d)
    ensures r.Ok? ==> r.value.layer == d.layer && IsFoldOf(r.value.affinities, d.transitions)
  {
    var valid := ValidateDigest(d);
    if valid.Err? {
      return Err(valid.error);
    }
    assert forall t :: t in d.transitions ==> EntryValid(t);
    r := FromTransitions(d.layer, d.transitions);
  }

  // ---- Theory ----

  lemma {:induction false} PairMassBounded(ts: seq<Transition>, p: Pair)
    ensures PairMass(ts, p) <= Total(ts)
  {
    if ts != [] {
      PairMassBounded(ts[..|ts| - 1], p);
    }
  }

  function SumOver(pairs: seq<Pair>, ts: seq<Transition>): nat
  {
    if pairs == [] then 0 else PairMass(ts, pairs[0]) + SumOver(pairs[1..], ts)
  }

  function SumScores(affinities: seq<Affinity>): nat
  {
    if affinities == [] then 0 else affinities[0].score + SumScores(affinities[1..])
  }

  /** One more transition moves exactly one of the distinct pairs. */
  lemma {:induction false} SumOverAppend(pairs: seq<Pair>, ts: seq<Transition>, t: Transition)
    requires Distinct(pairs)
    ensures SumOver(pairs, ts + [t]) == SumOver(pairs, ts) + if PairOf(t) in pairs then t.mass else 0
  {
    assert (ts + [t])[..|ts|] == ts;
    if pairs != [] {
      var rest := pairs[1..];
      assert Distinct(rest) by {
        assert forall k :: 0 <= k < |rest| ==> rest[k] == pairs[k + 1];
      }
      assert pairs[0] !in rest by {
        assert forall k :: 0 <= k < |rest| ==> rest[k] == pairs[k + 1];
      }
      SumOverAppend(rest, ts, t);
      assert pairs == [pairs[0]] + rest;
    }
  }

  lemma {:induction false} SumOverIsTotal(pairs: seq<Pair>, ts: seq<Transition>)
    requires Distinct(pairs) && Pairs(ts) <= ToSet(pairs)
    ensures SumOver(pairs, ts) == Total(ts)
  {
    if ts == [] {
      SumOverNothing(pairs);
    } else {
      var n := |ts| - 1;
      assert ts == ts[..n] + [ts[n]];
      PairsAppend(ts[..n], ts[n]);
      SumOverIsTotal(pairs, ts[..n]);
      SumOverAppend(pairs, ts[..n], ts[n]);
    }
  }

  lemma {:induction false} SumOverNothing(pairs: seq<Pair>)
    ensures SumOver(pairs, []) == 0
  {
    if pairs != [] {
      SumOverNothing(pairs[1..]);
    }
  }

  lemma {:induction false} UnclampedScores(affinities: seq<Affinity>, ts: seq<Transition>)
    requires forall a :: a in affinities ==> a.score == PairMass(ts, a.pair)
    ensures SumScores(affinities) == SumOver(Map(PairKey, affinities), ts)
  {
    if affinities != [] {
      UnclampedScores(affinities[1..], ts);
      assert Map(PairKey, affinities)[1..] == Map(PairKey, affinities[1..]);
      assert affinities[0] in affinities;
    }
  }

  /** A valid digest's affinity never clamps and conserves the total mass exactly. */
  lemma FoldConservesMass(affinities: seq<Affinity>, ts: seq<Transition>)
    requires MassValid(ts) && IsFoldOf(affinities, ts)
    ensures forall a :: a in affinities ==> a.score == PairMass(ts, a.pair)
    ensures SumScores(affinities) == Total(ts)
    ensures Ascending(affinities)
  {
    forall a | a in affinities ensures a.score == PairMass(ts, a.pair) {
      PairMassBounded(ts, a.pair);
    }
    UnclampedScores(affinities, ts);
    assert Distinct(Map(PairKey, affinities));
    SumOverIsTotal(Map(PairKey, affinities), ts);
  }

  /** The fold depends on the pairs and their masses only. */
  lemma FoldIsDetermined(a: seq<Affinity>, b: seq<Affinity>, ts: seq<Transition>, us: seq<Transition>)
    requires IsFoldOf(a, ts) && IsFoldOf(b, us)
    requires Pairs(ts) == Pairs(us) && forall p :: PairMass(ts, p) == PairMass(us, p)
    ensures a == b
  {
    FoldInside(a, b, ts, us);
    FoldInside(b, a, us, ts);
    AscendingIsDistinct(a);
    AscendingIsDistinct(b);
    PairsOfFold(a);
    PairsOfFold(b);
    DistinctInsidePermutes(a, b);
    AffinityOrder();
    SortedIsUnique(a, b, AffinityLe);
  }

  predicate AffinityLe(a: Affinity, b: Affinity) { PairLe(a.pair, b.pair) }

  lemma AffinityOrder()
    ensures TotalPreorder(AffinityLe)
  {
  }

  lemma AscendingIsDistinct(a: seq<Affinity>)
    requires Ascending(a)
    ensures Distinct(a) && Distinct(Map(PairKey, a)) && SortedBy(a, AffinityLe) && KeysDecide(a, AffinityLe)
  {
    forall x, y | x in a && y in a && AffinityLe(x, y) && AffinityLe(y, x) ensures x == y {
      var i :| 0 <= i < |a| && a[i] == x;
      var j :| 0 <= j < |a| && a[j] == y;
      assert x.pair == y.pair;
    }
  }

  lemma PairsOfFold(a: seq<Affinity>)
    requires Ascending(a)
    ensures |a| == |ToSet(Map(PairKey, a))|
  {
    AscendingIsDistinct(a);
    DistinctCardinality(Map(PairKey, a));
  }

  lemma FoldInside(a: seq<Affinity>, b: seq<Affinity>, ts: seq<Transition>, us: seq<Transition>)
    requires IsFoldOf(a, ts) && IsFoldOf(b, us)
    requires Pairs(ts) == Pairs(us) && forall p :: PairMass(ts, p) == PairMass(us, p)
    ensures forall x :: x in a ==> x in b
  {
    forall x | x in a ensures x in b {
      var i :| 0 <= i < |a| && a[i] == x;
      assert Map(PairKey, a)[i] in ToSet(Map(PairKey, a));
      assert x.pair in Map(PairKey, b);
      var j :| 0 <= j < |b| && Map(PairKey, b)[j] == x.pair;
      assert b[j] in b;
      assert b[j].score == x.score;
    }
  }

  function Reversed(t: Transition): Transition { Transition(t.to, t.from, t.mass) }

  lemma {:induction false} ReversalKeepsMass(ts: seq<Transition>, p: Pair)
    ensures PairMass(Map(Reversed, ts), p) == PairMass(ts, p)
  {
    if ts != [] {
      var n := |ts| - 1;
      assert Map(Reversed, ts)[..n] == Map(Reversed, ts[..n]);
      ReversalKeepsMass(ts[..n], p);
    }
  }

  lemma ReversalKeepsPairs(ts: seq<Transition>)
    ensures Pairs(Map(Reversed, ts)) == Pairs(ts)
  {
    forall p | p in Pairs(ts) ensures p in Pairs(Map(Reversed, ts)) {
      var t :| t in ts && PairOf(t) == p;
      var i :| 0 <= i < |ts| && ts[i] == t;
      assert Map(Reversed, ts)[i] in Map(Reversed, ts);
    }
    forall p | p in Pairs(Map(Reversed, ts)) ensures p in Pairs(ts) {
      var t :| t in Map(Reversed, ts) && PairOf(t) == p;
      var i :| 0 <= i < |ts| && Map(Reversed, ts)[i] == t;
      assert ts[i] in ts;
    }
  }

  /** Turning every transition around changes nothing. */
  lemma FoldIgnoresDirection(a: seq<Affinity>, b: seq<Affinity>, ts: seq<Transition>)
    requires IsFoldOf(a, ts) && IsFoldOf(b, Map(Reversed, ts))
    ensures a == b
  {
    forall p ensures PairMass(ts, p) == PairMass(Map(Reversed, ts), p) {
      ReversalKeepsMass(ts, p);
    }
    ReversalKeepsPairs(ts);
    FoldIsDetermined(a, b, ts, Map(Reversed, ts));
  }

  lemma {:induction false} PairMassSplits(ts: seq<Transition>, us: seq<Transition>, p: Pair)
    ensures PairMass(ts + us, p) == PairMass(ts, p) + PairMass(us, p)
  {
    if us == [] {
      assert ts + us == ts;
    } else {
      var n := |us| - 1;
      assert (ts + us)[..|ts + us| - 1] == ts + us[..n];
      PairMassSplits(ts, us[..n], p);
    }
  }

  lemma {:induction false} PairMassPermutes(ts: seq<Transition>, us: seq<Transition>, p: Pair)
    requires Permutation(ts, us)
    ensures PairMass(ts, p) == PairMass(us, p)
    decreases |ts|
  {
    if ts == [] {
      assert multiset(us) == multiset{} && us == [];
    } else {
      var k := PositionIn(ts[0], ts, us);
      RemoveBoth(ts, us, k);
      assert ts[..0] + ts[1..] == ts[1..] && ts == [ts[0]] + ts[1..];
      assert us == us[..k] + ([us[k]] + us[k + 1..]);
      PairMassPermutes(ts[1..], us[..k] + us[k + 1..], p);
      PairMassSplits([ts[0]], ts[1..], p);
      PairMassSplits(us[..k], [us[k]] + us[k + 1..], p);
      PairMassSplits([us[k]], us[k + 1..], p);
      PairMassSplits(us[..k], us[k + 1..], p);
    }
  }

  /** The order in which transitions are read changes nothing. */
  lemma FoldForgetsOrder(a: seq<Affinity>, b: seq<Affinity>, ts: seq<Transition>, us: seq<Transition>)
    requires Permutation(ts, us) && IsFoldOf(a, ts) && IsFoldOf(b, us)
    ensures a == b
  {
    forall p ensures PairMass(ts, p) == PairMass(us, p) {
      PairMassPermutes(ts, us, p);
    }
    PermutationMembers(ts, us);
    assert Pairs(ts) == Pairs(us);
    FoldIsDetermined(a, b, ts, us);
  }
}
