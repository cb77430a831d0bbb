/**
  Sequence-state semantics: decay policies, their admission for a state size and
  the band of slots each decay rate governs.
 */
module SequenceSemantics {
  import opened Wrappers
  import opened Bytes

  const SLOT_BYTES: nat := 4

  /** Rates are `f32` bit patterns. */
  datatype DecayPolicy = Fixed(rate: u32) | MultiTimescale(rates: seq<u32>) | Learned(initial: u32)

  datatype SequenceSpec =
    | LinearState(stateBytes: u16, policy: DecayPolicy)
    | BoundedKv(maxContext: u16, kvBytesPerToken: u16)

  datatype SequenceError =
    | ZeroField
    | EmptyDecayPolicy
    | UnalignedStateBytes(stateBytes: u16)
    | DoesNotDivideState(slots: nat, decays: nat)

  function ValidateForStateBytes(policy: DecayPolicy, stateBytes: u16): Result<(), SequenceError>
  {
    match policy
    case MultiTimescale(rates) =>
      if rates == [] then Err(EmptyDecayPolicy)
      else if stateBytes % SLOT_BYTES != 0 then Err(UnalignedStateBytes(stateBytes))
      else if (stateBytes / SLOT_BYTES) % |rates| != 0 then
        Err(DoesNotDivideState(stateBytes / SLOT_BYTES, |rates|))
      else Ok(())
    case _ => Ok(())
  }

  /** `LinearStateSemantics::new`. */
  function NewLinearState(stateBytes: u16, policy: DecayPolicy): Result<SequenceSpec, SequenceError>
  {
    match ValidateForStateBytes(policy, stateBytes)
    case Err(error) => Err(error)
    case Ok(_) => if stateBytes == 0 then Err(ZeroField) else Ok(LinearState(stateBytes, policy))
  }

  /** `decay_for_slot`; `None` is a division by zero or an index out of bounds. */
  function DecayForSlot(policy: DecayPolicy, slot: nat, slots: nat): Option<u32>
  {
    match policy
    case Fixed(rate) => Some(rate)
    case Learned(rate) => Some(rate)
    case MultiTimescale(rates) =>
      if rates == [] || slots / |rates| == 0 || slot / (slots / |rates|) >= |rates| then None
      else Some(rates[slot / (slots / |rates|)])
  }

  /** Each rate governs equally many whole slots of four bytes. */
  ghost predicate DividesState(stateBytes: nat, rates: nat)
  {
    exists width: nat :: Bytes4(width * rates) == stateBytes
  }

  function Bytes4(slots: nat): nat { slots + slots + slots + slots }

  /** What each refusal says. */
  ghost predicate ExplainsState(error: SequenceError, stateBytes: u16, policy: DecayPolicy)
  {
    match error
    case ZeroField => stateBytes == 0
    case EmptyDecayPolicy => policy == MultiTimescale([])
    case UnalignedStateBytes(observed) =>
      policy.MultiTimescale? && observed == stateBytes && forall slots: nat :: Bytes4(slots) != stateBytes
    case DoesNotDivideState(slots, decays) =>
      && policy.MultiTimescale? && Bytes4(slots) == stateBytes && decays == |policy.rates|
      && !DividesState(stateBytes, decays)
  }

  /** A state is accepted when it has bytes, and when the rates of a multi-timescale policy divide it evenly. */
  lemma StateAcceptance(stateBytes: u16, policy: DecayPolicy)
    ensures NewLinearState(stateBytes, policy).Ok? <==>
      && stateBytes > 0
      && (policy.MultiTimescale? ==> policy.rates != [] && DividesState(stateBytes, |policy.rates|))
    ensures NewLinearState(stateBytes, policy).Ok? ==>
      NewLinearState(stateBytes, policy).value == LinearState(stateBytes, policy)
    ensures NewLinearState(stateBytes, policy).Err? ==>
      ExplainsState(NewLinearState(stateBytes, policy).error, stateBytes, policy)
  {
    if policy.MultiTimescale? && policy.rates != [] {
      var n, slots := |policy.rates|, stateBytes / SLOT_BYTES;
      forall width: nat | Bytes4(width * n) == stateBytes ensures slots == width * n && slots % n == 0 {
        MultipleDivides(width, n);
      }
      if stateBytes % SLOT_BYTES == 0 && slots % n == 0 {
        assert slots == (slots / n) * n;
        assert Bytes4((slots / n) * n) == stateBytes;
      }
    }
  }

  lemma MultipleDivides(width: nat, n: nat)
    requires n > 0
    ensures (width * n) % n == 0
  {
    var q, r := (width * n) / n, (width * n) % n;
    assert width * n == q * n + r;
    if width > q {
      Ordered(q + 1, width, n);
      NextMultiple(q, n);
    } else {
      Ordered(width, q, n);
    }
  }

  /** A fixed or learned rate governs every slot. */
  lemma SingleRateEverywhere(rate: u32, slot: nat, slots: nat)
    ensures DecayForSlot(Fixed(rate), slot, slots) == DecayForSlot(Learned(rate), slot, slots) == Some(rate)
  {
  }

  function Interval(lo: nat, hi: nat): (slots: set<nat>)
    requires lo <= hi
    ensures forall s :: s in slots <==> lo <= s < hi
    ensures |slots| == hi - lo
    decreases hi - lo
  {
    if lo == hi then {} else {lo} + Interval(lo + 1, hi)
  }

  /** The slots from `k * width` up to `(k + 1) * width`. */
  function Band(k: nat, width: nat): set<nat>
  {
    assert (k + 1) * width == k * width + width;
    Interval(k * width, (k + 1) * width)
  }

  lemma QuotientBounds(slot: nat, width: nat) returns (q: nat)
    requires width > 0
    ensures q == slot / width && q * width <= slot < q * width + width
  {
    q := slot / width;
    assert slot == q * width + slot % width;
  }

  lemma NextMultiple(k: nat, width: nat)
    ensures (k + 1) * width == k * width + width
  {
  }

  lemma BandIndex(slot: nat, k: nat, q: nat, width: nat)
    requires q * width <= slot < q * width + width
    ensures slot in Band(k, width) <==> q == k
  {
    NextMultiple(q, width);
    NextMultiple(k, width);
    if q < k {
      Ordered(q + 1, k, width);
    } else if q > k {
      Ordered(k + 1, q, width);
    }
  }

  lemma Ordered(a: nat, b: nat, width: nat)
    requires a <= b
    ensures a * width <= b * width
  {
    assert b * width - a * width == (b - a) * width;
  }

  lemma DivideEvenly(slots: nat, n: nat) returns (width: nat)
    requires n > 0 && slots > 0 && slots % n == 0
    ensures width == slots / n && width > 0 && n * width == slots
  {
    width := slots / n;
    assert slots == n * width;
    assert width != 0;
  }

  lemma BandFits(k: nat, n: nat, width: nat)
    requires k < n
    ensures |Band(k, width)| == width
    ensures forall s :: s in Band(k, width) ==> s < n * width
  {
    NextMultiple(k, width);
    Ordered(k + 1, n, width);
  }

  lemma OwnerExists(owner: nat, n: nat, slot: nat, width: nat)
    requires owner * width <= slot < n * width
    ensures owner < n
  {
    if owner >= n {
      Ordered(n, owner, width);
    }
  }

  /**
    For every accepted multi-timescale state, each slot has one owning rate, the
    rates own equal contiguous bands in order, and each owns exactly
    slots / rates slots.
   */
  lemma BandsPartitionSlots(stateBytes: u16, rates: seq<u32>, slot: nat) returns (width: nat, owner: nat)
    requires NewLinearState(stateBytes, MultiTimescale(rates)).Ok? && slot < stateBytes / SLOT_BYTES
    ensures width > 0 && |rates| * width == stateBytes / SLOT_BYTES
    ensures owner < |rates|
    ensures DecayForSlot(MultiTimescale(rates), slot, stateBytes / SLOT_BYTES) == Some(rates[owner])
    ensures forall k: nat :: slot in Band(k, width) <==> k == owner
    ensures forall k: nat :: k < |rates| ==> |Band(k, width)| == width
    ensures forall k: nat, s :: k < |rates| && s in Band(k, width) ==> s < stateBytes / SLOT_BYTES
  {
    width := DivideEvenly(stateBytes / SLOT_BYTES, |rates|);
    owner := QuotientBounds(slot, width);
    OwnerExists(owner, |rates|, slot, width);
    forall k: nat ensures slot in Band(k, width) <==> k == owner {
      BandIndex(slot, k, owner, width);
    }
    forall k: nat | k < |rates|
      ensures |Band(k, width)| == width && forall s :: s in Band(k, width) ==> s < |rates| * width
    {
      BandFits(k, |rates|, width);
    }
  }
}
