/** The growing byte buffer behind `ArtifactCore::semantic_hash`. */
module CoreWriter {
  import opened Wrappers
  import opened Ordering
  import opened Bytes
  import opened WeightPlans
  import opened QuantSpecs
  import opened ArtifactCores
  import opened CoreEncoding
  import T = CanonicalTensors
  import S = SequenceSemantics

  // ---- Appending part after part ----

  lemma Chain3(z: seq<byte>, a: seq<byte>, b: seq<byte>, c: seq<byte>)
    ensures ((z + a) + b) + c == z + (a + (b + c))
  {
    Assoc(z + a, b, c);
    Assoc(z, a, b + c);
  }

  lemma Chain4(z: seq<byte>, a: seq<byte>, b: seq<byte>, c: seq<byte>, d: seq<byte>)
    ensures (((z + a) + b) + c) + d == z + (a + (b + (c + d)))
  {
    Assoc((z + a) + b, c, d);
    Chain3(z, a, b, c + d);
  }

  lemma Chain5(z: seq<byte>, a: seq<byte>, b: seq<byte>, c: seq<byte>, d: seq<byte>, e: seq<byte>)
    ensures ((((z + a) + b) + c) + d) + e == z + (a + (b + (c + (d + e))))
  {
    Assoc(((z + a) + b) + c, d, e);
    Chain4(z, a, b, c, d + e);
  }

  lemma ConcatStep<X>(bytes: seq<byte>, xs: seq<X>, i: nat, enc: X -> seq<byte>)
    requires i < |xs|
    ensures bytes + T.Concat(xs[i..], enc) == (bytes + enc(xs[i])) + T.Concat(xs[i + 1..], enc)
  {
    assert xs[i..][0] == xs[i] && xs[i..][1..] == xs[i + 1..];
    Assoc(bytes, enc(xs[i]), T.Concat(xs[i + 1..], enc));
  }

  class Writer {
    var bytes: seq<byte>

    constructor ()
      ensures bytes == []
    {
      bytes := [];
    }

    method PushU8(v: byte)
      modifies this
      ensures bytes == old(bytes) + EncU8(v)
    {
      bytes := bytes + [v];
    }

    method PushU16(v: u16)
      modifies this
      ensures bytes == old(bytes) + EncU16(v)
    {
      bytes := bytes + LittleEndian(v, 2);
    }

    method PushU32(v: u32)
      modifies this
      ensures bytes == old(bytes) + EncU32(v)
    {
      bytes := bytes + LittleEndian(v, 4);
    }

    method PushU64(v: nat)
      modifies this
      ensures bytes == old(bytes) + EncU64(v)
    {
      bytes := bytes + LittleEndian(v, 8);
    }

    method PushHash(hash: T.Hash256)
      modifies this
      ensures bytes == old(bytes) + hash
    {
      bytes := bytes + hash;
    }

    method PushBytes(value: seq<byte>)
      modifies this
      ensures bytes == old(bytes) + EncBytes(value)
    {
      PushU64(|value|);
      Assoc(old(bytes), EncU64(|value|), value);
      bytes := bytes + value;
    }

    method PushPath(path: Path)
      modifies this
      ensures bytes == old(bytes) + EncPath(path)
    {
      PushBytes(path.text);
    }

    method PushOptionalPath(path: Option<Path>)
      modifies this
      ensures bytes == old(bytes) + EncOptionalPath(path)
    {
      match path {
        case Some(p) =>
          PushU8(1);
          PushPath(p);
          Assoc(old(bytes), EncU8(1), EncPath(p));
        case None => PushU8(0);
      }
    }

    method PushDecayPolicy(policy: S.DecayPolicy)
      modifies this
      ensures bytes == old(bytes) + EncDecayPolicy(policy)
    {
      match policy {
        case Fixed(rate) =>
          PushU8(0);
          PushU32(rate);
          Assoc(old(bytes), EncU8(0), EncU32(rate));
        case MultiTimescale(rates) =>
          PushU8(1);
          PushRates(rates);
          Assoc(old(bytes), EncU8(1), EncList(rates, T.Enc32));
        case Learned(rate) =>
          PushU8(2);
          PushU32(rate);
          Assoc(old(bytes), EncU8(2), EncU32(rate));
      }
    }

    method PushSequence(spec: S.SequenceSpec)
      modifies this
      ensures bytes == old(bytes) + EncSequence(spec)
    {
      match spec {
        case LinearState(stateBytes, policy) =>
          PushU8(0);
          PushU16(stateBytes);
          PushDecayPolicy(policy);
          Chain3(old(bytes), EncU8(0), EncU16(stateBytes), EncDecayPolicy(policy));
        case BoundedKv(maxContext, kvBytes) =>
          PushU8(1);
          PushU16(maxContext);
          PushU16(kvBytes);
          Chain3(old(bytes), EncU8(1), EncU16(maxContext), EncU16(kvBytes));
      }
    }

    method PushGranularity(granularity: ScaleGranularity)
      modifies this
      ensures bytes == old(bytes) + EncGranularity(granularity)
    {
      match granularity {
        case PerTensor => PushU8(0);
        case PerOutputRow => PushU8(1);
        case PerGroup(size) =>
          PushU8(2);
          PushU16(size);
          Assoc(old(bytes), EncU8(2), EncU16(size));
      }
    }

    method PushThreshold(plan: ThresholdPlan)
      modifies this
      ensures bytes == old(bytes) + EncThreshold(plan)
    {
      match plan {
        case FixedQ8_8 => PushU8(0);
        case AnnealedGlobalThenPerOutputRow => PushU8(1);
        case LearnedPerGroup(size) =>
          PushU8(2);
          PushU16(size);
          Assoc(old(bytes), EncU8(2), EncU16(size));
      }
    }

    method PushWeightPlan(plan: TernaryWeightPlan)
      modifies this
      ensures bytes == old(bytes) + EncWeightPlan(plan)
    {
      PushU8(EncodingTag(plan.encoding));
      PushGranularity(plan.scaleGranularity);
      PushU8(ScaleFormatTag(plan.scaleFormat));
      PushThreshold(plan.threshold);
      Chain4(old(bytes), EncU8(EncodingTag(plan.encoding)), EncGranularity(plan.scaleGranularity),
        EncU8(ScaleFormatTag(plan.scaleFormat)), EncThreshold(plan.threshold));
    }

    method PushTensorEntry(tensor: Tensor)
      modifies this
      ensures bytes == old(bytes) + EncTensorEntry(EntryOf(tensor))
    {
      PushPath(tensor.id);
      PushU8(KindTag(tensor.kind));
      PushHash(tensor.contentHash);
      Chain3(old(bytes), EncPath(tensor.id), EncU8(KindTag(tensor.kind)), tensor.contentHash);
    }

    method PushTernaryEntry(e: TernaryQuantEntry)
      modifies this
      ensures bytes == old(bytes) + EncTernaryEntry(e)
    {
      PushPath(e.projection);
      PushPath(e.weight);
      PushPath(e.scale);
      PushOptionalPath(e.bias);
      PushWeightPlan(e.plan);
      Chain5(old(bytes), EncPath(e.projection), EncPath(e.weight), EncPath(e.scale),
        EncOptionalPath(e.bias), EncWeightPlan(e.plan));
    }

    method PushWeightEntry(e: WeightQuantEntry)
      modifies this
      ensures bytes == old(bytes) + EncWeightEntry(e)
    {
      PushPath(e.weight);
      PushPath(e.tensor);
      label Paths:
      match e.ternaryPlan {
        case Some(plan) =>
          PushU8(1);
          PushWeightPlan(plan);
          Assoc(old@Paths(bytes), EncU8(1), EncWeightPlan(plan));
        case None => PushU8(0);
      }
      Chain3(old(bytes), EncPath(e.weight), EncPath(e.tensor), EncOptionalPlan(e.ternaryPlan));
    }

    method PushRange(range: ActivationRange)
      modifies this
      ensures bytes == old(bytes) + EncRange(range)
    {
      PushU32(range.lo);
      PushU32(range.hi);
      PushU8(RangeModeTag(range.mode));
      Chain3(old(bytes), EncU32(range.lo), EncU32(range.hi), EncU8(RangeModeTag(range.mode)));
    }

    method PushActivationEntry(e: ActivationQuantEntry)
      modifies this
      ensures bytes == old(bytes) + EncActivationEntry(e)
    {
      PushPath(e.activation);
      PushRange(e.range);
      PushU8(QuantFormatTag(e.quantFormat));
      PushU8(EvalModeTag(e.evalMode));
      PushU8(NonlinearityTag(e.nonlinearity));
      Chain5(old(bytes), EncPath(e.activation), EncRange(e.range), EncU8(QuantFormatTag(e.quantFormat)),
        EncU8(EvalModeTag(e.evalMode)), EncU8(NonlinearityTag(e.nonlinearity)));
    }

    method PushPair(a: u32, b: u32)
      modifies this
      ensures bytes == old(bytes) + EncPair(a, b)
    {
      PushU32(a);
      PushU32(b);
      Assoc(old(bytes), EncU32(a), EncU32(b));
    }

    method PushNormPlan(plan: NormPlan)
      modifies this
      ensures bytes == old(bytes) + EncNormPlan(plan)
    {
      match plan {
        case AffineClipLut(affine, clip, lut) =>
          PushU8(0);
          PushPair(affine.scale, affine.bias);
          PushPair(clip.lo, clip.hi);
          PushPair(lut.inputLo, lut.inputHi);
          PushU16(lut.entries);
          Chain5(old(bytes), EncU8(0), EncPair(affine.scale, affine.bias), EncPair(clip.lo, clip.hi),
            EncPair(lut.inputLo, lut.inputHi), EncU16(lut.entries));
        case TileRmsThenAffineClip(tile, affine, clip) =>
          PushU8(1);
          PushU16(tile.tileWidth);
          PushU32(tile.epsilon);
          PushPair(affine.scale, affine.bias);
          PushPair(clip.lo, clip.hi);
          Chain5(old(bytes), EncU8(1), EncU16(tile.tileWidth), EncU32(tile.epsilon),
            EncPair(affine.scale, affine.bias), EncPair(clip.lo, clip.hi));
      }
    }

    method PushNormEntry(e: NormQuantEntry)
      modifies this
      ensures bytes == old(bytes) + EncNormEntry(e)
    {
      PushPath(e.norm);
      PushNormPlan(e.plan);
      PushOptionalPath(e.lut);
      Chain3(old(bytes), EncPath(e.norm), EncNormPlan(e.plan), EncOptionalPath(e.lut));
    }

    method PushRates(xs: seq<u32>)
      modifies this
      ensures bytes == old(bytes) + EncList(xs, T.Enc32)
    {
      PushU64(|xs|);
      ghost var start := bytes;
      for i := 0 to |xs|
        invariant bytes + T.Concat(xs[i..], T.Enc32) == start + T.Concat(xs, T.Enc32)
      {
        ConcatStep(bytes, xs, i, T.Enc32);
        PushU32(xs[i]);
      }
      assert xs[|xs|..] == [] && bytes + [] == bytes;
      Assoc(old(bytes), EncU64(|xs|), T.Concat(xs, T.Enc32));
    }

    method PushTernaryEntries(xs: seq<TernaryQuantEntry>)
      modifies this
      ensures bytes == old(bytes) + EncList(xs, EncTernaryEntry)
    {
      PushU64(|xs|);
      ghost var start := bytes;
      for i := 0 to |xs|
        invariant bytes + T.Concat(xs[i..], EncTernaryEntry) == start + T.Concat(xs, EncTernaryEntry)
      {
        ConcatStep(bytes, xs, i, EncTernaryEntry);
        PushTernaryEntry(xs[i]);
      }
      assert xs[|xs|..] == [] && bytes + [] == bytes;
      Assoc(old(bytes), EncU64(|xs|), T.Concat(xs, EncTernaryEntry));
    }

    method PushWeightEntries(xs: seq<WeightQuantEntry>)
      modifies this
      ensures bytes == old(bytes) + EncList(xs, EncWeightEntry)
    {
      PushU64(|xs|);
      ghost var start := bytes;
      for i := 0 to |xs|
        invariant bytes + T.Concat(xs[i..], EncWeightEntry) == start + T.Concat(xs, EncWeightEntry)
      {
        ConcatStep(bytes, xs, i, EncWeightEntry);
        PushWeightEntry(xs[i]);
      }
      assert xs[|xs|..] == [] && bytes + [] == bytes;
      Assoc(old(bytes), EncU64(|xs|), T.Concat(xs, EncWeightEntry));
    }

    method PushActivationEntries(xs: seq<ActivationQuantEntry>)
      modifies this
      ensures bytes == old(bytes) + EncList(xs, EncActivationEntry)
    {
      PushU64(|xs|);
      ghost var start := bytes;
      for i := 0 to |xs|
        invariant bytes + T.Concat(xs[i..], EncActivationEntry) == start + T.Concat(xs, EncActivationEntry)
      {
        ConcatStep(bytes, xs, i, EncActivationEntry);
        PushActivationEntry(xs[i]);
      }
      assert xs[|xs|..] == [] && bytes + [] == bytes;
      Assoc(old(bytes), EncU64(|xs|), T.Concat(xs, EncActivationEntry));
    }

    method PushNormEntries(xs: seq<NormQuantEntry>)
      modifies this
      ensures bytes == old(bytes) + EncList(xs, EncNormEntry)
    {
      PushU64(|xs|);
      ghost var start := bytes;
      for i := 0 to |xs|
        invariant bytes + T.Concat(xs[i..], EncNormEntry) == start + T.Concat(xs, EncNormEntry)
      {
        ConcatStep(bytes, xs, i, EncNormEntry);
        PushNormEntry(xs[i]);
      }
      assert xs[|xs|..] == [] && bytes + [] == bytes;
      Assoc(old(bytes), EncU64(|xs|), T.Concat(xs, EncNormEntry));
    }

    method PushTensors(tensors: seq<Tensor>)
      modifies this
      ensures bytes == old(bytes) + EncList(Map(EntryOf, tensors), EncTensorEntry)
    {
      ghost var xs := Map(EntryOf, tensors);
      PushU64(|tensors|);
      ghost var start := bytes;
      for i := 0 to |tensors|
        invariant bytes + T.Concat(xs[i..], EncTensorEntry) == start + T.Concat(xs, EncTensorEntry)
      {
        ConcatStep(bytes, xs, i, EncTensorEntry);
        PushTensorEntry(tensors[i]);
      }
      assert xs[|xs|..] == [] && bytes + [] == bytes;
      Assoc(old(bytes), EncU64(|xs|), T.Concat(xs, EncTensorEntry));
    }

    method PushTables(q: QuantSpec)
      modifies this
      ensures bytes == old(bytes) + EncTables(q)
    {
      PushTernaryEntries(q.ternaryWeightPlans);
      PushWeightEntries(q.weightQuant);
      PushActivationEntries(q.activationQuant);
      PushNormEntries(q.normPlans);
      Chain4(old(bytes), EncList(q.ternaryWeightPlans, EncTernaryEntry), EncList(q.weightQuant, EncWeightEntry),
        EncList(q.activationQuant, EncActivationEntry), EncList(q.normPlans, EncNormEntry));
    }
  }

  /** `artifact_core_semantic_bytes`. */
  method WriteSemanticBytes(core: ArtifactCore) returns (bytes: seq<byte>)
    ensures bytes == SemanticBytes(core)
  {
    var w := new Writer();
    w.PushBytes(Ascii(CORE_DOMAIN));
    w.PushSequence(core.sequenceSemantics);
    w.PushTensors(core.tensors);
    w.PushTables(core.quant);
    bytes := w.bytes;
    Chain4([], EncBytes(Ascii(CORE_DOMAIN)), EncSequence(core.sequenceSemantics),
      EncList(Map(EntryOf, core.tensors), EncTensorEntry), EncTables(core.quant));
    assert [] + SemanticBytes(core) == SemanticBytes(core);
  }
}
