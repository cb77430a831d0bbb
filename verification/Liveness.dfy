/**
  Liveness counters: saturating progress and idle-frame counts that decide when
  the runtime reports a livelock.
 */
module Liveness {
  import opened Bytes

  const COUNTERS_SIZE: nat := 12
  const NO_CHECKPOINT: u16 := 0
  const U16_MAX: u16 := 0xffff
  const U32_MAX: u32 := 0xffff_ffff

  /** The value of a `LivenessCounters` object. */
  datatype Counters = Counters(
    progressEpoch: u32,
    lastCheckpoint: u16,
    noProgressFrames: u16,
    threshold: u16,
    reserved0: byte,
    reserved1: byte)

  datatype Step = Progress(checkpoint: u16) | Idle | Reset(threshold: u16)

  function Fresh(threshold: u16): Counters
  {
    Counters(0, NO_CHECKPOINT, 0, threshold, 0, 0)
  }

  function Next(c: Counters, step: Step): Counters
  {
    match step
    case Progress(cp) =>
      c.(progressEpoch := if c.progressEpoch < U32_MAX then c.progressEpoch + 1 else U32_MAX,
         lastCheckpoint := cp, noProgressFrames := 0)
    case Idle =>
      c.(noProgressFrames := if c.noProgressFrames < U16_MAX then c.noProgressFrames + 1 else U16_MAX)
    case Reset(threshold) => Fresh(threshold)
  }

  predicate Livelocked(c: Counters)
  {
    c.threshold != 0 && c.noProgressFrames >= c.threshold
  }

  // ---- Wire format ----

  function EncCounters(c: Counters): (bs: seq<byte>)
    ensures |bs| == COUNTERS_SIZE
  {
    EncU32(c.progressEpoch) + EncU16(c.lastCheckpoint) + EncU16(c.noProgressFrames)
    + EncU16(c.threshold) + [c.reserved0, c.reserved1]
  }

  /** `from_bytes`: total, and it loses nothing. */
  function DecCounters(bs: seq<byte>): (c: Counters)
    requires |bs| == COUNTERS_SIZE
    ensures EncCounters(c) == bs
  {
    Counters(ToU32(bs[0..4]), ToU16(bs[4..6]), ToU16(bs[6..8]), ToU16(bs[8..10]), bs[10], bs[11])
  }

  /** Where each counter stands in the twelve bytes. */
  ghost predicate HasCounters(bs: seq<byte>, c: Counters)
    requires |bs| == 12
  {
    && c.progressEpoch == Word32(bs, 0) && c.lastCheckpoint == Word16(bs, 4)
    && c.noProgressFrames == Word16(bs, 6) && c.threshold == Word16(bs, 8)
    && c.reserved0 == bs[10] && c.reserved1 == bs[11]
  }

  lemma CountersAreRead(bs: seq<byte>)
    requires |bs| == 12
    ensures HasCounters(bs, DecCounters(bs))
  {
    SliceU32(bs, 0);
    SliceU16(bs, 4);
    SliceU16(bs, 6);
    SliceU16(bs, 8);
  }

  lemma CountersRoundTrip(c: Counters)
    ensures DecCounters(EncCounters(c)) == c
  {
    var bs := EncCounters(c);
    assert bs[0..4] == EncU32(c.progressEpoch);
    assert bs[4..6] == EncU16(c.lastCheckpoint);
    assert bs[6..8] == EncU16(c.noProgressFrames);
    assert bs[8..10] == EncU16(c.threshold);
    U32RoundTrip(c.progressEpoch);
    U16RoundTrip(c.lastCheckpoint);
    U16RoundTrip(c.noProgressFrames);
    U16RoundTrip(c.threshold);
  }

  // ---- The object ----

  class LivenessCounters {
    var progressEpoch: u32
    var lastCheckpoint: u16
    var noProgressFrames: u16
    var livelockThresholdFrames: u16
    var reserved: (byte, byte)

    function State(): Counters
      reads this
    {
      Counters(progressEpoch, lastCheckpoint, noProgressFrames, livelockThresholdFrames, reserved.0, reserved.1)
    }

    constructor (threshold: u16)
      ensures State() == Fresh(threshold)
    {
      progressEpoch := 0;
      lastCheckpoint := NO_CHECKPOINT;
      noProgressFrames := 0;
      livelockThresholdFrames := threshold;
      reserved := (0, 0);
    }

    method RecordProgress(cp: u16)
      modifies this
      ensures State() == Next(old(State()), Progress(cp))
    {
      progressEpoch := if progressEpoch == U32_MAX then progressEpoch else progressEpoch + 1;
      lastCheckpoint := cp;
      noProgressFrames := 0;
    }

    method NoteIdleFrame()
      modifies this`noProgressFrames
      ensures State() == Next(old(State()), Idle)
    {
      noProgressFrames := if noProgressFrames == U16_MAX then noProgressFrames else noProgressFrames + 1;
    }

    method ResetWith(threshold: u16)
      modifies this
      ensures State() == Next(old(State()), Reset(threshold))
    {
      progressEpoch := 0;
      lastCheckpoint := NO_CHECKPOINT;
      noProgressFrames := 0;
      livelockThresholdFrames := threshold;
      reserved := (0, 0);
    }

    predicate IsLivelocked()
      reads this
      ensures IsLivelocked() <==> Livelocked(State())
    {
      livelockThresholdFrames != 0 && noProgressFrames >= livelockThresholdFrames
    }

    method ToBytes() returns (out: array<byte>)
      ensures fresh(out) && out.Length == COUNTERS_SIZE && out[..] == EncCounters(State())
    {
      out := new byte[COUNTERS_SIZE](_ => 0);
      CopyFromSlice(out, 0, EncU32(progressEpoch));
      CopyFromSlice(out, 4, EncU16(lastCheckpoint));
      CopyFromSlice(out, 6, EncU16(noProgressFrames));
      CopyFromSlice(out, 8, EncU16(livelockThresholdFrames));
      CopyFromSlice(out, 10, [reserved.0, reserved.1]);
      assert out[..COUNTERS_SIZE] == out[..];
    }
  }

  // ---- Whole runs ----

  /** The state after `steps`, the last of which is taken last. */
  function After(c: Counters, steps: seq<Step>): Counters
  {
    if steps == [] then c else Next(After(c, steps[..|steps| - 1]), steps[|steps| - 1])
  }

  ghost predicate EndsInIdle(steps: seq<Step>, n: nat)
    requires n <= |steps|
  {
    forall i :: |steps| - n <= i < |steps| ==> steps[i].Idle?
  }

  /** The idle frames noted since the last progress or reset, without any bound. */
  function IdleFrames(before: nat, steps: seq<Step>): nat
  {
    if steps == [] then before
    else if steps[|steps| - 1].Idle? then IdleFrames(before, steps[..|steps| - 1]) + 1
    else 0
  }

  /** The progress steps recorded since the last reset, without any bound. */
  function ProgressCount(before: nat, steps: seq<Step>): nat
  {
    if steps == [] then before
    else
      var rest := ProgressCount(before, steps[..|steps| - 1]);
      match steps[|steps| - 1]
      case Progress(_) => rest + 1
      case Idle => rest
      case Reset(_) => 0
  }

  /** The threshold in force: the one the last reset chose. */
  function Threshold(before: u16, steps: seq<Step>): u16
  {
    if steps == [] then before
    else if steps[|steps| - 1].Reset? then steps[|steps| - 1].threshold
    else Threshold(before, steps[..|steps| - 1])
  }

  /** The checkpoint of the last progress, or none after a reset. */
  function LastCheckpoint(before: u16, steps: seq<Step>): u16
  {
    if steps == [] then before
    else match steps[|steps| - 1]
      case Progress(checkpoint) => checkpoint
      case Idle => LastCheckpoint(before, steps[..|steps| - 1])
      case Reset(_) => 0
  }

  function Saturated(n: nat, max: nat): nat { if n < max then n else max }

  /** `IdleFrames` counts the longest idle suffix, plus the earlier count when the suffix is everything. */
  lemma {:induction false} IdleFramesIsLongestSuffix(before: nat, steps: seq<Step>)
    ensures
      var n := IdleFrames(before, steps);
      if n < |steps| then EndsInIdle(steps, n) && !steps[|steps| - 1 - n].Idle?
      else EndsInIdle(steps, |steps|) && n == before + |steps|
  {
    if steps != [] && steps[|steps| - 1].Idle? {
      IdleFramesIsLongestSuffix(before, steps[..|steps| - 1]);
    }
  }

  /** From any state, over every run, each counter is the saturation of its unbounded count. */
  lemma {:induction false} RunCounts(c: Counters, steps: seq<Step>)
    ensures After(c, steps).noProgressFrames == Saturated(IdleFrames(c.noProgressFrames, steps), 0xffff)
    ensures After(c, steps).progressEpoch == Saturated(ProgressCount(c.progressEpoch, steps), 0xffff_ffff)
    ensures After(c, steps).lastCheckpoint == LastCheckpoint(c.lastCheckpoint, steps)
    ensures After(c, steps).threshold == Threshold(c.threshold, steps)
  {
    if steps != [] {
      RunCounts(c, steps[..|steps| - 1]);
    }
  }

  /** Livelock is reported exactly on time: saturation neither hides nor invents it. */
  lemma LivelockIsExact(c: Counters, steps: seq<Step>)
    ensures Livelocked(After(c, steps)) <==>
      Threshold(c.threshold, steps) != 0
      && IdleFrames(c.noProgressFrames, steps) >= Threshold(c.threshold, steps)
  {
    RunCounts(c, steps);
  }

  lemma {:induction false} ReservedStaysZero(c: Counters, steps: seq<Step>)
    requires c.reserved0 == 0 && c.reserved1 == 0
    ensures After(c, steps).reserved0 == 0 && After(c, steps).reserved1 == 0
  {
    if steps != [] {
      ReservedStaysZero(c, steps[..|steps| - 1]);
    }
  }
}
