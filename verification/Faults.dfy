/**
  Fault codes, their domains, and the fault snapshot written to SRAM.
 */
module Faults {
  import opened Bytes
  import opened Liveness
  import opened Wrappers

  const SNAPSHOT_SIZE: nat := 36

  datatype FaultCode =
    | NoFault
    | AbiVersionMismatch
    | BuildIdentityMismatch
    | PersistChecksum
    | PersistTornWrite
    | PersistSchemaUnknown
    | BankShadowDivergence
    | UnauthorizedMbcWrite
    | LeaseUnbalanced
    | YieldTooLong
    | InterruptLatencyExceeded
    | LivenessTimeout
    | RepeatedCheckpointNoProgress
    | UiCommitOutsideLegalMode
    | UiCommitQueueFull
    | UnknownChecksumKind
    | UnknownPersistKind
    | HarnessProtocolError
    | TraceBudgetExceeded
    | CalibrationDrift
    | InternalAssertion

  datatype FaultDomain =
    | NoDomain | Boot | Persistence | Banking | Scheduling | LivenessDomain
    | Ui | Schema | Harness | Trace | Calibration | Internal

  /** `code as u16`. */
  function RawCode(code: FaultCode): u16
  {
    match code
    case NoFault => 0x0000
    case AbiVersionMismatch => 0x0001
    case BuildIdentityMismatch => 0x0002
    case PersistChecksum => 0x0010
    case PersistTornWrite => 0x0011
    case PersistSchemaUnknown => 0x0012
    case BankShadowDivergence => 0x0020
    case UnauthorizedMbcWrite => 0x0021
    case LeaseUnbalanced => 0x0022
    case YieldTooLong => 0x0030
    case InterruptLatencyExceeded => 0x0031
    case LivenessTimeout => 0x0032
    case RepeatedCheckpointNoProgress => 0x0033
    case UiCommitOutsideLegalMode => 0x0040
    case UiCommitQueueFull => 0x0041
    case UnknownChecksumKind => 0x0050
    case UnknownPersistKind => 0x0051
    case HarnessProtocolError => 0x0060
    case TraceBudgetExceeded => 0x0070
    case CalibrationDrift => 0x0080
    case InternalAssertion => 0xff00
  }

  /** `FaultCode::from_u16`: the partial inverse of `RawCode`. */
  function CodeFromU16(raw: u16): (r: Option<FaultCode>)
    ensures r.Some? ==> RawCode(r.value) == raw
  {
    if raw == 0x0000 then Some(NoFault)
    else if raw == 0x0001 then Some(AbiVersionMismatch)
    else if raw == 0x0002 then Some(BuildIdentityMismatch)
    else if raw == 0x0010 then Some(PersistChecksum)
    else if raw == 0x0011 then Some(PersistTornWrite)
    else if raw == 0x0012 then Some(PersistSchemaUnknown)
    else if raw == 0x0020 then Some(BankShadowDivergence)
    else if raw == 0x0021 then Some(UnauthorizedMbcWrite)
    else if raw == 0x0022 then Some(LeaseUnbalanced)
    else if raw == 0x0030 then Some(YieldTooLong)
    else if raw == 0x0031 then Some(InterruptLatencyExceeded)
    else if raw == 0x0032 then Some(LivenessTimeout)
    else if raw == 0x0033 then Some(RepeatedCheckpointNoProgress)
    else if raw == 0x0040 then Some(UiCommitOutsideLegalMode)
    else if raw == 0x0041 then Some(UiCommitQueueFull)
    else if raw == 0x0050 then Some(UnknownChecksumKind)
    else if raw == 0x0051 then Some(UnknownPersistKind)
    else if raw == 0x0060 then Some(HarnessProtocolError)
    else if raw == 0x0070 then Some(TraceBudgetExceeded)
    else if raw == 0x0080 then Some(CalibrationDrift)
    else if raw == 0xff00 then Some(InternalAssertion)
    else None
  }

  lemma CodeRoundTrip(code: FaultCode)
    ensures CodeFromU16(RawCode(code)) == Some(code)
  {
  }

  function RawDomain(domain: FaultDomain): u16
  {
    match domain
    case NoDomain => 0x00
    case Boot => 0x01
    case Persistence => 0x02
    case Banking => 0x03
    case Scheduling => 0x04
    case LivenessDomain => 0x05
    case Ui => 0x06
    case Schema => 0x07
    case Harness => 0x08
    case Trace => 0x09
    case Calibration => 0x0a
    case Internal => 0xff
  }

  /** `FaultDomain::from_u16`. */
  function DomainFromU16(raw: u16): (r: Option<FaultDomain>)
    ensures r.Some? ==> RawDomain(r.value) == raw
  {
    if raw == 0x00 then Some(NoDomain)
    else if raw == 0x01 then Some(Boot)
    else if raw == 0x02 then Some(Persistence)
    else if raw == 0x03 then Some(Banking)
    else if raw == 0x04 then Some(Scheduling)
    else if raw == 0x05 then Some(LivenessDomain)
    else if raw == 0x06 then Some(Ui)
    else if raw == 0x07 then Some(Schema)
    else if raw == 0x08 then Some(Harness)
    else if raw == 0x09 then Some(Trace)
    else if raw == 0x0a then Some(Calibration)
    else if raw == 0xff then Some(Internal)
    else None
  }

  lemma DomainRoundTrip(domain: FaultDomain)
    ensures DomainFromU16(RawDomain(domain)) == Some(domain)
  {
  }

  /** `FaultDomain::range`: first and last raw code of the domain. */
  function DomainRange(domain: FaultDomain): (u16, u16)
  {
    match domain
    case NoDomain => (0x0000, 0x0000)
    case Boot => (0x0001, 0x000f)
    case Persistence => (0x0010, 0x001f)
    case Banking => (0x0020, 0x002f)
    case Scheduling => (0x0030, 0x0031)
    case LivenessDomain => (0x0032, 0x003f)
    case Ui => (0x0040, 0x004f)
    case Schema => (0x0050, 0x005f)
    case Harness => (0x0060, 0x006f)
    case Trace => (0x0070, 0x007f)
    case Calibration => (0x0080, 0x008f)
    case Internal => (0xff00, 0xffff)
  }

  predicate InRange(raw: u16, domain: FaultDomain)
  {
    DomainRange(domain).0 <= raw <= DomainRange(domain).1
  }

  /** `classify_fault`: the ranges partition the codes, so the range decides the domain. */
  function Classify(code: FaultCode): (domain: FaultDomain)
    ensures forall other :: InRange(RawCode(code), other) <==> other == domain
  {
    match code
    case NoFault => NoDomain
    case AbiVersionMismatch | BuildIdentityMismatch => Boot
    case PersistChecksum | PersistTornWrite | PersistSchemaUnknown => Persistence
    case BankShadowDivergence | UnauthorizedMbcWrite | LeaseUnbalanced => Banking
    case YieldTooLong | InterruptLatencyExceeded => Scheduling
    case LivenessTimeout | RepeatedCheckpointNoProgress => LivenessDomain
    case UiCommitOutsideLegalMode | UiCommitQueueFull => Ui
    case UnknownChecksumKind | UnknownPersistKind => Schema
    case HarnessProtocolError => Harness
    case TraceBudgetExceeded => Trace
    case CalibrationDrift => Calibration
    case InternalAssertion => Internal
  }

  /**
    Sixteen codes to a domain, the first and the fourth sixteen being shared by
    two; the internal codes are those above 0xff00.
   */
  lemma RangesMean(raw: u16, domain: FaultDomain)
    ensures InRange(raw, domain) <==>
      match domain
      case NoDomain => raw == 0
      case Boot => raw / 16 == 0 && raw != 0
      case Persistence => raw / 16 == 1
      case Banking => raw / 16 == 2
      case Scheduling => raw / 16 == 3 && raw % 16 < 2
      case LivenessDomain => raw / 16 == 3 && raw % 16 >= 2
      case Ui => raw / 16 == 4
      case Schema => raw / 16 == 5
      case Harness => raw / 16 == 6
      case Trace => raw / 16 == 7
      case Calibration => raw / 16 == 8
      case Internal => raw / 256 == 0xff
  {
  }

  // ---- Snapshots ----

  datatype Registers = Registers(
    a: byte, f: byte, b: byte, c: byte, d: byte, e: byte, h: byte, l: byte, sp: u16)

  datatype Snapshot = Snapshot(
    code: u16,
    domain: u16,
    atPc: u16,
    atBank: u16,
    atCheckpoint: u16,
    resv: u16,
    regs: Registers,
    resv1: (byte, byte),
    liveness: Counters)

  datatype SnapshotError =
    | UnknownFaultCode(raw: u16)
    | UnknownFaultDomain(raw: u16)
    | DomainMismatch(code: FaultCode, observed: FaultDomain, expected: FaultDomain)
    | NonZeroReserved(offset: nat, value: byte)

  /** `FaultSnapshot::new`. */
  function NewSnapshot(code: FaultCode, atPc: u16, atBank: u16, atCheckpoint: u16, regs: Registers,
    liveness: Counters): Snapshot
  {
    Snapshot(RawCode(code), RawDomain(Classify(code)), atPc, atBank, atCheckpoint, 0, regs, (0, 0), liveness)
  }

  /** The reserved bytes with their offsets, in the order they are checked. */
  function ReservedBytes(s: Snapshot): (rs: seq<(nat, byte)>)
  {
    [(10, (s.resv % 0x100) as byte), (11, (s.resv / 0x100) as byte), (22, s.resv1.0), (23, s.resv1.1),
     (34, s.liveness.reserved0), (35, s.liveness.reserved1)]
  }

  function FirstNonZero(rs: seq<(nat, byte)>): (r: Option<(nat, byte)>)
    ensures r.None? <==> forall i :: 0 <= i < |rs| ==> rs[i].1 == 0
    ensures r.Some? ==> FirstIn(rs, r.value)
  {
    if rs == [] then None
    else if rs[0].1 != 0 then Some(rs[0])
    else
      var rest := FirstNonZero(rs[1..]);
      assert rest.Some? ==> FirstIn(rs, rest.value) by {
        if rest.Some? {
          var i :| 0 <= i < |rs[1..]| && rs[1..][i] == rest.value && rs[1..][i].1 != 0
            && forall k :: 0 <= k < i ==> rs[1..][k].1 == 0;
          FirstShifts(rs, i);
        }
      }
      rest
  }

  ghost predicate FirstIn(rs: seq<(nat, byte)>, entry: (nat, byte))
  {
    exists i :: 0 <= i < |rs| && rs[i] == entry && rs[i].1 != 0 && forall k :: 0 <= k < i ==> rs[k].1 == 0
  }

  lemma FirstShifts(rs: seq<(nat, byte)>, i: nat)
    requires i + 1 < |rs| && rs[0].1 == 0 && rs[1..][i].1 != 0 && forall k :: 0 <= k < i ==> rs[1..][k].1 == 0
    ensures FirstIn(rs, rs[1..][i])
  {
    assert rs[i + 1] == rs[1..][i];
    forall k | 0 <= k < i + 1 ensures rs[k].1 == 0 {
      if k > 0 { assert rs[k] == rs[1..][k - 1]; }
    }
  }

  /** `FaultSnapshot::validate`. */
  function ValidateSnapshot(s: Snapshot): Result<(), SnapshotError>
  {
    var bad := FirstNonZero(ReservedBytes(s));
    if bad.Some? then Err(NonZeroReserved(bad.value.0, bad.value.1))
    else
      var code := CodeFromU16(s.code);
      var domain := DomainFromU16(s.domain);
      if code.None? then Err(UnknownFaultCode(s.code))
      else if domain.None? then Err(UnknownFaultDomain(s.domain))
      else if domain.value != Classify(code.value) then
        Err(DomainMismatch(code.value, domain.value, Classify(code.value)))
      else Ok(())
  }

  function EncSnapshot(s: Snapshot): (bs: seq<byte>)
    ensures |bs| == SNAPSHOT_SIZE
  {
    EncU16(s.code) + EncU16(s.domain) + EncU16(s.atPc) + EncU16(s.atBank) + EncU16(s.atCheckpoint)
    + EncU16(s.resv) + EncRegisters(s.regs) + [s.resv1.0, s.resv1.1] + EncCounters(s.liveness)
  }

  function EncRegisters(r: Registers): (bs: seq<byte>)
    ensures |bs| == 10
  {
    [r.a, r.f, r.b, r.c, r.d, r.e, r.h, r.l] + EncU16(r.sp)
  }

  /** The thirty-six bytes read back, before validation. */
  function ReadSnapshot(bs: seq<byte>): (s: Snapshot)
    requires |bs| == SNAPSHOT_SIZE
  {
    Snapshot(ToU16(bs[0..2]), ToU16(bs[2..4]), ToU16(bs[4..6]), ToU16(bs[6..8]), ToU16(bs[8..10]),
      ToU16(bs[10..12]),
      Registers(bs[12], bs[13], bs[14], bs[15], bs[16], bs[17], bs[18], bs[19], ToU16(bs[20..22])),
      (bs[22], bs[23]), DecCounters(bs[24..36]))
  }

  /** `FaultSnapshot::from_bytes`. */
  function SnapshotFromBytes(bs: seq<byte>): Result<Snapshot, SnapshotError>
    requires |bs| == SNAPSHOT_SIZE
  {
    var s := ReadSnapshot(bs);
    var valid := ValidateSnapshot(s);
    if valid.Err? then Err(valid.error) else Ok(s)
  }

  /** `FaultSnapshot::to_bytes`, field by field into the buffer. */
  method SnapshotToBytes(s: Snapshot) returns (out: array<byte>)
    ensures fresh(out) && out[..] == EncSnapshot(s)
  {
    out := new byte[SNAPSHOT_SIZE](_ => 0);
    CopyFromSlice(out, 0, EncU16(s.code));
    CopyFromSlice(out, 2, EncU16(s.domain));
    CopyFromSlice(out, 4, EncU16(s.atPc));
    CopyFromSlice(out, 6, EncU16(s.atBank));
    CopyFromSlice(out, 8, EncU16(s.atCheckpoint));
    CopyFromSlice(out, 10, EncU16(s.resv));
    CopyFromSlice(out, 12, EncRegisters(s.regs));
    CopyFromSlice(out, 22, [s.resv1.0, s.resv1.1]);
    CopyFromSlice(out, 24, EncCounters(s.liveness));
    assert out[..SNAPSHOT_SIZE] == out[..];
  }

  lemma WriteAfterRead(bs: seq<byte>)
    requires |bs| == SNAPSHOT_SIZE
    ensures EncSnapshot(ReadSnapshot(bs)) == bs
  {
    assert EncRegisters(ReadSnapshot(bs).regs) == bs[12..22];
  }

  lemma ReadAfterWrite(s: Snapshot)
    ensures ReadSnapshot(EncSnapshot(s)) == s
  {
    var bs := EncSnapshot(s);
    assert bs[0..2] == EncU16(s.code) && bs[2..4] == EncU16(s.domain) && bs[4..6] == EncU16(s.atPc);
    assert bs[6..8] == EncU16(s.atBank) && bs[8..10] == EncU16(s.atCheckpoint) && bs[10..12] == EncU16(s.resv);
    assert bs[12..22] == EncRegisters(s.regs) && bs[24..36] == EncCounters(s.liveness);
    assert bs[20..22] == EncRegisters(s.regs)[8..10] == EncU16(s.regs.sp);
    U16RoundTrip(s.code);
    U16RoundTrip(s.domain);
    U16RoundTrip(s.atPc);
    U16RoundTrip(s.atBank);
    U16RoundTrip(s.atCheckpoint);
    U16RoundTrip(s.resv);
    U16RoundTrip(s.regs.sp);
    CountersRoundTrip(s.liveness);
    forall i | 0 <= i < 8 ensures bs[12 + i] == EncRegisters(s.regs)[i] {
      assert bs[12..22][i] == bs[12 + i];
    }
    assert bs[12] == s.regs.a && bs[13] == s.regs.f && bs[14] == s.regs.b && bs[15] == s.regs.c;
    assert bs[16] == s.regs.d && bs[17] == s.regs.e && bs[18] == s.regs.h && bs[19] == s.regs.l;
  }

  /** Reading accepts exactly the bytes of valid snapshots, each with one meaning. */
  lemma SnapshotCodec(bs: seq<byte>, s: Snapshot)
    requires |bs| == SNAPSHOT_SIZE
    ensures SnapshotFromBytes(bs) == Ok(s) <==> ValidateSnapshot(s).Ok? && EncSnapshot(s) == bs
  {
    if SnapshotFromBytes(bs) == Ok(s) {
      WriteAfterRead(bs);
    }
    if EncSnapshot(s) == bs {
      ReadAfterWrite(s);
    }
  }

  /** The reserved bytes before an offset are zero. */
  ghost predicate CleanBelow(bs: seq<byte>, end: nat)
    requires |bs| == 36
  {
    && (10 < end ==> bs[10] == 0) && (11 < end ==> bs[11] == 0) && (22 < end ==> bs[22] == 0)
    && (23 < end ==> bs[23] == 0) && (34 < end ==> bs[34] == 0) && (35 < end ==> bs[35] == 0)
  }

  /** Clean reserved bytes, a known code, and the domain of that code. */
  ghost predicate GoodSnapshot(bs: seq<byte>)
    requires |bs| == 36
  {
    && CleanBelow(bs, 36)
    && exists code :: Word16(bs, 0) == RawCode(code) && Word16(bs, 2) == RawDomain(Classify(code))
  }

  /** What each rejection says about the bytes: the first thing wrong, reserved bytes before code and domain. */
  ghost predicate ExplainsSnapshot(error: SnapshotError, bs: seq<byte>)
    requires |bs| == 36
  {
    match error
    case NonZeroReserved(offset, value) =>
      offset in {10, 11, 22, 23, 34, 35} && CleanBelow(bs, offset) && bs[offset] == value && value != 0
    case UnknownFaultCode(raw) => CleanBelow(bs, 36) && raw == Word16(bs, 0) && forall code :: RawCode(code) != raw
    case UnknownFaultDomain(raw) =>
      && CleanBelow(bs, 36) && (exists code :: RawCode(code) == Word16(bs, 0))
      && raw == Word16(bs, 2) && forall domain :: RawDomain(domain) != raw
    case DomainMismatch(code, observed, expected) =>
      && CleanBelow(bs, 36) && RawCode(code) == Word16(bs, 0) && RawDomain(observed) == Word16(bs, 2)
      && observed != expected && InRange(RawCode(code), expected)
  }

  lemma SnapshotIsRead(bs: seq<byte>)
    requires |bs| == SNAPSHOT_SIZE
    ensures
      var s := ReadSnapshot(bs);
      && s.code == Word16(bs, 0) && s.domain == Word16(bs, 2) && s.resv == Word16(bs, 10)
      && s.resv1 == (bs[22], bs[23]) && s.liveness.reserved0 == bs[34] && s.liveness.reserved1 == bs[35]
  {
    SliceU16(bs, 0);
    SliceU16(bs, 2);
    SliceU16(bs, 10);
    CountersAreRead(bs[24..36]);
  }

  lemma CodesAreKnown(raw: u16)
    ensures forall code :: RawCode(code) == raw ==> CodeFromU16(raw) == Some(code)
    ensures forall domain :: RawDomain(domain) == raw ==> DomainFromU16(raw) == Some(domain)
  {
    forall code | RawCode(code) == raw ensures CodeFromU16(raw) == Some(code) {
      CodeRoundTrip(code);
    }
    forall domain | RawDomain(domain) == raw ensures DomainFromU16(raw) == Some(domain) {
      DomainRoundTrip(domain);
    }
  }

  lemma FirstReserved(bs: seq<byte>)
    requires |bs| == SNAPSHOT_SIZE
    ensures
      var bad := FirstNonZero(ReservedBytes(ReadSnapshot(bs)));
      && (bad.None? <==> CleanBelow(bs, 36))
      && (bad.Some? ==>
            && bad.value.0 in {10, 11, 22, 23, 34, 35} && CleanBelow(bs, bad.value.0)
            && bs[bad.value.0] == bad.value.1 && bad.value.1 != 0)
  {
    SnapshotIsRead(bs);
    var rs := ReservedBytes(ReadSnapshot(bs));
    assert rs == [(10, bs[10]), (11, bs[11]), (22, bs[22]), (23, bs[23]), (34, bs[34]), (35, bs[35])];
    FirstOfSix(bs, rs);
  }

  lemma FirstOfSix(bs: seq<byte>, rs: seq<(nat, byte)>)
    requires |bs| == SNAPSHOT_SIZE
    requires rs == [(10, bs[10]), (11, bs[11]), (22, bs[22]), (23, bs[23]), (34, bs[34]), (35, bs[35])]
    ensures
      var bad := FirstNonZero(rs);
      && (bad.None? <==> CleanBelow(bs, 36))
      && (bad.Some? ==>
            && bad.value.0 in {10, 11, 22, 23, 34, 35} && CleanBelow(bs, bad.value.0)
            && bs[bad.value.0] == bad.value.1 && bad.value.1 != 0)
  {
    var bad := FirstNonZero(rs);
    assert rs[0].1 == bs[10] && rs[1].1 == bs[11] && rs[2].1 == bs[22];
    assert rs[3].1 == bs[23] && rs[4].1 == bs[34] && rs[5].1 == bs[35];
  }

  /** Reading succeeds exactly on good bytes, and otherwise names what is wrong with them. */
  lemma SnapshotVerdict(bs: seq<byte>)
    requires |bs| == 36
    ensures SnapshotFromBytes(bs).Ok? <==> GoodSnapshot(bs)
    ensures SnapshotFromBytes(bs).Err? ==> ExplainsSnapshot(SnapshotFromBytes(bs).error, bs)
  {
    var s := ReadSnapshot(bs);
    SnapshotIsRead(bs);
    ReservedAreZero(s);
    FirstReserved(bs);
    CodesAreKnown(s.code);
    CodesAreKnown(s.domain);
  }

  /** A snapshot is valid exactly when the constructor builds it from clean counters. */
  lemma ValidSnapshotsAreConstructed(s: Snapshot)
    ensures ValidateSnapshot(s).Ok? <==>
      s.liveness.reserved0 == 0 && s.liveness.reserved1 == 0
      && exists code :: s == NewSnapshot(code, s.atPc, s.atBank, s.atCheckpoint, s.regs, s.liveness)
  {
    ReservedAreZero(s);
    if ValidateSnapshot(s).Ok? {
      var code := CodeFromU16(s.code).value;
      assert s == NewSnapshot(code, s.atPc, s.atBank, s.atCheckpoint, s.regs, s.liveness);
    }
    if code :| s == NewSnapshot(code, s.atPc, s.atBank, s.atCheckpoint, s.regs, s.liveness) {
      CodeRoundTrip(code);
    }
  }

  lemma ReservedAreZero(s: Snapshot)
    ensures FirstNonZero(ReservedBytes(s)).None? <==>
      s.resv == 0 && s.resv1 == (0, 0) && s.liveness.reserved0 == 0 && s.liveness.reserved1 == 0
  {
    var rs := ReservedBytes(s);
    assert rs[0].1 == (s.resv % 0x100) as byte && rs[1].1 == (s.resv / 0x100) as byte;
    assert rs[2].1 == s.resv1.0 && rs[3].1 == s.resv1.1;
    assert rs[4].1 == s.liveness.reserved0 && rs[5].1 == s.liveness.reserved1;
    assert s.resv == s.resv % 0x100 + 0x100 * (s.resv / 0x100);
  }
}
