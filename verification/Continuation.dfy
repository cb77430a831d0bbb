/**
  The continuation image: a fixed thirty-two byte header in front of an opaque
  per-build tail.
 */
module Continuation {
  import opened Bytes
  import opened Faults
  import opened Liveness
  import opened Wrappers

  const HEADER_SIZE: nat := 32

  datatype AbiVersion = AbiVersion(major: byte, minor: byte, patch: byte)

  const CURRENT_ABI := AbiVersion(0, 1, 0)

  datatype Header = Header(
    abi: AbiVersion,
    reserved0: byte,
    schema: u16,
    lastFault: u16,
    sessionId: u32,
    tokenCount: u32,
    sliceId: u32,
    liveness: Counters)

  datatype ContinuationError =
    | HeaderTruncated(observed: nat)
    | TailTruncated(expectedTail: u32, observed: nat)
    | TailLengthMismatch(expectedTail: u32, observed: nat)
    | BadAbi(observedAbi: AbiVersion)
    | UnknownFaultCodeInLastFault(raw: u16)
    | BadSchemaVersion(observedSchema: u16)
    | ContinuationNonZeroReserved(offset: nat, value: byte)

  /** `InferenceStateHeader::new`. */
  function NewHeader(schema: u16, sessionId: u32, threshold: u16): Header
  {
    Header(CURRENT_ABI, 0, schema, 0, sessionId, 0, 0, Fresh(threshold))
  }

  /** `FaultCodeOptional::decode`: zero is no fault, not the fault with code zero. */
  function DecodeLastFault(raw: u16): Result<Option<FaultCode>, u16>
  {
    if raw == 0 then Ok(None)
    else
      var code := CodeFromU16(raw);
      if code.Some? then Ok(Some(code.value)) else Err(raw)
  }

  /** `FaultCodeOptional::from_option`. */
  function LastFaultFrom(code: Option<FaultCode>): u16
  {
    if code.Some? then RawCode(code.value) else 0
  }

  /** The sentinel loses the explicit no-fault code, and nothing else. */
  lemma LastFaultRoundTrip(code: Option<FaultCode>)
    ensures DecodeLastFault(LastFaultFrom(code)) == Ok(if code == Some(NoFault) then None else code)
  {
    if code.Some? {
      CodeRoundTrip(code.value);
    }
  }

  /** `InferenceStateHeader::validate`. */
  function ValidateHeader(h: Header): Result<(), ContinuationError>
  {
    if h.abi != CURRENT_ABI then Err(BadAbi(h.abi))
    else if h.reserved0 != 0 then Err(ContinuationNonZeroReserved(3, h.reserved0))
    else if h.schema == 0 then Err(BadSchemaVersion(h.schema))
    else if DecodeLastFault(h.lastFault).Err? then Err(UnknownFaultCodeInLastFault(h.lastFault))
    else if h.liveness.reserved0 != 0 then Err(ContinuationNonZeroReserved(30, h.liveness.reserved0))
    else if h.liveness.reserved1 != 0 then Err(ContinuationNonZeroReserved(31, h.liveness.reserved1))
    else Ok(())
  }

  function EncHeader(h: Header): (bs: seq<byte>)
    ensures |bs| == HEADER_SIZE
  {
    [h.abi.major, h.abi.minor, h.abi.patch, h.reserved0] + EncU16(h.schema) + EncU16(h.lastFault)
    + EncU32(h.sessionId) + EncU32(h.tokenCount) + EncU32(h.sliceId) + EncCounters(h.liveness)
  }

  /** `InferenceStateHeader::to_bytes`, slice by slice into the buffer. */
  method HeaderToBytes(h: Header) returns (out: array<byte>)
    ensures fresh(out) && out[..] == EncHeader(h)
  {
    out := new byte[HEADER_SIZE](_ => 0);
    out[0] := h.abi.major;
    out[1] := h.abi.minor;
    out[2] := h.abi.patch;
    out[3] := h.reserved0;
    assert out[..4] == [h.abi.major, h.abi.minor, h.abi.patch, h.reserved0];
    CopyFromSlice(out, 4, EncU16(h.schema));
    CopyFromSlice(out, 6, EncU16(h.lastFault));
    CopyFromSlice(out, 8, EncU32(h.sessionId));
    CopyFromSlice(out, 12, EncU32(h.tokenCount));
    CopyFromSlice(out, 16, EncU32(h.sliceId));
    CopyFromSlice(out, 20, EncCounters(h.liveness));
    assert out[..HEADER_SIZE] == out[..];
  }

  function ReadHeader(buf: seq<byte>): Header
    requires |buf| >= HEADER_SIZE
  {
    Header(AbiVersion(buf[0], buf[1], buf[2]), buf[3], ToU16(buf[4..6]), ToU16(buf[6..8]),
      ToU32(buf[8..12]), ToU32(buf[12..16]), ToU32(buf[16..20]), DecCounters(buf[20..32]))
  }

  /** `decode_header`. */
  function DecodeHeader(buf: seq<byte>): Result<Header, ContinuationError>
  {
    if |buf| < HEADER_SIZE then Err(HeaderTruncated(|buf|))
    else
      var h := ReadHeader(buf);
      var valid := ValidateHeader(h);
      if valid.Err? then Err(valid.error) else Ok(h)
  }

  /** `split_header_tail`. */
  function SplitHeaderTail(buf: seq<byte>, tail: u32): Result<(Header, seq<byte>), ContinuationError>
  {
    var header := DecodeHeader(buf);
    if header.Err? then Err(header.error)
    else
      var total := HEADER_SIZE + tail;
      if |buf| < total then Err(TailTruncated(tail, |buf| - HEADER_SIZE))
      else if |buf| > total then Err(TailLengthMismatch(tail, |buf| - HEADER_SIZE))
      else Ok((header.value, buf[HEADER_SIZE..total]))
  }

  lemma WriteAfterReadHeader(buf: seq<byte>)
    requires |buf| >= HEADER_SIZE
    ensures EncHeader(ReadHeader(buf)) == buf[..HEADER_SIZE]
  {
  }

  lemma ReadAfterWriteHeader(h: Header, rest: seq<byte>)
    ensures ReadHeader(EncHeader(h) + rest) == h
  {
    var buf := EncHeader(h) + rest;
    assert buf[4..6] == EncU16(h.schema) && buf[6..8] == EncU16(h.lastFault);
    assert buf[8..12] == EncU32(h.sessionId) && buf[12..16] == EncU32(h.tokenCount);
    assert buf[16..20] == EncU32(h.sliceId) && buf[20..32] == EncCounters(h.liveness);
    U16RoundTrip(h.schema);
    U16RoundTrip(h.lastFault);
    U32RoundTrip(h.sessionId);
    U32RoundTrip(h.tokenCount);
    U32RoundTrip(h.sliceId);
    CountersRoundTrip(h.liveness);
  }

  // ---- The verdict, byte by byte ----

  /** Where each field stands in the thirty-two bytes. */
  ghost predicate HasHeader(buf: seq<byte>, h: Header)
    requires |buf| >= 32
  {
    && h.abi == AbiVersion(buf[0], buf[1], buf[2]) && h.reserved0 == buf[3]
    && h.schema == Word16(buf, 4) && h.lastFault == Word16(buf, 6)
    && h.sessionId == Word32(buf, 8) && h.tokenCount == Word32(buf, 12) && h.sliceId == Word32(buf, 16)
    && HasCounters(buf[20..32], h.liveness)
  }

  lemma HeaderIsRead(buf: seq<byte>)
    requires |buf| >= HEADER_SIZE
    ensures HasHeader(buf, ReadHeader(buf))
  {
    SliceU16(buf, 4);
    SliceU16(buf, 6);
    SliceU32(buf, 8);
    SliceU32(buf, 12);
    SliceU32(buf, 16);
    CountersAreRead(buf[20..32]);
  }

  ghost predicate IsFaultCode(word: nat)
  {
    exists code :: RawCode(code) == word
  }

  /** Version 0.1.0. */
  ghost predicate GoodVersion(buf: seq<byte>)
    requires |buf| >= 32
  {
    buf[0] == 0 && buf[1] == 1 && buf[2] == 0
  }

  /** A clean reserved byte, a schema, and no fault or a known one behind the version. */
  ghost predicate GoodFront(buf: seq<byte>)
    requires |buf| >= 32
  {
    && GoodVersion(buf) && buf[3] == 0 && Word16(buf, 4) != 0
    && (Word16(buf, 6) == 0 || IsFaultCode(Word16(buf, 6)))
  }

  ghost predicate GoodHeader(buf: seq<byte>)
    requires |buf| >= 32
  {
    GoodFront(buf) && buf[30] == 0 && buf[31] == 0
  }

  /** What each rejection says about the bytes: the first thing wrong, in the order of the fields. */
  ghost predicate ExplainsSplit(error: ContinuationError, buf: seq<byte>, tail: u32)
  {
    if |buf| < 32 then error == HeaderTruncated(|buf|) else
    match error
    case HeaderTruncated(_) => false
    case BadAbi(observed) => observed == AbiVersion(buf[0], buf[1], buf[2]) && !GoodVersion(buf)
    case ContinuationNonZeroReserved(offset, value) =>
      || (offset == 3 && GoodVersion(buf) && buf[3] == value != 0)
      || (offset == 30 && GoodFront(buf) && buf[30] == value != 0)
      || (offset == 31 && GoodFront(buf) && buf[30] == 0 && buf[31] == value != 0)
    case BadSchemaVersion(observed) => GoodVersion(buf) && buf[3] == 0 && observed == 0 == buf[4] == buf[5]
    case UnknownFaultCodeInLastFault(raw) =>
      GoodVersion(buf) && buf[3] == 0 && Word16(buf, 4) != 0 && raw == Word16(buf, 6) && raw != 0 && !IsFaultCode(raw)
    case TailTruncated(expected, observed) =>
      GoodHeader(buf) && expected == tail && observed == |buf| - 32 && observed < tail
    case TailLengthMismatch(expected, observed) =>
      GoodHeader(buf) && expected == tail && observed == |buf| - 32 && observed > tail
  }

  lemma KnownFaultWords(raw: u16)
    ensures DecodeLastFault(raw).Ok? <==> raw == 0 || IsFaultCode(raw)
  {
    if code :| RawCode(code) == raw {
      CodeRoundTrip(code);
    }
  }

  lemma ReadHeaderIsValid(buf: seq<byte>)
    requires |buf| >= HEADER_SIZE
    ensures ValidateHeader(ReadHeader(buf)).Ok? <==> GoodHeader(buf)
  {
    HeaderIsRead(buf);
    KnownFaultWords(ReadHeader(buf).lastFault);
  }

  /** A header decodes exactly from the buffers that start with good bytes, and those are the bytes it encodes to. */
  lemma HeaderCodec(buf: seq<byte>, h: Header)
    ensures DecodeHeader(buf) == Ok(h) <==> |buf| >= 32 && GoodHeader(buf) && buf[..32] == EncHeader(h)
  {
    if |buf| >= HEADER_SIZE {
      WriteAfterReadHeader(buf);
      ReadHeaderIsValid(buf);
      assert buf == buf[..HEADER_SIZE] + buf[HEADER_SIZE..];
      if buf[..32] == EncHeader(h) {
        ReadAfterWriteHeader(h, buf[HEADER_SIZE..]);
      }
    }
  }

  /**
    Splitting succeeds exactly on a good header's bytes followed by a tail of the
    expected length, and the two parts reassemble the buffer.
   */
  lemma ContinuationCodec(buf: seq<byte>, tail: u32, h: Header, rest: seq<byte>)
    ensures SplitHeaderTail(buf, tail) == Ok((h, rest)) <==>
      |rest| == tail && buf == EncHeader(h) + rest && GoodHeader(buf)
  {
    HeaderCodec(buf, h);
    if SplitHeaderTail(buf, tail) == Ok((h, rest)) {
      assert buf == buf[..HEADER_SIZE] + rest;
    }
    if buf == EncHeader(h) + rest {
      assert buf[..HEADER_SIZE] == EncHeader(h);
      assert buf[HEADER_SIZE..HEADER_SIZE + |rest|] == rest;
    }
  }

  lemma SplitChecks(buf: seq<byte>, tail: u32)
    ensures var r := SplitHeaderTail(buf, tail);
      && (r.Ok? <==> |buf| == 32 + tail && GoodHeader(buf))
      && (r.Err? ==> ExplainsSplit(r.error, buf, tail))
  {
    if |buf| >= HEADER_SIZE {
      HeaderIsRead(buf);
      KnownFaultWords(ReadHeader(buf).lastFault);
    }
  }

  /**
    Splitting succeeds exactly on thirty-two good header bytes with a tail of the
    expected length behind them, and then returns the fields where they stand
    and the rest; otherwise it names what is wrong with the bytes.
   */
  lemma SplitSucceedsExactly(buf: seq<byte>, tail: u32)
    ensures SplitHeaderTail(buf, tail).Ok? <==> |buf| == 32 + tail && GoodHeader(buf)
    ensures SplitHeaderTail(buf, tail).Ok? ==>
      var (h, rest) := SplitHeaderTail(buf, tail).value;
      HasHeader(buf, h) && rest == buf[32..]
    ensures SplitHeaderTail(buf, tail).Err? ==> ExplainsSplit(SplitHeaderTail(buf, tail).error, buf, tail)
  {
    SplitChecks(buf, tail);
    if |buf| >= HEADER_SIZE {
      HeaderIsRead(buf);
    }
  }

  /** Before its first step a header shows its schema, session and threshold, and nothing else. */
  lemma FreshHeaderBytes(schema: u16, sessionId: u32, threshold: u16)
    ensures
      var bs := EncHeader(NewHeader(schema, sessionId, threshold));
      && bs[..4] == [0, 1, 0, 0] && Word16(bs, 4) == schema && Word16(bs, 6) == 0
      && Word32(bs, 8) == sessionId && Word32(bs, 12) == 0 && Word32(bs, 16) == 0
      && HasCounters(bs[20..32], Counters(0, 0, 0, threshold, 0, 0))
  {
    var h := NewHeader(schema, sessionId, threshold);
    var bs := EncHeader(h);
    assert bs + [] == bs;
    ReadAfterWriteHeader(h, []);
    HeaderIsRead(bs);
    assert bs[..4] == [bs[0], bs[1], bs[2], bs[3]];
  }

  /** A fresh header of a non-zero schema survives every run of its counters, with any tail. */
  lemma FreshHeaderRoundTrips(schema: u16, sessionId: u32, threshold: u16, steps: seq<Step>, rest: seq<byte>)
    requires schema != 0 && |rest| < 0x1_0000_0000
    ensures
      var h := NewHeader(schema, sessionId, threshold);
      var later := h.(liveness := After(h.liveness, steps));
      SplitHeaderTail(EncHeader(later) + rest, |rest|) == Ok((later, rest))
  {
    var h := NewHeader(schema, sessionId, threshold);
    ReservedStaysZero(h.liveness, steps);
    var later := h.(liveness := After(h.liveness, steps));
    var buf := EncHeader(later) + rest;
    ReadAfterWriteHeader(later, rest);
    ReadHeaderIsValid(buf);
    ContinuationCodec(buf, |rest|, later, rest);
  }
}
