/**
  The Project Gutenberg corpus manifest: per-book provenance and the counts that
  partition the books into train, validation and dropped.

  Floats are `Finite` reals or `NotFinite`.  The pinned text literals of the
  manifest and of its records enter as booleans saying whether they match.
 */
module GutenbergManifest {
  import opened Bytes
  import opened Ordering
  import opened Wrappers

  const MIN_SPLIT_BYTE_LENGTH: nat := 128
  const TRAIN_FRACTION: F64 := Finite(0.9)
  const VAL_FRACTION: F64 := Finite(0.1)
  const UNMAPPABLE_RATE_MAX: real := 0.005
  const U32_LIMIT: nat := 0x1_0000_0000

  datatype F64 = Finite(value: real) | NotFinite

  type Hash = s: seq<byte> | |s| == 32 witness seq(32, _ => 0)

  function ZeroHash(): Hash { seq(32, _ => 0) }

  datatype Compression = Uncompressed | Gzip | Zip

  datatype Split = Train | Val

  datatype DropReason =
    | NoSupportedPlaintextFormat
    | NoPlaintextArchiveMember
    | GutenbergMarkerMissing
    | SourceDecodeFailed
    | InvalidUtf8
    | AmbiguousPlaintextArchive
    | EmptyAfterStrip
    | UnmappableDensityHigh
    | DedupCollision

  datatype Source = Source(
    bookId: u32,
    licenseMatches: bool,
    mirrorFetchUrl: Option<Text>,
    mirrorSnapshotId: Option<Text>,
    selectedFormat: Option<Text>,
    sourceBlobSha256: Option<Hash>,
    preStripUtf8Sha256: Option<Hash>,
    compressionKind: Option<Compression>,
    archiveMemberPath: Option<Text>,
    preStripByteLength: Option<u64>,
    dropReason: Option<DropReason>,
    duplicateOf: Option<u32>,
    postStripByteLength: Option<u64>,
    postStripSha256: Option<Hash>,
    postCharsetBodySha256: Option<Hash>,
    postCharsetTokenLength: Option<u64>,
    unmappableCount: Option<u64>,
    unmappableDensity: Option<F64>,
    split: Option<Split>)

  /** The nine per-reason counts a manifest declares. */
  datatype DropCounts = DropCounts(
    noSupportedPlaintextFormat: u32,
    noPlaintextArchiveMember: u32,
    sourceDecodeFailed: u32,
    ambiguousPlaintextArchive: u32,
    invalidUtf8: u32,
    emptyAfterStrip: u32,
    markerMissing: u32,
    unmappableDensity: u32,
    dedupCollision: u32)

  datatype Manifest = Manifest(
    schemaMatches: bool,
    sourceNameMatches: bool,
    dedupPolicyMatches: bool,
    rawBytePolicyMatches: bool,
    bookIds: seq<u32>,
    sources: seq<Source>,
    splitSeed: Text,
    splitTrainFraction: F64,
    splitValFraction: F64,
    trainByteLength: u64,
    valByteLength: u64,
    trainBookCount: u32,
    valBookCount: u32,
    dropCountTotal: u32,
    dropCounts: DropCounts,
    unmappableRateCorpus: F64,
    retainedBookCountMin: u32)

  datatype ManifestError =
    | InvalidLiteral
    | InvalidSplitFraction(observed: F64)
    | InvalidRetainedBookCountMin
    | InvalidSplitByteLength(length: u64)
    | RetainedBookCountOverflow(train: u32, val: u32)
    | RetainedBookCountBelowFloor(retained: nat, floor: u32)
    | InvalidUnmappableRateCorpus(rate: F64)
    | InvalidSplitSeed
    | BookIdsNotSorted
    | BookIdsContainDuplicate(id: u32)
    | SourceCountMismatch(books: nat, records: nat)
    | SourceBookIdMismatch(expectedId: u32, observedId: u32)
    | InvalidUnmappableDensity(id: u32)
    | RetainedSourceMissingSplit(id: u32)
    | DroppedSourceHasSplit(id: u32)
    | DedupDropMissingDuplicate(id: u32)
    | UnexpectedDuplicateOfBookId(id: u32)
    | RetainedSourceMissingField(id: u32)
    | DropReasonFieldInvalid(id: u32, reason: DropReason)
    | CountOverflow(actual: nat)
    | DropCountMismatch(expectedCount: u32, observedCount: u32)

  // ---- One source ----

  /** `validate_retained_source_required_fields`. */
  predicate RetainedFieldsPresent(s: Source)
  {
    && s.selectedFormat.Some? && s.sourceBlobSha256.Some? && s.preStripUtf8Sha256.Some?
    && s.compressionKind.Some? && s.preStripByteLength.Some? && s.postStripByteLength.Some?
    && s.postStripSha256.Some? && s.postCharsetBodySha256.Some? && s.postCharsetTokenLength.Some?
    && s.unmappableCount.Some? && s.unmappableDensity.Some?
  }

  /** `validate_dropped_source_g_ok_12`: how far provenance got decides which fields are set. */
  predicate DroppedFieldsMatch(s: Source, reason: DropReason)
  {
    match reason
    case NoSupportedPlaintextFormat =>
      s.mirrorFetchUrl.None? && s.mirrorSnapshotId.None? && s.selectedFormat.None?
      && s.sourceBlobSha256.None? && s.preStripUtf8Sha256.None? && s.preStripByteLength.None?
    case NoPlaintextArchiveMember | AmbiguousPlaintextArchive =>
      s.sourceBlobSha256.Some? && s.compressionKind == Some(Zip) && s.archiveMemberPath.None?
      && s.preStripUtf8Sha256.None? && s.preStripByteLength.None?
    case SourceDecodeFailed =>
      s.sourceBlobSha256.Some? && s.selectedFormat.Some?
      && s.preStripUtf8Sha256.None? && s.preStripByteLength.None?
    case InvalidUtf8 =>
      s.sourceBlobSha256.Some? && s.selectedFormat.Some?
      && (s.preStripUtf8Sha256.Some? <==> s.preStripByteLength.Some?)
    case GutenbergMarkerMissing | EmptyAfterStrip | UnmappableDensityHigh | DedupCollision =>
      s.sourceBlobSha256.Some? && s.selectedFormat.Some?
      && s.preStripUtf8Sha256.Some? && s.preStripByteLength.Some?
  }

  predicate DensityInRange(density: Option<F64>)
  {
    density.Some? ==> density.value.Finite? && 0.0 <= density.value.value <= 1.0
  }

  /** `GutenbergSourceRecord::validate`. */
  function ValidateSource(s: Source): (r: Result<(), ManifestError>)
    ensures r.Ok? ==> (s.dropReason.None? <==> s.split.Some?)
    ensures r.Ok? ==> (s.duplicateOf.Some? <==> s.dropReason == Some(DedupCollision))
  {
    if !s.licenseMatches then Err(InvalidLiteral)
    else if !DensityInRange(s.unmappableDensity) then Err(InvalidUnmappableDensity(s.bookId))
    else if s.dropReason.None? && s.split.None? then Err(RetainedSourceMissingSplit(s.bookId))
    else if s.dropReason.Some? && s.split.Some? then Err(DroppedSourceHasSplit(s.bookId))
    else if s.dropReason == Some(DedupCollision) && s.duplicateOf.None? then Err(DedupDropMissingDuplicate(s.bookId))
    else if s.dropReason != Some(DedupCollision) && s.duplicateOf.Some? then Err(UnexpectedDuplicateOfBookId(s.bookId))
    else if s.dropReason.None? then
      if RetainedFieldsPresent(s) then Ok(()) else Err(RetainedSourceMissingField(s.bookId))
    else if DroppedFieldsMatch(s, s.dropReason.value) then Ok(())
    else Err(DropReasonFieldInvalid(s.bookId, s.dropReason.value))
  }

  /** The density, where recorded, is a number from 0 to 1. */
  ghost predicate DensityAllowed(density: Option<F64>)
  {
    density == None || exists d: real :: density == Some(Finite(d)) && 0.0 <= d && d <= 1.0
  }

  /** The book was given up before its text was found in an archive. */
  ghost predicate LostInArchive(fate: Option<DropReason>)
  {
    fate in {Some(NoPlaintextArchiveMember), Some(AmbiguousPlaintextArchive)}
  }

  /** The text was decoded: the book is retained, or dropped for what the text is. */
  ghost predicate TextWasRead(fate: Option<DropReason>)
  {
    fate == None || fate.value in {GutenbergMarkerMissing, EmptyAfterStrip, UnmappableDensityHigh, DedupCollision}
  }

  /** Field by field, the fates that call for the field and those that forbid it. */
  ghost predicate FieldsFit(s: Source)
  {
    var fate := s.dropReason;
    && (fate == Some(NoSupportedPlaintextFormat) ==> s.mirrorFetchUrl == None && s.mirrorSnapshotId == None)
    && (s.sourceBlobSha256 == None <==> fate == Some(NoSupportedPlaintextFormat))
    && (fate == Some(NoSupportedPlaintextFormat) ==> s.selectedFormat == None)
    && (TextWasRead(fate) || fate in {Some(SourceDecodeFailed), Some(InvalidUtf8)} ==> s.selectedFormat != None)
    && (LostInArchive(fate) ==> s.compressionKind == Some(Zip) && s.archiveMemberPath == None)
    && (s.preStripUtf8Sha256 == None <==> s.preStripByteLength == None)
    && (fate != Some(InvalidUtf8) ==> (s.preStripUtf8Sha256 == None <==> !TextWasRead(fate)))
    && (fate == None ==>
          && s.compressionKind != None && s.postStripByteLength != None && s.postStripSha256 != None
          && s.postCharsetBodySha256 != None && s.postCharsetTokenLength != None
          && s.unmappableCount != None && s.unmappableDensity != None)
  }

  ghost predicate SourceAccepted(s: Source)
  {
    && s.licenseMatches && DensityAllowed(s.unmappableDensity)
    && (s.split == None <==> s.dropReason != None)
    && (s.duplicateOf == None <==> s.dropReason != Some(DedupCollision))
    && FieldsFit(s)
  }

  /** What each rejection says about the record. */
  ghost predicate ExplainsSource(error: ManifestError, s: Source)
  {
    || (error == InvalidLiteral && !s.licenseMatches)
    || (error == InvalidUnmappableDensity(s.bookId) && !DensityAllowed(s.unmappableDensity))
    || (error == RetainedSourceMissingSplit(s.bookId) && s.dropReason == None && s.split == None)
    || (error == DroppedSourceHasSplit(s.bookId) && s.dropReason != None && s.split != None)
    || (error == DedupDropMissingDuplicate(s.bookId) && s.dropReason == Some(DedupCollision) && s.duplicateOf == None)
    || (error == UnexpectedDuplicateOfBookId(s.bookId) && s.dropReason != Some(DedupCollision) && s.duplicateOf != None)
    || (error == RetainedSourceMissingField(s.bookId) && s.dropReason == None && !FieldsFit(s))
    || (s.dropReason.Some? && error == DropReasonFieldInvalid(s.bookId, s.dropReason.value) && !FieldsFit(s))
  }

  lemma DensityMeans(density: Option<F64>)
    ensures DensityInRange(density) <==> DensityAllowed(density)
  {
    if density.Some? && density.value.Finite? {
      assert density == Some(Finite(density.value.value));
    }
  }

  lemma FieldsMean(s: Source)
    ensures FieldsFit(s) <==>
      if s.dropReason.None? then RetainedFieldsPresent(s) else DroppedFieldsMatch(s, s.dropReason.value)
  {
  }

  /** A record is accepted exactly when its fields fit its fate, and a rejection is true of it. */
  lemma SourceAcceptance(s: Source)
    ensures ValidateSource(s).Ok? <==> SourceAccepted(s)
    ensures ValidateSource(s).Err? ==> ExplainsSource(ValidateSource(s).error, s)
  {
    DensityMeans(s.unmappableDensity);
    FieldsMean(s);
  }

  /** Provenance is recorded in stages: no later stage without the earlier ones. */
  lemma ProvenanceAdvancesInStages(s: Source)
    requires ValidateSource(s).Ok?
    ensures s.sourceBlobSha256.None? <==> s.dropReason == Some(NoSupportedPlaintextFormat)
    ensures s.preStripUtf8Sha256.Some? <==> s.preStripByteLength.Some?
    ensures s.preStripUtf8Sha256.Some? ==> s.selectedFormat.Some? && s.sourceBlobSha256.Some?
    ensures s.split.Some? ==> s.preStripUtf8Sha256.Some? && s.postStripSha256.Some? && s.postCharsetBodySha256.Some?
  {
    if s.dropReason.Some? {
      assert DroppedFieldsMatch(s, s.dropReason.value);
    } else {
      assert RetainedFieldsPresent(s);
    }
  }

  // ---- Book ids and sources ----

  ghost predicate StrictlyAscending(ids: seq<u32>)
  {
    forall i, j :: 0 <= i < j < |ids| ==> ids[i] < ids[j]
  }

  /** `validate_book_ids`: checking neighbours is checking every pair. */
  function ValidateBookIds(ids: seq<u32>): (r: Result<(), ManifestError>)
    ensures r.Ok? <==> StrictlyAscending(ids)
    ensures r.Err? ==> ExplainsIds(r.error, ids)
  {
    if |ids| < 2 then Ok(())
    else if ids[0] == ids[1] then Err(BookIdsContainDuplicate(ids[1]))
    else if ids[0] > ids[1] then Err(BookIdsNotSorted)
    else
      var rest := ValidateBookIds(ids[1..]);
      assert StrictlyAscending(ids[1..]) ==> StrictlyAscending(ids) by {
        AscendingFromTail(ids);
      }
      assert rest.Err? ==> ExplainsIds(rest.error, ids) by {
        if rest.Err? {
          ExplainedFromTail(rest.error, ids);
        }
      }
      rest
  }

  /** Two neighbouring ids are the same, or in the wrong order. */
  ghost predicate ExplainsIds(error: ManifestError, ids: seq<u32>)
  {
    match error
    case BookIdsContainDuplicate(id) => exists i :: 0 <= i < |ids| - 1 && ids[i] == id == ids[i + 1]
    case BookIdsNotSorted => exists i :: 0 <= i < |ids| - 1 && ids[i] > ids[i + 1]
    case _ => false
  }

  lemma ExplainedFromTail(error: ManifestError, ids: seq<u32>)
    requires ids != [] && ExplainsIds(error, ids[1..])
    ensures ExplainsIds(error, ids)
  {
    var rest := ids[1..];
    assert forall i :: 0 <= i < |rest| ==> rest[i] == ids[i + 1];
    if error.BookIdsNotSorted? {
      var i :| 0 <= i < |rest| - 1 && rest[i] > rest[i + 1];
      assert ids[i + 1] > ids[i + 2];
    } else {
      var i :| 0 <= i < |rest| - 1 && rest[i] == error.id == rest[i + 1];
      assert ids[i + 1] == error.id == ids[i + 2];
    }
  }

  lemma AscendingFromTail(ids: seq<u32>)
    requires |ids| >= 2 && ids[0] < ids[1]
    ensures StrictlyAscending(ids[1..]) ==> StrictlyAscending(ids)
  {
    if StrictlyAscending(ids[1..]) {
      forall i, j | 0 <= i < j < |ids| ensures ids[i] < ids[j] {
        assert ids[j] == ids[1..][j - 1];
        if i > 0 {
          assert ids[i] == ids[1..][i - 1];
        } else if j > 1 {
          assert ids[1] == ids[1..][0];
        }
      }
    }
  }

  ghost predicate SourcesMatch(ids: seq<u32>, sources: seq<Source>)
  {
    && |ids| == |sources|
    && forall i :: 0 <= i < |ids| ==> sources[i].bookId == ids[i] && ValidateSource(sources[i]).Ok?
  }

  /** The zipped loop of `validate_sources`. */
  function ValidatePairs(ids: seq<u32>, sources: seq<Source>): (r: Result<(), ManifestError>)
    requires |ids| == |sources|
    ensures r.Ok? <==> SourcesMatch(ids, sources)
    ensures r.Err? ==> ExplainsPairs(r.error, ids, sources)
  {
    if ids == [] then Ok(())
    else if sources[0].bookId != ids[0] then Err(SourceBookIdMismatch(ids[0], sources[0].bookId))
    else
      var first := ValidateSource(sources[0]);
      if first.Err? then first
      else
        var rest := ValidatePairs(ids[1..], sources[1..]);
        assert SourcesMatch(ids, sources) <==> SourcesMatch(ids[1..], sources[1..]) by {
          MatchFromTail(ids, sources);
        }
        assert rest.Err? ==> ExplainsPairs(rest.error, ids, sources) by {
          if rest.Err? {
            PairFromTail(rest.error, ids, sources);
          }
        }
        rest
  }

  /** Some record has another id than its place calls for, or is rejected with this error. */
  ghost predicate ExplainsPairs(error: ManifestError, ids: seq<u32>, sources: seq<Source>)
    requires |ids| == |sources|
  {
    exists i :: 0 <= i < |ids| && ExplainsPair(error, ids[i], sources[i])
  }

  ghost predicate ExplainsPair(error: ManifestError, id: u32, s: Source)
  {
    || (error == SourceBookIdMismatch(id, s.bookId) && s.bookId != id)
    || (s.bookId == id && ValidateSource(s) == Err(error))
  }

  lemma PairFromTail(error: ManifestError, ids: seq<u32>, sources: seq<Source>)
    requires |ids| == |sources| > 0 && ExplainsPairs(error, ids[1..], sources[1..])
    ensures ExplainsPairs(error, ids, sources)
  {
    var i :| 0 <= i < |ids| - 1 && ExplainsPair(error, ids[1..][i], sources[1..][i]);
    assert ids[1..][i] == ids[i + 1] && sources[1..][i] == sources[i + 1];
  }

  lemma MatchFromTail(ids: seq<u32>, sources: seq<Source>)
    requires |ids| == |sources| > 0
    requires sources[0].bookId == ids[0] && ValidateSource(sources[0]).Ok?
    ensures SourcesMatch(ids, sources) <==> SourcesMatch(ids[1..], sources[1..])
  {
    if SourcesMatch(ids[1..], sources[1..]) {
      forall i | 0 <= i < |ids| ensures sources[i].bookId == ids[i] && ValidateSource(sources[i]).Ok? {
        if i > 0 {
          assert sources[i] == sources[1..][i - 1] && ids[i] == ids[1..][i - 1];
        }
      }
    }
  }

  /** `validate_sources`. */
  function ValidateSources(ids: seq<u32>, sources: seq<Source>): (r: Result<(), ManifestError>)
    ensures r.Ok? <==> SourcesMatch(ids, sources)
    ensures r.Err? ==>
      if |ids| == |sources| then ExplainsPairs(r.error, ids, sources)
      else r.error == SourceCountMismatch(|ids|, |sources|)
  {
    if |ids| != |sources| then Err(SourceCountMismatch(|ids|, |sources|))
    else ValidatePairs(ids, sources)
  }

  // ---- Counts ----

  predicate Dropped(s: Source) { s.dropReason.Some? }
  predicate InTrain(s: Source) { s.split == Some(Train) }
  predicate InVal(s: Source) { s.split == Some(Val) }

  function DroppedFor(reason: DropReason): Source -> bool
  {
    (s: Source) => s.dropReason == Some(reason)
  }

  /** `iter().filter(p).count()`. */
  function CountIf(sources: seq<Source>, p: Source -> bool): (n: nat)
    ensures n <= |sources|
  {
    if sources == [] then 0 else (if p(sources[0]) then 1 else 0) + CountIf(sources[1..], p)
  }

  /** `checked_source_count` followed by `validate_count`. */
  function CheckCount(actual: nat, declared: u32): Result<(), ManifestError>
  {
    if actual >= U32_LIMIT then Err(CountOverflow(actual))
    else if actual != declared then Err(DropCountMismatch(actual, declared))
    else Ok(())
  }

  function Declared(counts: DropCounts, reason: DropReason): u32
  {
    match reason
    case NoSupportedPlaintextFormat => counts.noSupportedPlaintextFormat
    case NoPlaintextArchiveMember => counts.noPlaintextArchiveMember
    case SourceDecodeFailed => counts.sourceDecodeFailed
    case AmbiguousPlaintextArchive => counts.ambiguousPlaintextArchive
    case InvalidUtf8 => counts.invalidUtf8
    case EmptyAfterStrip => counts.emptyAfterStrip
    case GutenbergMarkerMissing => counts.markerMissing
    case UnmappableDensityHigh => counts.unmappableDensity
    case DedupCollision => counts.dedupCollision
  }

  /** The reasons in the order their counts are checked. */
  const REASONS: seq<DropReason> := [
    NoSupportedPlaintextFormat, NoPlaintextArchiveMember, SourceDecodeFailed, AmbiguousPlaintextArchive,
    InvalidUtf8, EmptyAfterStrip, GutenbergMarkerMissing, UnmappableDensityHigh, DedupCollision]

  predicate CountDeclared(sources: seq<Source>, counts: DropCounts, reason: DropReason)
  {
    CountIf(sources, DroppedFor(reason)) == Declared(counts, reason)
  }

  function CheckReason(sources: seq<Source>, counts: DropCounts, reason: DropReason): Result<(), ManifestError>
  {
    CheckCount(CountIf(sources, DroppedFor(reason)), Declared(counts, reason))
  }

  function CheckReasons(sources: seq<Source>, counts: DropCounts, reasons: seq<DropReason>)
    : (r: Result<(), ManifestError>)
    ensures r.Ok? <==> forall reason :: reason in reasons ==> CountDeclared(sources, counts, reason)
    ensures r.Err? && r.error.CountOverflow? ==> U32_LIMIT <= r.error.actual <= |sources|
    ensures r.Err? ==> exists reason :: CheckReason(sources, counts, reason) == r
  {
    if reasons == [] then Ok(())
    else
      var first := CheckReason(sources, counts, reasons[0]);
      if first.Err? then
        assert !CountDeclared(sources, counts, reasons[0]);
        first
      else
        assert reasons == [reasons[0]] + reasons[1..];
        CheckReasons(sources, counts, reasons[1..])
  }

  /** `validate_drop_counts`. */
  function ValidateDropCounts(m: Manifest): Result<(), ManifestError>
  {
    var total := CheckCount(CountIf(m.sources, Dropped), m.dropCountTotal);
    if total.Err? then total
    else
      var train := CheckCount(CountIf(m.sources, InTrain), m.trainBookCount);
      if train.Err? then train
      else
        var val := CheckCount(CountIf(m.sources, InVal), m.valBookCount);
        if val.Err? then val else CheckReasons(m.sources, m.dropCounts, REASONS)
  }

  // ---- The manifest ----

  predicate IsLowerHex32(text: Text)
  {
    |text| == 32 && forall i :: 0 <= i < |text| ==> 0x30 <= text[i] <= 0x39 || 0x61 <= text[i] <= 0x66
  }

  predicate RateInRange(rate: F64) { rate.Finite? && 0.0 <= rate.value <= UNMAPPABLE_RATE_MAX }

  /** The checks of `validate_structure` that precede books and sources. */
  function ValidateHeader(m: Manifest): Result<(), ManifestError>
  {
    if !m.schemaMatches || !m.sourceNameMatches || !m.dedupPolicyMatches || !m.rawBytePolicyMatches then
      Err(InvalidLiteral)
    else if m.splitTrainFraction != TRAIN_FRACTION then Err(InvalidSplitFraction(m.splitTrainFraction))
    else if m.splitValFraction != VAL_FRACTION then Err(InvalidSplitFraction(m.splitValFraction))
    else if m.retainedBookCountMin == 0 then Err(InvalidRetainedBookCountMin)
    else if m.trainByteLength < MIN_SPLIT_BYTE_LENGTH then Err(InvalidSplitByteLength(m.trainByteLength))
    else if m.valByteLength < MIN_SPLIT_BYTE_LENGTH then Err(InvalidSplitByteLength(m.valByteLength))
    else if m.trainBookCount + m.valBookCount >= U32_LIMIT then
      Err(RetainedBookCountOverflow(m.trainBookCount, m.valBookCount))
    else if m.trainBookCount + m.valBookCount < m.retainedBookCountMin then
      Err(RetainedBookCountBelowFloor(m.trainBookCount + m.valBookCount, m.retainedBookCountMin))
    else if !RateInRange(m.unmappableRateCorpus) then Err(InvalidUnmappableRateCorpus(m.unmappableRateCorpus))
    else if !IsLowerHex32(m.splitSeed) then Err(InvalidSplitSeed)
    else Ok(())
  }

  ghost predicate IsLowerHexDigit(b: byte)
  {
    b in Ascii("0123456789abcdef")
  }

  ghost predicate HeaderAccepted(m: Manifest)
  {
    && m.schemaMatches && m.sourceNameMatches && m.dedupPolicyMatches && m.rawBytePolicyMatches
    && m.splitTrainFraction == Finite(0.9) && m.splitValFraction == Finite(0.1)
    && m.trainByteLength >= 128 && m.valByteLength >= 128
    && 1 <= m.retainedBookCountMin <= m.trainBookCount + m.valBookCount <= 0xffff_ffff
    && (exists rate: real :: m.unmappableRateCorpus == Finite(rate) && 0.0 <= rate && rate <= 0.005)
    && |m.splitSeed| == 32 && forall b :: b in m.splitSeed ==> IsLowerHexDigit(b)
  }

  /** What each rejection says about the header. */
  ghost predicate ExplainsHeader(error: ManifestError, m: Manifest)
  {
    match error
    case InvalidLiteral =>
      !(m.schemaMatches && m.sourceNameMatches && m.dedupPolicyMatches && m.rawBytePolicyMatches)
    case InvalidSplitFraction(observed) =>
      || (observed == m.splitTrainFraction && observed != Finite(0.9))
      || (observed == m.splitValFraction && observed != Finite(0.1))
    case InvalidRetainedBookCountMin => m.retainedBookCountMin == 0
    case InvalidSplitByteLength(length) => length in {m.trainByteLength, m.valByteLength} && length < 128
    case RetainedBookCountOverflow(train, val) =>
      train == m.trainBookCount && val == m.valBookCount && train + val > 0xffff_ffff
    case RetainedBookCountBelowFloor(retained, floor) =>
      retained == m.trainBookCount + m.valBookCount && floor == m.retainedBookCountMin && retained < floor
    case InvalidUnmappableRateCorpus(rate) =>
      rate == m.unmappableRateCorpus && !(rate.Finite? && 0.0 <= rate.value && rate.value <= 0.005)
    case InvalidSplitSeed => |m.splitSeed| != 32 || exists b :: b in m.splitSeed && !IsLowerHexDigit(b)
    case _ => false
  }

  lemma HexDigits(b: byte)
    ensures IsLowerHexDigit(b) <==> 0x30 <= b <= 0x39 || 0x61 <= b <= 0x66
  {
    var digits: seq<byte> :=
      [0x30, 0x31, 0x32, 0x33, 0x34, 0x35, 0x36, 0x37, 0x38, 0x39, 0x61, 0x62, 0x63, 0x64, 0x65, 0x66];
    assert Ascii("0123456789abcdef") == digits;
    if b < 0x3a {
      assert 0x30 <= b ==> digits[b - 0x30] == b;
    } else {
      assert 0x61 <= b <= 0x66 ==> digits[b - 0x57] == b;
    }
  }

  /** The header is accepted exactly when it carries the pinned values, and a rejection is true of it. */
  lemma HeaderAcceptance(m: Manifest)
    ensures ValidateHeader(m).Ok? <==> HeaderAccepted(m)
    ensures ValidateHeader(m).Err? ==> ExplainsHeader(ValidateHeader(m).error, m)
  {
    forall b: byte ensures IsLowerHexDigit(b) <==> 0x30 <= b <= 0x39 || 0x61 <= b <= 0x66 {
      HexDigits(b);
    }
    SeedMeans(m.splitSeed);
    RateMeans(m.unmappableRateCorpus);
  }

  lemma SeedMeans(text: Text)
    ensures IsLowerHex32(text) <==> |text| == 32 && forall b :: b in text ==> IsLowerHexDigit(b)
  {
    forall i | 0 <= i < |text|
      ensures IsLowerHexDigit(text[i]) <==> 0x30 <= text[i] <= 0x39 || 0x61 <= text[i] <= 0x66
    {
      HexDigits(text[i]);
    }
  }

  lemma RateMeans(rate: F64)
    ensures RateInRange(rate) <==> exists r: real :: rate == Finite(r) && 0.0 <= r && r <= 0.005
  {
    if RateInRange(rate) {
      assert rate == Finite(rate.value);
    }
  }

  /** `validate_structure`. */
  function ValidateStructure(m: Manifest): Result<(), ManifestError>
  {
    var header := ValidateHeader(m);
    if header.Err? then header
    else
      var ids := ValidateBookIds(m.bookIds);
      if ids.Err? then ids
      else
        var sources := ValidateSources(m.bookIds, m.sources);
        if sources.Err? then sources else ValidateDropCounts(m)
  }

  // ---- Theory ----

  ghost predicate AllValid(sources: seq<Source>)
  {
    forall i :: 0 <= i < |sources| ==> ValidateSource(sources[i]).Ok?
  }

  /** Every valid source is in exactly one of train, validation and dropped. */
  lemma {:induction false} FatesPartition(sources: seq<Source>)
    requires AllValid(sources)
    ensures CountIf(sources, InTrain) + CountIf(sources, InVal) + CountIf(sources, Dropped) == |sources|
  {
    if sources != [] {
      assert AllValid(sources[1..]);
      FatesPartition(sources[1..]);
      var first := sources[0];
      assert ValidateSource(first).Ok?;
      if first.split.Some? {
        match first.split.value
        case Train => assert InTrain(first) && !InVal(first);
        case Val => assert InVal(first) && !InTrain(first);
      }
    }
  }

  function SumReasons(sources: seq<Source>, reasons: seq<DropReason>): nat
  {
    if reasons == [] then 0 else CountIf(sources, DroppedFor(reasons[0])) + SumReasons(sources, reasons[1..])
  }

  lemma {:induction false} NoSourcesNoReasons(reasons: seq<DropReason>)
    ensures SumReasons([], reasons) == 0
  {
    if reasons != [] {
      NoSourcesNoReasons(reasons[1..]);
    }
  }

  lemma {:induction false} SumReasonsStep(sources: seq<Source>, reasons: seq<DropReason>)
    requires sources != []
    ensures SumReasons(sources, reasons) == SumReasons(sources[1..], reasons) +
      if Dropped(sources[0]) then multiset(reasons)[sources[0].dropReason.value] else 0
  {
    if reasons != [] {
      SumReasonsStep(sources, reasons[1..]);
      assert reasons == [reasons[0]] + reasons[1..];
    }
  }

  lemma EachReasonOnce(reason: DropReason)
    ensures multiset(REASONS)[reason] == 1
  {
  }

  /** The nine reasons partition the dropped sources. */
  lemma {:induction false} ReasonsPartition(sources: seq<Source>)
    ensures SumReasons(sources, REASONS) == CountIf(sources, Dropped)
  {
    if sources == [] {
      NoSourcesNoReasons(REASONS);
    } else {
      SumReasonsStep(sources, REASONS);
      ReasonsPartition(sources[1..]);
      if Dropped(sources[0]) {
        EachReasonOnce(sources[0].dropReason.value);
      }
    }
  }

  /** `validate_structure` read as one statement about the manifest. */
  ghost predicate Accounted(m: Manifest)
  {
    && StrictlyAscending(m.bookIds) && SourcesMatch(m.bookIds, m.sources)
    && m.dropCountTotal == CountIf(m.sources, Dropped)
    && m.trainBookCount == CountIf(m.sources, InTrain)
    && m.valBookCount == CountIf(m.sources, InVal)
    && forall reason :: CountDeclared(m.sources, m.dropCounts, reason)
  }

  lemma AcceptedIsAccounted(m: Manifest)
    ensures ValidateStructure(m).Ok? <==> ValidateHeader(m).Ok? && Accounted(m)
  {
    forall reason: DropReason ensures reason in REASONS {
      EachReasonListed(reason);
    }
  }

  // ---- Acceptance, with sets ----

  ghost function DroppedBooks(sources: seq<Source>, reason: DropReason): set<nat>
  {
    set i: nat | i < |sources| && sources[i].dropReason == Some(reason)
  }

  ghost function SplitBooks(sources: seq<Source>, split: Split): set<nat>
  {
    set i: nat | i < |sources| && sources[i].split == Some(split)
  }

  ghost function AllDropped(sources: seq<Source>): set<nat>
  {
    set i: nat | i < |sources| && sources[i].dropReason != None
  }

  /** Each of the nine declared counts is the given number for its reason. */
  ghost predicate DropsAre(c: DropCounts, number: DropReason -> nat)
  {
    && c.noSupportedPlaintextFormat == number(NoSupportedPlaintextFormat)
    && c.noPlaintextArchiveMember == number(NoPlaintextArchiveMember)
    && c.sourceDecodeFailed == number(SourceDecodeFailed)
    && c.ambiguousPlaintextArchive == number(AmbiguousPlaintextArchive)
    && c.invalidUtf8 == number(InvalidUtf8)
    && c.emptyAfterStrip == number(EmptyAfterStrip)
    && c.markerMissing == number(GutenbergMarkerMissing)
    && c.unmappableDensity == number(UnmappableDensityHigh)
    && c.dedupCollision == number(DedupCollision)
  }

  /** How many books are dropped for a reason. */
  ghost function DroppedBookCount(sources: seq<Source>): DropReason -> nat
  {
    reason => |DroppedBooks(sources, reason)|
  }

  ghost predicate CountsTrue(m: Manifest)
  {
    && m.dropCountTotal == |AllDropped(m.sources)|
    && m.trainBookCount == |SplitBooks(m.sources, Train)|
    && m.valBookCount == |SplitBooks(m.sources, Val)|
    && DropsAre(m.dropCounts, DroppedBookCount(m.sources))
  }

  ghost predicate ManifestAccepted(m: Manifest)
  {
    && HeaderAccepted(m)
    && StrictlyAscending(m.bookIds) && |m.bookIds| == |m.sources|
    && (forall i :: 0 <= i < |m.sources| ==> m.sources[i].bookId == m.bookIds[i] && SourceAccepted(m.sources[i]))
    && CountsTrue(m)
  }

  lemma {:induction false} CountIsCardinality(sources: seq<Source>, p: Source -> bool, k: nat)
    requires k <= |sources|
    ensures CountIf(sources[k..], p) == |set i: nat | k <= i < |sources| && p(sources[i])|
    decreases |sources| - k
  {
    var here := set i: nat | k <= i < |sources| && p(sources[i]);
    if k < |sources| {
      CountIsCardinality(sources, p, k + 1);
      var rest := set i: nat | k + 1 <= i < |sources| && p(sources[i]);
      assert sources[k..][1..] == sources[k + 1..];
      assert here == rest + if p(sources[k]) then {k} else {};
    } else {
      assert here == {};
    }
  }

  lemma CountOfBooks(sources: seq<Source>, p: Source -> bool, books: set<nat>)
    requires forall i: nat :: i in books <==> i < |sources| && p(sources[i])
    ensures CountIf(sources, p) == |books|
  {
    CountIsCardinality(sources, p, 0);
    assert sources[0..] == sources;
    assert books == set i: nat | 0 <= i < |sources| && p(sources[i]);
  }

  lemma CountOfDropped(sources: seq<Source>, reason: DropReason)
    ensures CountIf(sources, DroppedFor(reason)) == |DroppedBooks(sources, reason)|
  {
    CountOfBooks(sources, DroppedFor(reason), DroppedBooks(sources, reason));
  }

  lemma TotalCounts(sources: seq<Source>)
    ensures CountIf(sources, Dropped) == |AllDropped(sources)|
    ensures CountIf(sources, InTrain) == |SplitBooks(sources, Train)|
    ensures CountIf(sources, InVal) == |SplitBooks(sources, Val)|
  {
    CountOfBooks(sources, Dropped, AllDropped(sources));
    CountOfBooks(sources, InTrain, SplitBooks(sources, Train));
    CountOfBooks(sources, InVal, SplitBooks(sources, Val));
  }

  ghost predicate DropsDeclared(m: Manifest)
  {
    forall reason :: CountDeclared(m.sources, m.dropCounts, reason)
  }

  lemma DeclaredAre(c: DropCounts, number: DropReason -> nat)
    ensures DropsAre(c, number) <==> forall reason :: Declared(c, reason) == number(reason)
  {
    if forall reason :: Declared(c, reason) == number(reason) {
      assert Declared(c, NoSupportedPlaintextFormat) == number(NoSupportedPlaintextFormat);
      assert Declared(c, NoPlaintextArchiveMember) == number(NoPlaintextArchiveMember);
      assert Declared(c, SourceDecodeFailed) == number(SourceDecodeFailed);
      assert Declared(c, AmbiguousPlaintextArchive) == number(AmbiguousPlaintextArchive);
      assert Declared(c, InvalidUtf8) == number(InvalidUtf8);
      assert Declared(c, EmptyAfterStrip) == number(EmptyAfterStrip);
      assert Declared(c, GutenbergMarkerMissing) == number(GutenbergMarkerMissing);
      assert Declared(c, UnmappableDensityHigh) == number(UnmappableDensityHigh);
      assert Declared(c, DedupCollision) == number(DedupCollision);
    }
  }

  lemma DropsAreCounted(m: Manifest)
    ensures DropsDeclared(m) <==> DropsAre(m.dropCounts, DroppedBookCount(m.sources))
  {
    var number := DroppedBookCount(m.sources);
    DeclaredAre(m.dropCounts, number);
    forall reason
      ensures CountDeclared(m.sources, m.dropCounts, reason) <==> Declared(m.dropCounts, reason) == number(reason)
    {
      CountOfDropped(m.sources, reason);
    }
  }

  lemma CountsAreTrue(m: Manifest)
    ensures CountsTrue(m) <==>
      && m.dropCountTotal == CountIf(m.sources, Dropped)
      && m.trainBookCount == CountIf(m.sources, InTrain)
      && m.valBookCount == CountIf(m.sources, InVal)
      && DropsDeclared(m)
  {
    TotalCounts(m.sources);
    DropsAreCounted(m);
  }

  /** Acceptance, without naming a check: pinned header, ascending ids, fitting records and true counts. */
  lemma AcceptanceMeans(m: Manifest)
    ensures ValidateStructure(m).Ok? <==> ManifestAccepted(m)
  {
    AcceptedIsAccounted(m);
    HeaderAcceptance(m);
    CountsAreTrue(m);
    SourcesAcceptance(m.bookIds, m.sources);
  }

  lemma SourcesAcceptance(ids: seq<u32>, sources: seq<Source>)
    ensures SourcesMatch(ids, sources) <==>
      |ids| == |sources| && forall i :: 0 <= i < |ids| ==> sources[i].bookId == ids[i] && SourceAccepted(sources[i])
  {
    forall i | 0 <= i < |sources| ensures ValidateSource(sources[i]).Ok? <==> SourceAccepted(sources[i]) {
      SourceAcceptance(sources[i]);
    }
  }

  /** A number of books of one kind, and what the manifest declares for it. */
  ghost predicate IsTally(m: Manifest, actual: nat, declared: u32)
  {
    || (actual == |AllDropped(m.sources)| && declared == m.dropCountTotal)
    || (actual == |SplitBooks(m.sources, Train)| && declared == m.trainBookCount)
    || (actual == |SplitBooks(m.sources, Val)| && declared == m.valBookCount)
    || exists reason :: actual == |DroppedBooks(m.sources, reason)| && declared == Declared(m.dropCounts, reason)
  }

  ghost predicate ExplainsCount(error: ManifestError, m: Manifest)
  {
    exists actual: nat, declared: u32 :: IsTally(m, actual, declared) &&
      if actual > 0xffff_ffff then error == CountOverflow(actual)
      else actual != declared && error == DropCountMismatch(actual, declared)
  }

  /** What each rejection says about the manifest. */
  ghost predicate Explains(error: ManifestError, m: Manifest)
  {
    || ExplainsHeader(error, m)
    || ExplainsIds(error, m.bookIds)
    || (|m.bookIds| != |m.sources| && error == SourceCountMismatch(|m.bookIds|, |m.sources|))
    || (exists i :: 0 <= i < |m.bookIds| && i < |m.sources| && m.sources[i].bookId != m.bookIds[i] &&
          error == SourceBookIdMismatch(m.bookIds[i], m.sources[i].bookId))
    || (exists s :: s in m.sources && ExplainsSource(error, s))
    || ExplainsCount(error, m)
  }

  lemma CountExplained(m: Manifest, actual: nat, declared: u32)
    requires IsTally(m, actual, declared) && CheckCount(actual, declared).Err?
    ensures ExplainsCount(CheckCount(actual, declared).error, m)
  {
  }

  lemma CountsExplained(m: Manifest)
    requires ValidateDropCounts(m).Err?
    ensures ExplainsCount(ValidateDropCounts(m).error, m)
  {
    TotalCounts(m.sources);
    if CheckCount(CountIf(m.sources, Dropped), m.dropCountTotal).Err? {
      CountExplained(m, |AllDropped(m.sources)|, m.dropCountTotal);
    } else if CheckCount(CountIf(m.sources, InTrain), m.trainBookCount).Err? {
      CountExplained(m, |SplitBooks(m.sources, Train)|, m.trainBookCount);
    } else if CheckCount(CountIf(m.sources, InVal), m.valBookCount).Err? {
      CountExplained(m, |SplitBooks(m.sources, Val)|, m.valBookCount);
    } else {
      var reason :| CheckReason(m.sources, m.dropCounts, reason) == CheckReasons(m.sources, m.dropCounts, REASONS);
      CountOfDropped(m.sources, reason);
      CountExplained(m, |DroppedBooks(m.sources, reason)|, Declared(m.dropCounts, reason));
    }
  }

  lemma PairExplained(error: ManifestError, m: Manifest)
    requires |m.bookIds| == |m.sources| && ExplainsPairs(error, m.bookIds, m.sources)
    ensures Explains(error, m)
  {
    var i :| 0 <= i < |m.bookIds| && ExplainsPair(error, m.bookIds[i], m.sources[i]);
    SourceAcceptance(m.sources[i]);
  }

  /** Every rejection is true of the manifest. */
  lemma RejectionMeans(m: Manifest)
    requires ValidateStructure(m).Err?
    ensures Explains(ValidateStructure(m).error, m)
  {
    HeaderAcceptance(m);
    if ValidateHeader(m).Ok? && ValidateBookIds(m.bookIds).Ok? {
      if ValidateSources(m.bookIds, m.sources).Ok? {
        CountsExplained(m);
      } else if |m.bookIds| == |m.sources| {
        PairExplained(ValidateSources(m.bookIds, m.sources).error, m);
      }
    }
  }

  lemma EachReasonListed(reason: DropReason)
    ensures reason in REASONS
  {
    EachReasonOnce(reason);
    assert reason in multiset(REASONS);
  }

  /**
    What acceptance means: no book is lost or counted twice, the nine reason
    counts make up the drops, and the declared minimum is retained.
   */
  lemma AcceptedConservesBooks(m: Manifest)
    requires ValidateStructure(m).Ok?
    ensures StrictlyAscending(m.bookIds)
    ensures m.trainBookCount + m.valBookCount + m.dropCountTotal == |m.bookIds|
    ensures
      var c := m.dropCounts;
      c.noSupportedPlaintextFormat + c.noPlaintextArchiveMember + c.sourceDecodeFailed
      + c.ambiguousPlaintextArchive + c.invalidUtf8 + c.emptyAfterStrip + c.markerMissing
      + c.unmappableDensity + c.dedupCollision == m.dropCountTotal
    ensures 1 <= m.retainedBookCountMin <= m.trainBookCount + m.valBookCount
  {
    AcceptedIsAccounted(m);
    FatesPartition(m.sources);
    ReasonsPartition(m.sources);
    SumOfDeclared(m);
  }

  lemma SumOfDeclared(m: Manifest)
    requires forall reason :: CountDeclared(m.sources, m.dropCounts, reason)
    ensures
      var c := m.dropCounts;
      c.noSupportedPlaintextFormat + c.noPlaintextArchiveMember + c.sourceDecodeFailed
      + c.ambiguousPlaintextArchive + c.invalidUtf8 + c.emptyAfterStrip + c.markerMissing
      + c.unmappableDensity + c.dedupCollision == SumReasons(m.sources, REASONS)
  {
    SumIsDeclared(m, REASONS);
    DeclaredSumUnfolds(m.dropCounts);
  }

  function SumDeclared(counts: DropCounts, reasons: seq<DropReason>): nat
  {
    if reasons == [] then 0 else Declared(counts, reasons[0]) + SumDeclared(counts, reasons[1..])
  }

  lemma {:induction false} SumIsDeclared(m: Manifest, reasons: seq<DropReason>)
    requires forall reason :: CountDeclared(m.sources, m.dropCounts, reason)
    ensures SumDeclared(m.dropCounts, reasons) == SumReasons(m.sources, reasons)
  {
    if reasons != [] {
      assert CountDeclared(m.sources, m.dropCounts, reasons[0]);
      SumIsDeclared(m, reasons[1..]);
    }
  }

  lemma DeclaredSumUnfolds(c: DropCounts)
    ensures SumDeclared(c, REASONS) ==
      c.noSupportedPlaintextFormat + c.noPlaintextArchiveMember + c.sourceDecodeFailed
      + c.ambiguousPlaintextArchive + c.invalidUtf8 + c.emptyAfterStrip + c.markerMissing
      + c.unmappableDensity + c.dedupCollision
  {
    var last := [GutenbergMarkerMissing, UnmappableDensityHigh, DedupCollision];
    var middle := [AmbiguousPlaintextArchive, InvalidUtf8, EmptyAfterStrip];
    var first := [NoSupportedPlaintextFormat, NoPlaintextArchiveMember, SourceDecodeFailed];
    assert REASONS == first + (middle + (last + []));
    DeclaredOfThree(c, NoSupportedPlaintextFormat, NoPlaintextArchiveMember, SourceDecodeFailed, middle + (last + []));
    DeclaredOfThree(c, AmbiguousPlaintextArchive, InvalidUtf8, EmptyAfterStrip, last + []);
    DeclaredOfThree(c, GutenbergMarkerMissing, UnmappableDensityHigh, DedupCollision, []);
  }

  lemma DeclaredOfThree(counts: DropCounts, a: DropReason, b: DropReason, c: DropReason, rest: seq<DropReason>)
    ensures SumDeclared(counts, [a, b, c] + rest) ==
      Declared(counts, a) + Declared(counts, b) + Declared(counts, c) + SumDeclared(counts, rest)
  {
    assert ([a, b, c] + rest)[1..] == [b, c] + rest;
    assert ([b, c] + rest)[1..] == [c] + rest;
    assert ([c] + rest)[1..] == rest;
    assert SumDeclared(counts, [c] + rest) == Declared(counts, c) + SumDeclared(counts, rest);
    assert SumDeclared(counts, [b, c] + rest) == Declared(counts, b) + SumDeclared(counts, [c] + rest);
  }

  lemma {:induction false} AscendingOutgrowsIndices(ids: seq<u32>, k: nat)
    requires StrictlyAscending(ids) && k < |ids|
    ensures ids[k] >= k
  {
    if k > 0 {
      AscendingOutgrowsIndices(ids, k - 1);
    }
  }

  /** A count leaves `u32` only when the manifest lists every book id there is and all share one fate. */
  lemma OverflowNeedsEveryBookId(m: Manifest)
    requires ValidateStructure(m).Err? && ValidateStructure(m).error.CountOverflow?
    ensures |m.bookIds| == |m.sources| == U32_LIMIT == ValidateStructure(m).error.actual
  {
    if m.bookIds != [] {
      AscendingOutgrowsIndices(m.bookIds, |m.bookIds| - 1);
    }
  }

  /**
    Duplicate targets and body hashes are recorded but never compared: replacing
    them in any accepted manifest leaves it accepted.
   */
  lemma DedupTargetsAreUnchecked(m: Manifest, k: nat, target: u32, body: Hash)
    requires ValidateStructure(m).Ok? && k < |m.sources|
    ensures ValidateStructure(m.(sources := m.sources[k := Redirected(m.sources[k], target, body)])).Ok?
  {
    AcceptedIsAccounted(m);
    RedirectedIsAccounted(m, k, target, body);
    AcceptedIsAccounted(m.(sources := m.sources[k := Redirected(m.sources[k], target, body)]));
  }

  /** The same record with another duplicate target and body hash, where it has any. */
  function Redirected(s: Source, target: u32, body: Hash): Source
  {
    s.(duplicateOf := if s.duplicateOf.Some? then Some(target) else None,
       postCharsetBodySha256 := if s.postCharsetBodySha256.Some? then Some(body) else None)
  }

  lemma RedirectedIsValid(s: Source, target: u32, body: Hash)
    requires ValidateSource(s).Ok?
    ensures ValidateSource(Redirected(s, target, body)).Ok? && Redirected(s, target, body).bookId == s.bookId
  {
  }

  lemma RedirectedIsAccounted(m: Manifest, k: nat, target: u32, body: Hash)
    requires Accounted(m) && k < |m.sources|
    ensures Accounted(m.(sources := m.sources[k := Redirected(m.sources[k], target, body)]))
  {
    var changed := Redirected(m.sources[k], target, body);
    var n := m.(sources := m.sources[k := changed]);
    RedirectedIsValid(m.sources[k], target, body);
    CountsUnchanged(m.sources, k, changed, Dropped);
    CountsUnchanged(m.sources, k, changed, InTrain);
    CountsUnchanged(m.sources, k, changed, InVal);
    forall reason ensures CountDeclared(n.sources, n.dropCounts, reason) {
      assert CountDeclared(m.sources, m.dropCounts, reason);
      CountsUnchanged(m.sources, k, changed, DroppedFor(reason));
    }
  }

  lemma {:induction false} CountsUnchanged(sources: seq<Source>, k: nat, s: Source, p: Source -> bool)
    requires k < |sources| && p(s) == p(sources[k])
    ensures CountIf(sources[k := s], p) == CountIf(sources, p)
  {
    if k == 0 {
      assert sources[0 := s][1..] == sources[1..];
    } else {
      assert sources[k := s][1..] == sources[1..][k - 1 := s];
      CountsUnchanged(sources[1..], k - 1, s, p);
    }
  }

  // ---- The deduplication policy ----

  predicate Retained(s: Source) { s.dropReason.None? }

  /** `t` is the retained lower book whose body `s` repeats. */
  ghost predicate IsOriginalOf(t: Source, s: Source, target: u32)
  {
    Retained(t) && t.bookId == target < s.bookId && t.postCharsetBodySha256 == s.postCharsetBodySha256
  }

  /** The pinned policy: retained bodies are distinct, and a duplicate names its retained original. */
  ghost predicate ObeysPolicy(sources: seq<Source>)
  {
    && (forall i, j :: 0 <= i < j < |sources| && Retained(sources[i]) && Retained(sources[j])
          ==> sources[i].postCharsetBodySha256 != sources[j].postCharsetBodySha256)
    && (forall s :: s in sources && s.duplicateOf.Some? ==>
          exists t :: t in sources && IsOriginalOf(t, s, s.duplicateOf.value))
  }

  /** The same books with the same drop reasons and splits. */
  ghost predicate SameFates(m: Manifest, n: Manifest)
  {
    && m.bookIds == n.bookIds && |m.sources| == |n.sources|
    && forall i :: 0 <= i < |m.sources| ==>
         m.sources[i].dropReason == n.sources[i].dropReason && m.sources[i].split == n.sources[i].split
  }

  /** Read off the declared counts: one book retained, none dropped as a duplicate. */
  predicate NothingToDeduplicate(m: Manifest)
  {
    m.trainBookCount + m.valBookCount <= 1 && m.dropCounts.dedupCollision == 0
  }

  /** The same record with the zero body hash and itself as duplicate target. */
  function Spoiled(s: Source): Source
  {
    s.(postCharsetBodySha256 := if s.postCharsetBodySha256.Some? then Some(ZeroHash()) else None,
       duplicateOf := if s.duplicateOf.Some? then Some(s.bookId) else None)
  }

  lemma {:induction false} SpoiledCounts(sources: seq<Source>, p: Source -> bool)
    requires forall s :: p(Spoiled(s)) == p(s)
    ensures CountIf(Map(Spoiled, sources), p) == CountIf(sources, p)
  {
    if sources != [] {
      assert Map(Spoiled, sources)[1..] == Map(Spoiled, sources[1..]);
      SpoiledCounts(sources[1..], p);
    }
  }

  lemma SpoiledIsValid(s: Source)
    requires ValidateSource(s).Ok?
    ensures ValidateSource(Spoiled(s)).Ok? && Spoiled(s).bookId == s.bookId
  {
  }

  lemma SpoiledIsAccounted(m: Manifest)
    requires Accounted(m)
    ensures Accounted(m.(sources := Map(Spoiled, m.sources)))
  {
    var n := m.(sources := Map(Spoiled, m.sources));
    forall i | 0 <= i < |m.sources|
      ensures n.sources[i].bookId == m.bookIds[i] && ValidateSource(n.sources[i]).Ok?
    {
      SpoiledIsValid(m.sources[i]);
    }
    SpoiledCounts(m.sources, Dropped);
    SpoiledCounts(m.sources, InTrain);
    SpoiledCounts(m.sources, InVal);
    forall reason ensures CountDeclared(n.sources, n.dropCounts, reason) {
      assert CountDeclared(m.sources, m.dropCounts, reason);
      SpoiledCounts(m.sources, DroppedFor(reason));
    }
  }

  lemma SpoiledIsAccepted(m: Manifest)
    requires ValidateStructure(m).Ok?
    ensures
      var n := m.(sources := Map(Spoiled, m.sources));
      ValidateStructure(n).Ok? && SameFates(m, n)
  {
    AcceptedIsAccounted(m);
    SpoiledIsAccounted(m);
    AcceptedIsAccounted(m.(sources := Map(Spoiled, m.sources)));
  }

  lemma {:induction false} CountedOnce(sources: seq<Source>, p: Source -> bool)
    ensures CountIf(sources, p) == 0 <==> forall i :: 0 <= i < |sources| ==> !p(sources[i])
    ensures CountIf(sources, p) <= 1 <==>
      forall i, j :: 0 <= i < j < |sources| ==> !(p(sources[i]) && p(sources[j]))
  {
    if sources != [] {
      var rest := sources[1..];
      CountedOnce(rest, p);
      assert forall i :: 0 <= i < |rest| ==> rest[i] == sources[i + 1];
      if p(sources[0]) && CountIf(rest, p) != 0 {
        var i :| 0 <= i < |rest| && p(rest[i]);
        assert p(sources[i + 1]);
      }
      forall i, j | CountIf(sources, p) <= 1 && 0 <= i < j < |sources| ensures !(p(sources[i]) && p(sources[j])) {
        assert sources[j] == rest[j - 1];
        if i > 0 { assert sources[i] == rest[i - 1]; }
      }
    }
  }

  /** In an accepted manifest the retained books are those of the two splits. */
  lemma {:induction false} RetainedAreSplit(sources: seq<Source>)
    requires AllValid(sources)
    ensures CountIf(sources, Retained) == CountIf(sources, InTrain) + CountIf(sources, InVal)
  {
    FatesPartition(sources);
    RetainedOrDropped(sources);
  }

  lemma {:induction false} RetainedOrDropped(sources: seq<Source>)
    ensures CountIf(sources, Retained) + CountIf(sources, Dropped) == |sources|
  {
    if sources != [] {
      RetainedOrDropped(sources[1..]);
    }
  }

  /** The declared counts tell whether there is anything to deduplicate. */
  lemma CountsTell(m: Manifest)
    requires ValidateStructure(m).Ok?
    ensures NothingToDeduplicate(m) <==>
      (forall i, j :: 0 <= i < j < |m.sources| ==> !(Retained(m.sources[i]) && Retained(m.sources[j])))
      && (forall i :: 0 <= i < |m.sources| ==> m.sources[i].duplicateOf.None?)
  {
    AcceptedIsAccounted(m);
    RetainedAreSplit(m.sources);
    CountedOnce(m.sources, Retained);
    assert CountDeclared(m.sources, m.dropCounts, DedupCollision);
    CountedOnce(m.sources, DroppedFor(DedupCollision));
    forall i | 0 <= i < |m.sources|
      ensures m.sources[i].duplicateOf.Some? <==> DroppedFor(DedupCollision)(m.sources[i])
    {
      assert ValidateSource(m.sources[i]).Ok?;
    }
  }

  lemma FatesDecideDuplicates(s: Source, t: Source)
    requires ValidateSource(s).Ok? && ValidateSource(t).Ok? && s.dropReason == t.dropReason
    ensures s.duplicateOf.Some? <==> t.duplicateOf.Some?
  {
  }

  lemma AcceptedSourcesAreValid(m: Manifest)
    requires ValidateStructure(m).Ok?
    ensures AllValid(m.sources)
  {
    AcceptedIsAccounted(m);
  }

  lemma FatesDecideWork(m: Manifest, n: Manifest)
    requires ValidateStructure(m).Ok? && ValidateStructure(n).Ok? && SameFates(m, n)
    ensures NothingToDeduplicate(m) <==> NothingToDeduplicate(n)
  {
    CountsTell(m);
    CountsTell(n);
    AcceptedSourcesAreValid(m);
    AcceptedSourcesAreValid(n);
    forall i | 0 <= i < |m.sources| ensures m.sources[i].duplicateOf.Some? <==> n.sources[i].duplicateOf.Some? {
      FatesDecideDuplicates(m.sources[i], n.sources[i]);
    }
  }

  lemma TwoRetainedDisobey(sources: seq<Source>, i: nat, j: nat)
    requires i < j < |sources| && Retained(sources[i]) && Retained(sources[j])
    requires ValidateSource(sources[i]).Ok? && ValidateSource(sources[j]).Ok?
    ensures !ObeysPolicy(Map(Spoiled, sources))
  {
    var spoiled := Map(Spoiled, sources);
    assert Retained(spoiled[i]) && Retained(spoiled[j]);
    assert spoiled[i].postCharsetBodySha256 == spoiled[j].postCharsetBodySha256 == Some(ZeroHash());
  }

  lemma SelfDuplicateDisobeys(sources: seq<Source>, i: nat)
    requires i < |sources| && sources[i].duplicateOf.Some?
    ensures !ObeysPolicy(Map(Spoiled, sources))
  {
    var spoiled := Map(Spoiled, sources);
    assert spoiled[i] in spoiled && spoiled[i].duplicateOf == Some(spoiled[i].bookId);
  }

  lemma SpoiledDisobeys(m: Manifest)
    requires ValidateStructure(m).Ok? && !NothingToDeduplicate(m)
    ensures !ObeysPolicy(Map(Spoiled, m.sources))
  {
    CountsTell(m);
    AcceptedIsAccounted(m);
    if i, j :| 0 <= i < j < |m.sources| && Retained(m.sources[i]) && Retained(m.sources[j]) {
      TwoRetainedDisobey(m.sources, i, j);
    } else {
      var i :| 0 <= i < |m.sources| && m.sources[i].duplicateOf.Some?;
      SelfDuplicateDisobeys(m.sources, i);
    }
  }

  /**
    For given books and fates, acceptance implies the pinned policy exactly when
    there is nothing to deduplicate.
   */
  lemma PolicyHoldsExactly(m: Manifest)
    requires ValidateStructure(m).Ok?
    ensures (forall n :: SameFates(m, n) && ValidateStructure(n).Ok? ==> ObeysPolicy(n.sources)) <==>
      NothingToDeduplicate(m)
  {
    if NothingToDeduplicate(m) {
      forall n | SameFates(m, n) && ValidateStructure(n).Ok? ensures ObeysPolicy(n.sources) {
        FatesDecideWork(m, n);
        CountsTell(n);
      }
    } else {
      SpoiledIsAccepted(m);
      SpoiledDisobeys(m);
    }
  }

  // ---- Duplicates that are accepted ----

  function RetainedBook(id: u32, body: Hash): Source
  {
    Source(id, true, None, None, Some([]), Some(ZeroHash()), Some(ZeroHash()), Some(Uncompressed), None, Some(1),
      None, None, Some(1), Some(ZeroHash()), Some(body), Some(1), Some(0), Some(Finite(0.0)), Some(Train))
  }

  /** Two retained books of one body. */
  function TwinManifest(body: Hash): Manifest
  {
    Manifest(true, true, true, true, [1, 2], [RetainedBook(1, body), RetainedBook(2, body)],
      seq(32, _ => 0x30), TRAIN_FRACTION, VAL_FRACTION, 128, 128, 2, 0, 0, DropCounts(0, 0, 0, 0, 0, 0, 0, 0, 0),
      Finite(0.0), 1)
  }

  lemma TwinCounts(body: Hash, p: Source -> bool)
    requires p(RetainedBook(1, body)) == p(RetainedBook(2, body))
    ensures CountIf(TwinManifest(body).sources, p) == if p(RetainedBook(1, body)) then 2 else 0
  {
    var sources := TwinManifest(body).sources;
    assert sources[1..] == [RetainedBook(2, body)];
    assert sources[1..][1..] == [];
    assert CountIf(sources[1..], p) == if p(RetainedBook(2, body)) then 1 else 0;
  }

  /** An accepted manifest that retains one body twice. */
  lemma TwinsAreAccepted(body: Hash)
    ensures ValidateStructure(TwinManifest(body)).Ok? && !ObeysPolicy(TwinManifest(body).sources)
  {
    var m := TwinManifest(body);
    AcceptedIsAccounted(m);
    TwinCounts(body, Dropped);
    TwinCounts(body, InTrain);
    TwinCounts(body, InVal);
    forall reason ensures CountDeclared(m.sources, m.dropCounts, reason) {
      TwinCounts(body, DroppedFor(reason));
    }
    assert Retained(m.sources[0]) && Retained(m.sources[1]);
  }
}
