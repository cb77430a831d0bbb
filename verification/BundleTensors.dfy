/**
  Reference bundle tensors: validation, canonical order and the hash preimage.

  The preimage writes the shape without a length prefix.  It is injective all
  the same on validated tensors, and only on those.
 */
module BundleTensors {
  import opened Wrappers
  import opened Ordering
  import opened Bytes
  import opened CanonicalTensors

  datatype Role = EmbeddingRole | WeightRole | BiasRole | ClassifierRole | IntermediateFixture

  /** Values are `f32` bit patterns; the stored hash is not part of this model. */
  datatype ReferenceTensor = ReferenceTensor(id: Path, role: Role, shape: seq<u32>, values: seq<u32>)

  datatype ReferenceTensorError =
    | NoShape(id: Path)
    | ZeroDimension(id: Path)
    | ShapeOverflow(id: Path)
    | ValueCountMismatch(id: Path, expected: nat, actual: nat)
    | NonFiniteValue(id: Path, index: nat)
    | DuplicateTensor(id: Path)

  ghost predicate ValidReference(shape: seq<u32>, values: seq<u32>)
  {
    ValidDims(shape) && Product(shape) == |values| && forall i :: 0 <= i < |values| ==> IsFinite(values[i])
  }

  /** What each rejection reports about the offending tensor. */
  ghost predicate ExplainsTensor(error: ReferenceTensorError, id: Path, shape: seq<u32>, values: seq<u32>)
  {
    error.id == id &&
    match error
    case NoShape(_) => shape == []
    case ZeroDimension(_) => 0 in shape
    case ShapeOverflow(_) => 0 !in shape && Product(shape) >= U64_LIMIT
    case ValueCountMismatch(_, expected, actual) => expected == Product(shape) != |values| == actual
    case NonFiniteValue(_, index) =>
      index < |values| && !IsFinite(values[index]) && forall i :: 0 <= i < index ==> IsFinite(values[i])
    case DuplicateTensor(_) => false
  }

  /** `validate_tensor_shape_and_values`. */
  method ValidateTensor(id: Path, shape: seq<u32>, values: seq<u32>) returns (r: Result<(), ReferenceTensorError>)
    ensures r.Ok? <==> ValidReference(shape, values)
    ensures r.Err? ==> ExplainsTensor(r.error, id, shape, values)
  {
    if shape == [] {
      return Err(NoShape(id));
    }
    if 0 in shape {
      return Err(ZeroDimension(id));
    }
    var expected := 1;
    for i := 0 to |shape|
      invariant expected == Product(shape[..i]) < U64_LIMIT
    {
      assert shape[..i + 1][..i] == shape[..i];
      if expected * shape[i] >= U64_LIMIT {
        ProductGrows(shape, i + 1);
        return Err(ShapeOverflow(id));
      }
      expected := expected * shape[i];
    }
    assert shape[..|shape|] == shape;
    if expected != |values| {
      return Err(ValueCountMismatch(id, expected, |values|));
    }
    for i := 0 to |values|
      invariant forall k :: 0 <= k < i ==> IsFinite(values[k])
    {
      if !IsFinite(values[i]) {
        return Err(NonFiniteValue(id, i));
      }
    }
    return Ok(());
  }

  // ---- Canonical order ----

  predicate ReferenceIdLe(a: ReferenceTensor, b: ReferenceTensor) { PathLe(a.id, b.id) }

  function ReferenceId(tensor: ReferenceTensor): Path { tensor.id }

  lemma ReferenceIdPreorder()
    ensures TotalPreorder(ReferenceIdLe)
  {
    PathOrder();
  }

  /** `canonicalize_tensors`: exactly the lists of valid tensors with distinct ids, sorted. */
  method CanonicalizeTensors(tensors: seq<ReferenceTensor>)
    returns (r: Result<seq<ReferenceTensor>, ReferenceTensorError>)
    ensures r.Ok? <==> Distinct(Map(ReferenceId, tensors)) && AllValid(tensors)
    ensures r.Ok? ==> Permutation(r.value, tensors) && AscendingBy(r.value, ReferenceId)
    ensures r.Err? && r.error.DuplicateTensor? ==> Repeated(Map(ReferenceId, tensors), r.error.id)
    ensures r.Err? && !r.error.DuplicateTensor? ==> ExplainsSome(r.error, tensors)
  {
    var sorted := Sort(tensors, ReferenceIdLe);
    SortedTensors(tensors);
    SortedIsAscending(sorted, ReferenceId, ReferenceIdLe);
    MapPermutes(ReferenceId, sorted, tensors);
    r := CheckSorted(sorted);
    if r.Err? && !r.error.DuplicateTensor? {
      SameExplained(r.error, sorted, tensors);
    }
  }

  method CheckSorted(sorted: seq<ReferenceTensor>) returns (r: Result<seq<ReferenceTensor>, ReferenceTensorError>)
    ensures r.Ok? <==> Distinct(Map(ReferenceId, sorted)) && AllValid(sorted)
    ensures r.Ok? ==> r.value == sorted
    ensures r.Err? && r.error.DuplicateTensor? ==> Repeated(Map(ReferenceId, sorted), r.error.id)
    ensures r.Err? && !r.error.DuplicateTensor? ==> ExplainsSome(r.error, sorted)
  {
    var ids := Map(ReferenceId, sorted);
    var seen: set<Path> := {};
    for i := 0 to |sorted|
      invariant seen == ToSet(ids[..i]) && Distinct(ids[..i])
      invariant AllValid(sorted[..i])
    {
      var tensor := sorted[i];
      PrefixGrows(ids, i);
      if tensor.id in seen {
        RepeatIsNotDistinct(ids, i);
        return Err(DuplicateTensor(tensor.id));
      }
      seen := seen + {tensor.id};
      AppendDistinct(ids[..i], tensor.id);
      var valid := ValidateTensor(tensor.id, tensor.shape, tensor.values);
      if valid.Err? {
        FoundInvalid(sorted, tensor, valid.error);
        return Err(valid.error);
      }
      PrefixGrows(sorted, i);
    }
    assert sorted[..|sorted|] == sorted && ids[..|ids|] == ids;
    return Ok(sorted);
  }

  lemma SameExplained(error: ReferenceTensorError, xs: seq<ReferenceTensor>, ys: seq<ReferenceTensor>)
    requires ExplainsSome(error, xs) && forall t :: t in xs ==> t in ys
    ensures ExplainsSome(error, ys)
  {
    var t :| t in xs && ExplainsTensor(error, t.id, t.shape, t.values);
    assert t in ys;
  }

  /** The error is true of one of the tensors. */
  ghost predicate ExplainsSome(error: ReferenceTensorError, tensors: seq<ReferenceTensor>)
  {
    exists t :: t in tensors && ExplainsTensor(error, t.id, t.shape, t.values)
  }

  lemma FoundInvalid(tensors: seq<ReferenceTensor>, tensor: ReferenceTensor, error: ReferenceTensorError)
    requires tensor in tensors && !ValidReference(tensor.shape, tensor.values)
    requires ExplainsTensor(error, tensor.id, tensor.shape, tensor.values)
    ensures !AllValid(tensors) && !error.DuplicateTensor? && ExplainsSome(error, tensors)
  {
  }

  ghost predicate AllValid(tensors: seq<ReferenceTensor>)
  {
    forall t :: t in tensors ==> ValidReference(t.shape, t.values)
  }

  lemma SortedTensors(tensors: seq<ReferenceTensor>)
    ensures var sorted := Sort(tensors, ReferenceIdLe);
      && Permutation(sorted, tensors) && SortedBy(sorted, ReferenceIdLe)
      && (forall t :: t in sorted <==> t in tensors)
      && (Distinct(Map(ReferenceId, sorted)) <==> Distinct(Map(ReferenceId, tensors)))
  {
    var sorted := Sort(tensors, ReferenceIdLe);
    ReferenceIdPreorder();
    SortCorrect(tensors, ReferenceIdLe);
    PermutationMembers(sorted, tensors);
    MapPermutes(ReferenceId, sorted, tensors);
    DistinctPermutes(Map(ReferenceId, sorted), Map(ReferenceId, tensors));
  }

  /** The canonical list does not remember the order it was given in. */
  lemma CanonicalTensorsForgetOrder(
    xs: seq<ReferenceTensor>, ys: seq<ReferenceTensor>, a: seq<ReferenceTensor>, b: seq<ReferenceTensor>)
    requires Permutation(xs, ys)
    requires Permutation(a, xs) && AscendingBy(a, ReferenceId)
    requires Permutation(b, ys) && AscendingBy(b, ReferenceId)
    ensures a == b
  {
    AscendingIsUnique(a, b, ReferenceId);
  }

  // ---- Preimage ----

  /** Little-endian words, one after the other. */
  function Words(words: seq<u32>): seq<byte>
  {
    Concat(words, Enc32)
  }

  function RoleName(role: Role): string
  {
    match role
    case EmbeddingRole => "embedding"
    case WeightRole => "weight"
    case BiasRole => "bias"
    case ClassifierRole => "classifier"
    case IntermediateFixture => "intermediate_fixture"
  }

  const PREIMAGE_DOMAIN: string := "gbf:gbf-artifact:ReferenceTensor:v1\0"

  /** The bytes `reference_tensor_hash` hashes. */
  function Preimage(id: Path, role: Role, shape: seq<u32>, values: seq<u32>): seq<byte>
  {
    Ascii(PREIMAGE_DOMAIN) +
    (EncBytes(id.text) +
     (EncBytes(Ascii(RoleName(role))) +
      (Words(shape) + ([0xff] + Words(values)))))
  }

  /** `reference_tensor_hash` up to the digest: the buffer it grows. */
  method BuildPreimage(id: Path, role: Role, shape: seq<u32>, values: seq<u32>) returns (bytes: seq<byte>)
    ensures bytes == Preimage(id, role, shape, values)
  {
    var head := Ascii(PREIMAGE_DOMAIN) + (EncBytes(id.text) + EncBytes(Ascii(RoleName(role))));
    var dims := AppendEach([], shape, Enc32);
    var body := AppendEach(dims + [0xff], values, Enc32);
    assert [] + Words(shape) == Words(shape);
    bytes := head + body;
    var tail := [0xff] + Words(values);
    Assoc(dims, [0xff], Words(values));
    Assoc(Ascii(PREIMAGE_DOMAIN), EncBytes(id.text) + EncBytes(Ascii(RoleName(role))), dims + tail);
    Assoc(EncBytes(id.text), EncBytes(Ascii(RoleName(role))), dims + tail);
  }

  /** Role names differ already in length. */
  lemma RoleLengths(a: Role, b: Role)
    requires |RoleName(a)| == |RoleName(b)|
    ensures a == b
  {
    assert |RoleName(EmbeddingRole)| == 9 && |RoleName(WeightRole)| == 6 && |RoleName(BiasRole)| == 4;
    assert |RoleName(ClassifierRole)| == 10 && |RoleName(IntermediateFixture)| == 20;
  }

  lemma {:induction false} ConcatSplits(xs: seq<u32>, n: nat)
    requires n <= |xs|
    ensures Words(xs) == Words(xs[..n]) + Words(xs[n..])
  {
    if n == 0 {
      assert xs[..0] == [] && xs[0..] == xs;
      assert [] + Words(xs) == Words(xs);
    } else {
      ConcatSplits(xs[1..], n - 1);
      assert xs[..n][0] == xs[0] && xs[..n][1..] == xs[1..][..n - 1] && xs[1..][n - 1..] == xs[n..];
      Assoc(Enc32(xs[0]), Words(xs[1..][..n - 1]), Words(xs[n..]));
    }
  }

  /** The unframed part: a longer shape would need more values, not fewer. */
  lemma ShapeAndValuesUnique(s: seq<u32>, v: seq<u32>, t: seq<u32>, w: seq<u32>)
    requires ValidReference(s, v) && ValidReference(t, w) && |s| <= |t|
    requires Words(s) + ([0xff] + Words(v)) == Words(t) + ([0xff] + Words(w))
    ensures s == t && v == w
  {
    ShapesHaveOneLength(s, v, t, w);
    WidthsFixed();
    ConcatUnique(s, t, Enc32, 4, [0xff] + Words(v), [0xff] + Words(w));
    CutUnique([0xff], [0xff], Words(v), Words(w));
    assert Words(v) + [] == Words(v) && Words(w) + [] == Words(w);
    ConcatUnique(v, w, Enc32, 4, [], []);
  }

  lemma ShapesHaveOneLength(s: seq<u32>, v: seq<u32>, t: seq<u32>, w: seq<u32>)
    requires ValidReference(s, v) && ValidReference(t, w) && |s| <= |t|
    requires Words(s) + ([0xff] + Words(v)) == Words(t) + ([0xff] + Words(w))
    ensures |s| == |t| && |v| == |w|
  {
    WidthsFixed();
    ConcatLength(s, Enc32, 4);
    ConcatLength(v, Enc32, 4);
    ConcatLength(t, Enc32, 4);
    ConcatLength(w, Enc32, 4);
    assert |s| + |v| == |t| + |w| by {
      assert |Words(s) + ([0xff] + Words(v))| == |Words(t) + ([0xff] + Words(w))|;
    }
    ShapeIsPrefix(s, [0xff] + Words(v), t, [0xff] + Words(w));
    ProductGrows(t, |s|);
  }

  lemma ShapeIsPrefix(s: seq<u32>, x: seq<byte>, t: seq<u32>, y: seq<byte>)
    requires |s| <= |t| && Words(s) + x == Words(t) + y
    ensures s == t[..|s|]
  {
    var n := |s|;
    ConcatSplits(t, n);
    Assoc(Words(t[..n]), Words(t[n..]), y);
    WidthsFixed();
    ConcatUnique(s, t[..n], Enc32, 4, x, Words(t[n..]) + y);
  }

  /** Validated tensors with one preimage are one tensor. */
  lemma PreimageInjective(a: ReferenceTensor, b: ReferenceTensor)
    requires ValidReference(a.shape, a.values) && ValidReference(b.shape, b.values)
    requires Preimage(a.id, a.role, a.shape, a.values) == Preimage(b.id, b.role, b.shape, b.values)
    ensures a == b
  {
    var tailA := Words(a.shape) + ([0xff] + Words(a.values));
    var tailB := Words(b.shape) + ([0xff] + Words(b.values));
    var roleA, roleB := Ascii(RoleName(a.role)), Ascii(RoleName(b.role));
    CutUnique(Ascii(PREIMAGE_DOMAIN), Ascii(PREIMAGE_DOMAIN),
              EncBytes(a.id.text) + (EncBytes(roleA) + tailA), EncBytes(b.id.text) + (EncBytes(roleB) + tailB));
    BytesUnique(a.id.text, b.id.text, EncBytes(roleA) + tailA, EncBytes(roleB) + tailB);
    BytesUnique(roleA, roleB, tailA, tailB);
    RoleLengths(a.role, b.role);
    if |a.shape| <= |b.shape| {
      ShapeAndValuesUnique(a.shape, a.values, b.shape, b.values);
    } else {
      ShapeAndValuesUnique(b.shape, b.values, a.shape, a.values);
    }
  }

  /**
    Without validation the shape can borrow bytes from the values: these two
    share a preimage, and only the value count gives the second one away.
   */
  lemma UnvalidatedPreimagesCollide(id: Path, role: Role)
    ensures Preimage(id, role, [1], [0xff00_0000]) == Preimage(id, role, [1, 0xff], [])
    ensures ValidReference([1], [0xff00_0000]) && !ValidReference([1, 0xff], [])
  {
    BorrowedWords();
    assert Product([1][..0]) == 1 && Product([1]) == 1;
    assert [1, 0xff][..1] == [1] && Product([1, 0xff]) == 0xff;
  }

  lemma BorrowedWords()
    ensures Words([1]) + ([0xff] + Words([0xff00_0000])) == Words([1, 0xff]) + ([0xff] + Words([]))
  {
    var one := Enc32(1);
    OneWord(1);
    OneWord(0xff);
    OneWord(0xff00_0000);
    SmallWords();
    assert [1, 0xff][1..] == [0xff];
    assert Words([1, 0xff]) == one + Words([0xff]);
    assert Words([1]) + ([0xff] + Words([0xff00_0000])) == one + [0xff, 0, 0, 0, 0xff];
    assert Words([1, 0xff]) + ([0xff] + Words([])) == one + [0xff, 0, 0, 0, 0xff];
  }

  lemma OneWord(word: u32)
    ensures Words([word]) == Enc32(word) && Words([]) == []
  {
    assert [word][1..] == [] && Words([]) == [];
    assert Words([word]) == Enc32([word][0]) + Words([word][1..]);
  }

  lemma SmallWords()
    ensures LittleEndian(0xff, 4) == [0xff, 0, 0, 0] && LittleEndian(0xff00_0000, 4) == [0, 0, 0, 0xff]
  {
    assert LittleEndian(0xff, 4) == [0xff, 0, 0, 0] by {
      assert LittleEndian(0, 1) == [0] && LittleEndian(0, 2) == [0, 0] && LittleEndian(0, 3) == [0, 0, 0];
    }
    assert LittleEndian(0xff00_0000, 4) == [0, 0, 0, 0xff] by {
      assert LittleEndian(0xff, 1) == [0xff];
      assert LittleEndian(0xff00, 2) == [0] + LittleEndian(0xff, 1);
      assert LittleEndian(0xff_0000, 3) == [0] + LittleEndian(0xff00, 2);
    }
  }
}
