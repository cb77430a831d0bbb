/**
  Canonical tensors: construction, content bytes and the payload hash stream.

  SHA-256 is not part of this model.  Identity is stated on the exact byte
  stream the source hashes.
 */
module CanonicalTensors {
  import opened Wrappers
  import opened Ordering
  import opened Bytes

  type Hash256 = s: seq<byte> | |s| == 32 witness seq(32, _ => 0)

  type i8 = x: int | -0x80 <= x < 0x80

  datatype TensorKind =
    | TernaryWeight
    | TernaryScale
    | Bias
    | RouterWeight
    | RouterBias
    | DenseWeight
    | DenseBias
    | Embedding
    | Classifier
    | NormLut
    | SharedDenseAlpha

  datatype ElementType = Float32 | TernaryI2 | Q8_8

  /** `F32` values are bit patterns. */
  datatype Payload = F32(floats: seq<u32>) | I8(trits: seq<i8>) | U16(scales: seq<u16>)

  datatype Shape = Shape(dims: seq<u32>, elementCount: nat)

  datatype Layout = Layout(shape: Shape, elementType: ElementType)

  datatype Tensor = Tensor(id: Path, kind: TensorKind, layout: Layout, payload: Payload, contentHash: Hash256)

  datatype TensorError =
    | EmptyShape
    | ZeroDim(index: nat)
    | ShapeElementOverflow
    | ElementTypeMismatch(expected: ElementType, actual: ElementType)
    | PayloadLenMismatch(expectedLen: nat, actualLen: nat)
    | NonFiniteFloat(index: nat)
    | InvalidTernaryValue(index: nat)

  // ---- Shapes ----

  /** The number of elements of a shape. */
  function Product(dims: seq<u32>): nat
  {
    if dims == [] then 1 else Product(dims[..|dims| - 1]) * dims[|dims| - 1]
  }

  lemma {:induction false} ProductAppends(a: seq<u32>, b: seq<u32>)
    ensures Product(a + b) == Product(a) * Product(b)
  {
    if b == [] {
      assert a + b == a;
    } else {
      var n := |b| - 1;
      ProductAppends(a, b[..n]);
      assert (a + b)[..|a + b| - 1] == a + b[..n];
      Regroup(Product(a), Product(b[..n]), b[n]);
    }
  }

  lemma Regroup(x: nat, y: nat, z: nat)
    ensures (x * y) * z == x * (y * z)
  {
  }

  lemma {:induction false} ProductPositive(dims: seq<u32>)
    requires forall i :: 0 <= i < |dims| ==> dims[i] > 0
    ensures Product(dims) > 0
  {
    if dims != [] {
      ProductPositive(dims[..|dims| - 1]);
    }
  }

  /** Without zero dimensions a prefix never has more elements than the whole. */
  lemma {:induction false} ProductGrows(dims: seq<u32>, n: nat)
    requires n <= |dims| && forall i :: 0 <= i < |dims| ==> dims[i] > 0
    ensures Product(dims[..n]) <= Product(dims)
  {
    assert dims == dims[..n] + dims[n..];
    ProductAppends(dims[..n], dims[n..]);
    ProductPositive(dims[n..]);
    ProductPositive(dims[..n]);
    Scale(Product(dims[..n]), Product(dims[n..]));
  }

  lemma Scale(x: nat, y: nat)
    requires y > 0
    ensures x <= x * y
  {
  }

  ghost predicate ValidDims(dims: seq<u32>)
  {
    dims != [] && (forall i :: 0 <= i < |dims| ==> dims[i] > 0) && Product(dims) < U64_LIMIT
  }

  /** `CanonicalTensorShape::new`: the element count is the exact product or an overflow is reported. */
  method NewShape(dims: seq<u32>) returns (r: Result<Shape, TensorError>)
    ensures r.Ok? <==> ValidDims(dims)
    ensures r.Ok? ==> r.value == Shape(dims, Product(dims))
    ensures r.Err? && r.error.ZeroDim? ==>
      r.error.index < |dims| && dims[r.error.index] == 0 && forall i :: 0 <= i < r.error.index ==> dims[i] > 0
    ensures r.Err? && r.error.ShapeElementOverflow? ==> Product(dims) >= U64_LIMIT
  {
    if dims == [] {
      return Err(EmptyShape);
    }
    for i := 0 to |dims|
      invariant forall k :: 0 <= k < i ==> dims[k] > 0
    {
      if dims[i] == 0 {
        return Err(ZeroDim(i));
      }
    }
    var product := 1;
    for i := 0 to |dims|
      invariant product == Product(dims[..i]) < U64_LIMIT
    {
      assert dims[..i + 1][..i] == dims[..i];
      if product * dims[i] >= U64_LIMIT {
        ProductGrows(dims, i + 1);
        return Err(ShapeElementOverflow);
      }
      product := product * dims[i];
    }
    assert dims[..|dims|] == dims;
    return Ok(Shape(dims, product));
  }

  // ---- Tensors ----

  function PayloadType(payload: Payload): ElementType
  {
    match payload
    case F32(_) => Float32
    case I8(_) => TernaryI2
    case U16(_) => Q8_8
  }

  function PayloadLen(payload: Payload): nat
  {
    match payload
    case F32(values) => |values|
    case I8(values) => |values|
    case U16(values) => |values|
  }

  ghost predicate ValidValues(payload: Payload)
  {
    match payload
    case F32(values) => forall i :: 0 <= i < |values| ==> IsFinite(values[i])
    case I8(values) => forall i :: 0 <= i < |values| ==> -1 <= values[i] <= 1
    case U16(_) => true
  }

  /** The payload holds as many values as the shape has elements, and of the declared type. */
  ghost predicate FitsLayout(layout: Layout, payload: Payload)
  {
    match payload
    case F32(values) => layout.elementType == Float32 && layout.shape.elementCount == |values|
    case I8(values) => layout.elementType == TernaryI2 && layout.shape.elementCount == |values|
    case U16(values) => layout.elementType == Q8_8 && layout.shape.elementCount == |values|
  }

  /** What `CanonicalTensor::new` accepts of a shape built by `NewShape`. */
  ghost predicate ValidTensor(layout: Layout, payload: Payload)
  {
    && ValidDims(layout.shape.dims) && layout.shape.elementCount == Product(layout.shape.dims)
    && FitsLayout(layout, payload) && ValidValues(payload)
  }

  /** A `Vec` holds fewer than 2^63 bytes, and a rank is a `usize`. */
  ghost predicate Addressable(layout: Layout, payload: Payload)
  {
    |layout.shape.dims| < U64_LIMIT && |PayloadBytes(payload)| < U64_LIMIT && PayloadLen(payload) < U64_LIMIT
  }

  /** The error names the first value that is not allowed. */
  ghost predicate ExplainsValue(error: TensorError, payload: Payload)
  {
    match payload
    case F32(values) =>
      error.NonFiniteFloat? && error.index < |values| && !IsFinite(values[error.index]) &&
      forall k :: 0 <= k < error.index ==> IsFinite(values[k])
    case I8(values) =>
      error.InvalidTernaryValue? && error.index < |values| && !(-1 <= values[error.index] <= 1) &&
      forall k :: 0 <= k < error.index ==> -1 <= values[k] <= 1
    case U16(_) => false
  }

  /** The layout does not fit, or a value is not allowed. */
  ghost predicate ExplainsTensor(error: TensorError, layout: Layout, payload: Payload)
  {
    match error
    case ElementTypeMismatch(expected, actual) => expected == layout.elementType != actual == PayloadType(payload)
    case PayloadLenMismatch(expected, actual) => expected == layout.shape.elementCount != actual == PayloadLen(payload)
    case _ => ExplainsValue(error, payload)
  }

  method CheckValues(payload: Payload) returns (r: Result<(), TensorError>)
    ensures r.Ok? <==> ValidValues(payload)
    ensures r.Err? ==> ExplainsValue(r.error, payload)
  {
    match payload
    case F32(values) =>
      for i := 0 to |values|
        invariant forall k :: 0 <= k < i ==> IsFinite(values[k])
      {
        if !IsFinite(values[i]) { return Err(NonFiniteFloat(i)); }
      }
      return Ok(());
    case I8(values) =>
      for i := 0 to |values|
        invariant forall k :: 0 <= k < i ==> -1 <= values[k] <= 1
      {
        if !(-1 <= values[i] <= 1) { return Err(InvalidTernaryValue(i)); }
      }
      return Ok(());
    case U16(_) =>
      return Ok(());
  }

  /** `CanonicalTensor::new`; `digest` stands for SHA-256. */
  method NewTensor(id: Path, kind: TensorKind, layout: Layout, payload: Payload, digest: seq<byte> -> Hash256)
    returns (r: Result<Tensor, TensorError>)
    requires ValidDims(layout.shape.dims) && layout.shape.elementCount == Product(layout.shape.dims)
    ensures r.Ok? <==> ValidTensor(layout, payload)
    ensures r.Err? ==> ExplainsTensor(r.error, layout, payload)
    ensures r.Ok? ==> r.value == Tensor(id, kind, layout, payload, digest(ContentBytes(layout, payload)))
  {
    if layout.elementType != PayloadType(payload) {
      return Err(ElementTypeMismatch(layout.elementType, PayloadType(payload)));
    }
    if layout.shape.elementCount != PayloadLen(payload) {
      return Err(PayloadLenMismatch(layout.shape.elementCount, PayloadLen(payload)));
    }
    var values := CheckValues(payload);
    if values.Err? {
      return Err(values.error);
    }
    var content := BuildContentBytes(layout, payload);
    return Ok(Tensor(id, kind, layout, payload, digest(content)));
  }

  // ---- Element encodings ----

  function TypeTag(elementType: ElementType): byte
  {
    match elementType
    case Float32 => 0
    case TernaryI2 => 1
    case Q8_8 => 2
  }

  /** `i8::to_le_bytes`: two's complement. */
  function EncI8(v: i8): seq<byte> { [if v < 0 then v + 0x100 else v] }

  function Concat<T>(xs: seq<T>, enc: T -> seq<byte>): seq<byte>
  {
    if xs == [] then [] else enc(xs[0]) + Concat(xs[1..], enc)
  }

  function Enc32(v: u32): seq<byte> { EncU32(v) }
  function Enc16(v: u16): seq<byte> { EncU16(v) }
  function Enc64(v: u32): seq<byte> { EncU64(v) }

  function PayloadBytes(payload: Payload): seq<byte>
  {
    match payload
    case F32(values) => Concat(values, Enc32)
    case I8(values) => Concat(values, EncI8)
    case U16(values) => Concat(values, Enc16)
  }

  /** An element encoder of one fixed width that loses nothing. */
  ghost predicate FixedWidth<T(!new)>(enc: T -> seq<byte>, width: nat)
  {
    && (forall x :: |enc(x)| == width)
    && (forall x, y :: enc(x) == enc(y) ==> x == y)
  }

  lemma WidthsFixed()
    ensures FixedWidth(Enc32, 4) && FixedWidth(Enc16, 2) && FixedWidth(Enc64, 8) && FixedWidth(EncI8, 1)
  {
    forall x: u32, y: u32 | Enc32(x) == Enc32(y) ensures x == y {
      U32Unique(x, y, [], []);
    }
    forall x: u16, y: u16 | Enc16(x) == Enc16(y) ensures x == y {
      U16Unique(x, y, [], []);
    }
    forall x: u32, y: u32 | Enc64(x) == Enc64(y) ensures x == y {
      U64Unique(x, y, [], []);
    }
    forall x: i8, y: i8 | EncI8(x) == EncI8(y) ensures x == y {
      assert EncI8(x)[0] == EncI8(y)[0];
    }
  }

  lemma {:induction false} ConcatLength<T(!new)>(xs: seq<T>, enc: T -> seq<byte>, width: nat)
    requires FixedWidth(enc, width)
    ensures |Concat(xs, enc)| == |xs| * width
  {
    if xs != [] {
      ConcatLength(xs[1..], enc, width);
    }
  }

  /** Equally many fixed-width elements are cut back uniquely. */
  lemma {:induction false} ConcatUnique<T(!new)>(
    xs: seq<T>, ys: seq<T>, enc: T -> seq<byte>, width: nat, s: seq<byte>, t: seq<byte>)
    requires FixedWidth(enc, width) && |xs| == |ys|
    requires Concat(xs, enc) + s == Concat(ys, enc) + t
    ensures xs == ys && s == t
  {
    if xs == [] {
      assert s == Concat(xs, enc) + s && t == Concat(ys, enc) + t;
    } else {
      Assoc(enc(xs[0]), Concat(xs[1..], enc), s);
      Assoc(enc(ys[0]), Concat(ys[1..], enc), t);
      CutUnique(enc(xs[0]), enc(ys[0]), Concat(xs[1..], enc) + s, Concat(ys[1..], enc) + t);
      ConcatUnique(xs[1..], ys[1..], enc, width, s, t);
      assert xs == [xs[0]] + xs[1..] && ys == [ys[0]] + ys[1..];
    }
  }

  lemma PayloadUnique(p: Payload, q: Payload, s: seq<byte>, t: seq<byte>)
    requires PayloadType(p) == PayloadType(q) && PayloadLen(p) == PayloadLen(q)
    requires PayloadBytes(p) + s == PayloadBytes(q) + t
    ensures p == q && s == t
  {
    WidthsFixed();
    match p
    case F32(values) => ConcatUnique(values, q.floats, Enc32, 4, s, t);
    case I8(values) => ConcatUnique(values, q.trits, EncI8, 1, s, t);
    case U16(values) => ConcatUnique(values, q.scales, Enc16, 2, s, t);
  }

  /** Equal byte lengths of one element type mean equally many elements. */
  lemma PayloadLengths(p: Payload, q: Payload)
    requires PayloadType(p) == PayloadType(q) && |PayloadBytes(p)| == |PayloadBytes(q)|
    ensures PayloadLen(p) == PayloadLen(q)
  {
    WidthsFixed();
    match p
    case F32(values) =>
      ConcatLength(values, Enc32, 4);
      ConcatLength(q.floats, Enc32, 4);
    case I8(values) =>
      ConcatLength(values, EncI8, 1);
      ConcatLength(q.trits, EncI8, 1);
    case U16(values) =>
      ConcatLength(values, Enc16, 2);
      ConcatLength(q.scales, Enc16, 2);
  }

  // ---- Content bytes ----

  /** `canonical_tensor_content_bytes`: tag, rank, dims, element count, elements. */
  function ContentBytes(layout: Layout, payload: Payload): seq<byte>
  {
    EncU8(TypeTag(layout.elementType)) +
    (EncU64(|layout.shape.dims|) +
     (Concat(layout.shape.dims, Enc32) +
      (EncU64(PayloadLen(payload)) + PayloadBytes(payload))))
  }

  method AppendEach<T>(head: seq<byte>, xs: seq<T>, enc: T -> seq<byte>) returns (bytes: seq<byte>)
    ensures bytes == head + Concat(xs, enc)
  {
    bytes := head;
    for i := 0 to |xs|
      invariant bytes + Concat(xs[i..], enc) == head + Concat(xs, enc)
    {
      assert xs[i..][0] == xs[i] && xs[i..][1..] == xs[i + 1..];
      Assoc(bytes, enc(xs[i]), Concat(xs[i + 1..], enc));
      bytes := bytes + enc(xs[i]);
    }
    assert xs[|xs|..] == [] && bytes + [] == bytes;
  }

  method AppendPayload(head: seq<byte>, payload: Payload) returns (bytes: seq<byte>)
    ensures bytes == head + PayloadBytes(payload)
  {
    match payload
    case F32(values) => bytes := AppendEach(head, values, Enc32);
    case I8(values) => bytes := AppendEach(head, values, EncI8);
    case U16(values) => bytes := AppendEach(head, values, Enc16);
  }

  /** `canonical_tensor_content_bytes`: the buffer it grows. */
  method BuildContentBytes(layout: Layout, payload: Payload) returns (bytes: seq<byte>)
    ensures bytes == ContentBytes(layout, payload)
  {
    var dims := layout.shape.dims;
    bytes := [TypeTag(layout.elementType)];
    bytes := bytes + EncU64(|dims|);
    bytes := AppendEach(bytes, dims, Enc32);
    bytes := bytes + EncU64(PayloadLen(payload));
    bytes := AppendPayload(bytes, payload);
    FrameAssoc([], EncU8(TypeTag(layout.elementType)), EncU64(|dims|), Concat(dims, Enc32),
      EncU64(PayloadLen(payload)) + PayloadBytes(payload));
    Assoc(([TypeTag(layout.elementType)] + EncU64(|dims|)) + Concat(dims, Enc32),
      EncU64(PayloadLen(payload)), PayloadBytes(payload));
    assert [] + ([TypeTag(layout.elementType)] + EncU64(|dims|)) == [TypeTag(layout.elementType)] + EncU64(|dims|);
  }

  lemma {:induction false} ConcatAt<T(!new)>(xs: seq<T>, enc: T -> seq<byte>, width: nat, i: nat, k: nat)
    requires FixedWidth(enc, width) && i < |xs| && k < width
    ensures i * width + k < |Concat(xs, enc)| && Concat(xs, enc)[i * width + k] == enc(xs[i])[k]
  {
    if i > 0 {
      ConcatAt(xs[1..], enc, width, i - 1, k);
      assert i * width == (i - 1) * width + width;
    }
  }

  /** Byte `k` of value `i` is its digit `k` in base 256; a negative trit wraps around. */
  lemma PayloadByteAt(payload: Payload, i: nat, k: nat)
    requires i < PayloadLen(payload)
    ensures
      var bytes := PayloadBytes(payload);
      match payload
      case F32(v) => k < 4 ==> i * 4 + k < |bytes| && bytes[i * 4 + k] == v[i] / Pow256(k) % 256
      case I8(v) => i < |bytes| && bytes[i] == v[i] as int % 256
      case U16(v) => k < 2 ==> i * 2 + k < |bytes| && bytes[i * 2 + k] == v[i] / Pow256(k) % 256
  {
    WidthsFixed();
    match payload
    case F32(v) =>
      if k < 4 {
        ConcatAt(v, Enc32, 4, i, k);
        LittleEndianDigits(v[i], 4, k);
      }
    case I8(v) => ConcatAt(v, EncI8, 1, i, 0);
    case U16(v) =>
      if k < 2 {
        ConcatAt(v, Enc16, 2, i, k);
        LittleEndianDigits(v[i], 2, k);
      }
  }

  /** `payload_byte_len`. */
  function PayloadByteLen(payload: Payload): nat
  {
    match payload
    case F32(values) => |values| * 4
    case I8(values) => |values|
    case U16(values) => |values| * 2
  }

  lemma ByteLenIsExact(payload: Payload)
    ensures PayloadByteLen(payload) == |PayloadBytes(payload)|
  {
    WidthsFixed();
    match payload
    case F32(values) => ConcatLength(values, Enc32, 4);
    case I8(values) => ConcatLength(values, EncI8, 1);
    case U16(values) => ConcatLength(values, Enc16, 2);
  }

  lemma TagUnique(a: ElementType, b: ElementType, s: seq<byte>, t: seq<byte>)
    requires EncU8(TypeTag(a)) + s == EncU8(TypeTag(b)) + t
    ensures a == b && s == t
  {
    CutUnique(EncU8(TypeTag(a)), EncU8(TypeTag(b)), s, t);
    assert EncU8(TypeTag(a))[0] == EncU8(TypeTag(b))[0];
  }

  /** Valid tensors with equal content bytes have equal layout and payload. */
  lemma ContentBytesInjective(a: Layout, p: Payload, b: Layout, q: Payload)
    requires ValidTensor(a, p) && ValidTensor(b, q) && Addressable(a, p) && Addressable(b, q)
    requires ContentBytes(a, p) == ContentBytes(b, q)
    ensures a == b && p == q
  {
    var restA := EncU64(PayloadLen(p)) + PayloadBytes(p);
    var restB := EncU64(PayloadLen(q)) + PayloadBytes(q);
    var dimsA, dimsB := Concat(a.shape.dims, Enc32), Concat(b.shape.dims, Enc32);
    TagUnique(a.elementType, b.elementType,
      EncU64(|a.shape.dims|) + (dimsA + restA), EncU64(|b.shape.dims|) + (dimsB + restB));
    U64Unique(|a.shape.dims|, |b.shape.dims|, dimsA + restA, dimsB + restB);
    WidthsFixed();
    ConcatUnique(a.shape.dims, b.shape.dims, Enc32, 4, restA, restB);
    U64Unique(PayloadLen(p), PayloadLen(q), PayloadBytes(p), PayloadBytes(q));
    assert PayloadBytes(p) + [] == PayloadBytes(p) && PayloadBytes(q) + [] == PayloadBytes(q);
    PayloadUnique(p, q, [], []);
  }

  // ---- Payload hash stream ----

  /** One tensor's frame in the payload hash stream. */
  function Frame(tensor: Tensor): seq<byte>
  {
    EncBytes(tensor.id.text) +
    (EncU8(TypeTag(tensor.layout.elementType)) +
     (EncU64(|tensor.layout.shape.dims|) +
      (Concat(tensor.layout.shape.dims, Enc64) +
       (EncU64(|PayloadBytes(tensor.payload)|) + PayloadBytes(tensor.payload)))))
  }

  predicate IdLe(a: Tensor, b: Tensor) { PathLe(a.id, b.id) }

  function TensorId(tensor: Tensor): Path { tensor.id }

  lemma IdPreorder()
    ensures TotalPreorder(IdLe)
  {
    PathOrder();
  }

  /** The bytes `canonical_tensor_payload_hash` feeds to SHA-256. */
  function PayloadStream(tensors: seq<Tensor>): seq<byte>
  {
    EncU64(|tensors|) + Concat(Sort(tensors, IdLe), Frame)
  }

  /** The tensors of one id, in the order given. */
  function WithId(tensors: seq<Tensor>, id: Path): seq<Tensor>
  {
    if tensors == [] then []
    else (if tensors[0].id == id then [tensors[0]] else []) + WithId(tensors[1..], id)
  }

  /** Ascending ids; tensors that share an id keep the order they were given in. */
  ghost predicate InIdOrder(ordered: seq<Tensor>, tensors: seq<Tensor>)
  {
    && Permutation(ordered, tensors)
    && (forall i, j :: 0 <= i < j < |ordered| ==>
          ordered[i].id == ordered[j].id || Before(ordered[i].id, ordered[j].id))
    && (forall id :: WithId(ordered, id) == WithId(tensors, id))
  }

  lemma {:induction false} InsertKeepsIds(x: Tensor, sorted: seq<Tensor>, id: Path)
    requires SortedBy(sorted, IdLe)
    ensures WithId(Insert(x, sorted, IdLe), id) == (if x.id == id then [x] else []) + WithId(sorted, id)
  {
    if sorted == [] || IdLe(x, sorted[0]) {
      assert ([x] + sorted)[1..] == sorted;
    } else {
      TailKeepsOrder(sorted, IdLe);
      InsertKeepsIds(x, sorted[1..], id);
      PathOrder();
      assert x.id != sorted[0].id;
      assert Insert(x, sorted, IdLe)[1..] == Insert(x, sorted[1..], IdLe);
    }
  }

  lemma {:induction false} SortKeepsIds(tensors: seq<Tensor>, id: Path)
    ensures WithId(Sort(tensors, IdLe), id) == WithId(tensors, id)
  {
    if tensors != [] {
      IdPreorder();
      SortCorrect(tensors[1..], IdLe);
      SortKeepsIds(tensors[1..], id);
      InsertKeepsIds(tensors[0], Sort(tensors[1..], IdLe), id);
    }
  }

  lemma SortIsInIdOrder(tensors: seq<Tensor>)
    ensures InIdOrder(Sort(tensors, IdLe), tensors)
  {
    var ordered := Sort(tensors, IdLe);
    IdPreorder();
    SortCorrect(tensors, IdLe);
    forall i, j | 0 <= i < j < |ordered|
      ensures ordered[i].id == ordered[j].id || Before(ordered[i].id, ordered[j].id)
    {
      PathLeMeans(ordered[i].id, ordered[j].id);
    }
    forall id ensures WithId(ordered, id) == WithId(tensors, id) {
      SortKeepsIds(tensors, id);
    }
  }

  /** The hasher loop: the tensor count, then one frame for each tensor in id order. */
  method HashStream(tensors: seq<Tensor>) returns (stream: seq<byte>)
    ensures stream == PayloadStream(tensors)
    ensures exists ordered :: InIdOrder(ordered, tensors) && stream == EncU64(|tensors|) + Concat(ordered, Frame)
  {
    var ordered := Sort(tensors, IdLe);
    SortIsInIdOrder(tensors);
    PermutationMembers(ordered, tensors);
    stream := EncU64(|ordered|);
    for i := 0 to |ordered|
      invariant stream + Concat(ordered[i..], Frame) == PayloadStream(tensors)
    {
      var tensor := ordered[i];
      Assoc(stream, Frame(tensor), Concat(ordered[i + 1..], Frame));
      assert ordered[i..][0] == tensor && ordered[i..][1..] == ordered[i + 1..];
      var frame := FeedTensor(tensor);
      stream := stream + frame;
    }
    assert ordered[|ordered|..] == [];
    assert stream + [] == stream;
  }

  method FeedTensor(tensor: Tensor) returns (bytes: seq<byte>)
    ensures bytes == Frame(tensor)
  {
    var dims := tensor.layout.shape.dims;
    bytes := EncBytes(tensor.id.text) + ([TypeTag(tensor.layout.elementType)] + EncU64(|dims|));
    bytes := AppendEach(bytes, dims, Enc64);
    bytes := bytes + EncU64(PayloadByteLen(tensor.payload));
    bytes := AppendPayload(bytes, tensor.payload);
    ByteLenIsExact(tensor.payload);
    FrameParts(EncBytes(tensor.id.text), EncU8(TypeTag(tensor.layout.elementType)), EncU64(|dims|),
      Concat(dims, Enc64), EncU64(|PayloadBytes(tensor.payload)|), PayloadBytes(tensor.payload));
  }

  lemma FrameParts(a: seq<byte>, b: seq<byte>, c: seq<byte>, d: seq<byte>, e: seq<byte>, f: seq<byte>)
    ensures (((a + (b + c)) + d) + e) + f == a + (b + (c + (d + (e + f))))
  {
    FrameAssoc(a, b, c, d, e + f);
    Assoc((a + (b + c)) + d, e, f);
  }

  lemma FrameAssoc(a: seq<byte>, b: seq<byte>, c: seq<byte>, d: seq<byte>, e: seq<byte>)
    ensures ((a + (b + c)) + d) + e == a + (b + (c + (d + e)))
  {
    Assoc(a, b + c, d);
    Assoc(b, c, d);
    Assoc(a, b + (c + d), e);
    Assoc(b, c + d, e);
    Assoc(c, d, e);
  }

  /** Everything of a tensor that the stream commits to: all but kind and stored hash. */
  ghost predicate SameUpToKind(a: Tensor, b: Tensor)
  {
    a.id == b.id && a.layout == b.layout && a.payload == b.payload
  }

  ghost predicate StreamTensor(tensor: Tensor)
  {
    ValidTensor(tensor.layout, tensor.payload) && Addressable(tensor.layout, tensor.payload)
  }

  lemma FrameUnique(a: Tensor, b: Tensor, s: seq<byte>, t: seq<byte>)
    requires StreamTensor(a) && StreamTensor(b)
    requires Frame(a) + s == Frame(b) + t
    ensures SameUpToKind(a, b) && s == t
  {
    var da, db := a.layout.shape.dims, b.layout.shape.dims;
    var pa, pb := PayloadBytes(a.payload), PayloadBytes(b.payload);
    FrameUnfold(EncBytes(a.id.text), EncU8(TypeTag(a.layout.elementType)), EncU64(|da|), Concat(da, Enc64),
      EncU64(|pa|), pa, s);
    FrameUnfold(EncBytes(b.id.text), EncU8(TypeTag(b.layout.elementType)), EncU64(|db|), Concat(db, Enc64),
      EncU64(|pb|), pb, t);
    var a1, b1 := EncU64(|pa|) + (pa + s), EncU64(|pb|) + (pb + t);
    var a2, b2 := Concat(da, Enc64) + a1, Concat(db, Enc64) + b1;
    var a3, b3 := EncU64(|da|) + a2, EncU64(|db|) + b2;
    BytesUnique(a.id.text, b.id.text,
      EncU8(TypeTag(a.layout.elementType)) + a3, EncU8(TypeTag(b.layout.elementType)) + b3);
    TagUnique(a.layout.elementType, b.layout.elementType, a3, b3);
    U64Unique(|da|, |db|, a2, b2);
    WidthsFixed();
    ConcatUnique(da, db, Enc64, 8, a1, b1);
    U64Unique(|pa|, |pb|, pa + s, pb + t);
    PayloadLengths(a.payload, b.payload);
    PayloadUnique(a.payload, b.payload, s, t);
  }

  lemma FrameUnfold(a: seq<byte>, b: seq<byte>, c: seq<byte>, d: seq<byte>, e: seq<byte>, f: seq<byte>, s: seq<byte>)
    ensures (a + (b + (c + (d + (e + f))))) + s == a + (b + (c + (d + (e + (f + s)))))
  {
    Assoc(a, b + (c + (d + (e + f))), s);
    Assoc(b, c + (d + (e + f)), s);
    Assoc(c, d + (e + f), s);
    Assoc(d, e + f, s);
    Assoc(e, f, s);
  }

  lemma {:induction false} FramesUnique(xs: seq<Tensor>, ys: seq<Tensor>, s: seq<byte>, t: seq<byte>)
    requires forall x :: x in xs ==> StreamTensor(x)
    requires forall y :: y in ys ==> StreamTensor(y)
    requires |xs| == |ys| && Concat(xs, Frame) + s == Concat(ys, Frame) + t
    ensures forall i :: 0 <= i < |xs| ==> SameUpToKind(xs[i], ys[i])
    ensures s == t
  {
    if xs == [] {
      assert s == Concat(xs, Frame) + s && t == Concat(ys, Frame) + t;
    } else {
      Assoc(Frame(xs[0]), Concat(xs[1..], Frame), s);
      Assoc(Frame(ys[0]), Concat(ys[1..], Frame), t);
      FrameUnique(xs[0], ys[0], Concat(xs[1..], Frame) + s, Concat(ys[1..], Frame) + t);
      FramesUnique(xs[1..], ys[1..], s, t);
      forall i | 0 <= i < |xs| ensures SameUpToKind(xs[i], ys[i]) {
        if i > 0 { assert xs[i] == xs[1..][i - 1] && ys[i] == ys[1..][i - 1]; }
      }
    }
  }

  /** A tensor with kind and stored hash forgotten. */
  function Core(tensor: Tensor): (Path, Layout, Payload)
  {
    (tensor.id, tensor.layout, tensor.payload)
  }

  /**
    Equal streams come from equal tensor sets, up to tensor kind: no name, rank,
    type or payload boundary can be shifted.
   */
  lemma StreamInjective(xs: seq<Tensor>, ys: seq<Tensor>)
    requires forall x :: x in xs ==> StreamTensor(x)
    requires forall y :: y in ys ==> StreamTensor(y)
    requires |xs| < U64_LIMIT && |ys| < U64_LIMIT
    requires PayloadStream(xs) == PayloadStream(ys)
    ensures multiset(Map(Core, xs)) == multiset(Map(Core, ys))
  {
    IdPreorder();
    var sx, sy := Sort(xs, IdLe), Sort(ys, IdLe);
    SortCorrect(xs, IdLe);
    SortCorrect(ys, IdLe);
    PermutationMembers(sx, xs);
    PermutationMembers(sy, ys);
    U64Unique(|xs|, |ys|, Concat(sx, Frame), Concat(sy, Frame));
    assert Concat(sx, Frame) + [] == Concat(sx, Frame) && Concat(sy, Frame) + [] == Concat(sy, Frame);
    FramesUnique(sx, sy, [], []);
    assert Map(Core, sx) == Map(Core, sy);
    MapPermutes(Core, sx, xs);
    MapPermutes(Core, sy, ys);
  }

  // ---- When the stream forgets the order of its input ----

  /** Tensors of one id differ in nothing the stream commits to. */
  ghost predicate IdsDecide(tensors: seq<Tensor>)
  {
    forall a, b :: a in tensors && b in tensors && a.id == b.id ==> SameUpToKind(a, b)
  }

  /** The tensor with a fixed kind and stored hash. */
  function Anonymous(tensor: Tensor): Tensor
  {
    tensor.(kind := Bias, contentHash := seq(32, _ => 0))
  }

  lemma {:induction false} AnonymousFrames(tensors: seq<Tensor>)
    ensures Concat(Map(Anonymous, tensors), Frame) == Concat(tensors, Frame)
  {
    if tensors != [] {
      assert Map(Anonymous, tensors)[1..] == Map(Anonymous, tensors[1..]);
      AnonymousFrames(tensors[1..]);
    }
  }

  lemma AnonymousOrder(xs: seq<Tensor>, sorted: seq<Tensor>)
    requires IdsDecide(xs) && Permutation(sorted, xs) && SortedBy(sorted, IdLe)
    ensures SortedBy(Map(Anonymous, sorted), IdLe) && KeysDecide(Map(Anonymous, sorted), IdLe)
  {
    PathOrder();
    PermutationMembers(sorted, xs);
    var ys := Map(Anonymous, sorted);
    forall a, b | a in ys && b in ys && IdLe(a, b) && IdLe(b, a) ensures a == b {
      var i :| 0 <= i < |ys| && ys[i] == a;
      var j :| 0 <= j < |ys| && ys[j] == b;
      assert sorted[i] in xs && sorted[j] in xs;
    }
    forall i, j | 0 <= i < j < |ys| ensures IdLe(ys[i], ys[j]) {
      assert IdLe(sorted[i], sorted[j]);
    }
  }

  /** The caller's order leaves no trace in the stream when ids decide tensors. */
  lemma StreamForgetsOrder(xs: seq<Tensor>, ys: seq<Tensor>)
    requires Permutation(xs, ys) && IdsDecide(xs)
    ensures PayloadStream(xs) == PayloadStream(ys)
  {
    IdPreorder();
    var sx, sy := Sort(xs, IdLe), Sort(ys, IdLe);
    SortCorrect(xs, IdLe);
    SortCorrect(ys, IdLe);
    PermutationMembers(xs, ys);
    AnonymousOrder(xs, sx);
    AnonymousOrder(xs, sy);
    MapPermutes(Anonymous, sx, sy);
    SortedIsUnique(Map(Anonymous, sx), Map(Anonymous, sy), IdLe);
    AnonymousFrames(sx);
    AnonymousFrames(sy);
  }

  /** A stable sort places the first element before all others of its id. */
  lemma {:induction false} FirstOfItsId(x: Tensor, sorted: seq<Tensor>) returns (p: nat)
    ensures p < |Insert(x, sorted, IdLe)| && Insert(x, sorted, IdLe)[p] == x
    ensures forall q :: 0 <= q < p ==> !IdLe(x, Insert(x, sorted, IdLe)[q])
  {
    if sorted == [] || IdLe(x, sorted[0]) {
      p := 0;
    } else {
      var rest := FirstOfItsId(x, sorted[1..]);
      p := rest + 1;
    }
  }

  lemma FirstsAlign(x: Tensor, y: Tensor, r: seq<Tensor>, s: seq<Tensor>)
    requires x.id == y.id && |Insert(x, r, IdLe)| == |Insert(y, s, IdLe)|
    requires forall k :: 0 <= k < |Insert(x, r, IdLe)| ==> SameUpToKind(Insert(x, r, IdLe)[k], Insert(y, s, IdLe)[k])
    ensures SameUpToKind(x, y)
  {
    IdPreorder();
    var p := FirstOfItsId(x, r);
    var q := FirstOfItsId(y, s);
    assert IdLe(x, x) && IdLe(y, y);
  }

  lemma BringToFront(xs: seq<Tensor>, x: Tensor) returns (rest: seq<Tensor>)
    requires x in xs
    ensures Permutation(xs, [x] + rest)
  {
    var k :| 0 <= k < |xs| && xs[k] == x;
    rest := xs[..k] + xs[k + 1..];
    assert xs == xs[..k] + [x] + xs[k + 1..];
  }

  lemma EqualStreamsAlign(xs: seq<Tensor>, ys: seq<Tensor>)
    requires forall x :: x in xs ==> StreamTensor(x)
    requires Permutation(xs, ys) && |xs| < U64_LIMIT && PayloadStream(xs) == PayloadStream(ys)
    ensures |Sort(xs, IdLe)| == |Sort(ys, IdLe)|
    ensures forall k :: 0 <= k < |Sort(xs, IdLe)| ==> SameUpToKind(Sort(xs, IdLe)[k], Sort(ys, IdLe)[k])
  {
    IdPreorder();
    var sx, sy := Sort(xs, IdLe), Sort(ys, IdLe);
    SortCorrect(xs, IdLe);
    SortCorrect(ys, IdLe);
    PermutationMembers(sx, xs);
    PermutationMembers(sy, ys);
    PermutationMembers(xs, ys);
    U64Unique(|xs|, |ys|, Concat(sx, Frame), Concat(sy, Frame));
    assert Concat(sx, Frame) + [] == Concat(sx, Frame) && Concat(sy, Frame) + [] == Concat(sy, Frame);
    FramesUnique(sx, sy, [], []);
  }

  lemma OneStreamDecides(xs: seq<Tensor>, a: Tensor, b: Tensor)
    requires (forall x :: x in xs ==> StreamTensor(x)) && |xs| < U64_LIMIT
    requires forall ys :: Permutation(xs, ys) ==> PayloadStream(ys) == PayloadStream(xs)
    requires a in xs && b in xs && a.id == b.id
    ensures SameUpToKind(a, b)
  {
    var r := BringToFront(xs, a);
    var s := BringToFront(xs, b);
    var front, other := [a] + r, [b] + s;
    PermutationMembers(xs, front);
    assert PayloadStream(front) == PayloadStream(other);
    EqualStreamsAlign(front, other);
    assert front[1..] == r && other[1..] == s;
    FirstsAlign(a, b, Sort(r, IdLe), Sort(s, IdLe));
  }

  /**
    All rearrangements of valid tensors give one stream exactly when tensors of
    one id agree up to kind.
   */
  lemma StreamForgetsOrderExactly(xs: seq<Tensor>)
    requires (forall x :: x in xs ==> StreamTensor(x)) && |xs| < U64_LIMIT
    ensures (forall ys :: Permutation(xs, ys) ==> PayloadStream(ys) == PayloadStream(xs)) <==> IdsDecide(xs)
  {
    if IdsDecide(xs) {
      forall ys | Permutation(xs, ys) ensures PayloadStream(ys) == PayloadStream(xs) {
        StreamForgetsOrder(xs, ys);
      }
    }
    if forall ys :: Permutation(xs, ys) ==> PayloadStream(ys) == PayloadStream(xs) {
      forall a, b | a in xs && b in xs && a.id == b.id ensures SameUpToKind(a, b) {
        OneStreamDecides(xs, a, b);
      }
    }
  }
}
