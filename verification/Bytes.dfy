/**
  Machine integers, bytes, artifact paths and the little-endian framing that
  every identity preimage of the repository is built from.

  A byte encoder `E` is *prefix-unique* when `E(x) + s == E(y) + t` forces
  `x == y` and `s == t`.  Prefix-uniqueness composes under concatenation, which
  is how the injectivity of whole preimages is established.
 */
module Bytes {
  import opened Ordering

  type byte = x: int | 0 <= x < 0x100
  type u16 = x: int | 0 <= x < 0x1_0000
  type u32 = x: int | 0 <= x < 0x1_0000_0000
  type u64 = x: int | 0 <= x < 0x1_0000_0000_0000_0000

  const U64_LIMIT: nat := 0x1_0000_0000_0000_0000

  /** The bytes of a `String`; its length is a `usize`. */
  type Text = s: seq<byte> | |s| < 0x1_0000_0000_0000_0000

  /** `ArtifactPath`: a text wrapper, compared by its text. */
  datatype Path = Path(text: Text)

  predicate ByteLe(a: byte, b: byte) { a <= b }

  /** `str` and `ArtifactPath` compare bytewise, lexicographically. */
  predicate PathLe(a: Path, b: Path) { LexLe(a.text, b.text, ByteLe) }

  lemma PathOrder()
    ensures TotalOrder(PathLe)
  {
    assert TotalOrder(ByteLe);
    forall a: Path, b: Path ensures PathLe(a, b) || PathLe(b, a) {
      LexTotal(a.text, b.text, ByteLe);
    }
    forall a: Path, b: Path | PathLe(a, b) && PathLe(b, a) ensures a == b {
      LexAntisymmetric(a.text, b.text, ByteLe);
    }
    forall a: Path, b: Path, c: Path | PathLe(a, b) && PathLe(b, c) ensures PathLe(a, c) {
      LexTransitive(a.text, b.text, c.text, ByteLe);
    }
  }

  /** The order of `str`: a proper prefix first, else the smaller byte at the first difference. */
  ghost predicate Before(a: Path, b: Path)
  {
    a.text < b.text || exists k :: FirstDifference(a.text, b.text, k) && a.text[k] < b.text[k]
  }

  lemma PathLeMeans(a: Path, b: Path)
    ensures PathLe(a, b) <==> a == b || Before(a, b)
  {
    LexMeans(a.text, b.text, ByteLe);
    assert a.text <= b.text <==> a.text == b.text || a.text < b.text;
    assert forall k :: FirstDifference(a.text, b.text, k) && ByteLe(a.text[k], b.text[k]) ==> a.text[k] < b.text[k];
  }

  /** Strictly ascending keys. */
  ghost predicate AscendingBy<T(!new)>(xs: seq<T>, key: T -> Path)
  {
    forall i, j :: 0 <= i < j < |xs| ==> Before(key(xs[i]), key(xs[j]))
  }

  lemma SortedIsAscending<T(!new)>(xs: seq<T>, key: T -> Path, le: (T, T) -> bool)
    requires forall a, b :: le(a, b) <==> PathLe(key(a), key(b))
    ensures SortedBy(xs, le) && Distinct(Map(key, xs)) <==> AscendingBy(xs, key)
  {
    if SortedBy(xs, le) && Distinct(Map(key, xs)) {
      forall i, j | 0 <= i < j < |xs| ensures Before(key(xs[i]), key(xs[j])) {
        assert Map(key, xs)[i] != Map(key, xs)[j];
        PathLeMeans(key(xs[i]), key(xs[j]));
      }
    }
    if AscendingBy(xs, key) {
      forall i, j | 0 <= i < j < |xs| ensures le(xs[i], xs[j]) && key(xs[i]) != key(xs[j]) {
        assert Before(key(xs[i]), key(xs[j]));
        PathLeMeans(key(xs[i]), key(xs[j]));
      }
    }
  }

  lemma SortedByKey<T(!new)>(xs: seq<T>, key: T -> Path, le: (T, T) -> bool)
    requires forall a, b :: le(a, b) <==> PathLe(key(a), key(b))
    ensures Permutation(Sort(xs, le), xs)
    ensures Distinct(Map(key, xs)) ==> AscendingBy(Sort(xs, le), key)
  {
    PathOrder();
    assert TotalPreorder(le);
    SortCorrect(xs, le);
    MapPermutes(key, Sort(xs, le), xs);
    DistinctPermutes(Map(key, Sort(xs, le)), Map(key, xs));
    SortedIsAscending(Sort(xs, le), key, le);
  }

  lemma TailAscends<T(!new)>(xs: seq<T>, key: T -> Path)
    requires xs != [] && AscendingBy(xs, key)
    ensures AscendingBy(xs[1..], key)
  {
    forall i, j | 0 <= i < j < |xs| - 1 ensures Before(key(xs[1..][i]), key(xs[1..][j])) {
      assert xs[1..][i] == xs[i + 1] && xs[1..][j] == xs[j + 1];
    }
  }

  lemma BeforeOneWay(a: Path, b: Path)
    ensures !(Before(a, b) && Before(b, a))
  {
    PathLeMeans(a, b);
    PathLeMeans(b, a);
    if Before(a, b) && Before(b, a) {
      LexAntisymmetric(a.text, b.text, ByteLe);
    }
  }

  lemma AscendingHeads<T(!new)>(xs: seq<T>, ys: seq<T>, key: T -> Path)
    requires Permutation(xs, ys) && AscendingBy(xs, key) && AscendingBy(ys, key) && xs != []
    ensures ys != [] && xs[0] == ys[0]
  {
    PermutationMembers(xs, ys);
    assert xs[0] in ys && ys[0] in xs;
    var i :| 0 <= i < |ys| && ys[i] == xs[0];
    var j :| 0 <= j < |xs| && xs[j] == ys[0];
    BeforeOneWay(key(xs[0]), key(ys[0]));
  }

  lemma TailsPermute<T>(xs: seq<T>, ys: seq<T>)
    requires Permutation(xs, ys) && xs != [] && ys != [] && xs[0] == ys[0]
    ensures Permutation(xs[1..], ys[1..])
  {
    RemoveBoth(xs, ys, 0);
    assert xs[..0] + xs[1..] == xs[1..] && ys[..0] + ys[1..] == ys[1..];
  }

  /** Strictly ascending lists of the same elements are the same list. */
  lemma {:induction false} AscendingIsUnique<T(!new)>(xs: seq<T>, ys: seq<T>, key: T -> Path)
    requires Permutation(xs, ys) && AscendingBy(xs, key) && AscendingBy(ys, key)
    ensures xs == ys
  {
    if xs == [] {
      PermutationMembers(xs, ys);
    } else {
      AscendingHeads(xs, ys, key);
      TailsPermute(xs, ys);
      TailAscends(xs, key);
      TailAscends(ys, key);
      AscendingIsUnique(xs[1..], ys[1..], key);
      assert xs == [xs[0]] + xs[1..] && ys == [ys[0]] + ys[1..];
    }
  }

  // ---- IEEE-754 binary32, by bit pattern ----

  /** `f32::is_finite`: the exponent field is not all ones. */
  predicate IsFinite(bits: u32) { (bits / 0x80_0000) % 0x100 != 0xff }

  /** Orders finite floats exactly as `f32` comparison does; both zeros map to 0. */
  function FloatKey(bits: u32): int
  {
    if bits < 0x8000_0000 then bits else 0x8000_0000 - bits
  }

  function Pow2(n: nat): (p: nat)
    ensures p > 0
  {
    if n == 0 then 1 else 2 * Pow2(n - 1)
  }

  /** The size of a finite float without its sign, in units of 2^-149: subnormal, or `1.fraction` scaled. */
  function Magnitude(bits: nat): nat
  {
    var exponent, fraction := bits / 0x80_0000, bits % 0x80_0000;
    if exponent == 0 then fraction else (0x80_0000 + fraction) * Pow2(exponent - 1)
  }

  /** The number a finite float stands for, in units of 2^-149. */
  function ScaledValue(bits: u32): int
  {
    if bits < 0x8000_0000 then Magnitude(bits) else -(Magnitude(bits - 0x8000_0000) as int)
  }

  lemma {:induction false} Pow2Adds(m: nat, n: nat)
    ensures Pow2(m + n) == Pow2(m) * Pow2(n)
  {
    if m > 0 {
      Pow2Adds(m - 1, n);
    }
  }

  /** The smallest positive float, the smallest normal one, one, and minus one. */
  lemma FloatLandmarks()
    ensures ScaledValue(1) == 1 && ScaledValue(0x80_0000) == 0x80_0000
    ensures ScaledValue(0x3f80_0000) == Pow2(149) && ScaledValue(0xbf80_0000) == -(Pow2(149) as int)
  {
    assert Pow2(10) == 0x400 && Pow2(3) == 8;
    Pow2Adds(10, 10);
    Pow2Adds(20, 3);
    Pow2Adds(23, 126);
  }

  lemma MagnitudeGrows(bits: nat)
    ensures Magnitude(bits) < Magnitude(bits + 1)
  {
    var exponent, fraction := bits / 0x80_0000, bits % 0x80_0000;
    if fraction + 1 < 0x80_0000 {
      assert (bits + 1) / 0x80_0000 == exponent && (bits + 1) % 0x80_0000 == fraction + 1;
      if exponent > 0 {
        assert (0x80_0000 + (fraction + 1)) * Pow2(exponent - 1) ==
               (0x80_0000 + fraction) * Pow2(exponent - 1) + Pow2(exponent - 1);
      }
    } else {
      assert (bits + 1) / 0x80_0000 == exponent + 1 && (bits + 1) % 0x80_0000 == 0;
    }
  }

  lemma {:induction false} MagnitudeOrders(a: nat, b: nat)
    ensures a < b ==> Magnitude(a) < Magnitude(b)
    decreases b
  {
    if a < b {
      MagnitudeGrows(b - 1);
      if a < b - 1 {
        MagnitudeOrders(a, b - 1);
      }
    }
  }

  /** The key orders floats by the numbers they stand for, both zeros being equal. */
  lemma FloatKeyOrders(a: u32, b: u32)
    ensures FloatKey(a) < FloatKey(b) <==> ScaledValue(a) < ScaledValue(b)
    ensures FloatKey(a) == FloatKey(b) <==> ScaledValue(a) == ScaledValue(b)
  {
    var x := if a < 0x8000_0000 then a else a - 0x8000_0000;
    var y := if b < 0x8000_0000 then b else b - 0x8000_0000;
    MagnitudeOrders(x, y);
    MagnitudeOrders(y, x);
    MagnitudeOrders(0, x);
    MagnitudeOrders(0, y);
    assert Magnitude(0) == 0;
  }

  /** Finite floats are those whose size lies below that of infinity, 2^128. */
  lemma FiniteIsBounded(bits: u32)
    ensures IsFinite(bits) <==> -0x7f80_0000 < FloatKey(bits) < 0x7f80_0000
  {
  }

  // ---- Little-endian integers ----

  function Pow256(n: nat): (p: nat)
    ensures p > 0
  {
    if n == 0 then 1 else 256 * Pow256(n - 1)
  }

  lemma Pow256Values()
    ensures Pow256(1) == 0x100 && Pow256(2) == 0x1_0000 && Pow256(4) == 0x1_0000_0000
    ensures Pow256(8) == 0x1_0000_0000_0000_0000
  {
    assert Pow256(3) == 0x100_0000;
    assert Pow256(4) == 256 * Pow256(3);
    assert Pow256(5) == 256 * Pow256(4);
    assert Pow256(6) == 256 * Pow256(5);
    assert Pow256(7) == 256 * Pow256(6);
    assert Pow256(8) == 256 * Pow256(7);
  }

  /** `to_le_bytes` of the `width`-byte integer `v as uN`. */
  function LittleEndian(v: nat, width: nat): (bs: seq<byte>)
    ensures |bs| == width
  {
    if width == 0 then [] else [v % 256] + LittleEndian(v / 256, width - 1)
  }

  /** Byte `k` is digit `k` of `v` in base 256. */
  lemma {:induction false} LittleEndianDigits(v: nat, width: nat, k: nat)
    requires k < width
    ensures LittleEndian(v, width)[k] == v / Pow256(k) % 256
  {
    if k > 0 {
      LittleEndianDigits(v / 256, width - 1, k - 1);
      DivideTwice(v, Pow256(k - 1));
    }
  }

  lemma DivideTwice(v: nat, d: nat)
    requires d > 0
    ensures v / 256 / d == v / (256 * d)
  {
    var q, r := v / 256, v % 256;
    var p, m := q / d, q % d;
    assert q == p * d + m && v == 256 * q + r;
    assert 256 * (p * d) == p * (256 * d);
    assert v == p * (256 * d) + (256 * m + r) && 256 * m + r < 256 * d;
    QuotientIs(v, 256 * d, p, 256 * m + r);
  }

  lemma QuotientIs(v: nat, d: nat, q: nat, r: nat)
    requires v == q * d + r && r < d
    ensures v / d == q
  {
    var p, s := v / d, v % d;
    assert v == p * d + s;
    if p > q {
      Multiples(q + 1, p, d);
    } else if p < q {
      Multiples(p + 1, q, d);
    }
  }

  lemma Multiples(a: nat, b: nat, d: nat)
    requires 0 < a <= b
    ensures (a - 1) * d + d <= b * d
  {
    assert b * d == (a - 1) * d + d + (b - a) * d;
  }

  /** `from_le_bytes`. */
  function FromLittleEndian(bs: seq<byte>): nat
  {
    if bs == [] then 0 else bs[0] + 256 * FromLittleEndian(bs[1..])
  }

  lemma {:induction false} DecodeOfEncode(v: nat, width: nat)
    requires v < Pow256(width)
    ensures FromLittleEndian(LittleEndian(v, width)) == v
  {
    if width > 0 {
      assert v / 256 < Pow256(width - 1);
      DecodeOfEncode(v / 256, width - 1);
      assert LittleEndian(v, width)[1..] == LittleEndian(v / 256, width - 1);
    }
  }

  lemma {:induction false} EncodeOfDecode(bs: seq<byte>)
    ensures FromLittleEndian(bs) < Pow256(|bs|)
    ensures LittleEndian(FromLittleEndian(bs), |bs|) == bs
  {
    if bs != [] {
      EncodeOfDecode(bs[1..]);
      LowestDigit(bs[0], FromLittleEndian(bs[1..]));
      assert bs == [bs[0]] + bs[1..];
    }
  }

  lemma LowestDigit(digit: byte, rest: nat)
    ensures (digit + 256 * rest) % 256 == digit && (digit + 256 * rest) / 256 == rest
  {
  }

  /** `u16::from_le_bytes`. */
  function ToU16(bs: seq<byte>): (v: u16)
    requires |bs| == 2
    ensures LittleEndian(v, 2) == bs
  {
    EncodeOfDecode(bs);
    Pow256Values();
    FromLittleEndian(bs)
  }

  /** `u32::from_le_bytes`. */
  function ToU32(bs: seq<byte>): (v: u32)
    requires |bs| == 4
    ensures LittleEndian(v, 4) == bs
  {
    EncodeOfDecode(bs);
    Pow256Values();
    FromLittleEndian(bs)
  }

  lemma ToU16Means(bs: seq<byte>)
    requires |bs| == 2
    ensures ToU16(bs) == bs[0] + 0x100 * bs[1] as int
  {
    assert bs[1..][1..] == [] && FromLittleEndian(bs[1..]) == bs[1];
  }

  lemma ToU32Means(bs: seq<byte>)
    requires |bs| == 4
    ensures ToU32(bs) == bs[0] + 0x100 * bs[1] as int + 0x1_0000 * bs[2] as int + 0x100_0000 * bs[3] as int
  {
    assert bs[1..][1..] == bs[2..] && bs[2..][1..] == bs[3..] && bs[3..][1..] == [];
    assert FromLittleEndian(bs[3..]) == bs[3] && FromLittleEndian(bs[2..]) == bs[2] + 0x100 * bs[3] as int;
    assert FromLittleEndian(bs[1..]) == bs[1] + 0x100 * bs[2] as int + 0x1_0000 * bs[3] as int;
  }

  /** The little-endian words at offset `i`. */
  function Word16(bs: seq<byte>, i: nat): nat
    requires i + 2 <= |bs|
  {
    bs[i] + 0x100 * bs[i + 1] as int
  }

  function Word32(bs: seq<byte>, i: nat): nat
    requires i + 4 <= |bs|
  {
    bs[i] + 0x100 * bs[i + 1] as int + 0x1_0000 * bs[i + 2] as int + 0x100_0000 * bs[i + 3] as int
  }

  lemma SliceU16(bs: seq<byte>, i: nat)
    requires i + 2 <= |bs|
    ensures ToU16(bs[i..i + 2]) == Word16(bs, i)
  {
    ToU16Means(bs[i..i + 2]);
  }

  lemma SliceU32(bs: seq<byte>, i: nat)
    requires i + 4 <= |bs|
    ensures ToU32(bs[i..i + 4]) == Word32(bs, i)
  {
    ToU32Means(bs[i..i + 4]);
  }

  lemma U16RoundTrip(v: u16)
    ensures ToU16(EncU16(v)) == v
  {
    Pow256Values();
    DecodeOfEncode(v, 2);
  }

  lemma U32RoundTrip(v: u32)
    ensures ToU32(EncU32(v)) == v
  {
    Pow256Values();
    DecodeOfEncode(v, 4);
  }

  /** `out[start..start + bs.len()].copy_from_slice(bs)`. */
  method CopyFromSlice(out: array<byte>, start: nat, bs: seq<byte>)
    requires start + |bs| <= out.Length
    modifies out
    ensures out[..start + |bs|] == old(out[..start]) + bs
    ensures out[start + |bs|..] == old(out[start + |bs|..])
  {
    forall i | 0 <= i < |bs| {
      out[start + i] := bs[i];
    }
  }

  // ---- Framing ----

  function EncU8(v: byte): (bs: seq<byte>) { [v] }
  function EncU16(v: u16): (bs: seq<byte>) { LittleEndian(v, 2) }
  function EncU32(v: u32): (bs: seq<byte>) { LittleEndian(v, 4) }

  /** A length is cast to `u64` before it is written, so the frame is always eight bytes. */
  function EncU64(v: nat): (bs: seq<byte>) { LittleEndian(v, 8) }

  /** Length-prefixed bytes. */
  function EncBytes(s: seq<byte>): (bs: seq<byte>) { EncU64(|s|) + s }

  /** The bytes of an ASCII literal. */
  function Ascii(s: string): seq<byte>
  {
    seq(|s|, i requires 0 <= i < |s| => s[i] as int % 0x100)
  }

  /** Cuts of equal length agree. */
  lemma CutUnique(a: seq<byte>, b: seq<byte>, s: seq<byte>, t: seq<byte>)
    requires |a| == |b| && a + s == b + t
    ensures a == b && s == t
  {
    assert a == (a + s)[..|a|] && b == (b + t)[..|b|];
    assert s == (a + s)[|a|..] && t == (b + t)[|b|..];
  }

  lemma FixedUnique(v: nat, w: nat, width: nat, s: seq<byte>, t: seq<byte>)
    requires v < Pow256(width) && w < Pow256(width)
    requires LittleEndian(v, width) + s == LittleEndian(w, width) + t
    ensures v == w && s == t
  {
    CutUnique(LittleEndian(v, width), LittleEndian(w, width), s, t);
    DecodeOfEncode(v, width);
    DecodeOfEncode(w, width);
  }

  lemma U16Unique(v: u16, w: u16, s: seq<byte>, t: seq<byte>)
    requires EncU16(v) + s == EncU16(w) + t
    ensures v == w && s == t
  {
    Pow256Values();
    FixedUnique(v, w, 2, s, t);
  }

  lemma U32Unique(v: u32, w: u32, s: seq<byte>, t: seq<byte>)
    requires EncU32(v) + s == EncU32(w) + t
    ensures v == w && s == t
  {
    Pow256Values();
    FixedUnique(v, w, 4, s, t);
  }

  lemma U64Unique(v: nat, w: nat, s: seq<byte>, t: seq<byte>)
    requires v < U64_LIMIT && w < U64_LIMIT
    requires EncU64(v) + s == EncU64(w) + t
    ensures v == w && s == t
  {
    Pow256Values();
    FixedUnique(v, w, 8, s, t);
  }

  lemma BytesUnique(x: seq<byte>, y: seq<byte>, s: seq<byte>, t: seq<byte>)
    requires |x| < U64_LIMIT && |y| < U64_LIMIT
    requires EncBytes(x) + s == EncBytes(y) + t
    ensures x == y && s == t
  {
    Assoc(EncU64(|x|), x, s);
    Assoc(EncU64(|y|), y, t);
    U64Unique(|x|, |y|, x + s, y + t);
    CutUnique(x, y, s, t);
  }

  lemma Assoc(a: seq<byte>, b: seq<byte>, c: seq<byte>)
    ensures (a + b) + c == a + (b + c)
  {
  }
}
