/**
  Canonicalization of JSON values: object keys sorted at every depth.

  An object is the sequence of its entries in iteration order.  Its keys are
  distinct, which is an invariant of the source's map type (`WellFormed`).
 */
module JsonCanonical {
  import opened Ordering
  import opened Bytes

  /** Scalars are compared as they are; their payload does not matter here. */
  datatype Scalar = Null | Bool(flag: bool) | Number(repr: Text) | String(text: Text)

  datatype Json = Leaf(scalar: Scalar) | Array(values: seq<Json>) | Object(entries: seq<Entry>)

  datatype Entry = Entry(key: Path, value: Json)

  predicate EntryLe(a: Entry, b: Entry) { PathLe(a.key, b.key) }

  function Key(e: Entry): Path { e.key }

  lemma EntryPreorder()
    ensures TotalPreorder(EntryLe)
  {
    PathOrder();
  }

  /** `BTreeMap::from_iter`: a repeated key keeps its last value. */
  function Collect(entries: seq<Entry>): seq<Entry>
  {
    Sort(LastOfEachKey(entries), EntryLe)
  }

  function LastOfEachKey(entries: seq<Entry>): seq<Entry>
  {
    if entries == [] then []
    else if exists e :: e in entries[1..] && e.key == entries[0].key then LastOfEachKey(entries[1..])
    else [entries[0]] + LastOfEachKey(entries[1..])
  }

  /** `canonicalize_json_value`. */
  function Canonicalize(value: Json): Json
    decreases value, 0
  {
    match value
    case Array(values) => Array(CanonicalizeAll(values))
    case Object(entries) => Object(Collect(CanonicalizeEntries(entries)))
    case Leaf(_) => value
  }

  function CanonicalizeAll(values: seq<Json>): (r: seq<Json>)
    ensures |r| == |values|
    ensures forall i :: 0 <= i < |values| ==> r[i] == Canonicalize(values[i])
    decreases values, 1
  {
    if values == [] then [] else [Canonicalize(values[0])] + CanonicalizeAll(values[1..])
  }

  function CanonicalizeEntry(e: Entry): Entry
    decreases e, 0
  {
    Entry(e.key, Canonicalize(e.value))
  }

  function CanonicalizeEntries(entries: seq<Entry>): (r: seq<Entry>)
    ensures |r| == |entries|
    ensures forall i :: 0 <= i < |entries| ==> r[i] == CanonicalizeEntry(entries[i])
    decreases entries, 1
  {
    if entries == [] then [] else [CanonicalizeEntry(entries[0])] + CanonicalizeEntries(entries[1..])
  }

  // ---- Specification ----

  ghost predicate WellFormed(value: Json)
  {
    match value
    case Leaf(_) => true
    case Array(values) => forall v :: v in values ==> WellFormed(v)
    case Object(entries) => Distinct(Map(Key, entries)) && forall e :: e in entries ==> WellFormed(e.value)
  }

  ghost predicate SortedEverywhere(value: Json)
  {
    match value
    case Leaf(_) => true
    case Array(values) => forall v :: v in values ==> SortedEverywhere(v)
    case Object(entries) => AscendingBy(entries, Key) && forall e :: e in entries ==> SortedEverywhere(e.value)
  }

  /** Equal up to the order of object keys, at every depth. */
  ghost predicate SameUpToOrder(a: Json, b: Json)
    decreases a
  {
    match a
    case Leaf(_) => a == b
    case Array(values) =>
      && b.Array? && |values| == |b.values|
      && forall i :: 0 <= i < |values| ==> SameUpToOrder(values[i], b.values[i])
    case Object(entries) =>
      && b.Object? && |entries| == |b.entries|
      && forall i :: 0 <= i < |entries| ==>
           exists j :: 0 <= j < |b.entries| && SameEntry(entries[i], b.entries[j])
  }

  ghost predicate SameEntry(a: Entry, b: Entry)
    decreases a
  {
    a.key == b.key && SameUpToOrder(a.value, b.value)
  }

  // ---- Distinct keys ----

  lemma {:induction false} DistinctKeysKeepAll(entries: seq<Entry>)
    requires Distinct(Map(Key, entries))
    ensures LastOfEachKey(entries) == entries
  {
    if entries != [] {
      var keys := Map(Key, entries);
      assert Map(Key, entries[1..]) == keys[1..];
      forall e | e in entries[1..] ensures e.key != entries[0].key {
        var k :| 0 <= k < |entries[1..]| && entries[1..][k] == e;
        assert keys[0] != keys[k + 1];
      }
      DistinctKeysKeepAll(entries[1..]);
    }
  }

  /** Of the entries of one key the last is kept. */
  lemma {:induction false} LastIsKept(entries: seq<Entry>, e: Entry)
    ensures e in LastOfEachKey(entries) <==>
      exists i :: 0 <= i < |entries| && entries[i] == e && forall j :: i < j < |entries| ==> entries[j].key != e.key
  {
    if entries != [] {
      var rest := entries[1..];
      LastIsKept(rest, e);
      assert forall j :: 0 <= j < |rest| ==> rest[j] == entries[j + 1];
      if i :| 0 <= i < |rest| && rest[i] == e && forall j :: i < j < |rest| ==> rest[j].key != e.key {
        assert entries[i + 1] == e && forall j :: i + 1 < j < |entries| ==> entries[j] == rest[j - 1];
      }
      if i :| 0 < i < |entries| && entries[i] == e && forall j :: i < j < |entries| ==> entries[j].key != e.key {
        assert rest[i - 1] == e;
      }
    }
  }

  /** On distinct keys collecting is sorting. */
  lemma CollectSorts(entries: seq<Entry>)
    requires Distinct(Map(Key, entries))
    ensures SortedBy(Collect(entries), EntryLe) && Permutation(Collect(entries), entries)
    ensures Distinct(Map(Key, Collect(entries))) && AscendingBy(Collect(entries), Key)
  {
    DistinctKeysKeepAll(entries);
    EntryPreorder();
    SortCorrect(entries, EntryLe);
    MapPermutes(Key, Collect(entries), entries);
    DistinctPermutes(Map(Key, Collect(entries)), Map(Key, entries));
    SortedIsAscending(Collect(entries), Key, EntryLe);
  }

  lemma SameKeySameEntry(entries: seq<Entry>, a: Entry, b: Entry)
    requires Distinct(Map(Key, entries)) && a in entries && b in entries && a.key == b.key
    ensures a == b
  {
    var i :| 0 <= i < |entries| && entries[i] == a;
    var j :| 0 <= j < |entries| && entries[j] == b;
    assert Map(Key, entries)[i] == Map(Key, entries)[j];
  }

  lemma CollectedMember(entries: seq<Entry>, e: Entry)
    requires Distinct(Map(Key, entries)) && e in Collect(CanonicalizeEntries(entries))
    ensures e in CanonicalizeEntries(entries)
  {
    CollectedPermutes(entries);
    PermutationMembers(Collect(CanonicalizeEntries(entries)), CanonicalizeEntries(entries));
  }

  lemma CollectedFrom(entries: seq<Entry>, e: Entry) returns (i: nat)
    requires Distinct(Map(Key, entries)) && e in Collect(CanonicalizeEntries(entries))
    ensures i < |entries| && entries[i] in entries && e == CanonicalizeEntry(entries[i])
  {
    var mapped := CanonicalizeEntries(entries);
    CollectedMember(entries, e);
    i :| 0 <= i < |mapped| && mapped[i] == e;
  }

  lemma KeysUnchanged(entries: seq<Entry>)
    ensures Map(Key, CanonicalizeEntries(entries)) == Map(Key, entries)
  {
  }

  // ---- Theory ----

  /** The result is well-formed and sorted at every depth. */
  lemma {:induction false} CanonicalIsSorted(value: Json)
    requires WellFormed(value)
    ensures WellFormed(Canonicalize(value)) && SortedEverywhere(Canonicalize(value))
    decreases value
  {
    match value
    case Leaf(_) =>
    case Array(values) =>
      forall v | v in CanonicalizeAll(values) ensures WellFormed(v) && SortedEverywhere(v) {
        var i :| 0 <= i < |values| && CanonicalizeAll(values)[i] == v;
        CanonicalIsSorted(values[i]);
      }
    case Object(entries) =>
      var mapped := CanonicalizeEntries(entries);
      KeysUnchanged(entries);
      CollectSorts(mapped);
      forall e | e in Collect(mapped) ensures WellFormed(e.value) && SortedEverywhere(e.value) {
        var i := CollectedFrom(entries, e);
        CanonicalIsSorted(entries[i].value);
      }
  }

  /** A value sorted everywhere is already canonical. */
  lemma {:induction false} SortedIsCanonical(value: Json)
    requires WellFormed(value) && SortedEverywhere(value)
    ensures Canonicalize(value) == value
    decreases value
  {
    match value
    case Leaf(_) =>
    case Array(values) =>
      forall i | 0 <= i < |values| ensures CanonicalizeAll(values)[i] == values[i] {
        SortedIsCanonical(values[i]);
      }
    case Object(entries) =>
      forall i | 0 <= i < |entries| ensures CanonicalizeEntries(entries)[i] == entries[i] {
        assert entries[i] in entries;
        SortedIsCanonical(entries[i].value);
      }
      assert CanonicalizeEntries(entries) == entries;
      CollectSorts(entries);
      SortedIsAscending(entries, Key, EntryLe);
      SortedEntriesUnique(Collect(entries), entries);
  }

  lemma SortedEntriesUnique(xs: seq<Entry>, ys: seq<Entry>)
    requires SortedBy(xs, EntryLe) && SortedBy(ys, EntryLe) && Permutation(xs, ys)
    requires Distinct(Map(Key, xs))
    ensures xs == ys
  {
    EntryPreorder();
    PathOrder();
    forall a, b | a in xs && b in xs && EntryLe(a, b) && EntryLe(b, a) ensures a == b {
      SameKeySameEntry(xs, a, b);
    }
    SortedIsUnique(xs, ys, EntryLe);
  }

  /** Canonicalizing twice changes nothing. */
  lemma CanonicalizeIsIdempotent(value: Json)
    requires WellFormed(value)
    ensures Canonicalize(Canonicalize(value)) == Canonicalize(value)
  {
    CanonicalIsSorted(value);
    SortedIsCanonical(Canonicalize(value));
  }

  lemma DistinctEntries(entries: seq<Entry>)
    requires Distinct(Map(Key, entries))
    ensures Distinct(entries)
  {
    forall i, j | 0 <= i < j < |entries| ensures entries[i] != entries[j] {
      assert Map(Key, entries)[i] != Map(Key, entries)[j];
    }
  }

  /** Key order is the only thing canonicalization forgets. */
  lemma {:induction false} SameMeansSameForm(a: Json, b: Json)
    requires WellFormed(a) && WellFormed(b) && SameUpToOrder(a, b)
    ensures Canonicalize(a) == Canonicalize(b)
    decreases a
  {
    match a
    case Leaf(_) =>
    case Array(values) =>
      forall i | 0 <= i < |values| ensures Canonicalize(values[i]) == Canonicalize(b.values[i]) {
        assert values[i] in values && b.values[i] in b.values;
        SameMeansSameForm(values[i], b.values[i]);
      }
      assert CanonicalizeAll(values) == CanonicalizeAll(b.values);
    case Object(entries) =>
      var ma, mb := CanonicalizeEntries(entries), CanonicalizeEntries(b.entries);
      forall e | e in ma ensures e in mb {
        var i :| 0 <= i < |ma| && ma[i] == e;
        var j :| 0 <= j < |b.entries| && SameEntry(entries[i], b.entries[j]);
        assert entries[i] in entries && b.entries[j] in b.entries;
        SameMeansSameForm(entries[i].value, b.entries[j].value);
        assert mb[j] == e;
      }
      SameEntriesCollect(entries, b.entries);
  }

  lemma SameEntriesCollect(a: seq<Entry>, b: seq<Entry>)
    requires Distinct(Map(Key, a)) && Distinct(Map(Key, b)) && |a| == |b|
    requires forall e :: e in CanonicalizeEntries(a) ==> e in CanonicalizeEntries(b)
    ensures Collect(CanonicalizeEntries(a)) == Collect(CanonicalizeEntries(b))
  {
    var ma, mb := CanonicalizeEntries(a), CanonicalizeEntries(b);
    KeysUnchanged(a);
    KeysUnchanged(b);
    DistinctEntries(ma);
    DistinctEntries(mb);
    DistinctInsidePermutes(ma, mb);
    CollectSorts(ma);
    CollectSorts(mb);
    SortedEntriesUnique(Collect(ma), Collect(mb));
  }

  lemma {:induction false} SameFormMeansSame(a: Json, b: Json)
    requires WellFormed(a) && WellFormed(b) && Canonicalize(a) == Canonicalize(b)
    ensures SameUpToOrder(a, b)
    decreases a
  {
    match a
    case Leaf(_) =>
    case Array(values) =>
      assert b.Array? && CanonicalizeAll(values) == CanonicalizeAll(b.values);
      forall i | 0 <= i < |values| ensures SameUpToOrder(values[i], b.values[i]) {
        assert values[i] in values && b.values[i] in b.values;
        assert Canonicalize(values[i]) == CanonicalizeAll(values)[i] == CanonicalizeAll(b.values)[i];
        SameFormMeansSame(values[i], b.values[i]);
      }
    case Object(entries) =>
      assert b.Object?;
      CollectedEntries(entries, b.entries);
      CollectedLengths(entries, b.entries);
      forall i | 0 <= i < |entries| ensures exists j :: 0 <= j < |b.entries| && SameEntry(entries[i], b.entries[j]) {
        var j := Counterpart(entries, b.entries, i);
        assert entries[i] in entries && b.entries[j] in b.entries;
        SameFormMeansSame(entries[i].value, b.entries[j].value);
        assert SameEntry(entries[i], b.entries[j]);
      }
  }

  lemma CollectedPermutes(entries: seq<Entry>)
    requires Distinct(Map(Key, entries))
    ensures Permutation(Collect(CanonicalizeEntries(entries)), CanonicalizeEntries(entries))
  {
    KeysUnchanged(entries);
    CollectSorts(CanonicalizeEntries(entries));
  }

  lemma CollectedEntries(a: seq<Entry>, b: seq<Entry>)
    requires Distinct(Map(Key, a)) && Distinct(Map(Key, b))
    requires Collect(CanonicalizeEntries(a)) == Collect(CanonicalizeEntries(b))
    ensures Permutation(CanonicalizeEntries(a), CanonicalizeEntries(b))
  {
    CollectedPermutes(a);
    CollectedPermutes(b);
  }

  lemma CollectedLengths(a: seq<Entry>, b: seq<Entry>)
    requires Permutation(CanonicalizeEntries(a), CanonicalizeEntries(b))
    ensures |a| == |b|
  {
    PermutationMembers(CanonicalizeEntries(a), CanonicalizeEntries(b));
  }

  lemma Counterpart(a: seq<Entry>, b: seq<Entry>, i: nat) returns (j: nat)
    requires Permutation(CanonicalizeEntries(a), CanonicalizeEntries(b)) && i < |a|
    ensures j < |b| && a[i].key == b[j].key && Canonicalize(a[i].value) == Canonicalize(b[j].value)
  {
    var ma, mb := CanonicalizeEntries(a), CanonicalizeEntries(b);
    PermutationMembers(ma, mb);
    assert ma[i] in mb;
    j :| 0 <= j < |mb| && mb[j] == ma[i];
  }

  /**
    Two values have one canonical form exactly when they are equal up to the
    order of object keys.
   */
  lemma CanonicalFormDecides(a: Json, b: Json)
    requires WellFormed(a) && WellFormed(b)
    ensures Canonicalize(a) == Canonicalize(b) <==> SameUpToOrder(a, b)
  {
    if SameUpToOrder(a, b) {
      SameMeansSameForm(a, b);
    }
    if Canonicalize(a) == Canonicalize(b) {
      SameFormMeansSame(a, b);
    }
  }
}
