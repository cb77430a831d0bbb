/**
  Orders, stable sorting and lexicographic comparison.

  The repository leans on ordered collections (`BTreeMap`, `BTreeSet`, `sort`,
  `sort_by`) to make its results independent of the order of its inputs.  This
  module states what those collections guarantee, once, for every element type.
 */
module Ordering {

  ghost predicate TotalPreorder<T(!new)>(le: (T, T) -> bool)
  {
    && (forall a, b :: le(a, b) || le(b, a))
    && (forall a, b, c :: le(a, b) && le(b, c) ==> le(a, c))
  }

  ghost predicate TotalOrder<T(!new)>(le: (T, T) -> bool)
  {
    && TotalPreorder(le)
    && (forall a, b :: le(a, b) && le(b, a) ==> a == b)
  }

  ghost predicate SortedBy<T>(xs: seq<T>, le: (T, T) -> bool)
  {
    forall i, j :: 0 <= i < j < |xs| ==> le(xs[i], xs[j])
  }

  /** Elements that compare equal are the same element. */
  ghost predicate KeysDecide<T>(xs: seq<T>, le: (T, T) -> bool)
  {
    forall a, b :: a in xs && b in xs && le(a, b) && le(b, a) ==> a == b
  }

  ghost predicate Permutation<T>(xs: seq<T>, ys: seq<T>)
  {
    multiset(xs) == multiset(ys)
  }

  ghost predicate Distinct<T>(xs: seq<T>)
  {
    forall i, j :: 0 <= i < j < |xs| ==> xs[i] != xs[j]
  }

  function ToSet<T>(xs: seq<T>): set<T>
  {
    set x | x in xs
  }

  /** Places `x` in front of the first element that does not precede it. */
  function Insert<T>(x: T, xs: seq<T>, le: (T, T) -> bool): seq<T>
  {
    if xs == [] || le(x, xs[0]) then [x] + xs else [xs[0]] + Insert(x, xs[1..], le)
  }

  /** Stable sort: equal keys keep their input order. */
  function Sort<T>(xs: seq<T>, le: (T, T) -> bool): seq<T>
  {
    if xs == [] then [] else Insert(xs[0], Sort(xs[1..], le), le)
  }

  lemma {:induction false} InsertPermutes<T>(x: T, xs: seq<T>, le: (T, T) -> bool)
    ensures multiset(Insert(x, xs, le)) == multiset{x} + multiset(xs)
  {
    if xs == [] || le(x, xs[0]) {
    } else {
      InsertPermutes(x, xs[1..], le);
      assert xs == [xs[0]] + xs[1..];
    }
  }

  lemma {:induction false} InsertSorts<T(!new)>(x: T, xs: seq<T>, le: (T, T) -> bool)
    requires TotalPreorder(le) && SortedBy(xs, le)
    ensures SortedBy(Insert(x, xs, le), le)
  {
    if xs == [] || le(x, xs[0]) {
    } else {
      InsertSorts(x, xs[1..], le);
      InsertPermutes(x, xs[1..], le);
      var rest := Insert(x, xs[1..], le);
      forall i | 0 <= i < |rest| ensures le(xs[0], rest[i]) {
        assert rest[i] in multiset(rest);
        if rest[i] != x {
          assert rest[i] in xs[1..];
        }
      }
    }
  }

  /** What the source's `sort` and `sort_by` promise: a sorted permutation. */
  lemma {:induction false} SortCorrect<T(!new)>(xs: seq<T>, le: (T, T) -> bool)
    requires TotalPreorder(le)
    ensures SortedBy(Sort(xs, le), le)
    ensures Permutation(Sort(xs, le), xs)
  {
    if xs != [] {
      SortCorrect(xs[1..], le);
      InsertSorts(xs[0], Sort(xs[1..], le), le);
      InsertPermutes(xs[0], Sort(xs[1..], le), le);
      assert xs == [xs[0]] + xs[1..];
    }
  }

  lemma PermutationMembers<T>(xs: seq<T>, ys: seq<T>)
    requires Permutation(xs, ys)
    ensures |xs| == |ys|
    ensures forall x :: x in xs <==> x in ys
  {
    assert |multiset(xs)| == |xs| && |multiset(ys)| == |ys|;
    forall x ensures x in xs <==> x in ys {
      assert x in xs <==> x in multiset(xs);
      assert x in ys <==> x in multiset(ys);
    }
  }

  /** A sorted sequence is determined by its elements when keys decide them. */
  lemma {:induction false} SortedIsUnique<T(!new)>(xs: seq<T>, ys: seq<T>, le: (T, T) -> bool)
    requires TotalPreorder(le)
    requires SortedBy(xs, le) && SortedBy(ys, le)
    requires Permutation(xs, ys) && KeysDecide(xs, le)
    ensures xs == ys
  {
    PermutationMembers(xs, ys);
    if xs != [] {
      SameHead(xs, ys, le);
      TailKeepsOrder(xs, le);
      TailKeepsOrder(ys, le);
      SortedIsUnique(xs[1..], ys[1..], le);
    }
  }

  lemma TailKeepsOrder<T>(xs: seq<T>, le: (T, T) -> bool)
    requires xs != [] && SortedBy(xs, le)
    ensures SortedBy(xs[1..], le)
    ensures KeysDecide(xs, le) ==> KeysDecide(xs[1..], le)
    ensures multiset(xs[1..]) == multiset(xs) - multiset{xs[0]}
  {
    assert xs == [xs[0]] + xs[1..];
    assert forall a :: a in xs[1..] ==> a in xs;
  }

  lemma SameHead<T(!new)>(xs: seq<T>, ys: seq<T>, le: (T, T) -> bool)
    requires TotalPreorder(le)
    requires SortedBy(xs, le) && SortedBy(ys, le)
    requires Permutation(xs, ys) && KeysDecide(xs, le)
    requires xs != []
    ensures ys != [] && xs[0] == ys[0]
  {
    PermutationMembers(xs, ys);
    var x, y := xs[0], ys[0];
    assert x in ys && y in xs;
    var i :| 0 <= i < |xs| && xs[i] == y;
    var j :| 0 <= j < |ys| && ys[j] == x;
    assert le(x, x) && le(y, y);
    assert le(x, y) && le(y, x);
  }

  lemma RemoveAtPermutes<T>(xs: seq<T>, k: nat)
    requires k < |xs|
    ensures multiset(xs[..k] + xs[k + 1..]) == multiset(xs) - multiset{xs[k]}
  {
    assert xs == xs[..k] + [xs[k]] + xs[k + 1..];
  }

  /** Applies `f` to every element. */
  function Map<A, B>(f: A -> B, xs: seq<A>): (ys: seq<B>)
    ensures |ys| == |xs|
    ensures forall i :: 0 <= i < |xs| ==> ys[i] == f(xs[i])
  {
    seq(|xs|, i requires 0 <= i < |xs| => f(xs[i]))
  }

  lemma MapRemoveAt<A, B>(f: A -> B, xs: seq<A>, k: nat)
    requires k < |xs|
    ensures multiset(Map(f, xs)) == multiset{f(xs[k])} + multiset(Map(f, xs[..k] + xs[k + 1..]))
  {
    var ys := Map(f, xs);
    assert ys == ys[..k] + [ys[k]] + ys[k + 1..];
    assert Map(f, xs[..k] + xs[k + 1..]) == ys[..k] + ys[k + 1..];
  }

  lemma {:induction false} MapPermutes<A, B>(f: A -> B, a: seq<A>, b: seq<A>)
    requires Permutation(a, b)
    ensures Permutation(Map(f, a), Map(f, b))
    decreases |a|
  {
    if a == [] {
      assert multiset(b) == multiset{} && b == [];
    } else {
      var k := PositionIn(a[0], a, b);
      RemoveBoth(a, b, k);
      MapRemoveAt(f, a, 0);
      MapRemoveAt(f, b, k);
      MapPermutes(f, a[..0] + a[1..], b[..k] + b[k + 1..]);
    }
  }

  lemma PositionIn<A>(x: A, a: seq<A>, b: seq<A>) returns (k: nat)
    requires Permutation(a, b) && x in a
    ensures k < |b| && b[k] == x
  {
    PermutationMembers(a, b);
    k :| 0 <= k < |b| && b[k] == x;
  }

  lemma RemoveBoth<A>(a: seq<A>, b: seq<A>, k: nat)
    requires Permutation(a, b) && a != [] && k < |b| && b[k] == a[0]
    ensures Permutation(a[..0] + a[1..], b[..k] + b[k + 1..])
  {
    RemoveAtPermutes(a, 0);
    RemoveAtPermutes(b, k);
  }

  lemma {:induction false} DistinctByMultiset<T>(xs: seq<T>)
    ensures Distinct(xs) <==> forall x :: x in multiset(xs) ==> multiset(xs)[x] == 1
  {
    if xs != [] {
      var rest := xs[1..];
      DistinctByMultiset(rest);
      assert xs == [xs[0]] + rest;
      assert multiset(xs) == multiset{xs[0]} + multiset(rest);
      if Distinct(xs) {
        assert Distinct(rest) by {
          forall i, j | 0 <= i < j < |rest| ensures rest[i] != rest[j] {
            assert rest[i] == xs[i + 1] && rest[j] == xs[j + 1];
          }
        }
        assert forall k :: 0 <= k < |rest| ==> rest[k] == xs[k + 1];
        assert xs[0] !in rest;
      }
      if forall x :: x in multiset(xs) ==> multiset(xs)[x] == 1 {
        assert xs[0] in multiset(xs);
        assert multiset(rest)[xs[0]] == 0;
        assert xs[0] !in rest;
        forall x | x in multiset(rest) ensures multiset(rest)[x] == 1 {
          assert x in multiset(xs);
        }
        forall i, j | 0 <= i < j < |xs| ensures xs[i] != xs[j] {
          assert xs[j] == rest[j - 1];
          if i > 0 { assert xs[i] == rest[i - 1]; }
        }
      }
    }
  }

  lemma DistinctPermutes<T>(xs: seq<T>, ys: seq<T>)
    requires Permutation(xs, ys)
    ensures Distinct(xs) <==> Distinct(ys)
  {
    DistinctByMultiset(xs);
    DistinctByMultiset(ys);
  }

  lemma PrefixGrows<T>(xs: seq<T>, i: nat)
    requires i < |xs|
    ensures xs[..i + 1] == xs[..i] + [xs[i]]
  {
  }

  lemma AppendDistinct<T>(xs: seq<T>, x: T)
    requires Distinct(xs) && x !in xs
    ensures Distinct(xs + [x]) && ToSet(xs + [x]) == ToSet(xs) + {x}
  {
  }

  ghost predicate Repeated<T>(xs: seq<T>, x: T)
  {
    multiset(xs)[x] >= 2
  }

  lemma RepeatIsNotDistinct<T>(xs: seq<T>, i: nat)
    requires i < |xs| && xs[i] in xs[..i]
    ensures Repeated(xs, xs[i]) && !Distinct(xs)
  {
    assert xs == xs[..i] + [xs[i]] + xs[i + 1..];
    assert xs[i] in multiset(xs[..i]);
    DistinctByMultiset(xs);
  }

  lemma {:induction false} DistinctCardinality<T>(xs: seq<T>)
    requires Distinct(xs)
    ensures |ToSet(xs)| == |xs|
  {
    if xs != [] {
      var rest := xs[1..];
      assert Distinct(rest) by {
        forall i, j | 0 <= i < j < |rest| ensures rest[i] != rest[j] {
          assert rest[i] == xs[i + 1] && rest[j] == xs[j + 1];
        }
      }
      DistinctCardinality(rest);
      assert ToSet(xs) == {xs[0]} + ToSet(rest);
      assert forall k :: 0 <= k < |rest| ==> rest[k] == xs[k + 1];
      assert xs[0] !in rest;
    }
  }

  /** Equally many distinct elements, one side inside the other: a permutation. */
  lemma DistinctInsidePermutes<T>(xs: seq<T>, ys: seq<T>)
    requires Distinct(xs) && Distinct(ys) && |xs| == |ys|
    requires forall x :: x in xs ==> x in ys
    ensures Permutation(xs, ys)
  {
    DistinctByMultiset(xs);
    DistinctByMultiset(ys);
    DistinctCardinality(xs);
    DistinctCardinality(ys);
    assert ToSet(xs) <= ToSet(ys);
    assert |ToSet(ys) - ToSet(xs)| == 0;
    assert ToSet(xs) == ToSet(ys);
    forall x ensures multiset(xs)[x] == multiset(ys)[x] {
      assert x in multiset(xs) <==> x in ToSet(xs);
      assert x in multiset(ys) <==> x in ToSet(ys);
    }
  }

  /** A non-empty set has a least element, as `pop_first` relies on. */
  lemma {:induction false} LeastExists<T(!new)>(s: set<T>, le: (T, T) -> bool)
    requires TotalPreorder(le) && s != {}
    ensures exists m :: m in s && forall w :: w in s ==> le(m, w)
    decreases |s|
  {
    var x :| x in s;
    var rest := s - {x};
    if rest == {} {
      assert s == {x};
      assert le(x, x);
    } else {
      LeastExists(rest, le);
      var m :| m in rest && forall w :: w in rest ==> le(m, w);
      var least := if le(x, m) then x else m;
      forall w | w in s ensures le(least, w) {
        if w != x { assert w in rest; }
      }
    }
  }

  // ---- Lexicographic order ----

  predicate LexLe<T(==)>(xs: seq<T>, ys: seq<T>, le: (T, T) -> bool)
  {
    xs == [] || (ys != [] && if xs[0] == ys[0] then LexLe(xs[1..], ys[1..], le) else le(xs[0], ys[0]))
  }

  /** The first index at which two sequences differ. */
  ghost predicate FirstDifference<T>(xs: seq<T>, ys: seq<T>, k: int)
  {
    0 <= k < |xs| && k < |ys| && xs[..k] == ys[..k] && xs[k] != ys[k]
  }

  /** A prefix comes first; otherwise the first difference decides. */
  lemma {:induction false} LexMeans<T(!new)>(xs: seq<T>, ys: seq<T>, le: (T, T) -> bool)
    ensures LexLe(xs, ys, le) <==> xs <= ys || exists k :: FirstDifference(xs, ys, k) && le(xs[k], ys[k])
  {
    if xs != [] && ys != [] {
      if xs[0] == ys[0] {
        LexMeans(xs[1..], ys[1..], le);
        TailPrefix(xs, ys);
        TailDifference(xs, ys, le);
      } else {
        assert FirstDifference(xs, ys, 0);
        assert forall k :: FirstDifference(xs, ys, k) ==> k == 0;
      }
    }
  }

  lemma TailPrefix<T>(xs: seq<T>, ys: seq<T>)
    requires xs != [] && ys != [] && xs[0] == ys[0]
    ensures xs <= ys <==> xs[1..] <= ys[1..]
  {
    if xs[1..] <= ys[1..] {
      assert forall i :: 0 < i < |xs| ==> xs[i] == xs[1..][i - 1] && ys[i] == ys[1..][i - 1];
    }
  }

  lemma TailDifference<T(!new)>(xs: seq<T>, ys: seq<T>, le: (T, T) -> bool)
    requires xs != [] && ys != [] && xs[0] == ys[0]
    ensures (exists k :: FirstDifference(xs, ys, k) && le(xs[k], ys[k])) <==>
            (exists k :: FirstDifference(xs[1..], ys[1..], k) && le(xs[1..][k], ys[1..][k]))
  {
    if k :| FirstDifference(xs, ys, k) && le(xs[k], ys[k]) {
      assert k > 0;
      assert xs[1..][..k - 1] == xs[..k][1..] && ys[1..][..k - 1] == ys[..k][1..];
      assert FirstDifference(xs[1..], ys[1..], k - 1);
    }
    if k :| FirstDifference(xs[1..], ys[1..], k) && le(xs[1..][k], ys[1..][k]) {
      assert xs[..k + 1] == [xs[0]] + xs[1..][..k] && ys[..k + 1] == [ys[0]] + ys[1..][..k];
      assert FirstDifference(xs, ys, k + 1);
    }
  }

  lemma {:induction false} LexTotal<T(!new)>(xs: seq<T>, ys: seq<T>, le: (T, T) -> bool)
    requires TotalOrder(le)
    ensures LexLe(xs, ys, le) || LexLe(ys, xs, le)
  {
    if xs != [] && ys != [] && xs[0] == ys[0] {
      LexTotal(xs[1..], ys[1..], le);
    }
  }

  lemma {:induction false} LexAntisymmetric<T(!new)>(xs: seq<T>, ys: seq<T>, le: (T, T) -> bool)
    requires TotalOrder(le)
    requires LexLe(xs, ys, le) && LexLe(ys, xs, le)
    ensures xs == ys
  {
    if xs != [] && ys != [] && xs[0] == ys[0] {
      LexAntisymmetric(xs[1..], ys[1..], le);
    }
  }

  lemma {:induction false} LexTransitive<T(!new)>(xs: seq<T>, ys: seq<T>, zs: seq<T>, le: (T, T) -> bool)
    requires TotalOrder(le)
    requires LexLe(xs, ys, le) && LexLe(ys, zs, le)
    ensures LexLe(xs, zs, le)
  {
    if xs != [] && ys != [] && zs != [] && xs[0] == ys[0] == zs[0] {
      LexTransitive(xs[1..], ys[1..], zs[1..], le);
    }
  }
}
