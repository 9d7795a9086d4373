/** A stable sort under a comparator, as `Array.prototype.sort` performs it
    (stable since ECMAScript 2019, section 23.1.3.30). A comparator
    `(a, b) => n` is modelled by the relation "a may come before b", that is
    `n <= 0`; for a consistent comparator that relation is a total preorder. */
module Sorting {

  ghost predicate IsTotalPreorder<T(!new)>(leq: (T, T) -> bool) {
    && (forall a, b :: leq(a, b) || leq(b, a))
    && (forall a, b, c :: leq(a, b) && leq(b, c) ==> leq(a, c))
  }

  /** The comparator reports 0 both ways: neither has to come first. */
  predicate Equivalent<T>(leq: (T, T) -> bool, a: T, b: T) {
    leq(a, b) && leq(b, a)
  }

  predicate SortedBy<T>(s: seq<T>, leq: (T, T) -> bool) {
    forall i, j :: 0 <= i < j < |s| ==> leq(s[i], s[j])
  }

  /** The elements of `s` that tie with `x`, in the order `s` has them. */
  function EquivalentsOf<T>(s: seq<T>, leq: (T, T) -> bool, x: T): (r: seq<T>)
    ensures |r| <= |s|
    ensures forall y :: y in r ==> y in s && Equivalent(leq, x, y)
  {
    if s == [] then []
    else (if Equivalent(leq, x, s[0]) then [s[0]] else []) + EquivalentsOf(s[1..], leq, x)
  }

  /** Puts `x` in front of the first element it may precede. */
  function Insert<T>(x: T, s: seq<T>, leq: (T, T) -> bool): seq<T>
  {
    if s == [] then [x]
    else if leq(x, s[0]) then [x] + s
    else [s[0]] + Insert(x, s[1..], leq)
  }

  /** Insertion sort: the head goes in front of everything in the sorted
      tail it ties with, which keeps ties in their original order. */
  function StableSort<T>(s: seq<T>, leq: (T, T) -> bool): seq<T>
  {
    if s == [] then [] else Insert(s[0], StableSort(s[1..], leq), leq)
  }

  lemma {:induction false} InsertPermutation<T>(x: T, s: seq<T>, leq: (T, T) -> bool)
    ensures multiset(Insert(x, s, leq)) == multiset(s) + multiset{x}
  {
    if s != [] && !leq(x, s[0]) {
      InsertPermutation(x, s[1..], leq);
      assert s == [s[0]] + s[1..];
    }
  }

  /** Sorting only reorders: every element keeps its multiplicity. */
  lemma {:induction false} SortPermutation<T>(s: seq<T>, leq: (T, T) -> bool)
    ensures multiset(StableSort(s, leq)) == multiset(s)
  {
    if s != [] {
      SortPermutation(s[1..], leq);
      InsertPermutation(s[0], StableSort(s[1..], leq), leq);
      assert s == [s[0]] + s[1..];
    }
  }

  lemma {:induction false} InsertSorted<T(!new)>(x: T, s: seq<T>, leq: (T, T) -> bool)
    requires IsTotalPreorder(leq)
    requires SortedBy(s, leq)
    ensures SortedBy(Insert(x, s, leq), leq)
    ensures Insert(x, s, leq) != [] && (Insert(x, s, leq)[0] == x || (s != [] && Insert(x, s, leq)[0] == s[0]))
  {
    if s != [] && !leq(x, s[0]) {
      InsertSorted(x, s[1..], leq);
      var r := Insert(x, s[1..], leq);
      assert leq(s[0], x);
      forall j | 0 <= j < |r| ensures leq(s[0], r[j]) {
        InsertPermutation(x, s[1..], leq);
        assert r[j] in multiset(r);
        if r[j] != x {
          assert r[j] in multiset(s[1..]);
          var k :| 0 <= k < |s[1..]| && s[1..][k] == r[j];
          assert s[k + 1] == r[j];
        }
      }
    }
  }

  /** The sorted view is ordered by the comparator. */
  lemma {:induction false} SortSorted<T(!new)>(s: seq<T>, leq: (T, T) -> bool)
    requires IsTotalPreorder(leq)
    ensures SortedBy(StableSort(s, leq), leq)
  {
    if s != [] {
      SortSorted(s[1..], leq);
      InsertSorted(s[0], StableSort(s[1..], leq), leq);
    }
  }

  lemma {:induction false} InsertEquivalents<T(!new)>(x: T, s: seq<T>, leq: (T, T) -> bool, z: T)
    requires IsTotalPreorder(leq)
    ensures EquivalentsOf(Insert(x, s, leq), leq, z)
         == (if Equivalent(leq, z, x) then [x] else []) + EquivalentsOf(s, leq, z)
  {
    if s == [] {
    } else if leq(x, s[0]) {
      assert ([x] + s)[1..] == s;
    } else {
      InsertEquivalents(x, s[1..], leq, z);
      var r := Insert(x, s, leq);
      assert r[0] == s[0] && r[1..] == Insert(x, s[1..], leq);
      var ex := if Equivalent(leq, z, x) then [x] else [];
      var e0 := if Equivalent(leq, z, s[0]) then [s[0]] else [];
      var rest := EquivalentsOf(s[1..], leq, z);
      assert EquivalentsOf(r, leq, z) == e0 + (ex + rest);
      assert EquivalentsOf(s, leq, z) == e0 + rest;
      if Equivalent(leq, z, x) {
        assert leq(x, z);
        if Equivalent(leq, z, s[0]) {
          assert false;
        }
        assert e0 == [];
      } else {
        assert ex == [];
      }
    }
  }

  /** Ties keep their original relative order. */
  lemma {:induction false} SortStable<T(!new)>(s: seq<T>, leq: (T, T) -> bool, z: T)
    requires IsTotalPreorder(leq)
    ensures EquivalentsOf(StableSort(s, leq), leq, z) == EquivalentsOf(s, leq, z)
  {
    if s != [] {
      SortStable(s[1..], leq, z);
      InsertEquivalents(s[0], StableSort(s[1..], leq), leq, z);
    }
  }

  lemma SelfEquivalent<T(!new)>(s: seq<T>, leq: (T, T) -> bool)
    requires IsTotalPreorder(leq)
    requires s != []
    ensures EquivalentsOf(s, leq, s[0]) == [s[0]] + EquivalentsOf(s[1..], leq, s[0])
  {
    assert leq(s[0], s[0]);
  }

  /** Two non-empty sequences sorted alike with the same ties start with
      the same element. */
  lemma SortedWithSameTiesShareHead<T(!new)>(a: seq<T>, b: seq<T>, leq: (T, T) -> bool)
    requires IsTotalPreorder(leq)
    requires SortedBy(a, leq) && SortedBy(b, leq)
    requires a != [] && b != []
    requires EquivalentsOf(a, leq, a[0]) == EquivalentsOf(b, leq, a[0])
    requires EquivalentsOf(a, leq, b[0]) == EquivalentsOf(b, leq, b[0])
    ensures a[0] == b[0]
  {
    var x, y := a[0], b[0];
    SelfEquivalent(a, leq);
    SelfEquivalent(b, leq);
    // x ties with some element of b, which y does not come after
    assert x in EquivalentsOf(b, leq, x);
    var k :| 0 <= k < |b| && Equivalent(leq, x, b[k]);
    assert leq(y, b[k]) by { if k == 0 { assert leq(y, y); } }
    assert y in EquivalentsOf(a, leq, y);
    var m :| 0 <= m < |a| && Equivalent(leq, y, a[m]);
    assert leq(x, a[m]) by { if m == 0 { assert leq(x, x); } }
    assert Equivalent(leq, x, y);
    assert EquivalentsOf(b, leq, x)[0] == y;
  }

  /** Two sequences sorted by the same total preorder whose ties come in the
      same order are the same sequence. */
  lemma {:induction false} SortedWithSameTiesAreEqual<T(!new)>(a: seq<T>, b: seq<T>, leq: (T, T) -> bool)
    requires IsTotalPreorder(leq)
    requires SortedBy(a, leq) && SortedBy(b, leq)
    requires forall z :: EquivalentsOf(a, leq, z) == EquivalentsOf(b, leq, z)
    ensures a == b
    decreases |a| + |b|
  {
    if a == [] && b == [] {
    } else if a == [] || b == [] {
      var c := if a == [] then b else a;
      assert EquivalentsOf(a, leq, c[0]) == EquivalentsOf(b, leq, c[0]);
      SelfEquivalent(c, leq);
      assert false;
    } else {
      SortedWithSameTiesShareHead(a, b, leq);
      forall z ensures EquivalentsOf(a[1..], leq, z) == EquivalentsOf(b[1..], leq, z) {
        var head := if Equivalent(leq, z, a[0]) then [a[0]] else [];
        assert head + EquivalentsOf(a[1..], leq, z) == EquivalentsOf(a, leq, z);
        assert EquivalentsOf(a, leq, z) == EquivalentsOf(b, leq, z);
        assert head + EquivalentsOf(b[1..], leq, z) == EquivalentsOf(b, leq, z);
        assert EquivalentsOf(a[1..], leq, z) == (head + EquivalentsOf(a[1..], leq, z))[|head|..];
        assert EquivalentsOf(b[1..], leq, z) == (head + EquivalentsOf(b[1..], leq, z))[|head|..];
      }
      SortedWithSameTiesAreEqual(a[1..], b[1..], leq);
      assert a == [a[0]] + a[1..] && b == [b[0]] + b[1..];
    }
  }

  /** Whatever stable sort produced `r` from `s`, `r` is `StableSort(s)`:
      the model's sort and the engine's sort give the same view. */
  lemma AnyStableSortIsStableSort<T(!new)>(s: seq<T>, r: seq<T>, leq: (T, T) -> bool)
    requires IsTotalPreorder(leq)
    requires SortedBy(r, leq)
    requires forall z :: EquivalentsOf(r, leq, z) == EquivalentsOf(s, leq, z)
    ensures r == StableSort(s, leq)
  {
    SortSorted(s, leq);
    forall z ensures EquivalentsOf(r, leq, z) == EquivalentsOf(StableSort(s, leq), leq, z) {
      SortStable(s, leq, z);
    }
    SortedWithSameTiesAreEqual(r, StableSort(s, leq), leq);
  }
}
