/**
 * Python's `sorted(...)` and `list.sort(key=...)` on the server's lists, and
 * the fact that makes their results predictable: a list strictly sorted by a
 * key is determined by the set of its elements.
 */
module Sorting {
  import opened Strings

  predicate Distinct<T(==,!new)>(xs: seq<T>)
  {
    forall i, j :: 0 <= i < j < |xs| ==> xs[i] != xs[j]
  }

  predicate SortedBy<T(!new)>(xs: seq<T>, key: T -> string)
  {
    forall i, j :: 0 <= i < j < |xs| ==> LessOrEqual(key(xs[i]), key(xs[j]))
  }

  predicate StrictlySortedBy<T(!new)>(xs: seq<T>, key: T -> string)
  {
    forall i, j :: 0 <= i < j < |xs| ==> Less(key(xs[i]), key(xs[j]))
  }

  /** Strictly increasing strings: sorted and free of duplicates. */
  predicate StrictlySorted(xs: seq<string>)
  {
    forall i, j :: 0 <= i < j < |xs| ==> Less(xs[i], xs[j])
  }

  /** Elements with the same key are the same element. */
  predicate KeyInjective<T(==,!new)>(xs: seq<T>, key: T -> string)
  {
    forall x, y :: x in xs && y in xs && key(x) == key(y) ==> x == y
  }

  lemma LessOrEqualTransitive(a: string, b: string, c: string)
    requires LessOrEqual(a, b) && LessOrEqual(b, c)
    ensures LessOrEqual(a, c)
  {
    if a != b && b != c {
      LessTransitive(a, b, c);
    }
  }

  /** The key under which `sorted` orders plain strings. */
  function Id(s: string): string
  {
    s
  }

  lemma SortedCons<T(!new)>(y: T, ys: seq<T>, key: T -> string)
    requires SortedBy(ys, key)
    requires forall z :: z in ys ==> LessOrEqual(key(y), key(z))
    ensures SortedBy([y] + ys, key)
  {
    var r := [y] + ys;
    forall i, j | 0 <= i < j < |r| ensures LessOrEqual(key(r[i]), key(r[j])) {
      assert r[j] == ys[j - 1];
      if i > 0 {
        assert r[i] == ys[i - 1];
      } else {
        assert r[j] in ys;
      }
    }
  }

  lemma DistinctCons<T(!new)>(y: T, ys: seq<T>)
    requires Distinct(ys) && y !in ys
    ensures Distinct([y] + ys)
  {
    var r := [y] + ys;
    forall i, j | 0 <= i < j < |r| ensures r[i] != r[j] {
      assert r[j] == ys[j - 1];
      if i > 0 {
        assert r[i] == ys[i - 1];
      }
    }
  }

  lemma DistinctSnoc<T(!new)>(ys: seq<T>, y: T)
    requires Distinct(ys) && y !in ys
    ensures Distinct(ys + [y])
  {
  }

  lemma DistinctAppend<T(!new)>(xs: seq<T>, ys: seq<T>)
    requires Distinct(xs) && Distinct(ys)
    requires forall y :: y in ys ==> y !in xs
    ensures Distinct(xs + ys)
  {
    var r := xs + ys;
    forall i, j | 0 <= i < j < |r| ensures r[i] != r[j] {
      if j < |xs| {
        assert r[i] == xs[i] && r[j] == xs[j];
      } else if i < |xs| {
        assert r[i] == xs[i] && r[j] == ys[j - |xs|] && ys[j - |xs|] in ys;
      } else {
        assert r[i] == ys[i - |xs|] && r[j] == ys[j - |xs|];
      }
    }
  }

  /** One step of insertion sort: place `x` before the first element it does not exceed. */
  function InsertBy<T(==,!new)>(x: T, xs: seq<T>, key: T -> string): (r: seq<T>)
    requires SortedBy(xs, key)
    ensures SortedBy(r, key)
    ensures multiset(r) == multiset(xs) + multiset{x}
    ensures forall y :: y in r <==> y == x || y in xs
    ensures Distinct(xs) && x !in xs ==> Distinct(r)
    decreases |xs|
  {
    if xs == [] then
      [x]
    else if LessOrEqual(key(x), key(xs[0])) then
      assert forall z :: z in xs ==> LessOrEqual(key(x), key(z)) by {
        forall z | z in xs ensures LessOrEqual(key(x), key(z)) {
          var j :| 0 <= j < |xs| && xs[j] == z;
          if j > 0 {
            LessOrEqualTransitive(key(x), key(xs[0]), key(z));
          }
        }
      }
      SortedCons(x, xs, key);
      if Distinct(xs) && x !in xs then
        DistinctCons(x, xs);
        [x] + xs
      else
        [x] + xs
    else
      var rest := InsertBy(x, xs[1..], key);
      assert xs == [xs[0]] + xs[1..];
      assert forall z :: z in rest ==> LessOrEqual(key(xs[0]), key(z)) by {
        LessTotal(key(x), key(xs[0]));
        forall z | z in rest ensures LessOrEqual(key(xs[0]), key(z)) {
          if z != x {
            var j :| 0 <= j < |xs[1..]| && xs[1..][j] == z;
            assert z == xs[j + 1];
          }
        }
      }
      SortedCons(xs[0], rest, key);
      if Distinct(xs) && x !in xs then
        assert xs[0] !in xs[1..];
        DistinctCons(xs[0], rest);
        [xs[0]] + rest
      else
        [xs[0]] + rest
  }

  /** Python's `sorted(xs, key=key)`, as insertion sort: ordered, and a permutation of `xs`. */
  function SortBy<T(==,!new)>(xs: seq<T>, key: T -> string): (r: seq<T>)
    ensures SortedBy(r, key)
    ensures multiset(r) == multiset(xs)
    ensures forall y :: y in r <==> y in xs
    ensures Distinct(xs) ==> Distinct(r)
    decreases |xs|
  {
    if xs == [] then []
    else
      assert xs == [xs[0]] + xs[1..];
      InsertBy(xs[0], SortBy(xs[1..], key), key)
  }

  /** Without repeated elements or keys, the sorted list is strictly increasing. */
  lemma SortByStrict<T(!new)>(xs: seq<T>, key: T -> string)
    requires Distinct(xs) && KeyInjective(xs, key)
    ensures StrictlySortedBy(SortBy(xs, key), key)
  {
    var r := SortBy(xs, key);
    forall i, j | 0 <= i < j < |r| ensures Less(key(r[i]), key(r[j])) {
      assert r[i] in xs && r[j] in xs;
    }
  }

  lemma HeadIsElement<T>(xs: seq<T>)
    ensures |xs| > 0 ==> xs[0] in xs
  {
  }

  /** Two lists strictly sorted by the same key and holding the same elements are equal. */
  lemma {:induction false} StrictlySortedUnique<T(!new)>(a: seq<T>, b: seq<T>, key: T -> string)
    requires StrictlySortedBy(a, key) && StrictlySortedBy(b, key)
    requires forall x :: x in a <==> x in b
    ensures a == b
    decreases |a|
  {
    HeadIsElement(b);
    if |a| > 0 {
      assert a[0] in b && b[0] in a;
      if a[0] != b[0] {
        var j :| 0 <= j < |b| && b[j] == a[0];
        var k :| 0 <= k < |a| && a[k] == b[0];
        LessAsymmetric(key(b[0]), key(a[0]));
      }
      forall x ensures x in a[1..] <==> x in b[1..] {
        if x in a[1..] {
          var i :| 1 <= i < |a| && a[i] == x;
          LessIrreflexive(key(a[0]));
          assert x in a;
          var j :| 0 <= j < |b| && b[j] == x;
          assert j != 0;
          assert b[1..][j - 1] == x;
        }
        if x in b[1..] {
          var i :| 1 <= i < |b| && b[i] == x;
          LessIrreflexive(key(b[0]));
          assert x in b;
          var j :| 0 <= j < |a| && a[j] == x;
          assert j != 0;
          assert a[1..][j - 1] == x;
        }
      }
      StrictlySortedUnique(a[1..], b[1..], key);
      assert a == [a[0]] + a[1..] && b == [b[0]] + b[1..];
    }
  }

  lemma {:induction false} MinimumExists(s: set<string>)
    requires s != {}
    ensures exists m :: m in s && forall x :: x in s ==> LessOrEqual(m, x)
    decreases s
  {
    var y :| y in s;
    if s != {y} {
      MinimumExists(s - {y});
      var m :| m in s - {y} && forall x :: x in s - {y} ==> LessOrEqual(m, x);
      LessTotal(m, y);
      if LessOrEqual(m, y) {
        assert m in s && forall x :: x in s ==> LessOrEqual(m, x);
      } else {
        forall x | x in s ensures LessOrEqual(y, x) {
          if x != y {
            LessOrEqualTransitive(y, m, x);
          }
        }
      }
    } else {
      assert forall x :: x in s ==> LessOrEqual(y, x);
    }
  }

  /** `<=` on `str` is antisymmetric, so the minimum of a set is unique. */
  lemma LessOrEqualAntisymmetric()
    ensures forall a, b :: LessOrEqual(a, b) && LessOrEqual(b, a) ==> a == b
  {
    forall a, b | LessOrEqual(a, b) && LessOrEqual(b, a) ensures a == b {
      if a != b {
        LessAsymmetric(a, b);
      }
    }
  }

  /** Python's `sorted(s)` for a set of strings: its elements in increasing order. */
  function SortedSet(s: set<string>): (r: seq<string>)
    ensures StrictlySorted(r)
    ensures forall x :: x in r <==> x in s
    decreases s
  {
    if s == {} then []
    else
      MinimumExists(s);
      LessOrEqualAntisymmetric();
      var m :| m in s && forall x :: x in s ==> LessOrEqual(m, x);
      var rest := SortedSet(s - {m});
      assert forall x :: x in rest ==> Less(m, x);
      [m] + rest
  }

  /** `sorted(xs)` on duplicate-free strings is `sorted(set(xs))`. */
  lemma SortDistinctIsSortedSet(xs: seq<string>)
    requires Distinct(xs)
    ensures SortBy(xs, Id) == SortedSet(set x | x in xs)
  {
    SortByStrict(xs, Id);
    StrictlySortedUnique(SortBy(xs, Id), SortedSet(set x | x in xs), Id);
  }

  /** A sequence without repetitions has as many elements as the set of its elements. */
  lemma {:induction false} DistinctCard<T(!new)>(xs: seq<T>)
    requires Distinct(xs)
    ensures |set x | x in xs| == |xs|
    decreases |xs|
  {
    if |xs| > 0 {
      var rest := xs[1..];
      assert Distinct(rest) by {
        forall i, j | 0 <= i < j < |rest| ensures rest[i] != rest[j] {
          assert rest[i] == xs[i + 1] && rest[j] == xs[j + 1];
        }
      }
      DistinctCard(rest);
      assert xs[0] !in rest by {
        forall k | 0 <= k < |rest| ensures rest[k] != xs[0] {
          assert rest[k] == xs[k + 1];
        }
      }
      assert (set x | x in xs) == {xs[0]} + (set x | x in rest) by {
        assert xs == [xs[0]] + rest;
      }
    }
  }

  /** Sorting a set loses and duplicates nothing. */
  lemma SortedSetLength(s: set<string>)
    ensures |SortedSet(s)| == |s|
  {
    var r := SortedSet(s);
    StrictlySortedDistinct(r);
    DistinctCard(r);
    assert (set x | x in r) == s;
  }

  /** A strictly sorted sequence has no repetitions. */
  lemma StrictlySortedDistinct(r: seq<string>)
    requires StrictlySorted(r)
    ensures Distinct(r)
  {
    forall i, j | 0 <= i < j < |r| ensures r[i] != r[j] {
      if r[i] == r[j] {
        LessIrreflexive(r[i]);
      }
    }
  }
}
