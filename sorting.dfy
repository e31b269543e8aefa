/**
 * Sorting by a lexicographic key.
 *
 * The engine sorts with pandas' multi-column `sort_values` and Python's
 * `sorted`; both are stable sorts by a tuple key. `SortBy` is an insertion
 * sort that, like them, keeps equal-key elements in their original order.
 */
module Sorting {
  import opened Order
  import opened Seqs

  /** `s` is in ascending order of `key`. */
  predicate Sorted<T>(s: seq<T>, key: T -> seq<int>) {
    forall i, j :: 0 <= i < j < |s| ==> LexLe(key(s[i]), key(s[j]))
  }

  /** `x` placed in front of the first element of `s` whose key is not below its own. */
  function InsertBy<T(!new)>(x: T, s: seq<T>, key: T -> seq<int>): (r: seq<T>)
    ensures multiset(r) == multiset(s) + multiset{x}
  {
    if s == [] then [x]
    else if LexLe(key(x), key(s[0])) then [x] + s
    else
      assert s == [s[0]] + s[1..];
      [s[0]] + InsertBy(x, s[1..], key)
  }

  lemma {:induction false} InsertBySorted<T(!new)>(x: T, s: seq<T>, key: T -> seq<int>)
    requires Sorted(s, key)
    ensures Sorted(InsertBy(x, s, key), key)
  {
    if s == [] {
    } else if LexLe(key(x), key(s[0])) {
      var r := [x] + s;
      forall i, j | 0 <= i < j < |r| ensures LexLe(key(r[i]), key(r[j])) {
        if i == 0 && j > 1 {
          LexLeTransitive(key(x), key(s[0]), key(s[j - 1]));
        }
      }
    } else {
      LexLeTotal(key(x), key(s[0]));
      var t := InsertBy(x, s[1..], key);
      InsertBySorted(x, s[1..], key);
      var r := [s[0]] + t;
      forall i, j | 0 <= i < j < |r| ensures LexLe(key(r[i]), key(r[j])) {
        if i == 0 {
          var y := t[j - 1];
          assert y in multiset(t);
          if y != x {
            assert y in multiset(s[1..]);
            var k :| 0 <= k < |s[1..]| && s[1..][k] == y;
            assert s[k + 1] == y;
          }
        }
      }
    }
  }

  /** The elements of `s` in ascending order of `key`, equal keys in their original order. */
  function SortBy<T(!new)>(s: seq<T>, key: T -> seq<int>): (r: seq<T>)
    ensures multiset(r) == multiset(s)
    ensures Sorted(r, key)
  {
    if s == [] then []
    else
      var t := SortBy(s[1..], key);
      InsertBySorted(s[0], t, key);
      assert s == [s[0]] + s[1..];
      InsertBy(s[0], t, key)
  }

  lemma SortedHeadLeast<T>(s: seq<T>, key: T -> seq<int>, m: int)
    requires Sorted(s, key) && 0 <= m < |s|
    ensures LexLe(key(s[0]), key(s[m]))
  {
    if m == 0 {
      LexLeReflexive(key(s[0]));
    }
  }

  lemma SortedTail<T>(s: seq<T>, key: T -> seq<int>)
    requires Sorted(s, key) && s != []
    ensures Sorted(s[1..], key)
  {
    forall i, j | 0 <= i < j < |s[1..]| ensures LexLe(key(s[1..][i]), key(s[1..][j])) {
      assert s[1..][i] == s[i + 1] && s[1..][j] == s[j + 1];
    }
  }

  lemma MultisetTails<T>(a: seq<T>, b: seq<T>)
    requires a != [] && b != [] && a[0] == b[0] && multiset(a) == multiset(b)
    ensures multiset(a[1..]) == multiset(b[1..])
  {
    assert a == [a[0]] + a[1..];
    assert b == [b[0]] + b[1..];
    assert multiset(a[1..]) == multiset(a) - multiset{a[0]};
    assert multiset(b[1..]) == multiset(b) - multiset{b[0]};
  }

  /**
   * A sorted order is unique once the key tells elements apart: two sorted
   * permutations of the same elements are the same sequence.
   */
  lemma {:induction false} SortedPermutationsEqual<T>(a: seq<T>, b: seq<T>, key: T -> seq<int>)
    requires multiset(a) == multiset(b)
    requires Sorted(a, key) && Sorted(b, key)
    requires forall x, y :: x in a && y in a && key(x) == key(y) ==> x == y
    ensures a == b
  {
    if a != [] {
      assert a[0] in multiset(b);
      assert b != [] && b[0] in multiset(a);
      var k :| 0 <= k < |b| && b[k] == a[0];
      var m :| 0 <= m < |a| && a[m] == b[0];
      SortedHeadLeast(a, key, m);
      SortedHeadLeast(b, key, k);
      LexLeAntisymmetric(key(a[0]), key(b[0]));
      assert a[0] == b[0];
      MultisetTails(a, b);
      SortedTail(a, key);
      SortedTail(b, key);
      assert forall x :: x in a[1..] ==> x in a;
      SortedPermutationsEqual(a[1..], b[1..], key);
      assert a == [a[0]] + a[1..];
      assert b == [b[0]] + b[1..];
    }
  }

  /** Inserting and then projecting is inserting the projection, when the projection keeps the keys. */
  lemma {:induction false} InsertByMap<T(!new), U(!new)>(x: T, s: seq<T>, f: T -> U, k1: T -> seq<int>, k2: U -> seq<int>)
    requires forall y :: y in [x] + s ==> k1(y) == k2(f(y))
    ensures MapSeq(InsertBy(x, s, k1), f) == InsertBy(f(x), MapSeq(s, f), k2)
  {
    assert x in [x] + s;
    if s != [] {
      assert s[0] in [x] + s;
      assert MapSeq(s, f)[0] == f(s[0]);
      assert MapSeq(s, f)[1..] == MapSeq(s[1..], f);
      if !LexLe(k1(x), k1(s[0])) {
        assert forall y :: y in [x] + s[1..] ==> y in [x] + s;
        InsertByMap(x, s[1..], f, k1, k2);
      }
    }
  }

  /** Sorting and then projecting is sorting the projection, when the projection keeps the keys. */
  lemma {:induction false} SortByMap<T(!new), U(!new)>(s: seq<T>, f: T -> U, k1: T -> seq<int>, k2: U -> seq<int>)
    requires forall y :: y in s ==> k1(y) == k2(f(y))
    ensures MapSeq(SortBy(s, k1), f) == SortBy(MapSeq(s, f), k2)
  {
    if s != [] {
      var t := SortBy(s[1..], k1);
      assert forall y :: y in s[1..] ==> y in s;
      SortByMap(s[1..], f, k1, k2);
      forall y | y in [s[0]] + t ensures k1(y) == k2(f(y)) {
        if y != s[0] {
          assert y in multiset(t);
          assert y in multiset(s[1..]);
        }
      }
      InsertByMap(s[0], t, f, k1, k2);
      assert MapSeq(s, f)[0] == f(s[0]);
      assert MapSeq(s, f)[1..] == MapSeq(s[1..], f);
    }
  }
}
