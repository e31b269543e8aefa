/**
 * The orders the gift ranking engine sorts by.
 *
 * Every sort in the engine compares a tuple of integers followed by a gift or
 * character name; descending integer columns are compared through their
 * negation. Python compares tuples element by element and strings code point by
 * code point, a proper prefix coming first, so one lexicographic order on
 * integer sequences covers all of them: a key is the integer columns followed
 * by the code points of the name.
 */
module Order {

  /** The code points of a string, in order. */
  function Codes(s: string): (r: seq<int>)
    ensures |r| == |s|
    ensures forall i :: 0 <= i < |s| ==> r[i] == s[i] as int
  {
    seq(|s|, i requires 0 <= i < |s| => s[i] as int)
  }

  /** Distinct strings have distinct code point sequences. */
  lemma CodesInjective(a: string, b: string)
    requires Codes(a) == Codes(b)
    ensures a == b
  {
    assert |a| == |b|;
    forall i | 0 <= i < |a| ensures a[i] == b[i] {
      assert Codes(a)[i] == Codes(b)[i];
    }
  }

  /** Lexicographic order on integer sequences in which a proper prefix comes first. */
  predicate LexLe(a: seq<int>, b: seq<int>)
    decreases |a|
  {
    a == [] || (b != [] && (a[0] < b[0] || (a[0] == b[0] && LexLe(a[1..], b[1..]))))
  }

  /** The string order Python uses: by code points, a proper prefix first. */
  predicate StrLe(a: string, b: string) {
    LexLe(Codes(a), Codes(b))
  }

  lemma {:induction false} LexLeReflexive(a: seq<int>)
    ensures LexLe(a, a)
  {
    if a != [] {
      LexLeReflexive(a[1..]);
    }
  }

  lemma {:induction false} LexLeTotal(a: seq<int>, b: seq<int>)
    ensures LexLe(a, b) || LexLe(b, a)
  {
    if a != [] && b != [] && a[0] == b[0] {
      LexLeTotal(a[1..], b[1..]);
    }
  }

  lemma {:induction false} LexLeTransitive(a: seq<int>, b: seq<int>, c: seq<int>)
    requires LexLe(a, b) && LexLe(b, c)
    ensures LexLe(a, c)
  {
    if a != [] && a[0] == b[0] && b[0] == c[0] {
      LexLeTransitive(a[1..], b[1..], c[1..]);
    }
  }

  lemma {:induction false} LexLeAntisymmetric(a: seq<int>, b: seq<int>)
    requires LexLe(a, b) && LexLe(b, a)
    ensures a == b
  {
    if a != [] {
      LexLeAntisymmetric(a[1..], b[1..]);
      assert a == [a[0]] + a[1..];
      assert b == [b[0]] + b[1..];
    }
  }

  /** Keys compare by their first column, and by the rest when the first columns are equal. */
  lemma LexLeCons(a: int, x: seq<int>, b: int, y: seq<int>)
    ensures LexLe([a] + x, [b] + y) <==> a < b || (a == b && LexLe(x, y))
  {
    assert ([a] + x)[1..] == x;
    assert ([b] + y)[1..] == y;
  }

  /** A key of two integer columns and a name, compared column by column. */
  lemma LexLeTwoColumns(a1: int, a2: int, x: seq<int>, b1: int, b2: int, y: seq<int>)
    requires LexLe([a1, a2] + x, [b1, b2] + y)
    ensures a1 <= b1
    ensures a1 == b1 ==> a2 <= b2
    ensures a1 == b1 && a2 == b2 ==> LexLe(x, y)
  {
    assert [a1, a2] + x == [a1] + ([a2] + x);
    assert [b1, b2] + y == [b1] + ([b2] + y);
    LexLeCons(a1, [a2] + x, b1, [b2] + y);
    LexLeCons(a2, x, b2, y);
  }
}
