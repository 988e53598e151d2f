/** Lexicographic comparison of integer sequences, the common yardstick of the version orders. */
module Lexicographic {

  function Sign(x: int, y: int): (r: int)
  {
    if x < y then -1 else if x > y then 1 else 0
  }

  /** -1, 0 or 1 as `a` is before, equal to or after `b`; a proper prefix comes first. */
  function Compare(a: seq<int>, b: seq<int>): (r: int)
    ensures r == -1 || r == 0 || r == 1
  {
    if a == [] || b == [] then Sign(|a|, |b|)
    else if a[0] != b[0] then Sign(a[0], b[0])
    else Compare(a[1..], b[1..])
  }

  lemma {:induction false} CompareReflexive(a: seq<int>)
    ensures Compare(a, a) == 0
  {
    if a != [] {
      CompareReflexive(a[1..]);
    }
  }

  lemma {:induction false} CompareEqual(a: seq<int>, b: seq<int>)
    ensures Compare(a, b) == 0 <==> a == b
  {
    if a == b {
      CompareReflexive(a);
    } else if a != [] && b != [] && a[0] == b[0] {
      CompareEqual(a[1..], b[1..]);
      assert a == [a[0]] + a[1..] && b == [b[0]] + b[1..];
    }
  }

  lemma {:induction false} CompareAntisymmetric(a: seq<int>, b: seq<int>)
    ensures Compare(b, a) == -Compare(a, b)
  {
    if a != [] && b != [] && a[0] == b[0] {
      CompareAntisymmetric(a[1..], b[1..]);
    }
  }

  lemma {:induction false} CompareTransitive(a: seq<int>, b: seq<int>, c: seq<int>)
    requires Compare(a, b) <= 0 && Compare(b, c) <= 0
    ensures Compare(a, c) <= 0
    ensures Compare(a, c) == 0 ==> Compare(a, b) == 0 && Compare(b, c) == 0
  {
    if a != [] && b != [] && c != [] && a[0] == b[0] == c[0] {
      CompareTransitive(a[1..], b[1..], c[1..]);
    }
  }

  /** A common prefix does not matter. */
  lemma {:induction false} CompareCommonPrefix(p: seq<int>, a: seq<int>, b: seq<int>)
    ensures Compare(p + a, p + b) == Compare(a, b)
  {
    if p == [] {
      assert p + a == a && p + b == b;
    } else {
      assert (p + a)[1..] == p[1..] + a && (p + b)[1..] == p[1..] + b;
      CompareCommonPrefix(p[1..], a, b);
    }
  }

  /** One leading element decides, or else the rest does. */
  lemma CompareHead(x: int, a: seq<int>, y: int, b: seq<int>)
    ensures Compare([x] + a, [y] + b) == if x != y then Sign(x, y) else Compare(a, b)
  {
    assert ([x] + a)[1..] == a && ([y] + b)[1..] == b;
  }
}
