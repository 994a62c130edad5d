/** Small facts about sets, buffers and division that several models share. */
module Basics {

  ghost function Pick<T>(s: set<T>): (x: T)
    requires s != {}
    ensures x in s
  {
    var x :| x in s; x
  }

  lemma SubsetSize<T>(a: set<T>, b: set<T>)
    requires a <= b
    ensures |a| <= |b|
  {
    assert b == a + (b - a);
  }

  /** No buffer is used twice. */
  ghost predicate Apart<T>(arrays: seq<array<T>>) {
    forall i, j :: 0 <= i < j < |arrays| ==> arrays[i] != arrays[j]
  }

  lemma MultipleIsLarge(d: int, k: int)
    requires d >= 1 && k >= 1
    ensures d * k >= d
  {
  }

  lemma NoMultiple(d: int, k: int, x: int)
    requires d >= 1 && d * k == x && 0 - d < x < d
    ensures k == 0
  {
    if k >= 1 {
      MultipleIsLarge(d, k);
    } else if k <= -1 {
      MultipleIsLarge(d, 0 - k);
    }
  }

  lemma QuotientIs(v: int, d: int, q: int, r: int)
    requires d >= 1 && v == d * q + r && 0 <= r < d
    ensures v / d == q
  {
    var k := v / d;
    var rest := v - d * k;
    assert 0 <= rest < d && d * (k - q) == r - rest;
    NoMultiple(d, k - q, r - rest);
  }
}

/** Error numbers, negated as the functions return them. */
module Errno {
  const ENOENT := -2
  const EIO := -5
  const EINVAL := -22
  const ENOSPC := -28
}
