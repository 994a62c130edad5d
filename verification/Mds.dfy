/** The encoding matrices of the Reed-Solomon code: n = k + m rows of k
    coefficients whose first k rows pass the data through, and any k of whose
    rows determine the data. */
module Mds {
  import Basics
  import opened Gf256
  import opened Vectors
  import opened Matrix
  import opened Vandermonde

  /** k different rows out of n. */
  predicate Choice(idx: seq<nat>, k: nat, n: nat) {
    && |idx| == k
    && (forall i :: 0 <= i < k ==> idx[i] < n)
    && forall i, j :: 0 <= i < j < k ==> idx[i] != idx[j]
  }

  function Rows(enc: Mat, idx: seq<nat>): (r: Mat)
    requires forall i :: 0 <= i < |idx| ==> idx[i] < |enc|
    ensures |r| == |idx| && forall i :: 0 <= i < |r| ==> r[i] == enc[idx[i]]
  {
    seq(|idx|, i requires 0 <= i < |idx| => enc[idx[i]])
  }

  /** The data rows return the data. */
  ghost predicate Systematic(enc: Mat, k: nat) {
    && |enc| >= k && Rectangular(enc, k)
    && forall r: nat, v: Vec :: r < k && |v| == k ==> Dot(enc[r], v) == v[r]
  }

  /** Maximum distance separable: any k rows have a trivial kernel. */
  ghost predicate IsMds(enc: Mat, k: nat, n: nat) {
    && |enc| == n && Rectangular(enc, k)
    && forall idx: seq<nat> :: Choice(idx, k, n) ==> TrivialKernel(Rows(enc, idx), k)
  }

  // ----- counting rows

  ghost function Upto(n: nat): (s: set<nat>)
    ensures |s| == n && forall i: nat :: i in s <==> i < n
  {
    if n == 0 then {} else Upto(n - 1) + {n - 1}
  }

  ghost function Chosen(idx: seq<nat>): (s: set<nat>)
    ensures forall x :: x in s <==> x in idx
  {
    set x | x in idx
  }

  lemma {:induction false} ChosenSize(idx: seq<nat>)
    requires forall i, j :: 0 <= i < j < |idx| ==> idx[i] != idx[j]
    ensures |Chosen(idx)| == |idx|
  {
    if idx != [] {
      var last := |idx| - 1;
      ChosenSize(idx[..last]);
      assert Chosen(idx) == Chosen(idx[..last]) + {idx[last]};
    }
  }

  /** Every row left out among the first k makes room for one of the others. */
  lemma OthersChosen(idx: seq<nat>, k: nat, n: nat, out: set<nat>, others: set<nat>)
    requires Choice(idx, k, n) && out <= Upto(k) && out !! Chosen(idx)
    requires forall x :: x in idx && x >= k ==> x in others
    ensures |out| <= |others|
  {
    ChosenSize(idx);
    var inside := Upto(k) - out;
    assert Chosen(idx) <= inside + others;
    Basics.SubsetSize(Chosen(idx), inside + others);
    assert Upto(k) == inside + out;
  }

  // ----- one or two parity rows: all ones, and the powers of 2

  ghost predicate SmallRows(enc: Mat, k: nat, m: nat) {
    && 1 <= m <= 2 && |enc| == k + m && Rectangular(enc, k)
    && (forall r, c :: 0 <= r < k && 0 <= c < k ==> enc[r][c] == if r == c then 1 else 0)
    && (forall c :: 0 <= c < k ==> enc[k][c] == 1)
    && (m == 2 ==> forall c :: 0 <= c < k ==> enc[k + 1][c] == Power(c))
  }

  lemma SmallSystematic(enc: Mat, k: nat, m: nat)
    requires SmallRows(enc, k, m)
    ensures Systematic(enc, k)
  {
    hide Dot, Power;
    forall r: nat, v: Vec | r < k && |v| == k ensures Dot(enc[r], v) == v[r] {
      UnitDot(enc[r], v, r);
    }
  }

  /** A row annihilates the vector. */
  ghost predicate Kills(enc: Mat, r: nat, v: Vec) {
    r < |enc| && |enc[r]| == |v| && Dot(enc[r], v) == 0
  }

  lemma ChosenRowsKill(enc: Mat, k: nat, n: nat, idx: seq<nat>, v: Vec)
    requires |enc| == n && Rectangular(enc, k) && Choice(idx, k, n) && |v| == k && IsZero(Apply(Rows(enc, idx), v))
    ensures forall x :: x in idx ==> Kills(enc, x, v)
  {
    hide Dot;
    forall x | x in idx ensures Kills(enc, x, v) {
      var i :| 0 <= i < |idx| && idx[i] == x;
      assert Apply(Rows(enc, idx), v)[i] == 0;
    }
  }

  /** One surviving component: a parity row sees it. */
  lemma OneComponent(enc: Mat, k: nat, m: nat, v: Vec, a: nat, r: nat)
    requires SmallRows(enc, k, m) && k <= 255 && |v| == k && a < k <= r && Kills(enc, r, v)
    requires forall i :: 0 <= i < k && i != a ==> v[i] == 0
    ensures v[a] == 0
  {
    hide Dot, Mul, Power;
    DotOne(enc[r], v, a);
    PowerNotZero(a);
    MulNonZero(enc[r][a], v[a]);
  }

  /** Two surviving components: the two parity rows together see them. */
  lemma TwoComponents(enc: Mat, k: nat, v: Vec, a: nat, b: nat)
    requires SmallRows(enc, k, 2) && k <= 255 && |v| == k && a < b < k && Kills(enc, k, v) && Kills(enc, k + 1, v)
    requires forall i :: 0 <= i < k && i != a && i != b ==> v[i] == 0
    ensures v[a] == 0
  {
    hide Dot, Mul, Power, Add;
    DotTwo(enc[k], v, a, b);
    DotTwo(enc[k + 1], v, a, b);
    MulOne(v[a]);
    MulOne(v[b]);
    AddLaws(v[a], v[b], 0);
    AddLaws(Mul(Power(a), v[a]), Mul(Power(b), v[a]), 0);
    MulOverAdd(Power(a), Power(b), v[a]);
    MulNonZero(Add(Power(a), Power(b)), v[a]);
    AddLaws(Power(a), Power(b), 0);
    PowersDistinct(a, b);
  }

  lemma SmallKernel(enc: Mat, k: nat, m: nat, idx: seq<nat>, v: Vec)
    requires SmallRows(enc, k, m) && k <= 255 && Choice(idx, k, k + m) && |v| == k && IsZero(Apply(Rows(enc, idx), v))
    ensures IsZero(v)
  {
    hide Dot, Mul, Power, Add, Apply, Rows;
    ChosenRowsKill(enc, k, k + m, idx, v);
    forall i | 0 <= i < k && i in idx ensures v[i] == 0 {
      assert Kills(enc, i, v);
      UnitDot(enc[i], v, i);
    }
    if a: nat :| a < k && v[a] != 0 {
      if b: nat :| b < k && b != a && v[b] != 0 {
        TwoMissing(enc, k, m, idx, v, if a < b then a else b, if a < b then b else a);
      } else {
        OneMissing(enc, k, m, idx, v, a);
      }
    }
  }

  lemma OneMissing(enc: Mat, k: nat, m: nat, idx: seq<nat>, v: Vec, a: nat)
    requires SmallRows(enc, k, m) && k <= 255 && Choice(idx, k, k + m) && |v| == k && a < k && a !in idx
    requires forall x :: x in idx ==> Kills(enc, x, v)
    requires forall i :: 0 <= i < k && i != a ==> v[i] == 0
    ensures v[a] == 0
  {
    hide Dot, Power, Kills;
    if r: nat :| r in idx && r >= k {
      OneComponent(enc, k, m, v, a, r);
    } else {
      OthersChosen(idx, k, k + m, {a}, {});
    }
  }

  /** Two data rows left out of at most two spare rows: both spares are chosen, and every other data row. */
  lemma TwoOut(idx: seq<nat>, k: nat, n: nat, a: nat, b: nat, others: set<nat>)
    requires Choice(idx, k, n) && a < k && b < k && a != b && a !in idx && b !in idx
    requires forall x :: x in idx && x >= k ==> x in others
    ensures |others| >= 2
  {
    OthersChosen(idx, k, n, {a, b}, others);
    assert |{a, b}| == 2;
  }

  lemma ThreeOut(idx: seq<nat>, k: nat, n: nat, a: nat, b: nat, c: nat, others: set<nat>)
    requires Choice(idx, k, n) && a < k && b < k && c < k && a != b && a != c && b != c
    requires a !in idx && b !in idx && c !in idx
    requires forall x :: x in idx && x >= k ==> x in others
    ensures |others| >= 3
  {
    OthersChosen(idx, k, n, {a, b, c}, others);
    assert {a, b, c} == {a, b} + {c} && |{a, b}| == 2;
  }

  lemma BothSparesChosen(idx: seq<nat>, k: nat, m: nat, a: nat, b: nat)
    requires Choice(idx, k, k + m) && 1 <= m <= 2 && a < k && b < k && a != b && a !in idx && b !in idx
    ensures m == 2 && k in idx && k + 1 in idx
    ensures forall c: nat :: c < k && c != a && c != b ==> c in idx
  {
    SpareIs(idx, k, m);
    hide Choice;
    if m == 1 || k + 1 !in idx {
      TwoOut(idx, k, k + m, a, b, {k});
    } else if k !in idx {
      TwoOut(idx, k, k + m, a, b, {k + 1});
    }
    forall c: nat | c < k && c != a && c != b ensures c in idx {
      if c !in idx {
        ThreeOut(idx, k, k + m, a, b, c, {k, k + 1});
      }
    }
  }

  lemma SpareIs(idx: seq<nat>, k: nat, m: nat)
    requires Choice(idx, k, k + m) && 1 <= m <= 2
    ensures forall x :: x in idx && x >= k ==> x == k || (x == k + 1 && m == 2)
  {}

  lemma TwoMissing(enc: Mat, k: nat, m: nat, idx: seq<nat>, v: Vec, a: nat, b: nat)
    requires SmallRows(enc, k, m) && k <= 255 && Choice(idx, k, k + m) && |v| == k && a < b < k
    requires forall x :: x in idx ==> Kills(enc, x, v)
    requires forall i :: 0 <= i < k && i in idx ==> v[i] == 0
    requires a !in idx && b !in idx
    ensures v[a] == 0
  {
    hide Dot, Power, Kills;
    BothSparesChosen(idx, k, m, a, b);
    TwoComponents(enc, k, v, a, b);
  }

  lemma SmallRowsIndependent(enc: Mat, k: nat, m: nat, idx: seq<nat>)
    requires SmallRows(enc, k, m) && k <= 255 && Choice(idx, k, k + m)
    ensures TrivialKernel(Rows(enc, idx), k)
  {
    assert |enc| == k + m && forall i :: 0 <= i < k ==> idx[i] < k + m;
    assert Rectangular(Rows(enc, idx), k);
    hide Dot, Power, Apply, IsZero, SmallRows, Choice, Rectangular;
    forall v: Vec | |v| == k && IsZero(Apply(Rows(enc, idx), v)) ensures IsZero(v) {
      SmallKernel(enc, k, m, idx, v);
    }
  }

  lemma SmallIsMds(enc: Mat, k: nat, m: nat)
    requires SmallRows(enc, k, m) && k + m <= 255
    ensures IsMds(enc, k, k + m)
  {
    hide TrivialKernel, Dot, Power;
    forall idx: seq<nat> | Choice(idx, k, k + m) ensures TrivialKernel(Rows(enc, idx), k) {
      SmallRowsIndependent(enc, k, m, idx);
    }
  }

  // ----- three or more parity rows: a Vandermonde matrix times the inverse of its top

  ghost predicate VandermondeRows(v: Mat, k: nat, n: nat) {
    && k <= n <= 255 && |v| == n && Rectangular(v, k)
    && forall r, c :: 0 <= r < n && 0 <= c < k ==> v[r][c] == Pow(Point(r), c % 256)
  }

  ghost predicate Normalized(enc: Mat, v: Mat, inv: Mat, k: nat) {
    && |enc| == |v| >= k && Rectangular(enc, k) && Rectangular(v, k) && Square(inv, k) && Square(v[..k], k)
    && LeftInverse(inv, v[..k], k) && TrivialKernel(inv, k)
    && forall r, c :: 0 <= r < |v| && 0 <= c < k ==> enc[r][c] == Dot(v[r], Column(inv, c))
  }

  /** Row r of the product acts on x as row r of v acts on inv * x. */
  lemma NormalizedRow(enc: Mat, v: Mat, inv: Mat, k: nat, r: nat, x: Vec)
    requires Normalized(enc, v, inv, k) && r < |v| && |x| == k
    ensures Dot(enc[r], x) == Dot(v[r], Apply(inv, x))
  {
    hide Dot, LeftInverse, TrivialKernel, Apply;
    forall c | 0 <= c < k ensures enc[r][c] == Combination(v[r], inv, k)[c] {
      CombinationAt(v[r], inv, k, c);
    }
    assert enc[r] == Combination(v[r], inv, k);
    CombinationDot(v[r], inv, x);
  }

  lemma NormalizedSystematic(enc: Mat, v: Mat, inv: Mat, k: nat)
    requires Normalized(enc, v, inv, k)
    ensures Systematic(enc, k)
  {
    hide Dot, LeftInverse, TrivialKernel;
    forall r: nat, x: Vec | r < k && |x| == k ensures Dot(enc[r], x) == x[r] {
      NormalizedRow(enc, v, inv, k, r, x);
      RightInverse(inv, v[..k], k, x);
      assert Apply(v[..k], Apply(inv, x))[r] == Dot(v[r], Apply(inv, x));
    }
  }

  lemma NormalizedKernel(enc: Mat, v: Mat, inv: Mat, k: nat, n: nat, idx: seq<nat>, x: Vec)
    requires Normalized(enc, v, inv, k) && VandermondeRows(v, k, n) && Choice(idx, k, n)
    requires |x| == k && IsZero(Apply(Rows(enc, idx), x))
    ensures IsZero(x)
  {
    hide Dot, LeftInverse, TrivialKernel, Pow, Point;
    var y := Apply(inv, x);
    var sub := Rows(v, idx);
    forall i | 0 <= i < k ensures Dot(sub[i], y) == 0 {
      NormalizedRow(enc, v, inv, k, idx[i], x);
      assert Apply(Rows(enc, idx), x)[i] == 0;
    }
    AnyRowsAreIndependent(v, n, k, idx, sub);
    OnlyZero(sub, k, y);
    OnlyZero(inv, k, x);
  }

  lemma NormalizedRowsIndependent(enc: Mat, v: Mat, inv: Mat, k: nat, n: nat, idx: seq<nat>)
    requires Normalized(enc, v, inv, k) && VandermondeRows(v, k, n) && Choice(idx, k, n)
    ensures TrivialKernel(Rows(enc, idx), k)
  {
    assert |enc| == n && forall i :: 0 <= i < k ==> idx[i] < n;
    assert Rectangular(Rows(enc, idx), k);
    hide Dot, Apply, IsZero, Normalized, VandermondeRows, Choice, Rectangular;
    forall x: Vec | |x| == k && IsZero(Apply(Rows(enc, idx), x)) ensures IsZero(x) {
      NormalizedKernel(enc, v, inv, k, n, idx, x);
    }
  }

  lemma NormalizedIsMds(enc: Mat, v: Mat, inv: Mat, k: nat, n: nat)
    requires Normalized(enc, v, inv, k) && VandermondeRows(v, k, n)
    ensures IsMds(enc, k, n)
  {
    hide TrivialKernel, LeftInverse, Dot, Pow, Point;
    forall idx: seq<nat> | Choice(idx, k, n) ensures TrivialKernel(Rows(enc, idx), k) {
      NormalizedRowsIndependent(enc, v, inv, k, n, idx);
    }
  }

  /** The top of a Vandermonde matrix is one choice of its rows, so it inverts. */
  lemma TopInverts(v: Mat, k: nat, n: nat)
    requires VandermondeRows(v, k, n)
    ensures TrivialKernel(v[..k], k)
  {
    hide TrivialKernel, Pow, Point;
    AnyRowsAreIndependent(v, n, k, seq(k, i => i), v[..k]);
  }

  // ----- which code it is

  /** The values of the polynomial a at the points of the data rows. */
  ghost function Values(a: Vec, k: nat): (x: Vec)
    ensures |x| == k && forall j :: 0 <= j < k ==> x[j] == Eval(a, Point(j))
  {
    seq(k, j requires 0 <= j < k => Eval(a, Point(j)))
  }

  /** Every row evaluates: where the data are the values of a polynomial with k
      coefficients at points 1 to k, row r gives its value at point r + 1. */
  ghost predicate Evaluates(enc: Mat, k: nat) {
    && Rectangular(enc, k)
    && forall a: Vec, r: nat :: |a| == k && r < |enc| ==> Dot(enc[r], Values(a, k)) == Eval(a, Point(r))
  }

  lemma RowIsPowers(v: Mat, k: nat, n: nat, r: nat, a: Vec)
    requires VandermondeRows(v, k, n) && r < n && |a| == k
    ensures Dot(v[r], a) == Eval(a, Point(r))
  {
    hide Pow, Point, Dot, Eval;
    forall c | 0 <= c < k ensures v[r][c] == PowerRow(Point(r), k)[c] {
      assert v[r][c] == Pow(Point(r), c % 256);
    }
    assert v[r] == PowerRow(Point(r), k);
    PowerRowEvaluates(Point(r), a);
  }

  lemma NormalizedEvaluates(enc: Mat, v: Mat, inv: Mat, k: nat, n: nat)
    requires Normalized(enc, v, inv, k) && VandermondeRows(v, k, n)
    ensures Evaluates(enc, k)
  {
    hide Dot, LeftInverse, TrivialKernel, Point, Eval, VandermondeRows;
    VandermondeShape(v, k, n);
    forall a: Vec, r: nat | |a| == k && r < |enc| ensures Dot(enc[r], Values(a, k)) == Eval(a, Point(r)) {
      var x := Values(a, k);
      forall j | 0 <= j < k ensures Apply(v[..k], a)[j] == x[j] {
        RowIsPowers(v, k, n, j, a);
      }
      assert Apply(v[..k], a) == x;
      LeftInverseSolves(inv, v[..k], k, a);
      NormalizedRow(enc, v, inv, k, r, x);
      RowIsPowers(v, k, n, r, a);
    }
  }

  lemma VandermondeShape(v: Mat, k: nat, n: nat)
    requires VandermondeRows(v, k, n)
    ensures k <= n <= 255 && |v| == n
  {}

  /** Points of the data rows other than j. */
  function OtherPoints(k: nat, j: nat): (xs: seq<Byte>)
    requires j < k <= 255
    ensures |xs| == k - 1 && forall i :: 0 <= i < k - 1 ==> xs[i] == Point(if i < j then i else i + 1)
  {
    seq(k - 1, i requires 0 <= i < k - 1 => Point(if i < j then i else i + 1))
  }

  lemma AmongOthers(k: nat, j: nat, i: nat)
    requires j < k <= 255 && i < k
    ensures Point(i) in OtherPoints(k, j) <==> i != j
  {
    hide Point;
    var xs := OtherPoints(k, j);
    if i == j {
      forall t | 0 <= t < k - 1 ensures xs[t] != Point(j) {
        if t < j {
          PointsDistinct(t, j);
        } else {
          PointsDistinct(j, t + 1);
        }
      }
    } else {
      assert xs[if i < j then i else i - 1] == Point(i);
    }
  }

  lemma CancelRight(a: Byte, b: Byte, w: Byte)
    requires Mul(a, w) == Mul(b, w) && w != 0
    ensures a == b
  {
    hide Mul, Add;
    MulOverAdd(a, b, w);
    AddLaws(Mul(a, w), 0, 0);
    AddLaws(a, b, 0);
    if a != b {
      MulNonZero(Add(a, b), w);
    }
  }

  /** Evaluating leaves no freedom: at most one matrix does it. */
  lemma EvaluatesOnce(e: Mat, f: Mat, k: nat)
    requires 1 <= k <= 255 && Evaluates(e, k) && Evaluates(f, k) && |e| == |f|
    ensures e == f
  {
    hide Dot, Point, Eval, Vanishing, OtherPoints, Mul;
    forall r: nat, j: nat | r < |e| && j < k ensures e[r][j] == f[r][j] {
      var a := Vanishing(OtherPoints(k, j));
      var x := Values(a, k);
      forall i: nat | i < k ensures x[i] == 0 <==> i != j {
        VanishesExactly(OtherPoints(k, j), Point(i));
        AmongOthers(k, j, i);
      }
      DotOne(e[r], x, j);
      DotOne(f[r], x, j);
      CancelRight(e[r][j], f[r][j], x[j]);
    }
    forall r: nat | r < |e| ensures e[r] == f[r] {
    }
  }
}
