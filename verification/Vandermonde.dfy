/** Vandermonde matrices over GF(2^8): any k of at most 255 rows with k columns
    form a non-singular matrix, because a polynomial with k coefficients and k
    distinct roots is zero. */
module Vandermonde {
  import opened Gf256
  import opened Vectors
  import opened Matrix

  // ----- polynomials

  /** p[0] + p[1] x + p[2] x^2 + ... by Horner's rule. */
  function Eval(p: Vec, x: Byte): Byte {
    if p == [] then 0 else Add(p[0], Mul(x, Eval(p[1..], x)))
  }

  /** The quotient of p by (x - a), by synthetic division. */
  function Quotient(p: Vec, a: Byte): (q: Vec)
    ensures |q| == if |p| == 0 then 0 else |p| - 1
  {
    if |p| <= 1 then [] else [Eval(p[1..], a)] + Quotient(p[1..], a)
  }

  lemma MulOverAdd(a: Byte, b: Byte, c: Byte)
    ensures Mul(Add(a, b), c) == Add(Mul(a, c), Mul(b, c))
  {
    hide Mul, Add;
    MulComm(Add(a, b), c);
    MulDistributes(c, a, b);
    MulComm(a, c);
    MulComm(b, c);
  }

  /** One step of the division identity:
      p0 + x (P + (x - a) Q) = (p0 + a P) + (x - a) (P + x Q). */
  lemma DivisionStep(p0: Byte, x: Byte, a: Byte, P: Byte, Q: Byte)
    ensures Add(p0, Mul(x, Add(P, Mul(Add(x, a), Q)))) == Add(Add(p0, Mul(a, P)), Mul(Add(x, a), Add(P, Mul(x, Q))))
  {
    hide Mul, Add;
    var d := Add(x, a);
    // left: p0 + (xP + x(dQ))
    MulDistributes(x, P, Mul(d, Q));
    MulAssoc(x, d, Q);
    MulComm(x, d);
    MulAssoc(d, x, Q);
    // right: (p0 + aP) + (dP + d(xQ)), with dP = xP + aP
    MulDistributes(d, P, Mul(x, Q));
    MulOverAdd(x, a, P);
    Regroup(p0, Mul(x, P), Mul(a, P), Mul(d, Mul(x, Q)));
  }

  lemma Regroup(p: Byte, u: Byte, v: Byte, w: Byte)
    ensures Add(p, Add(u, w)) == Add(Add(p, v), Add(Add(u, v), w))
  {
    hide Add;
    AddAssoc(p, v, Add(Add(u, v), w));
    AddAssoc(u, v, w);
    AddLaws(u, v, 0);
    AddAssoc(v, u, w);
    AddAssoc(v, v, Add(u, w));
    AddLaws(v, v, 0);
    AddLaws(Add(u, w), 0, 0);
  }

  /** p(x) = p(a) + (x - a) q(x); subtraction is addition in characteristic 2. */
  lemma {:induction false} Division(p: Vec, a: Byte, x: Byte)
    ensures Eval(p, x) == Add(Eval(p, a), Mul(Add(x, a), Eval(Quotient(p, a), x)))
  {
    hide Mul, Add;
    if p == [] {
      MulZero(Add(x, a));
      AddLaws(0, 0, 0);
    } else {
      Division(p[1..], a, x);
      DivisionStep(p[0], x, a, Eval(p[1..], a), Eval(Quotient(p[1..], a), x));
      if |p| == 1 {
        MulZero(x); MulZero(a); MulZero(Add(x, a));
        AddLaws(0, 0, 0);
        AddLaws(p[0], 0, 0);
      } else {
        assert Quotient(p, a)[1..] == Quotient(p[1..], a);
      }
    }
  }

  lemma {:induction false} ZeroQuotient(p: Vec, a: Byte)
    requires IsZero(Quotient(p, a)) && Eval(p, a) == 0
    ensures IsZero(p)
  {
    hide Mul, Add;
    if p != [] {
      MulZero(a);
      AddLaws(p[0], 0, 0);
      if |p| > 1 {
        assert Quotient(p, a)[0] == 0;
        assert Quotient(p, a)[1..] == Quotient(p[1..], a);
        ZeroQuotient(p[1..], a);
        assert forall i :: 1 <= i < |p| ==> p[i] == p[1..][i - 1];
      }
    }
  }

  predicate Distinct(xs: seq<Byte>) {
    forall i, j :: 0 <= i < j < |xs| ==> xs[i] != xs[j]
  }

  /** A polynomial with fewer coefficients than distinct roots, or as many, is zero. */
  lemma {:induction false} TooManyRoots(p: Vec, xs: seq<Byte>)
    requires Distinct(xs) && |p| <= |xs|
    requires forall i :: 0 <= i < |xs| ==> Eval(p, xs[i]) == 0
    ensures IsZero(p)
    decreases |p|
  {
    hide Mul, Add, Eval, Quotient;
    if p != [] {
      var a, rest := xs[0], xs[1..];
      var q := Quotient(p, a);
      forall i | 0 <= i < |rest| ensures Eval(q, rest[i]) == 0 {
        var x := xs[i + 1];
        Division(p, a, x);
        AddLaws(Mul(Add(x, a), Eval(q, x)), 0, 0);
        AddLaws(x, a, 0);
        MulNonZero(Add(x, a), Eval(q, x));
      }
      TooManyRoots(q, rest);
      ZeroQuotient(p, a);
    }
  }

  // ----- polynomials with given roots

  lemma EvalSum(p: Vec, q: Vec, x: Byte)
    requires |p| == |q|
    ensures Eval(Sum(p, q), x) == Add(Eval(p, x), Eval(q, x))
  {
    hide Mul, Add, Dot, Eval, PowerRow;
    var row := PowerRow(x, |p|);
    PowerRowEvaluates(x, p);
    PowerRowEvaluates(x, q);
    PowerRowEvaluates(x, Sum(p, q));
    DotComm(row, Sum(p, q));
    DotComm(row, p);
    DotComm(row, q);
    DotSum(p, q, row);
  }

  lemma EvalScaled(f: Byte, p: Vec, x: Byte)
    ensures Eval(Scaled(f, p), x) == Mul(f, Eval(p, x))
  {
    hide Mul, Add, Dot, Eval, PowerRow;
    var row := PowerRow(x, |p|);
    PowerRowEvaluates(x, p);
    PowerRowEvaluates(x, Scaled(f, p));
    DotComm(row, Scaled(f, p));
    DotComm(row, p);
    DotScaled(f, p, row);
  }

  lemma {:induction false} EvalPadded(p: Vec, x: Byte)
    ensures Eval(p + [0], x) == Eval(p, x)
  {
    hide Mul, Add;
    if p == [] {
      assert p + [0] == [0] && [0 as Byte][1..] == [];
      MulZero(x);
      AddLaws(0, 0, 0);
    } else {
      assert (p + [0])[1..] == p[1..] + [0];
      EvalPadded(p[1..], x);
    }
  }

  /** p times (x - a). */
  function TimesRoot(p: Vec, a: Byte): (q: Vec)
    ensures |q| == |p| + 1
  {
    Sum([0] + p, Scaled(a, p + [0]))
  }

  lemma TimesRootEvaluates(p: Vec, a: Byte, x: Byte)
    ensures Eval(TimesRoot(p, a), x) == Mul(Add(x, a), Eval(p, x))
  {
    hide Mul, Add;
    EvalSum([0] + p, Scaled(a, p + [0]), x);
    EvalScaled(a, p + [0], x);
    EvalPadded(p, x);
    assert ([0] + p)[1..] == p;
    AddLaws(Mul(x, Eval(p, x)), 0, 0);
    MulOverAdd(x, a, Eval(p, x));
  }

  /** The product of (x - a) over the given points. */
  function Vanishing(xs: seq<Byte>): (p: Vec)
    ensures |p| == |xs| + 1
  {
    if xs == [] then [1] else TimesRoot(Vanishing(xs[1..]), xs[0])
  }

  lemma {:induction false} VanishesExactly(xs: seq<Byte>, x: Byte)
    ensures Eval(Vanishing(xs), x) == 0 <==> x in xs
  {
    hide Mul, Add, TimesRoot;
    if xs == [] {
      assert [1 as Byte][1..] == [];
      MulZero(x);
      AddLaws(1, 0, 0);
    } else {
      var a, p := xs[0], Vanishing(xs[1..]);
      VanishesExactly(xs[1..], x);
      TimesRootEvaluates(p, a, x);
      AddLaws(x, a, 0);
      if x == a {
        MulComm(0, Eval(p, x));
        MulZero(Eval(p, x));
      } else if Eval(p, x) == 0 {
        MulZero(Add(x, a));
      } else {
        MulNonZero(Add(x, a), Eval(p, x));
      }
      assert x in xs <==> x == a || x in xs[1..];
    }
  }

  // ----- the matrix

  /** (1, a, a^2, ..., a^(k-1)) */
  function PowerRow(a: Byte, k: nat): (r: Vec)
    ensures |r| == k && forall j :: 0 <= j < k ==> r[j] == Pow(a, j)
  {
    seq(k, j requires 0 <= j < k => Pow(a, j))
  }

  lemma {:induction false} PowerRowEvaluates(a: Byte, v: Vec)
    ensures Dot(PowerRow(a, |v|), v) == Eval(v, a)
  {
    hide Mul, Add;
    if v != [] {
      var k := |v|;
      assert PowerRow(a, k)[1..] == Scaled(a, PowerRow(a, k - 1));
      DotScaled(a, PowerRow(a, k - 1), v[1..]);
      PowerRowEvaluates(a, v[1..]);
      MulOne(v[0]);
      assert PowerRow(a, k)[0] == 1;
    }
  }

  /** k rows of powers of k distinct points are independent. */
  lemma PowerRowsIndependent(m: Mat, xs: seq<Byte>, k: nat)
    requires |m| == |xs| == k && Rectangular(m, k) && Distinct(xs)
    requires forall i :: 0 <= i < k ==> m[i] == PowerRow(xs[i], k)
    ensures TrivialKernel(m, k)
  {
    hide Dot, Eval, PowerRow;
    forall v: Vec | |v| == k && IsZero(Apply(m, v)) ensures IsZero(v) {
      forall i | 0 <= i < k ensures Eval(v, xs[i]) == 0 {
        PowerRowEvaluates(xs[i], v);
        assert Apply(m, v)[i] == 0;
      }
      TooManyRoots(v, xs);
    }
  }

  /** Evaluation point of row r, as the source's cast computes it. */
  function Point(r: nat): Byte {
    ((r + 1) % 256) as Byte
  }

  lemma PointsDistinct(r: nat, s: nat)
    requires r < s < 255
    ensures Point(r) != Point(s)
  {
    hide Point;
    PointValue(r);
    PointValue(s);
  }

  lemma PointValue(r: nat)
    requires r < 255
    ensures Point(r) as int == r + 1
  {
    assert (r + 1) % 256 == r + 1;
  }

  /** Fill the matrix row by row with geometric progressions of r + 1. */
  method Build(rows: nat, cols: nat) returns (m: array2<Byte>)
    ensures fresh(m) && m.Length0 == rows && m.Length1 == cols
    ensures forall r, c :: 0 <= r < rows && 0 <= c < cols ==> m[r, c] == Pow(Point(r), c % 256)
  {
    hide Pow, Point, TablePow;
    m := new Byte[rows, cols];
    for r := 0 to rows
      invariant forall i, j :: 0 <= i < r && 0 <= j < cols ==> m[i, j] == Pow(Point(i), j % 256)
    {
      for c := 0 to cols
        invariant forall i, j :: 0 <= i < r && 0 <= j < cols ==> m[i, j] == Pow(Point(i), j % 256)
        invariant forall j :: 0 <= j < c ==> m[r, j] == Pow(Point(r), j % 256)
      {
        TablePowIsPow(Point(r), c % 256);
        m[r, c] := TablePow(Point(r), c % 256);
      }
    }
  }

  /** The MDS property: any k distinct rows of a Vandermonde matrix with at most
      255 rows and k columns are non-singular, so Invert accepts them. */
  lemma AnyRowsAreIndependent(v: Mat, rows: nat, k: nat, idx: seq<nat>, sub: Mat)
    requires k <= rows <= 255 && |v| == rows && Rectangular(v, k)
    requires forall r, c :: 0 <= r < rows && 0 <= c < k ==> v[r][c] == Pow(Point(r), c % 256)
    requires |idx| == |sub| == k && forall i :: 0 <= i < k ==> idx[i] < rows && sub[i] == v[idx[i]]
    requires forall i, j :: 0 <= i < j < k ==> idx[i] != idx[j]
    ensures TrivialKernel(sub, k)
  {
    hide Pow, Point, TrivialKernel;
    var xs := seq(k, i requires 0 <= i < k => Point(idx[i]));
    forall i, j | 0 <= i < j < k ensures xs[i] != xs[j] {
      if idx[i] < idx[j] {
        PointsDistinct(idx[i], idx[j]);
      } else {
        PointsDistinct(idx[j], idx[i]);
      }
    }
    forall i | 0 <= i < k ensures sub[i] == PowerRow(xs[i], k) {
      forall c | 0 <= c < k ensures sub[i][c] == PowerRow(xs[i], k)[c] {
        assert v[idx[i]][c] == Pow(Point(idx[i]), c % 256);
      }
    }
    PowerRowsIndependent(sub, xs, k);
  }
}
