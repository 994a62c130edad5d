/** Vectors and matrices over GF(2^8) as values: dot products, linear
    combinations of rows, kernels. */
module Vectors {
  import opened Gf256

  type Vec = seq<Byte>
  type Mat = seq<Vec>

  predicate Rectangular(m: Mat, cols: nat) {
    forall r :: 0 <= r < |m| ==> |m[r]| == cols
  }

  predicate Square(m: Mat, n: nat) {
    |m| == n && Rectangular(m, n)
  }

  function Dot(u: Vec, v: Vec): Byte
    requires |u| == |v|
  {
    if u == [] then 0 else Add(Mul(u[0], v[0]), Dot(u[1..], v[1..]))
  }

  function Scaled(f: Byte, u: Vec): (r: Vec)
    ensures |r| == |u| && forall i :: 0 <= i < |r| ==> r[i] == Mul(f, u[i])
  {
    seq(|u|, i requires 0 <= i < |u| => Mul(f, u[i]))
  }

  function Sum(u: Vec, v: Vec): (r: Vec)
    requires |u| == |v|
    ensures |r| == |u| && forall i :: 0 <= i < |r| ==> r[i] == Add(u[i], v[i])
  {
    seq(|u|, i requires 0 <= i < |u| => Add(u[i], v[i]))
  }

  predicate IsZero(v: Vec) {
    forall i :: 0 <= i < |v| ==> v[i] == 0
  }

  function Column(m: Mat, c: nat): (r: Vec)
    requires forall i :: 0 <= i < |m| ==> c < |m[i]|
    ensures |r| == |m| && forall i :: 0 <= i < |r| ==> r[i] == m[i][c]
  {
    seq(|m|, i requires 0 <= i < |m| => m[i][c])
  }

  // ----- rearranging sums

  lemma AddShuffle(a: Byte, b: Byte, c: Byte, d: Byte)
    ensures Add(Add(a, b), Add(c, d)) == Add(Add(a, c), Add(b, d))
  {
    hide Add;
    AddAssoc(a, b, Add(c, d));
    AddAssoc(b, c, d);
    AddAssoc(c, b, d);
    AddLaws(b, c, 0);
    AddAssoc(a, c, Add(b, d));
  }

  lemma {:induction false} DotScaled(f: Byte, u: Vec, v: Vec)
    requires |u| == |v|
    ensures Dot(Scaled(f, u), v) == Mul(f, Dot(u, v))
  {
    hide Add, Mul;
    if u == [] {
      MulZero(f);
    } else {
      assert Scaled(f, u)[1..] == Scaled(f, u[1..]);
      DotScaled(f, u[1..], v[1..]);
      MulAssoc(f, u[0], v[0]);
      MulDistributes(f, Mul(u[0], v[0]), Dot(u[1..], v[1..]));
    }
  }

  lemma {:induction false} DotComm(u: Vec, v: Vec)
    requires |u| == |v|
    ensures Dot(u, v) == Dot(v, u)
  {
    hide Add, Mul;
    if u != [] {
      DotComm(u[1..], v[1..]);
      MulComm(u[0], v[0]);
    }
  }

  lemma {:induction false} DotSum(u: Vec, w: Vec, v: Vec)
    requires |u| == |w| == |v|
    ensures Dot(Sum(u, w), v) == Add(Dot(u, v), Dot(w, v))
  {
    hide Add, Mul;
    if u == [] {
      AddLaws(0, 0, 0);
    } else {
      assert Sum(u, w)[1..] == Sum(u[1..], w[1..]);
      DotSum(u[1..], w[1..], v[1..]);
      MulComm(Add(u[0], w[0]), v[0]);
      MulDistributes(v[0], u[0], w[0]);
      MulComm(v[0], u[0]);
      MulComm(v[0], w[0]);
      AddShuffle(Mul(u[0], v[0]), Mul(w[0], v[0]), Dot(u[1..], v[1..]), Dot(w[1..], v[1..]));
    }
  }

  lemma {:induction false} DotZero(u: Vec, v: Vec)
    requires |u| == |v| && (IsZero(u) || IsZero(v))
    ensures Dot(u, v) == 0
  {
    hide Add, Mul;
    if u != [] {
      DotZero(u[1..], v[1..]);
      MulZero(u[0]);
      MulZero(v[0]);
      AddLaws(0, 0, 0);
    }
  }

  lemma {:induction false} DotSnoc(u: Vec, v: Vec, a: Byte, b: Byte)
    requires |u| == |v|
    ensures Dot(u + [a], v + [b]) == Add(Dot(u, v), Mul(a, b))
  {
    hide Add, Mul;
    AddLaws(Mul(a, b), 0, 0);
    if u == [] {
      assert (u + [a])[1..] == [] && (v + [b])[1..] == [];
    } else {
      assert (u + [a])[1..] == u[1..] + [a] && (v + [b])[1..] == v[1..] + [b];
      DotSnoc(u[1..], v[1..], a, b);
      AddAssoc(Mul(u[0], v[0]), Dot(u[1..], v[1..]), Mul(a, b));
    }
  }

  // ----- matrices acting on vectors

  /** m * v. */
  function Apply(m: Mat, v: Vec): (r: Vec)
    requires Rectangular(m, |v|)
    ensures |r| == |m| && forall i :: 0 <= i < |r| ==> r[i] == Dot(m[i], v)
  {
    seq(|m|, i requires 0 <= i < |m| => Dot(m[i], v))
  }

  /** The linear combination of the rows of m with the given coefficients. */
  function Combination(o: Vec, m: Mat, cols: nat): (r: Vec)
    requires |o| == |m| && Rectangular(m, cols)
    ensures |r| == cols
  {
    if o == [] then seq(cols, _ => 0) else Sum(Scaled(o[0], m[0]), Combination(o[1..], m[1..], cols))
  }

  lemma {:induction false} CombinationAt(o: Vec, m: Mat, cols: nat, c: nat)
    requires |o| == |m| && Rectangular(m, cols) && c < cols
    ensures Combination(o, m, cols)[c] == Dot(o, Column(m, c))
  {
    hide Add, Mul;
    if o != [] {
      CombinationAt(o[1..], m[1..], cols, c);
      assert Column(m, c)[1..] == Column(m[1..], c);
    }
  }

  /** (o * m) * v == o * (m * v). */
  lemma {:induction false} CombinationDot(o: Vec, m: Mat, v: Vec)
    requires |o| == |m| && Rectangular(m, |v|)
    ensures Dot(Combination(o, m, |v|), v) == Dot(o, Apply(m, v))
  {
    hide Add, Mul;
    if o == [] {
      DotZero(Combination(o, m, |v|), v);
    } else {
      var rest := Combination(o[1..], m[1..], |v|);
      DotSum(Scaled(o[0], m[0]), rest, v);
      DotScaled(o[0], m[0], v);
      CombinationDot(o[1..], m[1..], v);
      assert Apply(m, v)[1..] == Apply(m[1..], v);
    }
  }

  predicate IsIdentity(m: Mat, n: nat)
    requires Square(m, n)
  {
    forall r, c :: 0 <= r < n && 0 <= c < n ==> m[r][c] == if r == c then 1 else 0
  }

  /** Nothing but zero is mapped to zero. */
  ghost predicate TrivialKernel(m: Mat, cols: nat)
    requires Rectangular(m, cols)
  {
    forall v: Vec :: |v| == cols && IsZero(Apply(m, v)) ==> IsZero(v)
  }

  /** Row r of the identity picks out component r. */
  lemma {:induction false} UnitDot(u: Vec, v: Vec, r: nat)
    requires |u| == |v| && r < |u|
    requires forall c :: 0 <= c < |u| ==> u[c] == if c == r then 1 else 0
    ensures Dot(u, v) == v[r]
  {
    hide Add, Mul;
    MulOne(v[0]);
    MulZero(v[0]);
    if r == 0 {
      DotZero(u[1..], v[1..]);
      AddLaws(v[0], 0, 0);
    } else {
      UnitDot(u[1..], v[1..], r - 1);
      AddLaws(v[r], 0, 0);
    }
  }

  /** `inv` is a left inverse of `m`: inv * m is the identity. */
  ghost predicate LeftInverse(inv: Mat, m: Mat, n: nat)
    requires Square(inv, n) && Square(m, n)
  {
    forall r, c :: 0 <= r < n && 0 <= c < n ==> Dot(inv[r], Column(m, c)) == if r == c then 1 else 0
  }

  lemma LeftInverseSolves(inv: Mat, m: Mat, n: nat, v: Vec)
    requires Square(inv, n) && Square(m, n) && |v| == n && LeftInverse(inv, m, n)
    ensures Apply(inv, Apply(m, v)) == v
  {
    hide Add, Mul, Dot;
    forall r | 0 <= r < n ensures Apply(inv, Apply(m, v))[r] == v[r] {
      CombinationDot(inv[r], m, v);
      var row := Combination(inv[r], m, n);
      forall c | 0 <= c < n ensures row[c] == if c == r then 1 else 0 {
        CombinationAt(inv[r], m, n, c);
      }
      UnitDot(row, v, r);
    }
  }

  lemma LeftInverseTrivialKernel(inv: Mat, m: Mat, n: nat)
    requires Square(inv, n) && Square(m, n) && LeftInverse(inv, m, n)
    ensures TrivialKernel(m, n)
  {
    hide Add, Mul, Dot;
    forall v: Vec | |v| == n && IsZero(Apply(m, v)) ensures IsZero(v) {
      LeftInverseSolves(inv, m, n, v);
      forall r | 0 <= r < n ensures v[r] == 0 {
        DotZero(inv[r], Apply(m, v));
      }
    }
  }

  lemma OnlyZero(m: Mat, cols: nat, v: Vec)
    requires Rectangular(m, cols) && |v| == cols && TrivialKernel(m, cols) && IsZero(Apply(m, v))
    ensures IsZero(v)
  {
    hide Rectangular, Dot;
  }

  /** A left inverse that loses nothing itself is a right inverse too. */
  lemma RightInverse(inv: Mat, m: Mat, n: nat, v: Vec)
    requires Square(inv, n) && Square(m, n) && |v| == n && LeftInverse(inv, m, n) && TrivialKernel(inv, n)
    ensures Apply(m, Apply(inv, v)) == v
  {
    hide Add, Mul, Dot, LeftInverse, TrivialKernel;
    var w := Apply(m, Apply(inv, v));
    LeftInverseSolves(inv, m, n, Apply(inv, v));
    var d := Sum(w, v);
    forall r | 0 <= r < n ensures Dot(inv[r], d) == 0 {
      DotComm(inv[r], d);
      DotSum(w, v, inv[r]);
      DotComm(inv[r], w);
      DotComm(inv[r], v);
      assert Apply(inv, w)[r] == Apply(inv, v)[r];
      AddLaws(Dot(inv[r], v), 0, 0);
    }
    OnlyZero(inv, n, d);
    forall i | 0 <= i < n ensures w[i] == v[i] {
      assert d[i] == 0;
      AddLaws(w[i], v[i], 0);
    }
  }

  /** A vector that is zero but at `a` sees one coefficient. */
  lemma {:induction false} DotOne(u: Vec, v: Vec, a: nat)
    requires |u| == |v| && a < |v| && forall i :: 0 <= i < |v| && i != a ==> v[i] == 0
    ensures Dot(u, v) == Mul(u[a], v[a])
  {
    hide Add, Mul;
    MulZero(u[0]);
    if a == 0 {
      DotZero(u[1..], v[1..]);
      AddLaws(Mul(u[0], v[0]), 0, 0);
    } else {
      DotOne(u[1..], v[1..], a - 1);
      AddLaws(Mul(u[a], v[a]), 0, 0);
    }
  }

  lemma {:induction false} DotTwo(u: Vec, v: Vec, a: nat, b: nat)
    requires |u| == |v| && a < b < |v| && forall i :: 0 <= i < |v| && i != a && i != b ==> v[i] == 0
    ensures Dot(u, v) == Add(Mul(u[a], v[a]), Mul(u[b], v[b]))
  {
    hide Add, Mul;
    if a == 0 {
      DotOne(u[1..], v[1..], b - 1);
    } else {
      MulZero(u[0]);
      DotTwo(u[1..], v[1..], a - 1, b - 1);
      AddLaws(Add(Mul(u[a], v[a]), Mul(u[b], v[b])), 0, 0);
    }
  }
}
