/** Katz's theorem for any list of directions.  A line direction can be named
    several times and by any multiple of its lowest terms, and (0, 0) names no
    line at all; `Reduced` keeps each line direction once, in lowest terms, and
    the criterion of the reduced list is the exact condition. */
module Reduction {
  import opened Basics
  import opened Geometry
  import opened Katz
  import opened Phantoms

  // ----- lowest terms

  /** The greatest common divisor, by subtraction. */
  function Gcd(a: nat, b: nat): (g: nat)
    requires a > 0 || b > 0
    ensures g > 0
    decreases a + b
  {
    if a == 0 then b
    else if b == 0 then a
    else if a >= b then Gcd(a - b, b)
    else Gcd(a, b - a)
  }

  /** It divides both numbers and is a combination of them. */
  lemma {:induction false} Bezout(a: nat, b: nat) returns (x: int, y: int, m: nat, n: nat)
    requires a > 0 || b > 0
    ensures var g := Gcd(a, b); a * x + b * y == g && a == g * m && b == g * n
    decreases a + b
  {
    if a == 0 {
      x, y, m, n := 0, 1, 0, 1;
    } else if b == 0 {
      x, y, m, n := 1, 0, 1, 0;
    } else if a >= b {
      x, y, m, n := Bezout(a - b, b);
      BezoutStep(a, b, x, y, Gcd(a, b), m, n);
      y, m := y - x, m + n;
    } else {
      x, y, m, n := Bezout(a, b - a);
      BezoutStep(b, a, y, x, Gcd(a, b), n, m);
      x, n := x - y, n + m;
    }
  }

  lemma BezoutStep(a: int, b: int, x: int, y: int, g: int, m: int, n: int)
    requires (a - b) * x + b * y == g && a - b == g * m && b == g * n
    ensures a * x + b * (y - x) == g && a == g * (m + n)
  {
  }

  lemma ExactQuotient(v: int, g: int, k: int)
    requires g > 0 && v == g * k
    ensures v / g == k
  {
    QuotientIs(v, g, k, 0);
  }

  function Lowest(d: Direction): Direction
    requires d != Direction(0, 0)
  {
    var g := Gcd(Abs(d.p), Abs(d.q));
    Direction(d.p / g, d.q / g)
  }

  lemma LowestTerms(d: Direction)
    requires d != Direction(0, 0)
    ensures Primitive(Lowest(d)) && IsMultiple(d, Lowest(d))
  {
    var g := Gcd(Abs(d.p), Abs(d.q));
    var x, y, m, n := Bezout(Abs(d.p), Abs(d.q));
    var sp, sq := if d.p < 0 then -1 else 1, if d.q < 0 then -1 else 1;
    ExactQuotient(d.p, g, sp * m);
    ExactQuotient(d.q, g, sq * n);
    var e := Lowest(d);
    assert Multiple(d, e, g);
    UnitCombination(g, m, n, x, y);
    assert Combine(e, sp * x, sq * y) == m * x + n * y;
  }

  lemma UnitCombination(g: int, m: int, n: int, x: int, y: int)
    requires g > 0 && (g * m) * x + (g * n) * y == g
    ensures m * x + n * y == 1
  {
    var k := m * x + n * y;
    assert g * k == g;
    ExactQuotient(g, g, k);
    ExactQuotient(g, g, 1);
  }

  /** A direction parallel to one in lowest terms is a multiple of it. */
  lemma ParallelIsMultiple(d: Direction, e: Direction)
    requires Primitive(e) && d != Direction(0, 0) && Parallel(d, e)
    ensures IsMultiple(d, e)
  {
    var x, y :| Combine(e, x, y) == 1;
    var m := d.p * x + d.q * y;
    FactorOut(d.p, d.q, e.p, e.q, x, y);
    assert Multiple(d, e, m);
  }

  lemma FactorOut(dp: int, dq: int, ep: int, eq: int, x: int, y: int)
    requires ep * x + eq * y == 1 && dp * eq == ep * dq
    ensures dp == (dp * x + dq * y) * ep && dq == (dp * x + dq * y) * eq
  {
    calc {
      dp;
      dp * (ep * x + eq * y);
      dp * x * ep + (dp * eq) * y;
      dp * x * ep + (ep * dq) * y;
      (dp * x + dq * y) * ep;
    }
    calc {
      dq;
      dq * (ep * x + eq * y);
      (ep * dq) * x + dq * y * eq;
      (dp * eq) * x + dq * y * eq;
      (dp * x + dq * y) * eq;
    }
  }

  // ----- multiples and bases

  predicate Multiple(d: Direction, e: Direction, m: int) {
    m != 0 && d.p == m * e.p && d.q == m * e.q
  }

  ghost predicate IsMultiple(d: Direction, e: Direction) {
    exists m :: Multiple(d, e, m)
  }

  ghost predicate HasMultiple(dirs: seq<Direction>, e: Direction) {
    exists d :: d in dirs && IsMultiple(d, e)
  }

  ghost predicate IsMultipleOfSome(d: Direction, basis: seq<Direction>) {
    exists e :: e in basis && IsMultiple(d, e)
  }

  /** `basis` names each line direction of `dirs` once, in lowest terms. */
  ghost predicate Reduces(dirs: seq<Direction>, basis: seq<Direction>) {
    && Independent(basis)
    && (forall d :: d in dirs ==> IsMultipleOfSome(d, basis))
    && forall e :: e in basis ==> HasMultiple(dirs, e)
  }

  lemma MultipleAlong(d: Direction, e: Direction, m: int, x: Pixel, y: Pixel)
    requires Multiple(d, e, m)
    ensures Along(d, x) == Along(d, y) <==> Along(e, x) == Along(e, y)
  {
    assert Along(d, x) == m * Along(e, x);
    assert Along(d, y) == m * Along(e, y);
    var a, b := Along(e, x), Along(e, y);
    assert m * a - m * b == m * (a - b);
  }

  lemma MultiplePartner(s: set<Pixel>, d: Direction, e: Direction, x: Pixel)
    requires IsMultiple(d, e)
    ensures HasPartner(s, d, x) <==> HasPartner(s, e, x)
  {
    var m :| Multiple(d, e, m);
    forall y ensures Along(d, y) == Along(d, x) <==> Along(e, y) == Along(e, x) {
      MultipleAlong(d, e, m, y, x);
    }
  }

  lemma ReducedStuck(s: set<Pixel>, dirs: seq<Direction>, basis: seq<Direction>)
    requires Reduces(dirs, basis)
    ensures Stuck(s, dirs) <==> Stuck(s, basis)
  {
    if Stuck(s, basis) {
      forall d, x | d in dirs && x in s ensures HasPartner(s, d, x) {
        assert IsMultipleOfSome(d, basis);
        var e :| e in basis && IsMultiple(d, e);
        MultiplePartner(s, d, e, x);
      }
    }
    if Stuck(s, dirs) {
      forall e, x | e in basis && x in s ensures HasPartner(s, e, x) {
        assert HasMultiple(dirs, e);
        var d :| d in dirs && IsMultiple(d, e);
        MultiplePartner(s, d, e, x);
      }
    }
  }

  lemma IndependentNonZero(dirs: seq<Direction>)
    requires Independent(dirs)
    ensures NonZero(dirs)
  {
    forall d | d in dirs ensures d != Direction(0, 0) {
      var x, y :| Combine(d, x, y) == 1;
    }
  }

  /** With a basis at hand: peelable exactly when the criterion holds of it. */
  lemma KatzForBasis(dirs: seq<Direction>, basis: seq<Direction>, P: nat, Q: nat)
    requires Reduces(dirs, basis)
    ensures Peelable(dirs, P, Q) <==> Criterion(basis, P, Q)
  {
    forall s: set<Pixel> ensures Stuck(s, dirs) <==> Stuck(s, basis) {
      ReducedStuck(s, dirs, basis);
    }
    assert Peelable(dirs, P, Q) <==> Peelable(basis, P, Q);
    if Criterion(basis, P, Q) {
      CriterionSuffices(basis, P, Q);
    } else {
      IndependentNonZero(basis);
      CriterionNecessary(basis, P, Q);
    }
  }

  // ----- the reduced list

  predicate ParallelToSome(d: Direction, basis: seq<Direction>) {
    exists i :: 0 <= i < |basis| && Parallel(d, basis[i])
  }

  /** Each line direction of `dirs` once, in lowest terms; (0, 0) is dropped. */
  function Reduced(dirs: seq<Direction>): seq<Direction> {
    if dirs == [] then []
    else
      var n := |dirs| - 1;
      var basis, d := Reduced(dirs[..n]), dirs[n];
      if d == Direction(0, 0) || ParallelToSome(d, basis) then basis else basis + [Lowest(d)]
  }

  function NonZeroPart(dirs: seq<Direction>): seq<Direction> {
    if dirs == [] then []
    else
      var n := |dirs| - 1;
      NonZeroPart(dirs[..n]) + if dirs[n] == Direction(0, 0) then [] else [dirs[n]]
  }

  lemma {:induction false} NonZeroPartMember(dirs: seq<Direction>, d: Direction)
    ensures d in NonZeroPart(dirs) <==> d in dirs && d != Direction(0, 0)
  {
    if dirs != [] {
      NonZeroPartMember(dirs[..|dirs| - 1], d);
    }
  }

  lemma MultipleIsParallel(d: Direction, e: Direction, b: Direction)
    requires IsMultiple(d, e) && Parallel(b, e)
    ensures Parallel(d, b)
  {
    var m :| Multiple(d, e, m);
    calc {
      d.p * b.q;
      m * (e.p * b.q);
      m * (b.p * e.q);
      b.p * d.q;
    }
  }

  /** A new line direction keeps the basis independent. */
  lemma BasisGrows(basis: seq<Direction>, d: Direction)
    requires Independent(basis) && d != Direction(0, 0) && !ParallelToSome(d, basis)
    ensures Independent(basis + [Lowest(d)])
  {
    var e := Lowest(d);
    LowestTerms(d);
    forall i | 0 <= i < |basis| ensures !Parallel(basis[i], e) {
      if Parallel(basis[i], e) {
        MultipleIsParallel(d, e, basis[i]);
      }
    }
  }

  lemma {:induction false} ReducedIsBasis(dirs: seq<Direction>)
    ensures Reduces(NonZeroPart(dirs), Reduced(dirs))
  {
    if dirs != [] {
      var n := |dirs| - 1;
      var d := dirs[n];
      var before, basis := NonZeroPart(dirs[..n]), Reduced(dirs[..n]);
      ReducedIsBasis(dirs[..n]);
      if d != Direction(0, 0) {
        BasisTakesOne(before, basis, d);
      }
    }
  }

  lemma BasisTakesOne(dirs: seq<Direction>, basis: seq<Direction>, d: Direction)
    requires Reduces(dirs, basis) && d != Direction(0, 0)
    ensures Reduces(dirs + [d], if ParallelToSome(d, basis) then basis else basis + [Lowest(d)])
  {
    var dirs', basis' := dirs + [d], if ParallelToSome(d, basis) then basis else basis + [Lowest(d)];
    forall c | c in dirs ensures IsMultipleOfSome(c, basis') {
      assert IsMultipleOfSome(c, basis);
      var e :| e in basis && IsMultiple(c, e);
      assert e in basis';
    }
    forall e | e in basis ensures HasMultiple(dirs', e) {
      assert HasMultiple(dirs, e);
      var c :| c in dirs && IsMultiple(c, e);
      assert c in dirs';
    }
    assert d in dirs';
    if ParallelToSome(d, basis) {
      var i :| 0 <= i < |basis| && Parallel(d, basis[i]);
      assert basis[i] in basis;
      ParallelIsMultiple(d, basis[i]);
      assert IsMultipleOfSome(d, basis');
    } else {
      LowestTerms(d);
      BasisGrows(basis, d);
      assert Lowest(d) in basis' && IsMultipleOfSome(d, basis') && HasMultiple(dirs', Lowest(d));
    }
  }

  // ----- the theorem

  /** The condition a caller can compute.  A list of nothing but (0, 0) still
      tells a single pixel, which has no partner anywhere. */
  predicate ReducedCriterion(dirs: seq<Direction>, P: nat, Q: nat) {
    Criterion(Reduced(dirs), P, Q) || (dirs != [] && P == 1 && Q == 1)
  }

  /** Along (0, 0) every two pixels are partners, so it changes nothing beside a real direction. */
  lemma ZeroAddsNothing(s: set<Pixel>, dirs: seq<Direction>)
    requires NonZeroPart(dirs) != []
    ensures Stuck(s, dirs) <==> Stuck(s, NonZeroPart(dirs))
  {
    var part := NonZeroPart(dirs);
    forall d ensures d in part <==> d in dirs && d != Direction(0, 0) {
      NonZeroPartMember(dirs, d);
    }
    if Stuck(s, part) {
      forall d, x | d in dirs && x in s ensures HasPartner(s, d, x) {
        if d == Direction(0, 0) {
          assert part[0] in part && HasPartner(s, part[0], x);
          var y :| y in s && y != x && Along(part[0], y) == Along(part[0], x);
          assert Along(d, y) == Along(d, x);
        }
      }
    }
  }

  /** One pixel is never stuck. */
  lemma OnePixelIsFree(s: set<Pixel>, dirs: seq<Direction>)
    requires dirs != [] && s != {} && s <= Grid(1, 1)
    ensures !Stuck(s, dirs)
  {
    var x := Pick(s);
    assert forall y :: y in Grid(1, 1) ==> y == Pixel(0, 0);
    assert dirs[0] in dirs && !HasPartner(s, dirs[0], x);
  }

  lemma SinglePixel(dirs: seq<Direction>)
    requires dirs != []
    ensures Peelable(dirs, 1, 1)
  {
    hide Stuck;
    forall s: set<Pixel> | s <= Grid(1, 1) && Stuck(s, dirs) ensures s == {} {
      if s != {} {
        OnePixelIsFree(s, dirs);
      }
    }
  }

  /** Along (0, 0) any two pixels are stuck. */
  lemma TwoPixels(dirs: seq<Direction>, P: nat, Q: nat)
    requires forall d :: d in dirs ==> d == Direction(0, 0)
    requires P >= 1 && Q >= 1 && (P > 1 || Q > 1)
    ensures !Peelable(dirs, P, Q)
  {
    var x, y := Pixel(0, 0), if P > 1 then Pixel(0, 1) else Pixel(1, 0);
    var s := {x, y};
    forall d, z | d in dirs && z in s ensures HasPartner(s, d, z) {
      var other := if z == x then y else x;
      assert other in s && other != z && Along(d, other) == Along(d, z);
    }
    assert s <= Grid(P, Q) && Stuck(s, dirs);
  }

  lemma NoDirection(P: nat, Q: nat)
    ensures Peelable([], P, Q) <==> P == 0 || Q == 0
  {
    if P == 0 || Q == 0 {
      assert Grid(P, Q) == {};
    } else {
      assert {Pixel(0, 0)} <= Grid(P, Q) && Stuck({Pixel(0, 0)}, []);
    }
  }

  /** Without a real direction only an empty grid, or one pixel, is peelable. */
  lemma NoRealDirection(dirs: seq<Direction>, P: nat, Q: nat)
    requires NonZeroPart(dirs) == []
    ensures Peelable(dirs, P, Q) <==> P == 0 || Q == 0 || (dirs != [] && P == 1 && Q == 1)
  {
    hide Peelable;
    forall d | d in dirs ensures d == Direction(0, 0) {
      NonZeroPartMember(dirs, d);
    }
    if dirs == [] {
      NoDirection(P, Q);
    } else if P == 0 || Q == 0 {
      EmptyGrid(dirs, P, Q);
    } else if P == 1 && Q == 1 {
      SinglePixel(dirs);
    } else {
      TwoPixels(dirs, P, Q);
    }
  }

  lemma EmptyGrid(dirs: seq<Direction>, P: nat, Q: nat)
    requires P == 0 || Q == 0
    ensures Peelable(dirs, P, Q)
  {
    assert Grid(P, Q) == {};
  }

  lemma {:induction false} ReducedEmpty(dirs: seq<Direction>)
    requires NonZeroPart(dirs) == []
    ensures Reduced(dirs) == []
  {
    if dirs != [] {
      ReducedEmpty(dirs[..|dirs| - 1]);
    }
  }

  /** Katz's theorem, for every list of directions: a grid is peelable exactly when
      the criterion holds of the reduced list, or the grid is one pixel and there is
      a direction at all. */
  lemma KatzTheorem(dirs: seq<Direction>, P: nat, Q: nat)
    ensures Peelable(dirs, P, Q) <==> ReducedCriterion(dirs, P, Q)
  {
    var part := NonZeroPart(dirs);
    if part == [] {
      ReducedEmpty(dirs);
      NoRealDirection(dirs, P, Q);
    } else {
      forall s: set<Pixel> ensures Stuck(s, dirs) <==> Stuck(s, part) {
        ZeroAddsNothing(s, dirs);
      }
      assert Peelable(dirs, P, Q) <==> Peelable(part, P, Q);
      ReducedIsBasis(dirs);
      KatzForBasis(part, Reduced(dirs), P, Q);
      if P == 1 && Q == 1 {
        NonZeroPartMember(dirs, part[0]);
        SinglePixel(dirs);
      }
    }
  }

  // ----- unit slopes, and the unreduced check

  predicate UnitSlopes(dirs: seq<Direction>) {
    && (forall i :: 0 <= i < |dirs| ==> dirs[i].q == 1)
    && forall i, j :: 0 <= i < j < |dirs| ==> dirs[i].p != dirs[j].p
  }

  lemma UnitSlopesIndependent(dirs: seq<Direction>)
    requires UnitSlopes(dirs)
    ensures Independent(dirs)
  {
    forall d | d in dirs ensures Primitive(d) {
      assert Combine(d, 0, 1) == 1;
    }
  }

  /** For the directions the code generates (q = 1, distinct p) the check needs no reduction. */
  lemma KatzForUnitSlopes(dirs: seq<Direction>, P: nat, Q: nat)
    requires UnitSlopes(dirs)
    ensures Peelable(dirs, P, Q) <==> Criterion(dirs, P, Q)
  {
    UnitSlopesIndependent(dirs);
    forall d | d in dirs ensures IsMultipleOfSome(d, dirs) && HasMultiple(dirs, d) {
      assert Multiple(d, d, 1);
    }
    KatzForBasis(dirs, dirs, P, Q);
  }

  /** Without the reduction the check promises too much: it accepts the single
      direction (2, 2) for a 2 x 2 grid.  Its lowest terms (1, 1) fail the
      criterion, and the antidiagonal is stuck. */
  lemma CheckAcceptsAStuckGrid()
    ensures var dirs := [Direction(2, 2)];
            && Criterion(dirs, 2, 2) && Reduced(dirs) == [Direction(1, 1)]
            && !ReducedCriterion(dirs, 2, 2) && !Peelable(dirs, 2, 2)
  {
    var dirs := [Direction(2, 2)];
    assert dirs[..0] == [];
    assert Gcd(2, 2) == Gcd(0, 2) == 2;
    assert Reduced(dirs) == [Direction(1, 1)];
    assert Reduced(dirs)[..0] == [];
    KatzTheorem(dirs, 2, 2);
  }
}
