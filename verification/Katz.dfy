/** When corner-peeling can finish: the Katz criterion suffices.

    Peeling stalls exactly when the set of unknown pixels is "stuck": every
    pixel of it shares each of its lines with another pixel of it.  This module
    shows that directions in lowest terms, no two parallel, leave no non-empty
    stuck set in a grid with sum |p| >= P or sum |q| >= Q. */
module Katz {
  import opened Basics
  import opened Geometry

  ghost predicate HasPartner(s: set<Pixel>, d: Direction, x: Pixel) {
    exists y :: y in s && y != x && Along(d, y) == Along(d, x)
  }

  ghost predicate Stuck(s: set<Pixel>, dirs: seq<Direction>) {
    forall d, x :: d in dirs && x in s ==> HasPartner(s, d, x)
  }

  /** No non-empty set of pixels of the grid is stuck. */
  ghost predicate Peelable(dirs: seq<Direction>, P: nat, Q: nat) {
    forall s: set<Pixel> :: s <= Grid(P, Q) && Stuck(s, dirs) ==> s == {}
  }

  // ----- the criterion

  function SumAbsP(dirs: seq<Direction>): nat {
    if dirs == [] then 0 else SumAbsP(dirs[..|dirs| - 1]) + Abs(dirs[|dirs| - 1].p)
  }

  function SumAbsQ(dirs: seq<Direction>): nat {
    if dirs == [] then 0 else SumAbsQ(dirs[..|dirs| - 1]) + Abs(dirs[|dirs| - 1].q)
  }

  predicate Criterion(dirs: seq<Direction>, P: nat, Q: nat) {
    SumAbsP(dirs) >= P || SumAbsQ(dirs) >= Q
  }

  method KatzCheck(dirs: seq<Direction>, P: nat, Q: nat) returns (ok: bool)
    ensures ok <==> Criterion(dirs, P, Q)
  {
    var sumAbsP, sumAbsQ := 0, 0;
    for i := 0 to |dirs|
      invariant sumAbsP == SumAbsP(dirs[..i]) && sumAbsQ == SumAbsQ(dirs[..i])
    {
      var ap, aq := dirs[i].p, dirs[i].q;
      assert dirs[..i + 1][..i] == dirs[..i];
      sumAbsP := sumAbsP + if ap < 0 then -ap else ap;
      sumAbsQ := sumAbsQ + if aq < 0 then -aq else aq;
    }
    assert dirs[..|dirs|] == dirs;
    ok := sumAbsP >= P || sumAbsQ >= Q;
  }

  // ----- primitive and independent directions

  function Combine(d: Direction, x: int, y: int): int {
    d.p * x + d.q * y
  }

  /** gcd(p, q) = 1, as Bezout states it. */
  ghost predicate Primitive(d: Direction) {
    exists x, y :: Combine(d, x, y) == 1
  }

  predicate Parallel(d: Direction, e: Direction) {
    d.p * e.q == e.p * d.q
  }

  ghost predicate Independent(dirs: seq<Direction>) {
    && (forall d :: d in dirs ==> Primitive(d))
    && forall i, j :: 0 <= i < j < |dirs| ==> !Parallel(dirs[i], dirs[j])
  }

  function Without(dirs: seq<Direction>, k: nat): seq<Direction>
    requires k < |dirs|
  {
    dirs[..k] + dirs[k + 1..]
  }

  lemma {:induction false} SumAbsQWithout(dirs: seq<Direction>, k: nat)
    requires k < |dirs|
    ensures SumAbsQ(dirs) == SumAbsQ(Without(dirs, k)) + Abs(dirs[k].q)
  {
    var n := |dirs| - 1;
    if k == n {
      assert Without(dirs, k) == dirs[..n];
    } else {
      SumAbsQWithout(dirs[..n], k);
      assert Without(dirs, k)[..n - 1] == Without(dirs[..n], k);
    }
  }

  // ----- sufficiency: a stuck set is too large for the grid

  ghost predicate Maximal(s: set<Pixel>, d: Direction, x: Pixel) {
    x in s && forall y :: y in s ==> Along(d, y) <= Along(d, x)
  }

  lemma {:induction false} MaximalExists(s: set<Pixel>, d: Direction) returns (x: Pixel)
    requires s != {}
    ensures Maximal(s, d, x)
  {
    x := Pick(s);
    if s != {x} {
      var y := MaximalExists(s - {x}, d);
      if Along(d, x) < Along(d, y) {
        x := y;
      }
    }
  }

  /** Slopes p/q compared without division. */
  predicate SlopeAtMost(d: Direction, e: Direction) {
    d.p * e.q <= e.p * d.q
  }

  lemma SlopeTransitive(d: Direction, e: Direction, f: Direction)
    requires d.q > 0 && e.q > 0 && f.q > 0
    requires SlopeAtMost(d, e) && SlopeAtMost(e, f)
    ensures SlopeAtMost(d, f)
  {
    assert d.p * e.q * f.q <= e.p * d.q * f.q;
    assert e.p * f.q * d.q <= f.p * e.q * d.q;
    assert e.q * (d.p * f.q) <= e.q * (f.p * d.q);
  }

  lemma {:induction false} SteepestExists(dirs: seq<Direction>) returns (k: nat)
    requires dirs != []
    requires forall i :: 0 <= i < |dirs| ==> dirs[i].q > 0
    ensures k < |dirs|
    ensures forall i :: 0 <= i < |dirs| ==> SlopeAtMost(dirs[i], dirs[k])
  {
    var n := |dirs| - 1;
    k := n;
    if n > 0 {
      var j := SteepestExists(dirs[..n]);
      if SlopeAtMost(dirs[n], dirs[j]) {
        k := j;
      } else {
        forall i | 0 <= i < n ensures SlopeAtMost(dirs[i], dirs[n]) {
          assert SlopeAtMost(dirs[..n][i], dirs[j]);
          SlopeTransitive(dirs[i], dirs[j], dirs[n]);
        }
      }
    }
  }

  lemma BezoutMultiple(p: int, q: int, a: int, b: int, dr: int, dc: int)
    requires p * a + q * b == 1 && p * dr + q * dc == 0
    ensures dr == q * (b * dr - a * dc)
  {
    calc {
      dr;
      (p * a + q * b) * dr;
      a * (p * dr) + q * b * dr;
      { assert p * dr == -(q * dc); }
      a * -(q * dc) + q * b * dr;
      q * (b * dr - a * dc);
    }
  }

  /** Two different pixels of one line of a primitive direction are at least |q| rows apart. */
  lemma RowGap(d: Direction, x: Pixel, y: Pixel)
    requires Primitive(d) && d.q > 0
    requires Along(d, x) == Along(d, y) && x != y && x.row <= y.row
    ensures y.row - x.row >= d.q
  {
    var a, b :| Combine(d, a, b) == 1;
    var dr, dc := y.row - x.row, y.col - x.col;
    assert d.p * dr + d.q * dc == 0;
    BezoutMultiple(d.p, d.q, a, b, dr, dc);
    GapIsLarge(dr, d.q, b * dr - a * dc, dc, d.p);
  }

  lemma GapIsLarge(dr: int, q: int, m: int, dc: int, p: int)
    requires 0 <= dr && 0 < q && dr == q * m && p * dr + q * dc == 0 && (dr != 0 || dc != 0)
    ensures dr >= q
  {
    if m >= 1 {
      MultipleIsLarge(q, m);
    }
  }

  /** The exchange argument: the extreme pixels of a steeper direction lie in later rows. */
  lemma ExtremesAreOrdered(s: set<Pixel>, d: Direction, e: Direction, x: Pixel, y: Pixel)
    requires d.q > 0 && e.q > 0 && SlopeAtMost(d, e) && !Parallel(d, e)
    requires Maximal(s, d, x) && Maximal(s, e, y)
    ensures x.row <= y.row
  {
    var a := Along(d, x) - Along(d, y);
    var b := Along(e, y) - Along(e, x);
    assert a >= 0 && b >= 0;
    assert e.q * a + d.q * b == (e.p * d.q - d.p * e.q) * (y.row - x.row);
    assert e.p * d.q - d.p * e.q > 0;
    assert e.q * a >= 0 && d.q * b >= 0;
  }

  ghost function RowsUpTo(s: set<Pixel>, r: int): set<int> {
    set x | x in s && x.row <= r :: x.row
  }

  /** The extreme pixels of a stuck set in one direction span at least |q| rows. */
  lemma TwoExtremes(s: set<Pixel>, d: Direction) returns (low: Pixel, high: Pixel)
    requires s != {} && Primitive(d) && d.q > 0
    requires forall x :: x in s ==> HasPartner(s, d, x)
    ensures Maximal(s, d, low) && Maximal(s, d, high)
    ensures low.row + d.q <= high.row
  {
    hide Along;
    low := MaximalExists(s, d);
    assert HasPartner(s, d, low);
    high :| high in s && high != low && Along(d, high) == Along(d, low);
    if high.row < low.row {
      low, high := high, low;
    }
    RowGap(d, low, high);
  }

  ghost predicate StuckAndTilted(s: set<Pixel>, dirs: seq<Direction>) {
    && s != {} && Stuck(s, dirs) && Independent(dirs)
    && (forall d :: d in dirs ==> d.q > 0)
    && forall y :: y in s ==> y.row >= 0
  }

  lemma WithoutKeepsTilted(s: set<Pixel>, dirs: seq<Direction>, k: nat)
    requires k < |dirs| && StuckAndTilted(s, dirs)
    ensures StuckAndTilted(s, Without(dirs, k))
  {
    var rest := Without(dirs, k);
    assert forall d :: d in rest ==> d in dirs;
    forall i, j | 0 <= i < j < |rest| ensures !Parallel(rest[i], rest[j]) {
      var i', j' := if i < k then i else i + 1, if j < k then j else j + 1;
      assert rest[i] == dirs[i'] && rest[j] == dirs[j'];
      assert !Parallel(dirs[i'], dirs[j']);
    }
  }

  lemma SteeperThanRest(dirs: seq<Direction>, k: nat, j: nat)
    requires k < |dirs| && j < |dirs| - 1 && Independent(dirs)
    requires forall i :: 0 <= i < |dirs| ==> SlopeAtMost(dirs[i], dirs[k])
    ensures var e := Without(dirs, k)[j]; SlopeAtMost(e, dirs[k]) && !Parallel(e, dirs[k])
  {
    var i := if j < k then j else j + 1;
    assert Without(dirs, k)[j] == dirs[i];
    if j < k {
      assert !Parallel(dirs[i], dirs[k]);
    } else {
      assert !Parallel(dirs[k], dirs[i]);
    }
  }

  /** A stuck set has, for its steepest direction, an extreme pixel that is
      sum |q| rows below the top, with more rows of the set up to it than there
      are directions. */
  lemma {:induction false} StuckSetIsTall(s: set<Pixel>, dirs: seq<Direction>) returns (k: nat, x: Pixel)
    requires dirs != [] && StuckAndTilted(s, dirs)
    ensures k < |dirs| && Maximal(s, dirs[k], x)
    ensures x.row >= SumAbsQ(dirs)
    ensures |RowsUpTo(s, x.row)| >= |dirs| + 1
    decreases |dirs|
  {
    hide Along, SlopeAtMost, Parallel;
    k := SteepestExists(dirs);
    var d := dirs[k];
    var rest := Without(dirs, k);
    SumAbsQWithout(dirs, k);
    var low, high := TwoExtremes(s, d);
    x := high;
    OneMoreRow(s, low.row, high);
    if rest == [] {
      RowsUpToOwnRow(s, low);
    } else {
      WithoutKeepsTilted(s, dirs, k);
      var j, y := StuckSetIsTall(s, rest);
      SteeperThanRest(dirs, k, j);
      ExtremesAreOrdered(s, rest[j], d, y, low);
      OneMoreRow(s, y.row, high);
    }
  }

  lemma OneMoreRow(s: set<Pixel>, r: int, x: Pixel)
    requires x in s && r < x.row
    ensures |RowsUpTo(s, x.row)| >= |RowsUpTo(s, r)| + 1
  {
    assert x.row !in RowsUpTo(s, r);
    SubsetSize(RowsUpTo(s, r) + {x.row}, RowsUpTo(s, x.row));
  }

  lemma RowsUpToOwnRow(s: set<Pixel>, x: Pixel)
    requires x in s
    ensures |RowsUpTo(s, x.row)| >= 1
  {
    SubsetSize({x.row}, RowsUpTo(s, x.row));
  }

  // ----- reduction of a direction set to upward directions with q > 0

  function Opposite(d: Direction): Direction {
    Direction(-d.p, -d.q)
  }

  /** The directions that leave their row, turned so that q > 0. */
  function Upward(dirs: seq<Direction>): seq<Direction> {
    if dirs == [] then []
    else
      var d := dirs[|dirs| - 1];
      Upward(dirs[..|dirs| - 1]) + if d.q == 0 then [] else if d.q < 0 then [Opposite(d)] else [d]
  }

  lemma {:induction false} UpwardOrigin(dirs: seq<Direction>, u: Direction)
    requires u in Upward(dirs)
    ensures u.q > 0 && (u in dirs || Opposite(u) in dirs)
  {
    var n := |dirs| - 1;
    var d := dirs[n];
    if u in Upward(dirs[..n]) {
      UpwardOrigin(dirs[..n], u);
    } else {
      assert u == d || u == Opposite(d);
      assert Opposite(Opposite(d)) == d;
    }
  }

  lemma {:induction false} UpwardSize(dirs: seq<Direction>)
    ensures SumAbsQ(Upward(dirs)) == SumAbsQ(dirs)
    ensures (forall d :: d in dirs ==> d.q != 0) ==> |Upward(dirs)| == |dirs|
  {
    if dirs != [] {
      var n := |dirs| - 1;
      UpwardSize(dirs[..n]);
      assert forall d :: d in dirs[..n] ==> d in dirs;
      assert dirs[n] in dirs;
      var u, v := Upward(dirs), Upward(dirs[..n]);
      if |u| > |v| {
        assert u[..|u| - 1] == v;
      } else {
        assert u == v;
      }
    }
  }

  lemma OppositePrimitive(d: Direction)
    requires Primitive(d)
    ensures Primitive(Opposite(d))
  {
    var x, y :| Combine(d, x, y) == 1;
    assert Combine(Opposite(d), -x, -y) == 1;
  }

  lemma OppositePartner(s: set<Pixel>, d: Direction, x: Pixel)
    requires HasPartner(s, d, x)
    ensures HasPartner(s, Opposite(d), x)
  {
    var y :| y in s && y != x && Along(d, y) == Along(d, x);
    assert Along(Opposite(d), y) == -Along(d, y) && Along(Opposite(d), x) == -Along(d, x);
  }

  lemma {:induction false} UpwardNotParallel(dirs: seq<Direction>, u: Direction, e: Direction)
    requires u in Upward(dirs)
    requires forall d :: d in dirs ==> !Parallel(d, e)
    ensures !Parallel(u, e) && !Parallel(u, Opposite(e))
  {
    UpwardOrigin(dirs, u);
    var d := if u in dirs then u else Opposite(u);
    assert !Parallel(d, e);
    assert d == u || (d.p == -u.p && d.q == -u.q);
    assert -u.p * e.q == -(u.p * e.q) && e.p * -u.q == -(e.p * u.q);
    assert u.p * -e.q == -(u.p * e.q) && -e.p * u.q == -(e.p * u.q);
  }

  lemma {:induction false} UpwardIndependent(dirs: seq<Direction>)
    requires Independent(dirs)
    ensures Independent(Upward(dirs))
  {
    forall u | u in Upward(dirs) ensures Primitive(u) {
      UpwardOrigin(dirs, u);
      if u !in dirs {
        OppositePrimitive(Opposite(u));
        assert Opposite(Opposite(u)) == u;
      }
    }
    if dirs != [] {
      var n := |dirs| - 1;
      var before := dirs[..n];
      assert forall d :: d in before ==> d in dirs;
      UpwardIndependent(before);
      var us, vs := Upward(dirs), Upward(before);
      forall i, j | 0 <= i < j < |us| ensures !Parallel(us[i], us[j]) {
        if j < |vs| {
          assert us[i] == vs[i] && us[j] == vs[j];
        } else {
          assert us[i] in vs;
          UpwardNotParallel(before, us[i], dirs[n]);
        }
      }
    }
  }

  lemma UpwardStuck(s: set<Pixel>, dirs: seq<Direction>)
    requires Stuck(s, dirs)
    ensures Stuck(s, Upward(dirs))
  {
    forall u, x | u in Upward(dirs) && x in s ensures HasPartner(s, u, x) {
      UpwardOrigin(dirs, u);
      if u !in dirs {
        OppositePartner(s, Opposite(u), x);
        assert Opposite(Opposite(u)) == u;
      }
    }
  }

  /** A stuck set reaches at least sum |q| rows below the first row of the grid. */
  lemma StuckSetLeavesRows(s: set<Pixel>, dirs: seq<Direction>) returns (x: Pixel)
    requires s != {} && Stuck(s, dirs) && Independent(dirs)
    requires forall y :: y in s ==> y.row >= 0
    ensures x in s && x.row >= SumAbsQ(dirs)
  {
    UpwardSize(dirs);
    UpwardIndependent(dirs);
    UpwardStuck(s, dirs);
    var us := Upward(dirs);
    if us == [] {
      x := Pick(s);
    } else {
      forall u | u in us ensures u.q > 0 {
        UpwardOrigin(dirs, u);
      }
      var k;
      k, x := StuckSetIsTall(s, us);
    }
  }

  // ----- the column branch, by transposition

  function Transposed(x: Pixel): Pixel {
    Pixel(x.col, x.row)
  }

  function Mirror(d: Direction): Direction {
    Direction(d.q, d.p)
  }

  function MirrorAll(dirs: seq<Direction>): (r: seq<Direction>)
    ensures |r| == |dirs| && forall i :: 0 <= i < |r| ==> r[i] == Mirror(dirs[i])
  {
    seq(|dirs|, i requires 0 <= i < |dirs| => Mirror(dirs[i]))
  }

  lemma {:induction false} MirrorSum(dirs: seq<Direction>)
    ensures SumAbsQ(MirrorAll(dirs)) == SumAbsP(dirs)
  {
    if dirs != [] {
      var n := |dirs| - 1;
      MirrorSum(dirs[..n]);
      assert MirrorAll(dirs)[..n] == MirrorAll(dirs[..n]);
    }
  }

  lemma MirrorIndependent(dirs: seq<Direction>)
    requires Independent(dirs)
    ensures Independent(MirrorAll(dirs))
  {
    var ms := MirrorAll(dirs);
    forall m | m in ms ensures Primitive(m) {
      var i :| 0 <= i < |ms| && ms[i] == m;
      assert dirs[i] in dirs;
      var x, y :| Combine(dirs[i], x, y) == 1;
      assert Combine(m, y, x) == 1;
    }
    forall i, j | 0 <= i < j < |ms| ensures !Parallel(ms[i], ms[j]) {
      assert !Parallel(dirs[i], dirs[j]);
    }
  }

  lemma MirrorStuck(s: set<Pixel>, dirs: seq<Direction>)
    requires Stuck(s, dirs)
    ensures Stuck(set x | x in s :: Transposed(x), MirrorAll(dirs))
  {
    var t := set x | x in s :: Transposed(x);
    var ms := MirrorAll(dirs);
    forall m, z | m in ms && z in t ensures HasPartner(t, m, z) {
      var i :| 0 <= i < |ms| && ms[i] == m;
      var x := Transposed(z);
      assert x in s && dirs[i] in dirs;
      assert HasPartner(s, dirs[i], x);
      var y :| y in s && y != x && Along(dirs[i], y) == Along(dirs[i], x);
      assert Transposed(y) in t && Transposed(y) != z;
      assert Along(m, Transposed(y)) == Along(dirs[i], y) && Along(m, z) == Along(dirs[i], x);
    }
  }

  /** Katz's criterion suffices: directions in lowest terms, no two parallel,
      with sum |p| >= P or sum |q| >= Q leave no stuck set in the grid. */
  lemma CriterionSuffices(dirs: seq<Direction>, P: nat, Q: nat)
    requires Independent(dirs) && Criterion(dirs, P, Q)
    ensures Peelable(dirs, P, Q)
  {
    forall s: set<Pixel> | s <= Grid(P, Q) && Stuck(s, dirs) ensures s == {} {
      if s != {} {
        if SumAbsQ(dirs) >= Q {
          var x := StuckSetLeavesRows(s, dirs);
        } else {
          var t := set x | x in s :: Transposed(x);
          assert Transposed(Pick(s)) in t;
          MirrorStuck(s, dirs);
          MirrorIndependent(dirs);
          MirrorSum(dirs);
          var z := StuckSetLeavesRows(t, MirrorAll(dirs));
        }
        assert false;
      }
    }
  }

  /** A stuck set occupies more rows than there are directions that leave their
      row, wherever those rows are. */
  lemma StuckSetNeedsRows(s: set<Pixel>, dirs: seq<Direction>, rows: set<int>)
    requires Stuck(s, dirs) && Independent(dirs)
    requires forall d :: d in dirs ==> d.q != 0
    requires forall x :: x in s ==> x.row in rows && x.row >= 0
    requires |rows| <= |dirs|
    ensures s == {}
  {
    if s != {} {
      UpwardSize(dirs);
      UpwardIndependent(dirs);
      UpwardStuck(s, dirs);
      var us := Upward(dirs);
      if us == [] {
        assert false;
      } else {
        forall u | u in us ensures u.q > 0 {
          UpwardOrigin(dirs, u);
        }
        var k, x := StuckSetIsTall(s, us);
        SubsetSize(RowsUpTo(s, x.row), rows);
        assert false;
      }
    }
  }
}
