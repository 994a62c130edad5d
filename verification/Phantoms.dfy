/** Necessity of the Katz criterion.  For any directions a "phantom" is built:
    a non-empty set of pixels that meets every line of every direction in an
    even number of pixels and spans sum |q| + 1 rows and sum |p| + 1 columns.
    When it fits in the grid it is a stuck set, so peeling cannot finish. */
module Phantoms {
  import opened Basics
  import opened Geometry
  import opened Katz

  function Plus(x: Pixel, a: Pixel): Pixel {
    Pixel(x.row + a.row, x.col + a.col)
  }

  ghost function Shift(s: set<Pixel>, a: Pixel): set<Pixel> {
    set x | x in s :: Plus(x, a)
  }

  ghost function SymmetricDifference(a: set<Pixel>, b: set<Pixel>): set<Pixel> {
    (a - b) + (b - a)
  }

  /** `Fore(d) - Back(d)` is the vector (q, -p) along the lines of `d`; neither has a negative coordinate. */
  function Fore(d: Direction): Pixel {
    Pixel(if d.q > 0 then d.q else 0, if d.p < 0 then -d.p else 0)
  }

  function Back(d: Direction): Pixel {
    Pixel(if d.q < 0 then -d.q else 0, if d.p > 0 then d.p else 0)
  }

  ghost function Phantom(dirs: seq<Direction>): set<Pixel> {
    if dirs == [] then {Pixel(0, 0)}
    else
      var t := Phantom(dirs[..|dirs| - 1]);
      var d := dirs[|dirs| - 1];
      SymmetricDifference(Shift(t, Fore(d)), Shift(t, Back(d)))
  }

  ghost predicate EvenLines(s: set<Pixel>, d: Direction) {
    forall v :: Even(|Line(s, d, v)|)
  }

  lemma AlongPlus(d: Direction, x: Pixel, a: Pixel)
    ensures Along(d, Plus(x, a)) == Along(d, x) + Along(d, a)
  {}

  lemma SameLine(d: Direction)
    ensures Along(d, Fore(d)) == Along(d, Back(d))
  {}

  lemma {:induction false} ShiftSize(s: set<Pixel>, a: Pixel)
    ensures |Shift(s, a)| == |s|
  {
    if s != {} {
      var x := Pick(s);
      ShiftSize(s - {x}, a);
      assert Shift(s, a) == Shift(s - {x}, a) + {Plus(x, a)};
    }
  }

  lemma ShiftLine(s: set<Pixel>, a: Pixel, d: Direction, v: int)
    ensures Line(Shift(s, a), d, v) == Shift(Line(s, d, v - Along(d, a)), a)
  {
    forall x ensures x in Line(Shift(s, a), d, v) <==> x in Shift(Line(s, d, v - Along(d, a)), a) {
      var y := Plus(x, Pixel(-a.row, -a.col));
      assert x == Plus(y, a);
      AlongPlus(d, y, a);
    }
  }

  predicate Even(n: int) {
    n % 2 == 0
  }

  lemma SymmetricDifferenceSize(a: set<Pixel>, b: set<Pixel>)
    requires Even(|a| + |b|)
    ensures Even(|SymmetricDifference(a, b)|)
  {
    assert a == (a - b) + (a * b);
    assert b == (b - a) + (a * b);
    assert |SymmetricDifference(a, b)| == |a - b| + |b - a|;
  }

  lemma LineOfDifference(a: set<Pixel>, b: set<Pixel>, d: Direction, v: int)
    ensures Line(SymmetricDifference(a, b), d, v) == SymmetricDifference(Line(a, d, v), Line(b, d, v))
  {}

  lemma ShiftLineSize(s: set<Pixel>, a: Pixel, d: Direction, v: int)
    ensures |Line(Shift(s, a), d, v)| == |Line(s, d, v - Along(d, a))|
  {
    ShiftLine(s, a, d, v);
    ShiftSize(Line(s, d, v - Along(d, a)), a);
  }

  lemma EvenSum(m: int, n: int)
    requires m == n || (Even(m) && Even(n))
    ensures Even(m + n)
  {}

  lemma DifferenceIsEven(t: set<Pixel>, e: Direction, d: Direction, v: int)
    requires d == e || EvenLines(t, d)
    ensures Even(|Line(SymmetricDifference(Shift(t, Fore(e)), Shift(t, Back(e))), d, v)|)
  {
    hide Along, Fore, Back, Line, Shift, SymmetricDifference, Even;
    var a, b := Fore(e), Back(e);
    ShiftLineSize(t, a, d, v);
    ShiftLineSize(t, b, d, v);
    SameLine(e);
    EvenSum(|Line(t, d, v - Along(d, a))|, |Line(t, d, v - Along(d, b))|);
    SymmetricDifferenceSize(Line(Shift(t, a), d, v), Line(Shift(t, b), d, v));
    LineOfDifference(Shift(t, a), Shift(t, b), d, v);
  }

  /** A phantom casts no shadow: it meets every line of its directions evenly. */
  lemma {:induction false} PhantomIsEven(dirs: seq<Direction>, d: Direction)
    requires d in dirs
    ensures EvenLines(Phantom(dirs), d)
  {
    var n := |dirs| - 1;
    var t, e := Phantom(dirs[..n]), dirs[n];
    if d != e {
      PhantomIsEven(dirs[..n], d);
    }
    forall v ensures Even(|Line(Phantom(dirs), d, v)|) {
      DifferenceIsEven(t, e, d, v);
    }
  }

  lemma {:induction false} PhantomBox(dirs: seq<Direction>, x: Pixel)
    requires x in Phantom(dirs)
    ensures 0 <= x.row <= SumAbsQ(dirs) && 0 <= x.col <= SumAbsP(dirs)
  {
    if dirs != [] {
      var n := |dirs| - 1;
      var t, d := Phantom(dirs[..n]), dirs[n];
      var y, a := DifferenceOrigin(t, d, x);
      PhantomBox(dirs[..n], y);
    }
  }

  lemma DifferenceOrigin(t: set<Pixel>, d: Direction, x: Pixel) returns (y: Pixel, a: Pixel)
    requires x in SymmetricDifference(Shift(t, Fore(d)), Shift(t, Back(d)))
    ensures y in t && x == Plus(y, a) && 0 <= a.row <= Abs(d.q) && 0 <= a.col <= Abs(d.p)
  {
    a := if x in Shift(t, Fore(d)) then Fore(d) else Back(d);
    y := ShiftOrigin(t, a, x);
  }

  lemma ShiftOrigin(s: set<Pixel>, a: Pixel, x: Pixel) returns (y: Pixel)
    requires x in Shift(s, a)
    ensures y in s && x == Plus(y, a)
  {
    y :| y in s && x == Plus(y, a);
  }

  predicate NonZero(dirs: seq<Direction>) {
    forall d :: d in dirs ==> d != Direction(0, 0)
  }

  lemma {:induction false} PhantomNotEmpty(dirs: seq<Direction>)
    requires NonZero(dirs)
    ensures Phantom(dirs) != {}
  {
    hide Along, Fore, Back;
    if dirs != [] {
      var n := |dirs| - 1;
      var t, d := Phantom(dirs[..n]), dirs[n];
      assert forall e :: e in dirs[..n] ==> e in dirs;
      PhantomNotEmpty(dirs[..n]);
      // The extreme pixel in the direction of the shift has nothing to cancel it.
      var across := Direction(d.q, -d.p);
      var x := MaximalExists(t, across);
      var z := Plus(x, Fore(d));
      assert d in dirs;
      if z in Shift(t, Back(d)) {
        var y := ShiftOrigin(t, Back(d), z);
        FartherAlong(x, y, d);
        assert false;
      }
      assert z in Phantom(dirs);
    }
  }

  lemma FartherAlong(x: Pixel, y: Pixel, d: Direction)
    requires Plus(x, Fore(d)) == Plus(y, Back(d)) && d != Direction(0, 0)
    ensures Along(Direction(d.q, -d.p), y) > Along(Direction(d.q, -d.p), x)
  {
    var across := Direction(d.q, -d.p);
    calc {
      Along(across, y) - Along(across, x);
      (y.row - x.row) * d.q + (y.col - x.col) * -d.p;
      d.q * d.q + d.p * d.p;
    }
    Square(d.q);
    Square(d.p);
  }

  lemma Square(x: int)
    ensures x * x >= 0 && (x != 0 ==> x * x > 0)
  {}

  lemma EvenIsStuck(s: set<Pixel>, dirs: seq<Direction>)
    requires forall d :: d in dirs ==> EvenLines(s, d)
    ensures Stuck(s, dirs)
  {
    forall d, x | d in dirs && x in s ensures HasPartner(s, d, x) {
      var l := Line(s, d, Along(d, x));
      assert EvenLines(s, d) && x in l && Even(|l|);
      assert |l - {x}| == |l| - 1;
      var y := Pick(l - {x});
      assert y in s && y != x && Along(d, y) == Along(d, x);
    }
  }

  /** Katz's criterion is necessary, for any directions at all. */
  lemma CriterionNecessary(dirs: seq<Direction>, P: nat, Q: nat)
    requires NonZero(dirs) && !Criterion(dirs, P, Q)
    ensures !Peelable(dirs, P, Q)
  {
    var s := Phantom(dirs);
    PhantomNotEmpty(dirs);
    forall d | d in dirs ensures EvenLines(s, d) {
      PhantomIsEven(dirs, d);
    }
    EvenIsStuck(s, dirs);
    forall x | x in s ensures InGrid(x, P, Q) {
      PhantomBox(dirs, x);
    }
    assert s <= Grid(P, Q);
  }
}
