/** The discrete geometry of the Mojette transform: pixels of a grid with Q rows
    and P columns, projection directions (p, q), and the lines
    row*p + col*q = v along which a projection accumulates pixels.

    A bin of a projection is the XOR of the pixels on one line, so the module
    also defines the XOR of an image over a finite set of pixels. */
module Geometry {
  import opened Basics

  type Word = bv64

  datatype Pixel = Pixel(row: int, col: int)

  datatype Direction = Direction(p: int, q: int)

  /** The contents of a grid, as a total function: only the pixels of the grid matter. */
  type Image = Pixel -> Word

  function Abs(x: int): nat {
    if x < 0 then -x else x
  }

  /** The value of the linear form of `d` at `x`; it names the line `x` lies on. */
  function Along(d: Direction, x: Pixel): int {
    x.row * d.p + x.col * d.q
  }

  predicate InGrid(x: Pixel, P: nat, Q: nat) {
    0 <= x.row < Q && 0 <= x.col < P
  }

  ghost function Grid(P: nat, Q: nat): (s: set<Pixel>)
    ensures forall x :: x in s <==> InGrid(x, P, Q)
  {
    set r, c | 0 <= r < Q && 0 <= c < P :: Pixel(r, c)
  }

  /** The pixels of `s` on line `v` of direction `d`. */
  ghost function Line(s: set<Pixel>, d: Direction, v: int): set<Pixel> {
    set x | x in s && Along(d, x) == v
  }

  // ----- bin numbering

  /** Number of bins of a projection: |p|(Q-1) + |q|(P-1) + 1. */
  function ProjectionSize(d: Direction, P: nat, Q: nat): int {
    Abs(d.p) * (Q - 1) + Abs(d.q) * (P - 1) + 1
  }

  /** The value subtracted from `Along` to make bin numbers start at 0. */
  function BinOffset(d: Direction, P: nat, Q: nat): int {
    (if d.p < 0 then d.p * (Q - 1) else 0) + (if d.q < 0 then d.q * (P - 1) else 0)
  }

  function Bin(d: Direction, P: nat, Q: nat, x: Pixel): int {
    x.row * d.p + x.col * d.q - BinOffset(d, P, Q)
  }

  lemma ScaledRange(a: int, i: int, n: int)
    requires 0 <= i <= n
    ensures (if a < 0 then a * n else 0) <= i * a <= (if a < 0 then a * n else 0) + Abs(a) * n
  {
    if a < 0 {
      assert i * a >= n * a;
    } else {
      assert i * a <= n * a;
    }
  }

  /** Every pixel of the grid has a bin, and the first and the last bin are both
      hit: a projection is allocated with neither a missing nor a spare bin.  One
      row down is p bins on, one column to the right q. */
  lemma BinsAreExactlyTheRange(d: Direction, P: nat, Q: nat)
    requires P > 0 && Q > 0
    ensures forall r, c :: Bin(d, P, Q, Pixel(r + 1, c)) == Bin(d, P, Q, Pixel(r, c)) + d.p
    ensures forall r, c :: Bin(d, P, Q, Pixel(r, c + 1)) == Bin(d, P, Q, Pixel(r, c)) + d.q
    ensures forall x :: InGrid(x, P, Q) ==> 0 <= Bin(d, P, Q, x) < ProjectionSize(d, P, Q)
    ensures exists x :: InGrid(x, P, Q) && Bin(d, P, Q, x) == 0
    ensures exists x :: InGrid(x, P, Q) && Bin(d, P, Q, x) == ProjectionSize(d, P, Q) - 1
  {
    forall x | InGrid(x, P, Q)
      ensures 0 <= Bin(d, P, Q, x) < ProjectionSize(d, P, Q)
    {
      BinInRange(d, P, Q, x);
    }
    var low := Pixel(if d.p < 0 then Q - 1 else 0, if d.q < 0 then P - 1 else 0);
    var high := Pixel(if d.p < 0 then 0 else Q - 1, if d.q < 0 then 0 else P - 1);
    assert InGrid(low, P, Q) && Bin(d, P, Q, low) == 0;
    assert InGrid(high, P, Q) && Bin(d, P, Q, high) == ProjectionSize(d, P, Q) - 1;
  }

  lemma BinInRange(d: Direction, P: nat, Q: nat, x: Pixel)
    requires InGrid(x, P, Q)
    ensures 0 <= Bin(d, P, Q, x) < ProjectionSize(d, P, Q)
  {
    ScaledRange(d.p, x.row, Q - 1);
    ScaledRange(d.q, x.col, P - 1);
  }

  // ----- XOR over a set of pixels

  function Xor(a: Word, b: Word): Word {
    a ^ b
  }

  lemma XorComm(a: Word, b: Word)
    ensures Xor(a, b) == Xor(b, a)
  {}

  lemma BitwiseAssoc(a: Word, b: Word, c: Word)
    ensures (a ^ b) ^ c == a ^ (b ^ c)
  {}

  lemma XorAssoc(a: Word, b: Word, c: Word)
    ensures Xor(Xor(a, b), c) == Xor(a, Xor(b, c))
  {
    BitwiseAssoc(a, b, c);
  }

  lemma XorUnit(a: Word)
    ensures Xor(a, a) == 0 && Xor(a, 0) == a && Xor(0, a) == a
  {}

  lemma XorSwap(a: Word, b: Word, c: Word)
    ensures Xor(a, Xor(b, c)) == Xor(b, Xor(a, c))
  {
    hide Xor;
    XorAssoc(a, b, c);
    XorAssoc(b, a, c);
    XorComm(a, b);
  }

  /** XOR undoes itself: subtracting a pixel from a bin is XORing it in again. */
  lemma XorCancel(a: Word, b: Word)
    ensures Xor(a, Xor(a, b)) == b && Xor(Xor(a, b), a) == b
  {
    hide Xor;
    XorAssoc(a, a, b);
    XorUnit(a);
    XorUnit(b);
    XorComm(a, Xor(a, b));
  }

  ghost function XorOver(s: set<Pixel>, g: Image): Word {
    if s == {} then 0 else Xor(g(Pick(s)), XorOver(s - {Pick(s)}, g))
  }

  /** The XOR over a set does not depend on the order in which it is taken. */
  lemma {:induction false} XorOverRemove(s: set<Pixel>, x: Pixel, g: Image)
    requires x in s
    ensures XorOver(s, g) == Xor(g(x), XorOver(s - {x}, g))
    decreases |s|
  {
    hide Xor;
    var y := Pick(s);
    if x != y {
      XorOverRemove(s - {y}, x, g);
      XorOverRemove(s - {x}, y, g);
      assert s - {y} - {x} == s - {x} - {y};
      XorSwap(g(y), g(x), XorOver(s - {x} - {y}, g));
    }
  }

  lemma XorOverAdd(s: set<Pixel>, x: Pixel, g: Image)
    requires x !in s
    ensures XorOver(s + {x}, g) == Xor(g(x), XorOver(s, g))
  {
    hide Xor;
    assert s + {x} - {x} == s;
    XorOverRemove(s + {x}, x, g);
  }

  lemma XorOverSingleton(x: Pixel, g: Image)
    ensures XorOver({x}, g) == g(x)
  {
    hide Xor;
    XorOverRemove({x}, x, g);
    assert {x} - {x} == {};
    XorUnit(g(x));
  }

  /** The XOR over a set depends only on the image on that set. */
  lemma {:induction false} XorOverCongruence(s: set<Pixel>, g: Image, h: Image)
    requires forall x :: x in s ==> g(x) == h(x)
    ensures XorOver(s, g) == XorOver(s, h)
  {
    hide Xor;
    if s != {} {
      XorOverCongruence(s - {Pick(s)}, g, h);
    }
  }
}
