/** The forward transform: XOR every pixel of the rows into one bin per direction.

    The vectorised path for q = 1 copies row 0, zeroes the margins and XORs the
    later rows in chunks; the scalar path zeroes all bins and XORs pixel by
    pixel.  Both are proved against the same description of a projection. */
module Forward {
  import opened Geometry

  datatype Isa = Scalar | Neon | Sse2 | Avx2

  /** Bin b is the XOR of the pixels of `s` on line b + off. */
  ghost predicate Holds(bins: seq<Word>, d: Direction, off: int, s: set<Pixel>, g: Image) {
    forall b :: 0 <= b < |bins| ==> bins[b] == XorOver(Line(s, d, b + off), g)
  }

  /** `bins` is the projection of image `g` along `d`: bin b is the XOR of all
      pixels with row*p + col*q - off = b. */
  ghost predicate IsProjection(bins: seq<Word>, d: Direction, g: Image, P: nat, Q: nat) {
    |bins| >= ProjectionSize(d, P, Q) && Holds(bins, d, BinOffset(d, P, Q), Grid(P, Q), g)
  }

  /** A projection is determined by the image, so any two ways of computing it agree. */
  lemma ProjectionIsUnique(a: seq<Word>, b: seq<Word>, d: Direction, g: Image, h: Image, P: nat, Q: nat)
    requires IsProjection(a, d, g, P, Q) && IsProjection(b, d, h, P, Q) && |a| == |b|
    requires forall x :: InGrid(x, P, Q) ==> g(x) == h(x)
    ensures a == b
  {
    forall i | 0 <= i < |a| ensures a[i] == b[i] {
      XorOverCongruence(Line(Grid(P, Q), d, i + BinOffset(d, P, Q)), g, h);
    }
  }

  /** The buffers `rows` hold the image `g`, one row of P words each. */
  ghost predicate RowsHold(rows: seq<array<Word>>, P: nat, g: Image)
    reads rows
  {
    && (forall r :: 0 <= r < |rows| ==> rows[r].Length >= P)
    && forall r, c :: 0 <= r < |rows| && 0 <= c < P ==> rows[r][c] == g(Pixel(r, c))
  }

  // ----- one row, in vector chunks

  /** XOR whole chunks of `width` words of `src` into `dst`, starting at column `from`. */
  method XorChunks(src: array<Word>, P: nat, dst: array<Word>, at: nat, width: nat, from: nat) returns (col: nat)
    requires width > 0 && from <= P <= src.Length && at + P <= dst.Length && src != dst
    modifies dst
    ensures from <= col <= P < col + width
    ensures forall j :: 0 <= j < dst.Length ==>
              dst[j] == if at + from <= j < at + col then Xor(old(dst[j]), src[j - at]) else old(dst[j])
  {
    hide Xor;
    col := from;
    while col + width <= P
      invariant from <= col <= P
      invariant forall j :: 0 <= j < dst.Length ==>
                  dst[j] == if at + from <= j < at + col then Xor(old(dst[j]), src[j - at]) else old(dst[j])
    {
      forall j | at + col <= j < at + col + width {
        dst[j] := Xor(dst[j], src[j - at]);
      }
      col := col + width;
    }
  }

  /** One row: XOR src[0..P) into dst[at..at+P) with the instruction set's chunk widths. */
  method XorRow(isa: Isa, src: array<Word>, P: nat, dst: array<Word>, at: nat)
    requires P <= src.Length && at + P <= dst.Length && src != dst
    modifies dst
    ensures forall j :: 0 <= j < dst.Length ==>
              dst[j] == if at <= j < at + P then Xor(old(dst[j]), src[j - at]) else old(dst[j])
  {
    hide Xor;
    var col := 0;
    if isa.Avx2? {
      col := XorChunks(src, P, dst, at, 8, col);
    }
    if !isa.Scalar? {
      col := XorChunks(src, P, dst, at, 4, col);
    }
    if isa.Avx2? {
      col := XorChunks(src, P, dst, at, 2, col);
    }
    col := XorChunks(src, P, dst, at, 1, col);
  }

  // ----- geometry of one more row or one more pixel

  /** With q = 1 a row puts at most one pixel on each line. */
  lemma LineGainsRow(d: Direction, P: nat, r: nat, v: int, g: Image)
    requires d.q == 1
    ensures var c := v - r * d.p;
            XorOver(Line(Grid(P, r + 1), d, v), g) ==
            if 0 <= c < P then Xor(g(Pixel(r, c)), XorOver(Line(Grid(P, r), d, v), g)) else XorOver(Line(Grid(P, r), d, v), g)
  {
    hide Xor;
    var c := v - r * d.p;
    var before, after := Line(Grid(P, r), d, v), Line(Grid(P, r + 1), d, v);
    forall x | x in after && x !in before ensures x == Pixel(r, c) {
      assert x.row == r;
    }
    if 0 <= c < P {
      assert Along(d, Pixel(r, c)) == v;
      assert after == before + {Pixel(r, c)};
      XorOverAdd(before, Pixel(r, c), g);
    } else {
      assert after == before;
    }
  }

  /** The pixels before (row, col) in row-major order. */
  ghost function Before(P: nat, row: nat, col: nat): set<Pixel> {
    Grid(P, row) + set c | 0 <= c < col :: Pixel(row, c)
  }

  lemma RowMajor(P: nat, row: nat, col: nat)
    ensures Before(P, row, 0) == Grid(P, row)
    ensures Before(P, row, P) == Grid(P, row + 1)
    ensures Pixel(row, col) !in Before(P, row, col)
    ensures Before(P, row, col + 1) == Before(P, row, col) + {Pixel(row, col)}
  {}

  lemma LineGainsPixel(s: set<Pixel>, x: Pixel, d: Direction, v: int, g: Image)
    requires x !in s
    ensures XorOver(Line(s + {x}, d, v), g) ==
            if Along(d, x) == v then Xor(g(x), XorOver(Line(s, d, v), g)) else XorOver(Line(s, d, v), g)
  {
    hide Xor, Along;
    if Along(d, x) == v {
      assert Line(s + {x}, d, v) == Line(s, d, v) + {x};
      XorOverAdd(Line(s, d, v), x, g);
    } else {
      assert Line(s + {x}, d, v) == Line(s, d, v);
    }
  }

  lemma FirstRow(bins: seq<Word>, d: Direction, P: nat, off: int, g: Image)
    requires d.q == 1 && 0 <= -off
    requires forall b :: 0 <= b < |bins| ==> bins[b] == if 0 <= b + off < P then g(Pixel(0, b + off)) else 0
    ensures Holds(bins, d, off, Grid(P, 1), g)
  {
    hide Xor;
    forall b | 0 <= b < |bins| ensures bins[b] == XorOver(Line(Grid(P, 1), d, b + off), g) {
      LineGainsRow(d, P, 0, b + off, g);
      assert Line(Grid(P, 0), d, b + off) == {};
      XorUnit(g(Pixel(0, b + off)));
    }
  }

  lemma NextRow(was: seq<Word>, bins: seq<Word>, d: Direction, P: nat, r: nat, off: int, g: Image)
    requires d.q == 1 && Holds(was, d, off, Grid(P, r), g) && |bins| == |was|
    requires var at := r * d.p - off;
             forall b :: 0 <= b < |bins| ==> bins[b] == if at <= b < at + P then Xor(was[b], g(Pixel(r, b - at))) else was[b]
    ensures Holds(bins, d, off, Grid(P, r + 1), g)
  {
    hide Xor;
    var at := r * d.p - off;
    forall b | 0 <= b < |bins| ensures bins[b] == XorOver(Line(Grid(P, r + 1), d, b + off), g) {
      LineGainsRow(d, P, r, b + off, g);
      XorComm(was[b], g(Pixel(r, b - at)));
    }
  }

  lemma NextPixel(was: seq<Word>, bins: seq<Word>, d: Direction, s: set<Pixel>, x: Pixel, off: int, g: Image)
    requires Holds(was, d, off, s, g) && |bins| == |was| && x !in s
    requires forall b :: 0 <= b < |bins| ==> bins[b] == if Along(d, x) == b + off then Xor(was[b], g(x)) else was[b]
    ensures Holds(bins, d, off, s + {x}, g)
  {
    hide Xor, Along;
    forall b | 0 <= b < |bins| ensures bins[b] == XorOver(Line(s + {x}, d, b + off), g) {
      LineGainsPixel(s, x, d, b + off, g);
      XorComm(was[b], g(x));
    }
  }

  lemma NoPixels(bins: seq<Word>, d: Direction, P: nat, off: int, g: Image)
    requires forall b :: 0 <= b < |bins| ==> bins[b] == 0
    ensures Holds(bins, d, off, Grid(P, 0), g)
  {
    forall b | 0 <= b < |bins| ensures bins[b] == XorOver(Line(Grid(P, 0), d, b + off), g) {
      assert Line(Grid(P, 0), d, b + off) == {};
    }
  }

  lemma RowFits(d: Direction, P: nat, Q: nat, r: nat)
    requires d.q == 1 && r < Q
    ensures 0 <= r * d.p - BinOffset(d, P, Q)
    ensures r * d.p - BinOffset(d, P, Q) + P <= ProjectionSize(d, P, Q)
  {
    ScaledRange(d.p, r, Q - 1);
  }

  lemma BinIsLine(d: Direction, P: nat, Q: nat, x: Pixel)
    requires InGrid(x, P, Q)
    ensures 0 <= Bin(d, P, Q, x) < ProjectionSize(d, P, Q)
    ensures Along(d, x) == Bin(d, P, Q, x) + BinOffset(d, P, Q)
  {
    BinInRange(d, P, Q, x);
  }

  // ----- the two paths

  /** Row 0 is copied to its span and everything around it is zeroed. */
  method CopyFirstRow(src: array<Word>, P: nat, bins: array<Word>, before: nat)
    requires P <= src.Length && before + P <= bins.Length && src != bins
    modifies bins
    ensures forall b :: 0 <= b < bins.Length ==> bins[b] == if 0 <= b - before < P then src[b - before] else 0
  {
    forall j | 0 <= j < before {
      bins[j] := 0;
    }
    forall j | before <= j < before + P {
      bins[j] := src[j - before];
    }
    forall j | before + P <= j < bins.Length {
      bins[j] := 0;
    }
  }

  /** The vectorised q = 1 path.  `bins` may hold anything on entry. */
  method ForwardFast(isa: Isa, rows: seq<array<Word>>, P: nat, d: Direction, bins: array<Word>, ghost g: Image)
    requires d.q == 1 && |rows| > 0 && RowsHold(rows, P, g) && bins !in rows
    requires bins.Length >= ProjectionSize(d, P, |rows|)
    modifies bins
    ensures IsProjection(bins[..], d, g, P, |rows|)
  {
    hide Xor, BinOffset, ProjectionSize, Holds;
    var Q := |rows|;
    var off := BinOffset(d, P, Q);
    RowFits(d, P, Q, 0);
    CopyFirstRow(rows[0], P, bins, -off);
    FirstRow(bins[..], d, P, off, g);
    for r := 1 to Q
      invariant RowsHold(rows, P, g)
      invariant Holds(bins[..], d, off, Grid(P, r), g)
    {
      RowFits(d, P, Q, r);
      ghost var was := bins[..];
      var at := r * d.p - off;
      XorRow(isa, rows[r], P, bins, at);
      NextRow(was, bins[..], d, P, r, off, g);
    }
  }

  /** The scalar path, for any direction. */
  method ForwardScalar(rows: seq<array<Word>>, P: nat, d: Direction, bins: array<Word>, ghost g: Image)
    requires |rows| > 0 && RowsHold(rows, P, g) && bins !in rows
    requires bins.Length >= ProjectionSize(d, P, |rows|)
    modifies bins
    ensures IsProjection(bins[..], d, g, P, |rows|)
  {
    hide Xor, Along, BinOffset, ProjectionSize, Holds, Before;
    var Q := |rows|;
    var off := BinOffset(d, P, Q);
    forall j | 0 <= j < bins.Length {
      bins[j] := 0;
    }
    NoPixels(bins[..], d, P, off, g);
    for row := 0 to Q
      invariant RowsHold(rows, P, g)
      invariant Holds(bins[..], d, off, Grid(P, row), g)
    {
      RowMajor(P, row, 0);
      for col := 0 to P
        invariant RowsHold(rows, P, g)
        invariant Holds(bins[..], d, off, Before(P, row, col), g)
      {
        ghost var s, x, was := Before(P, row, col), Pixel(row, col), bins[..];
        var b := row * d.p + col * d.q - off;
        BinIsLine(d, P, Q, x);
        RowMajor(P, row, col);
        bins[b] := Xor(bins[b], rows[row][col]);
        NextPixel(was, bins[..], d, s, x, off, g);
      }
      RowMajor(P, row, P);
    }
  }

  /** Every projection is fully overwritten, whatever the path, the chunking or the old contents. */
  method ForwardRows(isa: Isa, scalarOnly: bool, rows: seq<array<Word>>, P: nat,
                     dirs: seq<Direction>, projs: seq<array<Word>>, ghost g: Image)
    requires |rows| > 0 && RowsHold(rows, P, g) && |projs| == |dirs|
    requires forall i :: 0 <= i < |dirs| ==> projs[i] !in rows && projs[i].Length >= ProjectionSize(dirs[i], P, |rows|)
    requires forall i, j :: 0 <= i < j < |projs| ==> projs[i] != projs[j]
    modifies projs
    ensures forall i :: 0 <= i < |dirs| ==> IsProjection(projs[i][..], dirs[i], g, P, |rows|)
  {
    for i := 0 to |dirs|
      invariant RowsHold(rows, P, g)
      invariant forall j :: 0 <= j < i ==> IsProjection(projs[j][..], dirs[j], g, P, |rows|)
    {
      if !isa.Scalar? && !scalarOnly && dirs[i].q == 1 {
        ForwardFast(isa, rows, P, dirs[i], projs[i], g);
      } else {
        ForwardScalar(rows, P, dirs[i], projs[i], g);
      }
    }
  }
}
