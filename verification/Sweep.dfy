/** The geometry-driven inverse (Normand, Kingston and Evenou, DGCI 2006).

    Direction l, in descending order of slope, recovers missing row l.  One
    sweep over k recovers pixel (missing[l], k + koff[l]) from its line, and the
    offsets are chosen so that every other missing pixel of that line has been
    recovered before.  That holds for every image exactly when rows that share a
    slope are far enough apart; the source accepts the others as well, and the
    module proves what it then does. */
module Sweep {
  import opened Basics
  import opened Errno
  import opened Geometry
  import opened Forward
  import opened Katz
  import opened Peel

  ghost predicate Ascending(s: seq<int>) {
    forall i, j :: 0 <= i < j < |s| ==> s[i] < s[j]
  }

  ghost predicate Descending(s: seq<int>) {
    forall i, j :: 0 <= i < j < |s| ==> s[i] >= s[j]
  }

  /** Rows that share a slope are so far apart that no line of it meets two of them in the grid. */
  predicate Spaced(ps: seq<int>, missing: seq<int>, P: nat) {
    |ps| == |missing| && forall l :: 0 <= l < |ps| - 1 && ps[l] == ps[l + 1] ==> Abs(ps[l]) * (missing[l + 1] - missing[l]) >= P
  }

  // ----- the offsets

  /** What the recurrence for k_off achieves. */
  ghost predicate Offsets(koff: seq<int>, ps: seq<int>, missing: seq<int>) {
    && |koff| == |ps| == |missing|
    && forall i :: 0 <= i < |koff| - 1 ==> OffsetStep(koff, ps, missing, i)
  }

  ghost predicate OffsetStep(koff: seq<int>, ps: seq<int>, missing: seq<int>, i: nat)
    requires |koff| == |ps| == |missing| && i < |koff| - 1
  {
    koff[i] - koff[i + 1] == ps[i + 1] * (missing[i + 1] - missing[i])
  }

  lemma ProductMonotone(a: int, b: int, n: int)
    requires a <= b && 0 <= n
    ensures a * n <= b * n
    ensures a < b && 0 < n ==> a * n < b * n
  {}

  lemma {:induction false} EarlierRows(koff: seq<int>, ps: seq<int>, missing: seq<int>, j: nat, l: nat)
    requires Offsets(koff, ps, missing) && Descending(ps) && Ascending(missing) && j <= l < |ps|
    ensures koff[j] - koff[l] >= ps[l] * (missing[l] - missing[j])
    decreases l - j
  {
    if j < l {
      EarlierRows(koff, ps, missing, j + 1, l);
      assert OffsetStep(koff, ps, missing, j);
      ProductMonotone(ps[l], ps[j + 1], missing[j + 1] - missing[j]);
      assert ps[l] * (missing[l] - missing[j + 1]) + ps[l] * (missing[j + 1] - missing[j]) == ps[l] * (missing[l] - missing[j]);
    }
  }

  lemma {:induction false} LaterRows(koff: seq<int>, ps: seq<int>, missing: seq<int>, l: nat, j: nat)
    requires Offsets(koff, ps, missing) && Descending(ps) && Ascending(missing) && l < j < |ps|
    ensures koff[l] - koff[j] <= ps[l] * (missing[j] - missing[l])
    ensures ps[j] < ps[l] ==> koff[l] - koff[j] < ps[l] * (missing[j] - missing[l])
    decreases j - l
  {
    assert OffsetStep(koff, ps, missing, j - 1);
    ProductMonotone(ps[j], ps[l], missing[j] - missing[j - 1]);
    if l < j - 1 {
      LaterRows(koff, ps, missing, l, j - 1);
      assert ps[l] * (missing[j] - missing[j - 1]) + ps[l] * (missing[j - 1] - missing[l]) == ps[l] * (missing[j] - missing[l]);
    }
  }

  /** The sweep starts early enough: the largest offset is at one of the two ends. */
  lemma LargestAtAnEnd(koff: seq<int>, ps: seq<int>, missing: seq<int>, l: nat)
    requires Offsets(koff, ps, missing) && Descending(ps) && Ascending(missing) && l < |ps|
    ensures koff[l] <= koff[0] || koff[l] <= koff[|koff| - 1]
  {
    var n := |ps| - 1;
    if ps[l] >= 0 {
      EarlierRows(koff, ps, missing, 0, l);
      ProductMonotone(0, ps[l], missing[l] - missing[0]);
    } else if l < n {
      LaterRows(koff, ps, missing, l, n);
      ProductMonotone(ps[l], 0, missing[n] - missing[l]);
    }
  }

  /** Position (l, x) is reached by the sweep before step (k, m). */
  ghost predicate Reached(koff: seq<int>, l: nat, x: int, k: int, m: nat)
    requires l < |koff|
  {
    x - koff[l] < k || (x - koff[l] == k && l < m)
  }

  /** The ordering property: when the sweep is at (l, x), every other missing row
      has its pixel of the line through (l, x) behind it, or outside the grid. */
  lemma LineIsBehind(koff: seq<int>, ps: seq<int>, missing: seq<int>, P: nat, l: nat, x: int, j: nat)
    requires Offsets(koff, ps, missing) && Descending(ps) && Ascending(missing) && Spaced(ps, missing, P)
    requires l < |ps| && j < |ps| && j != l && 0 <= x < P && 0 <= x + (missing[l] - missing[j]) * ps[l] < P
    ensures Reached(koff, j, x + (missing[l] - missing[j]) * ps[l], x - koff[l], l)
  {
    if j < l {
      EarlierRows(koff, ps, missing, j, l);
    } else {
      LaterRows(koff, ps, missing, l, j);
      assert (missing[l] - missing[j]) * ps[l] == -(ps[l] * (missing[j] - missing[l]));
      if ps[j] == ps[l] {
        assert ps[l + 1] == ps[l];
        FarApart(ps[l], missing[l + 1] - missing[l], missing[j] - missing[l], P);
      }
    }
  }

  lemma FarApart(p: int, near: int, far: int, P: nat)
    requires 0 < near <= far && Abs(p) * near >= P
    ensures p * far >= P || -(p * far) >= P
  {
    if p >= 0 {
      ProductMonotone(near, far, p);
    } else {
      ProductMonotone(near, far, -p);
    }
  }

  function Positive(x: int): nat {
    if x > 0 then x else 0
  }

  method ShiftDown(koff: array<int>, from: nat, corr: int)
    requires from <= koff.Length
    modifies koff
    ensures forall t :: 0 <= t < koff.Length ==> koff[t] == if t < from then old(koff[t]) else old(koff[t]) - corr
  {
    for j := from to koff.Length
      invariant forall t :: 0 <= t < koff.Length ==> koff[t] == if from <= t < j then old(koff[t]) - corr else old(koff[t])
    {
      koff[j] := koff[j] - corr;
    }
  }

  lemma StepAfterShift(a: int, b: int, p: int, gap: int)
    requires a == b + p
    ensures a - (b - gap * p) == p * (gap + 1)
  {}

  /** The offset recurrence, with its correction for gaps between missing rows. */
  method ComputeOffsets(ps: seq<int>, missing: seq<int>) returns (koff: array<int>)
    requires |ps| == |missing| >= 1 && Ascending(missing)
    ensures fresh(koff) && Offsets(koff[..], ps, missing)
  {
    var n := |ps|;
    koff := new int[n](_ => 0);
    var sMinus, sPlus := 0, 0;
    var m := 1;
    while m < n - 1 {
      sMinus, sPlus, m := sMinus + Positive(-ps[m]), sPlus + Positive(ps[m]), m + 1;
    }
    if n == 1 {
      koff[0] := Abs(ps[0]);
      return;
    }
    var negTerm, posTerm := Positive(-ps[n - 1]) + sMinus, Positive(ps[n - 1]) + sPlus;
    koff[n - 1] := if negTerm > posTerm then negTerm else posTerm;
    for i := n - 1 downto 0
      invariant forall t :: i <= t < n - 1 ==> OffsetStep(koff[..], ps, missing, t)
    {
      ghost var was := koff[..];
      koff[i] := koff[i + 1] + ps[i + 1];
      var gap := missing[i + 1] - missing[i] - 1;
      if gap > 0 {
        StepAfterShift(koff[i], koff[i + 1], ps[i + 1], gap);
        ShiftDown(koff, i + 1, gap * ps[i + 1]);
      }
      assert OffsetStep(koff[..], ps, missing, i);
      forall t | i < t < n - 1 ensures OffsetStep(koff[..], ps, missing, t) {
        assert OffsetStep(was, ps, missing, t);
      }
    }
  }

  // ----- walking a line

  /** The pixels of the line through `x` in rows lo..hi-1, except `x` itself. */
  ghost function Stretch(P: nat, Q: nat, p: int, x: Pixel, lo: int, hi: int): set<Pixel> {
    set y | y in Line(Grid(P, Q), Direction(p, 1), Along(Direction(p, 1), x)) && lo <= y.row < hi && y != x
  }

  /** The pixel of the line in row r sits at this column. */
  function ColumnAt(p: int, x: Pixel, r: int): int {
    x.col + (x.row - r) * p
  }

  lemma StretchMember(P: nat, Q: nat, p: int, x: Pixel, lo: int, hi: int, y: Pixel)
    ensures y in Stretch(P, Q, p, x, lo, hi) <==> InGrid(y, P, Q) && lo <= y.row < hi && y != x && y.col == ColumnAt(p, x, y.row)
  {
    assert Along(Direction(p, 1), y) - Along(Direction(p, 1), x) == y.col - ColumnAt(p, x, y.row);
  }

  lemma GrowUp(P: nat, Q: nat, p: int, x: Pixel, lo: int, hi: int, g: Image)
    requires 0 < lo <= hi <= Q && (x.row < lo - 1 || hi <= x.row)
    ensures var y := Pixel(lo - 1, ColumnAt(p, x, lo - 1));
            XorOver(Stretch(P, Q, p, x, lo - 1, hi), g) ==
            if 0 <= y.col < P then Xor(g(y), XorOver(Stretch(P, Q, p, x, lo, hi), g)) else XorOver(Stretch(P, Q, p, x, lo, hi), g)
  {
    hide Xor, Stretch;
    var y := Pixel(lo - 1, ColumnAt(p, x, lo - 1));
    var before, after := Stretch(P, Q, p, x, lo, hi), Stretch(P, Q, p, x, lo - 1, hi);
    forall z ensures z in before <==> z in after && z != y {
      StretchMember(P, Q, p, x, lo, hi, z);
      StretchMember(P, Q, p, x, lo - 1, hi, z);
    }
    StretchMember(P, Q, p, x, lo - 1, hi, y);
    if 0 <= y.col < P {
      assert after == before + {y};
      XorOverAdd(before, y, g);
    } else {
      assert after == before;
    }
  }

  lemma GrowDown(P: nat, Q: nat, p: int, x: Pixel, lo: int, hi: int, g: Image)
    requires 0 <= lo <= hi < Q
    ensures var y := Pixel(hi, ColumnAt(p, x, hi));
            XorOver(Stretch(P, Q, p, x, lo, hi + 1), g) ==
            if 0 <= y.col < P && hi != x.row then Xor(g(y), XorOver(Stretch(P, Q, p, x, lo, hi), g))
            else XorOver(Stretch(P, Q, p, x, lo, hi), g)
  {
    hide Xor, Stretch;
    var y := Pixel(hi, ColumnAt(p, x, hi));
    var before, after := Stretch(P, Q, p, x, lo, hi), Stretch(P, Q, p, x, lo, hi + 1);
    forall z ensures z in before <==> z in after && z != y {
      StretchMember(P, Q, p, x, lo, hi, z);
      StretchMember(P, Q, p, x, lo, hi + 1, z);
    }
    StretchMember(P, Q, p, x, lo, hi + 1, y);
    if 0 <= y.col < P && hi != x.row {
      assert after == before + {y};
      XorOverAdd(before, y, g);
    } else {
      assert after == before;
    }
  }

  /** Once the line has left the grid it does not come back, going up ... */
  lemma LeftAbove(P: nat, Q: nat, p: int, x: Pixel, lo: int, hi: int)
    requires InGrid(x, P, Q) && 0 <= lo <= x.row
    requires lo == 0 || !(0 <= ColumnAt(p, x, lo - 1) < P)
    ensures Stretch(P, Q, p, x, 0, hi) == Stretch(P, Q, p, x, lo, hi)
  {
    hide Stretch;
    forall z ensures z in Stretch(P, Q, p, x, 0, hi) <==> z in Stretch(P, Q, p, x, lo, hi) {
      StretchMember(P, Q, p, x, lo, hi, z);
      StretchMember(P, Q, p, x, 0, hi, z);
      if 0 <= z.row < lo {
        OutStaysOut(x.col, P, p, x.row - (lo - 1), x.row - z.row);
      }
    }
  }

  /** ... or going down. */
  lemma LeftBelow(P: nat, Q: nat, p: int, x: Pixel, lo: int, hi: int)
    requires InGrid(x, P, Q) && x.row < hi <= Q
    requires hi == Q || !(0 <= ColumnAt(p, x, hi) < P)
    ensures Stretch(P, Q, p, x, lo, Q) == Stretch(P, Q, p, x, lo, hi)
  {
    hide Stretch;
    forall z ensures z in Stretch(P, Q, p, x, lo, Q) <==> z in Stretch(P, Q, p, x, lo, hi) {
      StretchMember(P, Q, p, x, lo, hi, z);
      StretchMember(P, Q, p, x, lo, Q, z);
      if hi <= z.row < Q {
        OutStaysOut(x.col, P, -p, hi - x.row, z.row - x.row);
      }
    }
  }

  lemma OutStaysOut(c: int, P: nat, p: int, a: int, b: int)
    requires 0 <= c < P && 1 <= a <= b && !(0 <= c + a * p < P)
    ensures !(0 <= c + b * p < P)
  {
    if p >= 0 {
      assert b * p >= a * p >= 0;
    } else {
      assert b * p <= a * p <= 0;
    }
  }

  /** The grid holds the image on the line through (y, x), that pixel aside. */
  ghost predicate LineReadable(grid: array2<Word>, y: nat, x: nat, p: int, g: Image)
    reads grid
  {
    forall z :: z in Stretch(grid.Length1, grid.Length0, p, Pixel(y, x), 0, grid.Length0) ==>
      0 <= z.row < grid.Length0 && 0 <= z.col < grid.Length1 && grid[z.row, z.col] == g(z)
  }

  lemma ReadableAt(grid: array2<Word>, y: nat, x: nat, p: int, g: Image, r: int, c: int)
    requires LineReadable(grid, y, x, p, g) && 0 <= r < grid.Length0 && 0 <= c < grid.Length1
    requires c == ColumnAt(p, Pixel(y, x), r) && (r != y || c != x)
    ensures grid[r, c] == g(Pixel(r, c))
  {
    hide Stretch, ColumnAt;
    StretchMember(grid.Length1, grid.Length0, p, Pixel(y, x), 0, grid.Length0, Pixel(r, c));
  }

  /** Upwards from (y, x) until the line leaves the grid. */
  method WalkUp(grid: array2<Word>, y: nat, x: nat, p: int, ghost g: Image) returns (pixel: Word)
    requires y < grid.Length0 && x < grid.Length1 && LineReadable(grid, y, x, p, g)
    ensures pixel == XorOver(Stretch(grid.Length1, grid.Length0, p, Pixel(y, x), 0, y + 1), g)
  {
    hide Xor, Stretch, Along, ColumnAt, LineReadable;
    var P, Q := grid.Length1, grid.Length0;
    ghost var at := Pixel(y, x);
    pixel := 0;
    var xtop, ytop := x, y;
    EmptyStretch(P, Q, p, at, y);
    OwnColumn(p, at);
    while ytop > 0 && 0 <= xtop + p < P
      invariant 0 <= ytop <= y && xtop == ColumnAt(p, at, ytop) && 0 <= xtop < P
      invariant pixel == XorOver(Stretch(P, Q, p, at, ytop, y), g)
    {
      GrowUp(P, Q, p, at, ytop, y, g);
      NextColumn(p, at, ytop - 1);
      xtop, ytop := xtop + p, ytop - 1;
      ReadableAt(grid, y, x, p, g, ytop, xtop);
      XorComm(pixel, g(Pixel(ytop, xtop)));
      pixel := Xor(pixel, grid[ytop, xtop]);
    }
    NextColumn(p, at, ytop - 1);
    LeftAbove(P, Q, p, at, ytop, y + 1);
    GrowDown(P, Q, p, at, ytop, y, g);
  }

  /** Downwards from (y, x), adding to what lies above it. */
  method WalkDown(grid: array2<Word>, y: nat, x: nat, p: int, above: Word, ghost g: Image) returns (pixel: Word)
    requires y < grid.Length0 && x < grid.Length1 && LineReadable(grid, y, x, p, g)
    requires above == XorOver(Stretch(grid.Length1, grid.Length0, p, Pixel(y, x), 0, y + 1), g)
    ensures pixel == XorOver(Stretch(grid.Length1, grid.Length0, p, Pixel(y, x), 0, grid.Length0), g)
  {
    hide Xor, Stretch, Along, ColumnAt, LineReadable;
    var P, Q := grid.Length1, grid.Length0;
    ghost var at := Pixel(y, x);
    pixel := above;
    var xdn, ydn := x, y;
    OwnColumn(p, at);
    while ydn < Q - 1 && 0 <= xdn - p < P
      invariant y <= ydn < Q && xdn == ColumnAt(p, at, ydn) && 0 <= xdn < P
      invariant pixel == XorOver(Stretch(P, Q, p, at, 0, ydn + 1), g)
    {
      GrowDown(P, Q, p, at, 0, ydn + 1, g);
      NextColumn(p, at, ydn);
      xdn, ydn := xdn - p, ydn + 1;
      ReadableAt(grid, y, x, p, g, ydn, xdn);
      XorComm(pixel, g(Pixel(ydn, xdn)));
      pixel := Xor(pixel, grid[ydn, xdn]);
    }
    NextColumn(p, at, ydn);
    LeftBelow(P, Q, p, at, 0, ydn + 1);
  }

  /** The XOR of all pixels of the line through (y, x) except that one, read off the grid. */
  method LineXor(grid: array2<Word>, y: nat, x: nat, p: int, ghost g: Image) returns (pixel: Word)
    requires y < grid.Length0 && x < grid.Length1 && LineReadable(grid, y, x, p, g)
    ensures pixel == XorOver(Stretch(grid.Length1, grid.Length0, p, Pixel(y, x), 0, grid.Length0), g)
  {
    hide Xor, Stretch, Along, LineReadable;
    if p != 0 {
      var above := WalkUp(grid, y, x, p, g);
      pixel := WalkDown(grid, y, x, p, above, g);
    } else {
      var P, Q := grid.Length1, grid.Length0;
      ghost var at := Pixel(y, x);
      pixel := 0;
      EmptyStretch(P, Q, p, at, 0);
      for i := 0 to Q
        invariant pixel == XorOver(Stretch(P, Q, p, at, 0, i), g)
      {
        GrowDown(P, Q, p, at, 0, i, g);
        if i != y {
          ReadableAt(grid, y, x, p, g, i, x);
          XorComm(pixel, g(Pixel(i, x)));
          pixel := Xor(pixel, grid[i, x]);
        }
      }
    }
  }

  lemma OwnColumn(p: int, x: Pixel)
    ensures ColumnAt(p, x, x.row) == x.col
  {}

  lemma NextColumn(p: int, x: Pixel, r: int)
    ensures ColumnAt(p, x, r) == ColumnAt(p, x, r + 1) + p
  {}

  lemma EmptyStretch(P: nat, Q: nat, p: int, x: Pixel, r: int)
    ensures Stretch(P, Q, p, x, r, r) == {}
  {}

  // ----- one step, on the contents of the grid

  type Rows = seq<seq<Word>>

  ghost predicate Shape(rows: Rows, P: nat, Q: nat) {
    |rows| == Q && forall r :: 0 <= r < Q ==> |rows[r]| == P
  }

  ghost function Cells(grid: array2<Word>): (rows: Rows)
    reads grid
    ensures Shape(rows, grid.Length1, grid.Length0)
    ensures forall r, c :: 0 <= r < grid.Length0 && 0 <= c < grid.Length1 ==> rows[r][c] == grid[r, c]
  {
    seq(grid.Length0, r requires 0 <= r < grid.Length0 reads grid =>
      seq(grid.Length1, c requires 0 <= c < grid.Length1 reads grid => grid[r, c]))
  }

  /** The contents as an image. */
  ghost function Shown(rows: Rows): Image {
    (z: Pixel) => if 0 <= z.row < |rows| && 0 <= z.col < |rows[z.row]| then rows[z.row][z.col] else 0
  }

  /** The value a step gives to pixel z: its bin without the rest of the line as the grid shows it. */
  ghost predicate Decided(v: Word, bins: seq<Word>, d: Direction, rows: Rows, P: nat, Q: nat, z: Pixel) {
    var b := Bin(d, P, Q, z);
    0 <= b < |bins| && v == Xor(bins[b], XorOver(Stretch(P, Q, d.p, z, 0, Q), Shown(rows)))
  }

  /** One step: pixel z is decided if it is in the grid, and nothing else changes. */
  ghost predicate Stepped(before: Rows, after: Rows, bins: seq<Word>, d: Direction, P: nat, Q: nat, z: Pixel) {
    && Shape(before, P, Q) && Shape(after, P, Q)
    && (forall r, c :: 0 <= r < Q && 0 <= c < P && (r != z.row || c != z.col) ==> after[r][c] == before[r][c])
    && (InGrid(z, P, Q) ==> Decided(after[z.row][z.col], bins, d, before, P, Q, z))
  }

  lemma BinIsWholeLine(bins: seq<Word>, d: Direction, g: Image, P: nat, Q: nat, x: Pixel)
    requires d.q == 1 && InGrid(x, P, Q) && IsProjection(bins, d, g, P, Q)
    ensures 0 <= Bin(d, P, Q, x) < |bins|
    ensures Xor(bins[Bin(d, P, Q, x)], XorOver(Stretch(P, Q, d.p, x, 0, Q), g)) == g(x)
  {
    hide Xor, Along, ProjectionSize, BinOffset;
    BinIsLine(d, P, Q, x);
    assert d == Direction(d.p, 1);
    var line := Line(Grid(P, Q), d, Along(d, x));
    assert line - {x} == Stretch(P, Q, d.p, x, 0, Q);
    XorOverRemove(line, x, g);
    var rest := XorOver(line - {x}, g);
    XorComm(g(x), rest);
    XorCancel(rest, g(x));
    XorComm(Xor(g(x), rest), rest);
  }

  /** When the line shows the image, the step gives the pixel its value. */
  lemma DecidedRight(v: Word, bins: seq<Word>, d: Direction, rows: Rows, P: nat, Q: nat, z: Pixel, g: Image)
    requires Decided(v, bins, d, rows, P, Q, z) && d.q == 1 && InGrid(z, P, Q) && IsProjection(bins, d, g, P, Q)
    requires forall y :: y in Stretch(P, Q, d.p, z, 0, Q) ==> Shown(rows)(y) == g(y)
    ensures v == g(z)
  {
    hide Xor, Stretch, IsProjection, Bin, Shown;
    BinIsWholeLine(bins, d, g, P, Q, z);
    XorOverCongruence(Stretch(P, Q, d.p, z, 0, Q), Shown(rows), g);
  }

  /** What the sweep is run on: slopes descending, rows ascending, offsets as computed. */
  ghost predicate Plan(koff: seq<int>, ps: seq<int>, missing: seq<int>, Q: nat) {
    Offsets(koff, ps, missing) && Descending(ps) && Ascending(missing) && RowsInRange(missing, Q) && |missing| > 0
  }

  // ----- rows far enough apart: the sweep restores the image

  /** Rows that are known, and missing pixels behind step (k, m), hold the image. */
  ghost predicate Good(rows: Rows, P: nat, Q: nat, missing: seq<int>, koff: seq<int>, k: int, m: nat, g: Image) {
    && Shape(rows, P, Q) && |koff| == |missing| && RowsInRange(missing, Q)
    && (forall r, c :: 0 <= r < Q && 0 <= c < P && r !in missing ==> rows[r][c] == g(Pixel(r, c)))
    && forall l, x :: 0 <= l < |missing| && 0 <= x < P && Reached(koff, l, x, k, m) ==> rows[missing[l]][x] == g(Pixel(missing[l], x))
  }

  lemma LineIsReadable(rows: Rows, P: nat, Q: nat, missing: seq<int>, koff: seq<int>, ps: seq<int>, k: int, l: nat, x: nat,
                       z: Pixel, g: Image)
    requires Plan(koff, ps, missing, Q) && Spaced(ps, missing, P) && l < |ps| && x == k + koff[l] && x < P
    requires Good(rows, P, Q, missing, koff, k, l, g) && z in Stretch(P, Q, ps[l], Pixel(missing[l], x), 0, Q)
    ensures Shown(rows)(z) == g(z)
  {
    hide Stretch, Spaced, OffsetStep;
    StretchMember(P, Q, ps[l], Pixel(missing[l], x), 0, Q, z);
    if z.row in missing {
      var j :| 0 <= j < |missing| && missing[j] == z.row;
      LineIsBehind(koff, ps, missing, P, l, x, j);
    }
  }

  lemma StepKeepsGood(before: Rows, after: Rows, bins: seq<Word>, P: nat, Q: nat, missing: seq<int>, koff: seq<int>,
                      ps: seq<int>, k: int, l: nat, g: Image)
    requires Plan(koff, ps, missing, Q) && Spaced(ps, missing, P) && l < |ps|
    requires IsProjection(bins, Direction(ps[l], 1), g, P, Q) && Good(before, P, Q, missing, koff, k, l, g)
    requires Stepped(before, after, bins, Direction(ps[l], 1), P, Q, Pixel(missing[l], k + koff[l]))
    ensures Good(after, P, Q, missing, koff, k, l + 1, g)
  {
    hide Xor, Stretch, IsProjection, OffsetStep, Decided, Spaced, Shown;
    var x, y, d := k + koff[l], missing[l], Direction(ps[l], 1);
    if 0 <= x < P {
      forall z | z in Stretch(P, Q, d.p, Pixel(y, x), 0, Q) ensures Shown(before)(z) == g(z) {
        LineIsReadable(before, P, Q, missing, koff, ps, k, l, x, z, g);
      }
      DecidedRight(after[y][x], bins, d, before, P, Q, Pixel(y, x), g);
    }
  }

  // ----- rows too close: an image the sweep gets wrong

  /** The line of slope p through z passes through u. */
  predicate Through(p: int, z: Pixel, u: Pixel) {
    u.col == ColumnAt(p, z, u.row)
  }

  /** Rows l and l + 1 share a slope, and a line of it meets them at column x and at u. */
  predicate Clash(ps: seq<int>, missing: seq<int>, P: nat, l: nat, x: int, u: Pixel) {
    && |ps| == |missing| && l + 1 < |ps| && ps[l] == ps[l + 1] && 0 <= x < P
    && u.row == missing[l + 1] && 0 <= u.col < P && Through(ps[l], Pixel(missing[l], x), u)
  }

  ghost predicate Clashes(ps: seq<int>, missing: seq<int>, P: nat, u: Pixel) {
    exists l: nat, x :: Clash(ps, missing, P, l, x, u)
  }

  /** The contents show the image everywhere but at u. */
  ghost predicate OffAt(rows: Rows, P: nat, Q: nat, u: Pixel, g: Image) {
    && Shape(rows, P, Q) && InGrid(u, P, Q)
    && forall r, c :: 0 <= r < Q && 0 <= c < P ==> (rows[r][c] == g(Pixel(r, c)) <==> Pixel(r, c) != u)
  }

  /** Rows that are too close always clash, so whatever the grid holds there is an image
      that differs from it in one missing pixel where two rows clash. */
  lemma TooCloseClashes(rows: Rows, ps: seq<int>, missing: seq<int>, P: nat, Q: nat) returns (u: Pixel, g: Image)
    requires |ps| == |missing| && Ascending(missing) && RowsInRange(missing, Q) && !Spaced(ps, missing, P) && Shape(rows, P, Q)
    ensures Clashes(ps, missing, P, u) && u.row in missing && OffAt(rows, P, Q, u, g)
  {
    hide Xor, Shown;
    var l :| 0 <= l < |ps| - 1 && ps[l] == ps[l + 1] && Abs(ps[l]) * (missing[l + 1] - missing[l]) < P;
    u := MeetingPoint(ps, missing, P, l);
    assert 0 <= missing[l + 1] < Q;
    g := FlippedAt(rows, u);
    FlippedIsOff(rows, P, Q, u);
  }

  lemma MeetingPoint(ps: seq<int>, missing: seq<int>, P: nat, l: nat) returns (u: Pixel)
    requires |ps| == |missing| && l + 1 < |ps| && ps[l] == ps[l + 1] && missing[l] < missing[l + 1]
    requires Abs(ps[l]) * (missing[l + 1] - missing[l]) < P
    ensures Clashes(ps, missing, P, u) && u.row == missing[l + 1] && 0 <= u.col < P
  {
    var p, gap := ps[l], missing[l + 1] - missing[l];
    var x := if p >= 0 then p * gap else 0;
    u := Pixel(missing[l + 1], if p >= 0 then 0 else Abs(p) * gap);
    ProductMonotone(0, Abs(p), gap);
    assert (missing[l] - missing[l + 1]) * p == if p >= 0 then -(p * gap) else Abs(p) * gap;
    assert Clash(ps, missing, P, l, x, u);
  }

  ghost function FlippedAt(rows: Rows, u: Pixel): Image {
    (z: Pixel) => if z == u then Xor(Shown(rows)(z), 1) else Shown(rows)(z)
  }

  lemma FlippedIsOff(rows: Rows, P: nat, Q: nat, u: Pixel)
    requires Shape(rows, P, Q) && InGrid(u, P, Q)
    ensures OffAt(rows, P, Q, u, FlippedAt(rows, u))
  {
    hide Xor;
    FlipOne(Shown(rows)(u));
  }

  lemma FlipOne(w: Word)
    ensures Xor(w, 1) != w
  {}

  lemma SpacedNeverClashes(ps: seq<int>, missing: seq<int>, P: nat, u: Pixel)
    requires Spaced(ps, missing, P) && Ascending(missing)
    ensures !Clashes(ps, missing, P, u)
  {
    forall l: nat, x ensures !Clash(ps, missing, P, l, x, u) {
      hide ColumnAt;
      if Clash(ps, missing, P, l, x, u) {
        NeverMeet(ps[l], missing[l], missing[l + 1], P, x);
      }
    }
  }

  lemma NeverMeet(p: int, r: int, s: int, P: nat, x: int)
    requires r < s && Abs(p) * (s - r) >= P && 0 <= x < P
    ensures !(0 <= ColumnAt(p, Pixel(r, x), s) < P)
  {
    FarApart(p, s - r, s - r, P);
    assert (r - s) * p == -(p * (s - r));
  }

  lemma XorDiffers(bin: Word, a: Word, b: Word, rest: Word)
    requires Xor(bin, Xor(a, rest)) == Xor(bin, Xor(b, rest))
    ensures a == b
  {
    hide Xor;
    XorCancel(bin, Xor(a, rest));
    XorCancel(bin, Xor(b, rest));
    XorComm(a, rest);
    XorComm(b, rest);
    XorCancel(rest, a);
    XorCancel(rest, b);
  }

  /** While only u is off, a step is right exactly when its line avoids u. */
  lemma DecidedOff(v: Word, bins: seq<Word>, d: Direction, rows: Rows, P: nat, Q: nat, z: Pixel, u: Pixel, g: Image)
    requires Decided(v, bins, d, rows, P, Q, z) && d.q == 1 && InGrid(z, P, Q) && IsProjection(bins, d, g, P, Q)
    requires OffAt(rows, P, Q, u, g) && z != u
    ensures v == g(z) <==> !Through(d.p, z, u)
  {
    hide Xor, Stretch, IsProjection, Bin;
    var rest, h := Stretch(P, Q, d.p, z, 0, Q), Shown(rows);
    BinIsWholeLine(bins, d, g, P, Q, z);
    forall y | y in rest ensures h(y) == g(y) <==> y != u {
      StretchMember(P, Q, d.p, z, 0, Q, y);
    }
    StretchMember(P, Q, d.p, z, 0, Q, u);
    if u in rest {
      XorOverRemove(rest, u, g);
      XorOverRemove(rest, u, h);
      XorOverCongruence(rest - {u}, h, g);
      if v == g(z) {
        XorDiffers(bins[Bin(d, P, Q, z)], g(u), h(u), XorOver(rest - {u}, g));
      }
    } else {
      XorOverCongruence(rest, h, g);
    }
  }

  ghost predicate Wrong(rows: Rows, missing: seq<int>, l: nat, x: int, g: Image) {
    l < |missing| && 0 <= missing[l] < |rows| && 0 <= x < |rows[missing[l]]| && rows[missing[l]][x] != g(Pixel(missing[l], x))
  }

  /** No step before (k, m) used a line through u. */
  ghost predicate Avoided(P: nat, missing: seq<int>, koff: seq<int>, ps: seq<int>, k: int, m: nat, u: Pixel) {
    && |koff| == |missing| == |ps|
    && forall l, x :: 0 <= l < |missing| && 0 <= x < P && Reached(koff, l, x, k, m) ==> !Through(ps[l], Pixel(missing[l], x), u)
  }

  /** Until a line through u has been used only u is off; from then on some pixel behind the sweep is wrong. */
  ghost predicate Spoiling(rows: Rows, P: nat, Q: nat, missing: seq<int>, koff: seq<int>, ps: seq<int>, k: int, m: nat,
                           u: Pixel, g: Image) {
    && Shape(rows, P, Q) && |koff| == |missing|
    && (|| (OffAt(rows, P, Q, u, g) && Avoided(P, missing, koff, ps, k, m, u))
        || exists l: nat, x :: Wrong(rows, missing, l, x, g) && Reached(koff, l, x, k, m))
  }

  /** The clash on u is used just before the sweep comes to u itself. */
  lemma ClashComesFirst(koff: seq<int>, ps: seq<int>, missing: seq<int>, P: nat, Q: nat, k: int, l: nat, u: Pixel)
    requires Plan(koff, ps, missing, Q) && Clashes(ps, missing, P, u) && l < |ps|
    requires missing[l] == u.row && u.col - koff[l] <= k
    ensures !Avoided(P, missing, koff, ps, k, l, u)
  {
    var m: nat, x :| Clash(ps, missing, P, m, x, u);
    assert OffsetStep(koff, ps, missing, m);
    assert m + 1 == l;
    assert (missing[m] - missing[m + 1]) * ps[m] == -(ps[m] * (missing[m + 1] - missing[m]));
    assert Reached(koff, m, x, k, l);
  }

  lemma StepKeepsSpoiling(before: Rows, after: Rows, bins: seq<Word>, P: nat, Q: nat, missing: seq<int>, koff: seq<int>,
                          ps: seq<int>, k: int, l: nat, u: Pixel, g: Image)
    requires Plan(koff, ps, missing, Q) && Clashes(ps, missing, P, u) && l < |ps|
    requires IsProjection(bins, Direction(ps[l], 1), g, P, Q) && Spoiling(before, P, Q, missing, koff, ps, k, l, u, g)
    requires Stepped(before, after, bins, Direction(ps[l], 1), P, Q, Pixel(missing[l], k + koff[l]))
    ensures Spoiling(after, P, Q, missing, koff, ps, k, l + 1, u, g)
  {
    hide Xor, Stretch, IsProjection, OffsetStep, Decided, Shown, Clashes, Through;
    var x, d := k + koff[l], Direction(ps[l], 1);
    var z := Pixel(missing[l], x);
    if OffAt(before, P, Q, u, g) && Avoided(P, missing, koff, ps, k, l, u) {
      if InGrid(z, P, Q) {
        if z == u {
          ClashComesFirst(koff, ps, missing, P, Q, k, l, u);
        } else {
          DecidedOff(after[z.row][z.col], bins, d, before, P, Q, z, u, g);
          if Through(d.p, z, u) {
            assert Wrong(after, missing, l, x, g) && Reached(koff, l, x, k, l + 1);
          }
        }
      }
    } else {
      var j: nat, c :| Wrong(before, missing, j, c, g) && Reached(koff, j, c, k, l);
      assert Wrong(after, missing, j, c, g) && Reached(koff, j, c, k, l + 1);
    }
  }

  // ----- the sweep

  ghost predicate KnownRows(grid: array2<Word>, missing: seq<int>, g: Image)
    reads grid
  {
    forall r, c :: 0 <= r < grid.Length0 && 0 <= c < grid.Length1 && r !in missing ==> grid[r, c] == g(Pixel(r, c))
  }

  lemma ShownIsReadable(grid: array2<Word>, y: nat, x: nat, p: int)
    ensures LineReadable(grid, y, x, p, Shown(Cells(grid)))
  {
    hide Stretch;
    forall z | z in Stretch(grid.Length1, grid.Length0, p, Pixel(y, x), 0, grid.Length0)
      ensures 0 <= z.row < grid.Length0 && 0 <= z.col < grid.Length1
    {
      StretchMember(grid.Length1, grid.Length0, p, Pixel(y, x), 0, grid.Length0, z);
    }
  }

  /** One step of the sweep: bin and line decide pixel (missing[l], k + koff[l]) if it is
      in the grid, whatever the line holds. */
  method Step(grid: array2<Word>, d: Direction, bins: array<Word>, missing: seq<int>, koff: seq<int>, k: int, l: nat, ghost g: Image)
    requires |koff| == |missing| && RowsInRange(missing, grid.Length0) && l < |missing| && d.q == 1
    requires IsProjection(bins[..], d, g, grid.Length1, grid.Length0)
    modifies grid
    ensures Stepped(old(Cells(grid)), Cells(grid), bins[..], d, grid.Length1, grid.Length0, Pixel(missing[l], k + koff[l]))
  {
    hide Xor, Stretch, IsProjection, Shown;
    var x := k + koff[l];
    var y := missing[l];
    if x < 0 || x >= grid.Length1 {
      return;
    }
    ShownIsReadable(grid, y, x, d.p);
    var pixel := LineXor(grid, y, x, d.p, Shown(Cells(grid)));
    var b := y * d.p + x * d.q - BinOffset(d, grid.Length1, grid.Length0);
    BinIsWholeLine(bins[..], d, g, grid.Length1, grid.Length0, Pixel(y, x));
    grid[y, x] := Xor(bins[b], pixel);
  }

  /** What holds on the way at step (k, m): rows that are apart stay good, rows that clash on u spoil. */
  ghost predicate Underway(rows: Rows, P: nat, Q: nat, missing: seq<int>, koff: seq<int>, ps: seq<int>, k: int, m: nat,
                           spoils: bool, u: Pixel, g: Image) {
    && Shape(rows, P, Q)
    && (Spaced(ps, missing, P) ==> Good(rows, P, Q, missing, koff, k, m, g))
    && (spoils ==> Spoiling(rows, P, Q, missing, koff, ps, k, m, u, g))
  }

  lemma StepKeepsUnderway(before: Rows, after: Rows, bins: seq<Word>, P: nat, Q: nat, missing: seq<int>, koff: seq<int>,
                          ps: seq<int>, k: int, l: nat, spoils: bool, u: Pixel, g: Image)
    requires Plan(koff, ps, missing, Q) && l < |ps| && (spoils ==> Clashes(ps, missing, P, u))
    requires IsProjection(bins, Direction(ps[l], 1), g, P, Q) && Underway(before, P, Q, missing, koff, ps, k, l, spoils, u, g)
    requires Stepped(before, after, bins, Direction(ps[l], 1), P, Q, Pixel(missing[l], k + koff[l]))
    ensures Underway(after, P, Q, missing, koff, ps, k, l + 1, spoils, u, g)
  {
    hide Plan, Spaced, Good, Spoiling, IsProjection, Clashes, Decided;
    if Spaced(ps, missing, P) {
      StepKeepsGood(before, after, bins, P, Q, missing, koff, ps, k, l, g);
    }
    if spoils {
      StepKeepsSpoiling(before, after, bins, P, Q, missing, koff, ps, k, l, u, g);
    }
  }

  lemma NextColumnOfSteps(rows: Rows, P: nat, Q: nat, missing: seq<int>, koff: seq<int>, ps: seq<int>, k: int,
                          spoils: bool, u: Pixel, g: Image)
    requires Underway(rows, P, Q, missing, koff, ps, k, |koff|, spoils, u, g)
    ensures Underway(rows, P, Q, missing, koff, ps, k + 1, 0, spoils, u, g)
  {
    hide Spaced, Through;
    if spoils && exists l: nat, x :: Wrong(rows, missing, l, x, g) && Reached(koff, l, x, k, |koff|) {
      var l: nat, x :| Wrong(rows, missing, l, x, g) && Reached(koff, l, x, k, |koff|);
      assert Reached(koff, l, x, k + 1, 0);
    }
  }

  lemma BeforeTheSweep(rows: Rows, P: nat, Q: nat, missing: seq<int>, koff: seq<int>, ps: seq<int>, k: int,
                       spoils: bool, u: Pixel, g: Image)
    requires Plan(koff, ps, missing, Q) && Shape(rows, P, Q) && forall l :: 0 <= l < |koff| ==> koff[l] <= -k
    requires forall r, c :: 0 <= r < Q && 0 <= c < P && r !in missing ==> rows[r][c] == g(Pixel(r, c))
    requires spoils ==> OffAt(rows, P, Q, u, g)
    ensures Underway(rows, P, Q, missing, koff, ps, k, 0, spoils, u, g)
  {
    hide Spaced, OffsetStep, Descending, Ascending, Through;
  }

  lemma AfterTheSweep(rows: Rows, P: nat, Q: nat, missing: seq<int>, koff: seq<int>, ps: seq<int>, k: int,
                      spoils: bool, u: Pixel, g: Image)
    requires Plan(koff, ps, missing, Q) && forall l :: 0 <= l < |koff| ==> P - koff[l] <= k
    requires Underway(rows, P, Q, missing, koff, ps, k, 0, spoils, u, g) && (spoils ==> Clashes(ps, missing, P, u))
    ensures Spaced(ps, missing, P) ==> forall r, c :: 0 <= r < Q && 0 <= c < P ==> rows[r][c] == g(Pixel(r, c))
    ensures spoils ==> exists r, c :: 0 <= r < Q && 0 <= c < P && rows[r][c] != g(Pixel(r, c))
  {
    hide Spaced, OffsetStep, Descending, Ascending, Through;
    if Spaced(ps, missing, P) {
      forall r, c | 0 <= r < Q && 0 <= c < P ensures rows[r][c] == g(Pixel(r, c)) {
        if r in missing {
          var l :| 0 <= l < |missing| && missing[l] == r;
          assert Reached(koff, l, c, k, 0);
        }
      }
    }
    if spoils {
      if OffAt(rows, P, Q, u, g) {
        assert rows[u.row][u.col] != g(Pixel(u.row, u.col));
      }
    }
  }

  method SweepRows(grid: array2<Word>, dirs: seq<Direction>, projs: seq<array<Word>>, missing: seq<int>, koff: seq<int>,
                   order: seq<nat>, ghost ps: seq<int>, ghost u: Pixel, ghost g: Image)
    requires Plan(koff, ps, missing, grid.Length0) && grid.Length1 >= 1
    requires |order| == |ps| && |projs| == |dirs|
    requires forall l :: 0 <= l < |order| ==> order[l] < |dirs| && dirs[order[l]] == Direction(ps[l], 1)
    requires forall i :: 0 <= i < |dirs| ==> IsProjection(projs[i][..], dirs[i], g, grid.Length1, grid.Length0)
    requires KnownRows(grid, missing, g)
    modifies grid
    ensures Spaced(ps, missing, grid.Length1) ==> Equals(grid, g)
    ensures Clashes(ps, missing, grid.Length1, u) && OffAt(old(Cells(grid)), grid.Length1, grid.Length0, u, g) ==> !Equals(grid, g)
  {
    hide IsProjection, OffsetStep, Descending, Ascending, Spaced, Clashes, OffAt, Underway, Stepped;
    var P, Q := grid.Length1, grid.Length0;
    var np := |missing|;
    var mOff := koff[0];
    for l := 1 to np
      invariant forall t :: 0 <= t < l ==> mOff <= koff[t]
    {
      if koff[l] < mOff {
        mOff := koff[l];
      }
    }
    var kLo := -(if koff[0] > koff[np - 1] then koff[0] else koff[np - 1]);
    var kHi := P - mOff;
    forall l | 0 <= l < np ensures koff[l] <= -kLo {
      LargestAtAnEnd(koff, ps, missing, l);
    }
    ghost var spoils := Clashes(ps, missing, P, u) && OffAt(Cells(grid), P, Q, u, g);
    BeforeTheSweep(Cells(grid), P, Q, missing, koff, ps, kLo, spoils, u, g);
    for k := kLo to kHi
      invariant Underway(Cells(grid), P, Q, missing, koff, ps, k, 0, spoils, u, g)
    {
      for l := 0 to np
        invariant Underway(Cells(grid), P, Q, missing, koff, ps, k, l, spoils, u, g)
      {
        ghost var before := Cells(grid);
        Step(grid, dirs[order[l]], projs[order[l]], missing, koff, k, l, g);
        StepKeepsUnderway(before, Cells(grid), projs[order[l]][..], P, Q, missing, koff, ps, k, l, spoils, u, g);
      }
      NextColumnOfSteps(Cells(grid), P, Q, missing, koff, ps, k, spoils, u, g);
    }
    AfterTheSweep(Cells(grid), P, Q, missing, koff, ps, kHi, spoils, u, g);
  }

  // ----- the sweep is a peeling order

  ghost function IndexOf(missing: seq<int>, r: int): (l: nat)
    requires r in missing
    ensures l < |missing| && missing[l] == r
  {
    var l :| 0 <= l < |missing| && missing[l] == r; l
  }

  /** The sweep comes to y before it comes to z. */
  ghost predicate Before(koff: seq<int>, missing: seq<int>, y: Pixel, z: Pixel)
    requires y.row in missing && z.row in missing && |koff| == |missing|
  {
    Reached(koff, IndexOf(missing, y.row), y.col, z.col - koff[IndexOf(missing, z.row)], IndexOf(missing, z.row))
  }

  lemma {:induction false} FirstInSweep(koff: seq<int>, missing: seq<int>, s: set<Pixel>) returns (z: Pixel)
    requires s != {} && |koff| == |missing| && forall y :: y in s ==> y.row in missing
    ensures z in s && forall y :: y in s ==> !Before(koff, missing, y, z)
  {
    var w := Pick(s);
    if s == {w} {
      z := w;
    } else {
      var rest := s - {w};
      assert s == rest + {w};
      z := FirstInSweep(koff, missing, rest);
      if Before(koff, missing, w, z) {
        z := w;
      }
    }
  }

  /** Rows that are apart leave nothing stuck: the pixel of a stuck set that the sweep
      meets first would be alone on its line. */
  lemma SpacedLeavesNothingStuck(koff: seq<int>, ps: seq<int>, missing: seq<int>, P: nat, Q: nat, dirs: seq<Direction>, s: set<Pixel>)
    requires Plan(koff, ps, missing, Q) && Spaced(ps, missing, P)
    requires forall l :: 0 <= l < |ps| ==> Direction(ps[l], 1) in dirs
    requires Stuck(s, dirs) && forall y :: y in s ==> y.row in missing && 0 <= y.col < P
    ensures s == {}
  {
    hide Spaced, Offsets, Descending, Along, Before, Ascending;
    OffsetsLength(koff, ps, missing);
    if s != {} {
      var z := FirstInSweep(koff, missing, s);
      var d := Direction(ps[IndexOf(missing, z.row)], 1);
      assert HasPartner(s, d, z);
      var y :| y in s && y != z && Along(d, y) == Along(d, z);
      PartnerComesFirst(koff, ps, missing, P, Q, y, z);
    }
  }

  lemma PartnerComesFirst(koff: seq<int>, ps: seq<int>, missing: seq<int>, P: nat, Q: nat, y: Pixel, z: Pixel)
    requires Plan(koff, ps, missing, Q) && Spaced(ps, missing, P)
    requires y.row in missing && z.row in missing && 0 <= y.col < P && 0 <= z.col < P && y != z
    requires var d := Direction(ps[IndexOf(missing, z.row)], 1); Along(d, y) == Along(d, z)
    ensures Before(koff, missing, y, z)
  {
    hide Spaced, OffsetStep, Descending;
    var l, j := IndexOf(missing, z.row), IndexOf(missing, y.row);
    SameLine(ps[l], y, z);
    LineIsBehind(koff, ps, missing, P, l, z.col, j);
  }

  lemma SameLine(p: int, y: Pixel, z: Pixel)
    requires Along(Direction(p, 1), y) == Along(Direction(p, 1), z)
    ensures y.col == z.col + (z.row - y.row) * p
    ensures y != z ==> y.row != z.row
  {
    assert (z.row - y.row) * p == z.row * p - y.row * p;
  }

  lemma OffsetsLength(koff: seq<int>, ps: seq<int>, missing: seq<int>)
    requires Offsets(koff, ps, missing)
    ensures |koff| == |ps| == |missing|
  {}

  /** Offsets that satisfy the recurrence exist for all slopes and rows. */
  lemma {:induction false} OffsetsExist(ps: seq<int>, missing: seq<int>) returns (koff: seq<int>)
    requires |ps| == |missing|
    ensures Offsets(koff, ps, missing)
    decreases |ps|
  {
    var n := |ps|;
    if n <= 1 {
      koff := ps;
    } else {
      var before := OffsetsExist(ps[..n - 1], missing[..n - 1]);
      koff := before + [before[n - 2] - ps[n - 1] * (missing[n - 1] - missing[n - 2])];
      forall i | 0 <= i < n - 1 ensures OffsetStep(koff, ps, missing, i) {
        if i < n - 2 {
          assert OffsetStep(before, ps[..n - 1], missing[..n - 1], i);
        }
      }
    }
  }

  // ----- sorting by slope

  ghost predicate DistinctSlopes(dirs: seq<Direction>) {
    forall i, j :: 0 <= i < j < |dirs| ==> dirs[i].p != dirs[j].p
  }

  function Slopes(dirs: seq<Direction>, order: seq<nat>): (ps: seq<int>)
    requires forall i :: 0 <= i < |order| ==> order[i] < |dirs|
    ensures |ps| == |order| && forall i :: 0 <= i < |ps| ==> ps[i] == dirs[order[i]].p
  {
    seq(|order|, i requires 0 <= i < |order| => dirs[order[i]].p)
  }

  /** Where v goes in a descending sequence: before the first element that is not larger. */
  function Place(v: int, s: seq<int>): (at: nat)
    ensures at <= |s| && (forall t :: 0 <= t < at ==> s[t] > v) && (at < |s| ==> s[at] <= v)
  {
    if s == [] || s[0] <= v then 0 else 1 + Place(v, s[1..])
  }

  function InsertAt<T>(v: T, s: seq<T>, at: nat): (r: seq<T>)
    requires at <= |s|
    ensures |r| == |s| + 1 && forall t :: 0 <= t < |r| ==> r[t] == if t < at then s[t] else if t == at then v else s[t - 1]
  {
    s[..at] + [v] + s[at..]
  }

  /** The slopes in descending order, repeated slopes included. */
  function Sorted(dirs: seq<Direction>): (ps: seq<int>)
    ensures |ps| == |dirs|
  {
    if dirs == [] then
      []
    else
      var s, v := Sorted(dirs[..|dirs| - 1]), dirs[|dirs| - 1].p;
      InsertAt(v, s, Place(v, s))
  }

  lemma {:induction false} SortedIsDescending(dirs: seq<Direction>)
    ensures Descending(Sorted(dirs))
  {
    if dirs != [] {
      SortedIsDescending(dirs[..|dirs| - 1]);
    }
  }

  /** The numbers below n, in some order. */
  ghost predicate Arranges(order: seq<nat>, n: nat) {
    |order| == n && (forall i :: 0 <= i < n ==> order[i] < n) && forall i, j :: 0 <= i < j < n ==> order[i] != order[j]
  }

  lemma InsertArranges(order: seq<nat>, n: nat, at: nat)
    requires Arranges(order, n) && at <= n
    ensures Arranges(InsertAt<nat>(n, order, at), n + 1)
  {
    var r := InsertAt<nat>(n, order, at);
    forall i, j | 0 <= i < j < n + 1 ensures r[i] != r[j] {
      if i != at && j != at {
        assert order[if i < at then i else i - 1] != order[if j < at then j else j - 1];
      }
    }
  }

  lemma InsertSlopes(dirs: seq<Direction>, order: seq<nat>, n: nat, at: nat)
    requires n < |dirs| && at <= |order| && forall i :: 0 <= i < |order| ==> order[i] < |dirs|
    ensures var next := InsertAt<nat>(n, order, at);
            && (forall i :: 0 <= i < |next| ==> next[i] < |dirs|)
            && Slopes(dirs, next) == InsertAt(dirs[n].p, Slopes(dirs, order), at)
  {
    var next := InsertAt<nat>(n, order, at);
    forall i | 0 <= i < |next| ensures next[i] < |dirs| {
      assert next[i] == if i < at then order[i] else if i == at then n else order[i - 1];
    }
    var s, r := Slopes(dirs, next), InsertAt(dirs[n].p, Slopes(dirs, order), at);
    assert forall i :: 0 <= i < |s| ==> s[i] == r[i];
  }

  lemma SortedStep(dirs: seq<Direction>, n: nat)
    requires n < |dirs|
    ensures var s, v := Sorted(dirs[..n]), dirs[n].p; Sorted(dirs[..n + 1]) == InsertAt(v, s, Place(v, s))
  {
    assert dirs[..n + 1][..n] == dirs[..n];
  }

  /** Inserting index n where its slope belongs sorts one direction more. */
  lemma InsertSorts(dirs: seq<Direction>, order: seq<nat>, n: nat, at: nat)
    requires n < |dirs| && Arranges(order, n) && Slopes(dirs, order) == Sorted(dirs[..n])
    requires at == Place(dirs[n].p, Slopes(dirs, order))
    ensures Arranges(InsertAt<nat>(n, order, at), n + 1) && Slopes(dirs, InsertAt<nat>(n, order, at)) == Sorted(dirs[..n + 1])
  {
    hide Place, InsertAt, Sorted;
    InsertArranges(order, n, at);
    InsertSlopes(dirs, order, n, at);
    SortedStep(dirs, n);
  }

  /** Every place of the sorted slopes has a direction of its own. */
  lemma {:induction false} SortedComesFrom(dirs: seq<Direction>, n: nat) returns (from: seq<nat>)
    requires n <= |dirs|
    ensures Arranges(from, n) && Slopes(dirs, from) == Sorted(dirs[..n])
  {
    hide InsertAt, Place;
    if n == 0 {
      from := [];
    } else {
      var before := SortedComesFrom(dirs, n - 1);
      var at := Place(dirs[n - 1].p, Slopes(dirs, before));
      InsertSorts(dirs, before, n - 1, at);
      from := InsertAt<nat>(n - 1, before, at);
    }
  }

  lemma DistinctIsSpaced(dirs: seq<Direction>, missing: seq<int>, P: nat)
    requires DistinctSlopes(dirs) && |missing| == |dirs|
    ensures Spaced(Sorted(dirs), missing, P)
  {
    hide Sorted;
    var from := SortedComesFrom(dirs, |dirs|);
    assert dirs[..|dirs|] == dirs;
    forall l | 0 <= l < |dirs| - 1 ensures Sorted(dirs)[l] != Sorted(dirs)[l + 1] {
      assert from[l] != from[l + 1];
    }
  }

  /** Indices of the directions in descending order of slope; the directions stay in place. */
  method SortBySlope(dirs: seq<Direction>) returns (order: seq<nat>)
    ensures Arranges(order, |dirs|) && Slopes(dirs, order) == Sorted(dirs)
  {
    hide Place, Sorted, InsertAt;
    order := [];
    assert Slopes(dirs, order) == Sorted(dirs[..0]);
    for i := 0 to |dirs|
      invariant Arranges(order, i) && Slopes(dirs, order) == Sorted(dirs[..i])
    {
      var at := 0;
      while at < i && dirs[order[at]].p > dirs[i].p
        invariant at <= i && forall t :: 0 <= t < at ==> dirs[order[t]].p > dirs[i].p
      {
        at := at + 1;
      }
      OnlyPlace(dirs[i].p, Slopes(dirs, order), at);
      InsertSorts(dirs, order, i, at);
      order := InsertAt<nat>(i, order, at);
    }
    assert dirs[..|dirs|] == dirs;
  }

  lemma OnlyPlace(v: int, s: seq<int>, at: nat)
    requires at <= |s| && (forall t :: 0 <= t < at ==> s[t] > v) && (at < |s| ==> s[at] <= v)
    ensures at == Place(v, s)
  {
    hide Place;
  }

  // ----- the two entry points

  ghost predicate UnitQ(dirs: seq<Direction>) {
    forall i :: 0 <= i < |dirs| ==> dirs[i].q == 1
  }

  method AllUnitQ(dirs: seq<Direction>) returns (ok: bool)
    ensures ok <==> UnitQ(dirs)
  {
    for i := 0 to |dirs|
      invariant forall t :: 0 <= t < i ==> dirs[t].q == 1
    {
      if dirs[i].q != 1 {
        return false;
      }
    }
    return true;
  }

  /** Shapes the sparse sweep accepts. */
  ghost predicate GdShape(P: nat, Q: nat, dirs: seq<Direction>, missing: seq<int>) {
    && |dirs| == |missing| && P >= 1 && Q >= 1 && 1 <= |missing| <= Q
    && UnitQ(dirs) && RowsInRange(missing, Q) && Ascending(missing)
  }

  /** As many directions as missing rows, apart where slopes repeat, leave nothing stuck. */
  lemma SpacedIsPeelable(dirs: seq<Direction>, missing: seq<int>, P: nat, Q: nat)
    requires GdShape(P, Q, dirs, missing) && Spaced(Sorted(dirs), missing, P)
    ensures PeelableWithin(PixelsOf(RowSet(missing), P), dirs)
  {
    hide Sorted, Spaced, Stuck, Offsets;
    var ps := Sorted(dirs);
    var koff := OffsetsExist(ps, missing);
    var from := SortedComesFrom(dirs, |dirs|);
    assert dirs[..|dirs|] == dirs;
    forall l | 0 <= l < |ps| ensures Direction(ps[l], 1) in dirs {
      assert dirs[from[l]] == Direction(ps[l], 1);
    }
    SortedIsDescending(dirs);
    OffsetsLength(koff, ps, missing);
    forall s: set<Pixel> | s <= PixelsOf(RowSet(missing), P) && Stuck(s, dirs) ensures s == {} {
      SpacedLeavesNothingStuck(koff, ps, missing, P, Q, dirs, s);
    }
  }

  /** Recover the missing rows from the known ones and as many full projections.
      The result is 0 on every accepted shape.  It is the image whenever rows that
      share a slope are apart, whatever the missing rows held; when two of them
      clash on u, it is not the image if the grid differed from it just in u. */
  method InverseGdSparse(grid: array2<Word>, dirs: seq<Direction>, projs: seq<array<Word>>, missing: seq<int>,
                         ghost u: Pixel, ghost g: Image) returns (ret: int)
    requires |projs| == |dirs|
    requires forall i :: 0 <= i < |dirs| ==> IsProjection(projs[i][..], dirs[i], g, grid.Length1, grid.Length0)
    requires KnownRows(grid, missing, g)
    modifies grid
    ensures var P, Q := grid.Length1, grid.Length0;
            GdShape(P, Q, dirs, missing) ==>
              && ret == 0
              && (Spaced(Sorted(dirs), missing, P) ==> Equals(grid, g))
              && (Clashes(Sorted(dirs), missing, P, u) && OffAt(old(Cells(grid)), P, Q, u, g) ==> !Equals(grid, g))
    ensures !GdShape(grid.Length1, grid.Length0, dirs, missing) ==> ret == EINVAL && unchanged(grid)
  {
    hide IsProjection, Sorted, Spaced, Clashes, OffAt;
    var P, Q := grid.Length1, grid.Length0;
    if |dirs| != |missing| || P < 1 || Q < 1 || |missing| < 1 || |missing| > Q {
      return EINVAL;
    }
    var unit := AllUnitQ(dirs);
    if !unit {
      return EINVAL;
    }
    for i := 0 to |missing|
      invariant RowsInRange(missing[..i], Q) && Ascending(missing[..i])
    {
      if missing[i] < 0 || missing[i] >= Q || (i > 0 && missing[i] <= missing[i - 1]) {
        return EINVAL;
      }
    }
    assert missing[..|missing|] == missing;
    var order := SortBySlope(dirs);
    var ps := Slopes(dirs, order);
    SortedIsDescending(dirs);
    var koff := ComputeOffsets(ps, missing);
    SweepRows(grid, dirs, projs, missing, koff[..], order, ps, u, g);
    ret := 0;
  }

  function AllRows(Q: nat): (missing: seq<int>)
    ensures |missing| == Q && forall r :: 0 <= r < Q ==> missing[r] == r
  {
    seq(Q, i => i)
  }

  ghost function Zeros(P: nat, Q: nat): Rows {
    seq(Q, _ => seq(P, _ => 0 as Word))
  }

  /** The dense case: every row is missing, and the grid is cleared first. */
  method InverseGd(grid: array2<Word>, dirs: seq<Direction>, projs: seq<array<Word>>, ghost u: Pixel, ghost g: Image) returns (ret: int)
    requires |projs| == |dirs|
    requires forall i :: 0 <= i < |dirs| ==> IsProjection(projs[i][..], dirs[i], g, grid.Length1, grid.Length0)
    modifies grid
    ensures var P, Q := grid.Length1, grid.Length0;
            GdShape(P, Q, dirs, AllRows(Q)) ==>
              && ret == 0
              && (Spaced(Sorted(dirs), AllRows(Q), P) ==> Equals(grid, g))
              && (Clashes(Sorted(dirs), AllRows(Q), P, u) && OffAt(Zeros(P, Q), P, Q, u, g) ==> !Equals(grid, g))
    ensures !GdShape(grid.Length1, grid.Length0, dirs, AllRows(grid.Length0)) ==> ret == EINVAL && unchanged(grid)
  {
    hide IsProjection, Sorted, Spaced, Clashes, OffAt;
    var P, Q := grid.Length1, grid.Length0;
    if |dirs| != Q || P < 1 || Q < 1 {
      return EINVAL;
    }
    var unit := AllUnitQ(dirs);
    if !unit {
      return EINVAL;
    }
    forall r, c | 0 <= r < Q && 0 <= c < P {
      grid[r, c] := 0;
    }
    assert forall i :: 0 <= i < |projs| ==> projs[i][..] == old(projs[i][..]);
    assert Cells(grid) == Zeros(P, Q) by {
      assert forall r :: 0 <= r < Q ==> Cells(grid)[r] == Zeros(P, Q)[r];
    }
    var missing := AllRows(Q);
    forall r | 0 <= r < Q ensures r in missing {
      assert missing[r] == r;
    }
    var order := SortBySlope(dirs);
    var ps := Slopes(dirs, order);
    SortedIsDescending(dirs);
    var koff := ComputeOffsets(ps, missing);
    SweepRows(grid, dirs, projs, missing, koff[..], order, ps, u, g);
    ret := 0;
  }
}
