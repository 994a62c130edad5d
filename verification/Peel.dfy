/** The inverse transform by corner-peeling.

    Every bin keeps the XOR and the number of the unknown pixels on its line.  A
    bin whose count is 1 reveals its pixel, which is then XORed out of every
    projection.  The run succeeds exactly when no set of unknown pixels is stuck. */
module Peel {
  import opened Basics
  import opened Errno
  import opened Geometry
  import opened Forward
  import opened Katz
  import opened Reduction

  ghost predicate Counts(count: seq<int>, d: Direction, off: int, s: set<Pixel>) {
    forall b :: 0 <= b < |count| ==> count[b] == |Line(s, d, b + off)|
  }

  /** One buffer per direction, no two the same, each with room for every bin. */
  ghost predicate Buffers<T>(arrays: seq<array<T>>, dirs: seq<Direction>, P: nat, Q: nat) {
    && |arrays| == |dirs| && Apart(arrays)
    && forall i :: 0 <= i < |dirs| ==> arrays[i].Length >= ProjectionSize(dirs[i], P, Q)
  }

  ghost predicate Separate(projs: seq<array<Word>>, count: seq<array<int>>) {
    forall i, j :: 0 <= i < |projs| && 0 <= j < |count| ==> projs[i] as object != count[j]
  }

  /** Projections hold the XOR of the pixels of `s` on each line, counts the number of pixels of `t`. */
  ghost predicate Loaded(projs: seq<array<Word>>, count: seq<array<int>>, dirs: seq<Direction>, P: nat, Q: nat,
                         s: set<Pixel>, t: set<Pixel>, g: Image)
    requires |projs| == |count| == |dirs|
    reads projs, count
  {
    forall i :: 0 <= i < |dirs| ==>
      && Holds(projs[i][..], dirs[i], BinOffset(dirs[i], P, Q), s, g)
      && Counts(count[i][..], dirs[i], BinOffset(dirs[i], P, Q), t)
  }

  /** The pixels outside `u` are known and correct; nothing is claimed of the others. */
  ghost predicate KnownOutside(grid: array2<Word>, known: array2<bool>, u: set<Pixel>, g: Image)
    reads grid, known
  {
    && known.Length0 == grid.Length0 && known.Length1 == grid.Length1
    && u <= Grid(grid.Length1, grid.Length0)
    && forall r, c :: 0 <= r < grid.Length0 && 0 <= c < grid.Length1 ==>
      && (known[r, c] <==> Pixel(r, c) !in u)
      && (known[r, c] ==> grid[r, c] == g(Pixel(r, c)))
  }

  ghost predicate Equals(grid: array2<Word>, g: Image)
    reads grid
  {
    forall r, c :: 0 <= r < grid.Length0 && 0 <= c < grid.Length1 ==> grid[r, c] == g(Pixel(r, c))
  }

  // ----- removing one pixel

  lemma LineLosesPixel(s: set<Pixel>, x: Pixel, d: Direction, v: int, g: Image)
    requires x in s
    ensures Along(d, x) == v ==>
              && XorOver(Line(s - {x}, d, v), g) == Xor(XorOver(Line(s, d, v), g), g(x))
              && |Line(s - {x}, d, v)| == |Line(s, d, v)| - 1
    ensures Along(d, x) != v ==> Line(s - {x}, d, v) == Line(s, d, v)
  {
    hide Xor, Along;
    var l := Line(s, d, v);
    if Along(d, x) == v {
      assert Line(s - {x}, d, v) == l - {x};
      XorOverRemove(l, x, g);
      XorCancel(g(x), XorOver(l - {x}, g));
    } else {
      assert Line(s - {x}, d, v) == l;
    }
  }

  lemma DropPixel(was: seq<Word>, bins: seq<Word>, wasCount: seq<int>, count: seq<int>,
                  d: Direction, off: int, s: set<Pixel>, x: Pixel, g: Image)
    requires x in s && |bins| == |was| && |count| == |wasCount|
    requires Holds(was, d, off, s, g) && Counts(wasCount, d, off, s)
    requires forall b :: 0 <= b < |bins| ==> bins[b] == if Along(d, x) == b + off then Xor(was[b], g(x)) else was[b]
    requires forall b :: 0 <= b < |count| ==> count[b] == if Along(d, x) == b + off then wasCount[b] - 1 else wasCount[b]
    ensures Holds(bins, d, off, s - {x}, g) && Counts(count, d, off, s - {x})
  {
    hide Xor, Along;
    forall b ensures 0 <= b < |bins| ==> bins[b] == XorOver(Line(s - {x}, d, b + off), g) {
      LineLosesPixel(s, x, d, b + off, g);
    }
    forall b ensures 0 <= b < |count| ==> count[b] == |Line(s - {x}, d, b + off)| {
      LineLosesPixel(s, x, d, b + off, g);
    }
  }

  method SubtractFrom(bins: array<Word>, count: array<int>, d: Direction, P: nat, Q: nat,
                      row: nat, col: nat, val: Word, ghost u: set<Pixel>, ghost g: Image)
    requires bins.Length >= ProjectionSize(d, P, Q) && count.Length >= ProjectionSize(d, P, Q) && bins as object != count
    requires Holds(bins[..], d, BinOffset(d, P, Q), u, g) && Counts(count[..], d, BinOffset(d, P, Q), u)
    requires row < Q && col < P && Pixel(row, col) in u && val == g(Pixel(row, col))
    modifies bins, count
    ensures Holds(bins[..], d, BinOffset(d, P, Q), u - {Pixel(row, col)}, g)
    ensures Counts(count[..], d, BinOffset(d, P, Q), u - {Pixel(row, col)})
  {
    hide Xor, Along, BinOffset, ProjectionSize;
    ghost var x, was, wasCount := Pixel(row, col), bins[..], count[..];
    var off := BinOffset(d, P, Q);
    var bj := row * d.p + col * d.q - off;
    BinIsLine(d, P, Q, x);
    bins[bj] := Xor(bins[bj], val);
    count[bj] := count[bj] - 1;
    DropPixel(was, bins[..], wasCount, count[..], d, off, u, x, g);
  }

  /** XOR the recovered pixel out of every projection and decrement its counts. */
  method Subtract(projs: seq<array<Word>>, count: seq<array<int>>, dirs: seq<Direction>, P: nat, Q: nat,
                  row: nat, col: nat, val: Word, ghost u: set<Pixel>, ghost g: Image)
    requires Buffers(projs, dirs, P, Q) && Buffers(count, dirs, P, Q) && Separate(projs, count)
    requires Loaded(projs, count, dirs, P, Q, u, u, g)
    requires row < Q && col < P && Pixel(row, col) in u && val == g(Pixel(row, col))
    modifies projs, count
    ensures Loaded(projs, count, dirs, P, Q, u - {Pixel(row, col)}, u - {Pixel(row, col)}, g)
  {
    hide Holds, Counts, BinOffset, ProjectionSize;
    ghost var rest := u - {Pixel(row, col)};
    for j := 0 to |dirs|
      invariant forall i :: 0 <= i < j ==>
                  && Holds(projs[i][..], dirs[i], BinOffset(dirs[i], P, Q), rest, g)
                  && Counts(count[i][..], dirs[i], BinOffset(dirs[i], P, Q), rest)
      invariant forall i :: j <= i < |dirs| ==>
                  && Holds(projs[i][..], dirs[i], BinOffset(dirs[i], P, Q), u, g)
                  && Counts(count[i][..], dirs[i], BinOffset(dirs[i], P, Q), u)
    {
      SubtractFrom(projs[j], count[j], dirs[j], P, Q, row, col, val, u, g);
    }
  }

  // ----- one bin, one pass

  /** Find the first unknown pixel of the missing rows in bin `b`. */
  method FindUnknown(known: array2<bool>, missingRow: seq<bool>, d: Direction, off: int, b: int)
    returns (found: bool, row: nat, col: nat)
    requires |missingRow| == known.Length0
    ensures found ==> row < known.Length0 && col < known.Length1 && !known[row, col] && row * d.p + col * d.q - off == b
    ensures !found ==> forall r, c :: 0 <= r < known.Length0 && 0 <= c < known.Length1 && missingRow[r] && !known[r, c] ==>
                         r * d.p + c * d.q - off != b
  {
    found, row, col := false, 0, 0;
    for r := 0 to known.Length0
      invariant forall r', c :: 0 <= r' < r && 0 <= c < known.Length1 && missingRow[r'] && !known[r', c] ==>
                  r' * d.p + c * d.q - off != b
    {
      if missingRow[r] {
        for c := 0 to known.Length1
          invariant forall c' :: 0 <= c' < c && !known[r, c'] ==> r * d.p + c' * d.q - off != b
        {
          if !known[r, c] && r * d.p + c * d.q - off == b {
            return true, r, c;
          }
        }
      }
    }
  }

  lemma SingletonLine(u: set<Pixel>, x: Pixel, d: Direction, v: int, g: Image)
    requires x in u && Along(d, x) == v && |Line(u, d, v)| == 1
    ensures XorOver(Line(u, d, v), g) == g(x)
    ensures !HasPartner(u, d, x)
  {
    hide Along;
    var l := Line(u, d, v);
    assert |l - {x}| == 0;
    assert l == {x};
    XorOverSingleton(x, g);
    forall y | y in u && Along(d, y) == Along(d, x) ensures y == x {
      assert y in l;
    }
  }

  /** A pixel alone on a line belongs to no stuck set of unknown pixels. */
  lemma StuckSetsSurvive(u: set<Pixel>, x: Pixel, d: Direction, dirs: seq<Direction>, s: set<Pixel>)
    requires d in dirs && !HasPartner(u, d, x) && s <= u && Stuck(s, dirs)
    ensures s <= u - {x}
  {
    hide Along;
    assert x in s ==> HasPartner(s, d, x);
  }

  /** No non-empty subset of `u` is stuck. */
  ghost predicate PeelableWithin(u: set<Pixel>, dirs: seq<Direction>) {
    forall s: set<Pixel> :: s <= u && Stuck(s, dirs) ==> s == {}
  }

  ghost predicate StuckWithin(u: set<Pixel>, v: set<Pixel>, dirs: seq<Direction>) {
    forall s: set<Pixel> :: s <= u && Stuck(s, dirs) ==> s <= v
  }

  /** The state between two steps of the peeling loop: `u` is what is still unknown. */
  ghost predicate Ready(grid: array2<Word>, known: array2<bool>, missingRow: seq<bool>, dirs: seq<Direction>,
                        projs: seq<array<Word>>, count: seq<array<int>>, u: set<Pixel>, g: Image)
    reads grid, known, projs, count
  {
    var P, Q := grid.Length1, grid.Length0;
    && known as object != grid && KnownOutside(grid, known, u, g)
    && |missingRow| == Q && (forall x :: x in u ==> missingRow[x.row])
    && Buffers(projs, dirs, P, Q) && Buffers(count, dirs, P, Q) && Separate(projs, count)
    && (forall i :: 0 <= i < |dirs| ==> count[i].Length == projs[i].Length)
    && Loaded(projs, count, dirs, P, Q, u, u, g)
  }

  /** Write a pixel, mark it known and take it out of every projection. */
  method RecoverPixel(grid: array2<Word>, known: array2<bool>, missingRow: seq<bool>, dirs: seq<Direction>, projs: seq<array<Word>>,
                      count: seq<array<int>>, row: nat, col: nat, val: Word, ghost u: set<Pixel>, ghost g: Image)
    requires Ready(grid, known, missingRow, dirs, projs, count, u, g)
    requires row < grid.Length0 && col < grid.Length1 && Pixel(row, col) in u && val == g(Pixel(row, col))
    modifies grid, known, projs, count
    ensures Ready(grid, known, missingRow, dirs, projs, count, u - {Pixel(row, col)}, g)
  {
    hide Xor, Along, BinOffset, ProjectionSize, Holds, Counts;
    grid[row, col] := val;
    known[row, col] := true;
    Subtract(projs, count, dirs, grid.Length1, grid.Length0, row, col, val, u, g);
  }

  /** Examine one bin: when exactly one unknown pixel lies on its line, recover it. */
  method PeelBin(grid: array2<Word>, known: array2<bool>, missingRow: seq<bool>, dirs: seq<Direction>,
                 projs: seq<array<Word>>, count: seq<array<int>>, i: nat, b: nat, ghost u: set<Pixel>, ghost g: Image)
    returns (hit: bool, ghost v: set<Pixel>)
    requires Ready(grid, known, missingRow, dirs, projs, count, u, g)
    requires i < |dirs| && b < projs[i].Length
    modifies grid, known, projs, count
    ensures Ready(grid, known, missingRow, dirs, projs, count, v, g)
    ensures hit <==> Single(u, dirs[i], grid.Length1, grid.Length0, b)
    ensures hit ==> v < u && |v| == |u| - 1
    ensures !hit ==> v == u
    ensures StuckWithin(u, v, dirs)
  {
    hide Xor, Along, BinOffset, ProjectionSize, Holds, Counts, Stuck, Line;
    var P, Q := grid.Length1, grid.Length0;
    var d := dirs[i];
    var off := BinOffset(d, P, Q);
    hit, v := false, u;
    CountIsLine(count[i][..], d, off, u, b);
    if count[i][b] != 1 {
      return;
    }
    var found, row, col := FindUnknown(known, missingRow, d, off, b);
    SoleUnknown(u, P, Q, d, off, b);
    ghost var x := Pixel(row, col);
    assert found;
    assert x in u;
    SolePixel(u, x, d, off, b, projs[i][..], g);
    var val := projs[i][b];
    hit, v := true, u - {x};
    RecoverPixel(grid, known, missingRow, dirs, projs, count, row, col, val, u, g);
    forall s: set<Pixel> | s <= u && Stuck(s, dirs) ensures s <= v {
      StuckSetsSurvive(u, x, d, dirs, s);
    }
  }

  lemma CountIsLine(count: seq<int>, d: Direction, off: int, u: set<Pixel>, b: nat)
    requires Counts(count, d, off, u) && b < |count|
    ensures count[b] == |Line(u, d, b + off)|
  {}

  /** A count of 1 means the search has something to find. */
  lemma SoleUnknown(u: set<Pixel>, P: nat, Q: nat, d: Direction, off: int, b: nat)
    requires u <= Grid(P, Q) && |Line(u, d, b + off)| == 1
    ensures exists r, c :: 0 <= r < Q && 0 <= c < P && Pixel(r, c) in u && r * d.p + c * d.q - off == b
  {
    var l := Line(u, d, b + off);
    assert l != {};
    var x := Pick(l);
    assert x == Pixel(x.row, x.col) && InGrid(x, P, Q);
  }

  lemma SolePixel(u: set<Pixel>, x: Pixel, d: Direction, off: int, b: nat, bins: seq<Word>, g: Image)
    requires x in u && x.row * d.p + x.col * d.q - off == b && |Line(u, d, b + off)| == 1
    requires Holds(bins, d, off, u, g) && b < |bins|
    ensures bins[b] == g(x) && !HasPartner(u, d, x)
  {
    SingletonLine(u, x, d, b + off, g);
  }

  lemma StuckWithinChain(u: set<Pixel>, v: set<Pixel>, w: set<Pixel>, dirs: seq<Direction>)
    requires StuckWithin(u, v, dirs) && StuckWithin(v, w, dirs)
    ensures StuckWithin(u, w, dirs)
  {}

  /** Exactly one pixel of `u` contributes to bin `b` of direction `d`. */
  ghost predicate Single(u: set<Pixel>, d: Direction, P: nat, Q: nat, b: int) {
    |Line(u, d, b + BinOffset(d, P, Q))| == 1
  }

  /** No bin before (i, b) has exactly one pixel of `u` on its line. */
  ghost predicate NoSingleton(u: set<Pixel>, dirs: seq<Direction>, P: nat, Q: nat, i: nat, b: nat) {
    forall j, c :: 0 <= j < |dirs| && 0 <= c && ((j < i && c < ProjectionSize(dirs[j], P, Q)) || (j == i && c < b)) ==>
      !Single(u, dirs[j], P, Q, c)
  }

  lemma NoSingletonIsStuck(u: set<Pixel>, dirs: seq<Direction>, P: nat, Q: nat)
    requires u <= Grid(P, Q) && NoSingleton(u, dirs, P, Q, |dirs|, 0)
    ensures Stuck(u, dirs)
  {
    hide Along, BinOffset, ProjectionSize;
    forall d, x | d in dirs && x in u ensures HasPartner(u, d, x) {
      var j :| 0 <= j < |dirs| && dirs[j] == d;
      BinIsLine(d, P, Q, x);
      var l := Line(u, d, Bin(d, P, Q, x) + BinOffset(d, P, Q));
      assert !Single(u, dirs[j], P, Q, Bin(d, P, Q, x));
      assert x in l && |l| != 1;
      assert |l - {x}| == |l| - 1;
      var y := Pick(l - {x});
      assert y in u && y != x && Along(d, y) == Along(d, x);
    }
  }

  lemma NextDirection(u: set<Pixel>, dirs: seq<Direction>, P: nat, Q: nat, i: nat, len: nat)
    requires i < |dirs| && len >= ProjectionSize(dirs[i], P, Q) && NoSingleton(u, dirs, P, Q, i, len)
    ensures NoSingleton(u, dirs, P, Q, i + 1, 0)
  {
    hide Single, ProjectionSize;
  }

  lemma NextBin(u: set<Pixel>, dirs: seq<Direction>, P: nat, Q: nat, i: nat, b: nat)
    requires i < |dirs| && NoSingleton(u, dirs, P, Q, i, b) && !Single(u, dirs[i], P, Q, b)
    ensures NoSingleton(u, dirs, P, Q, i, b + 1)
  {
    hide Single, ProjectionSize;
  }

  /** All bins of one projection. */
  method PeelDirection(grid: array2<Word>, known: array2<bool>, missingRow: seq<bool>, dirs: seq<Direction>,
                       projs: seq<array<Word>>, count: seq<array<int>>, i: nat, ghost u: set<Pixel>, ghost g: Image)
    returns (gained: nat, ghost v: set<Pixel>)
    requires Ready(grid, known, missingRow, dirs, projs, count, u, g) && i < |dirs|
    modifies grid, known, projs, count
    ensures Ready(grid, known, missingRow, dirs, projs, count, v, g)
    ensures v <= u && |v| + gained == |u| && StuckWithin(u, v, dirs)
    ensures gained == 0 ==> v == u
    ensures gained == 0 && NoSingleton(u, dirs, grid.Length1, grid.Length0, i, 0) ==> NoSingleton(u, dirs, grid.Length1, grid.Length0, i + 1, 0)
  {
    var P, Q := grid.Length1, grid.Length0;
    var len := projs[i].Length;
    assert len >= ProjectionSize(dirs[i], P, Q);
    hide Ready, StuckWithin, NoSingleton, ProjectionSize, Single;
    gained, v := 0, u;
    StuckWithinSelf(u, dirs);
    for b := 0 to len
      invariant Ready(grid, known, missingRow, dirs, projs, count, v, g)
      invariant v <= u && |v| + gained == |u| && StuckWithin(u, v, dirs)
      invariant gained == 0 ==> v == u
      invariant gained == 0 && NoSingleton(u, dirs, P, Q, i, 0) ==> NoSingleton(u, dirs, P, Q, i, b)
    {
      ghost var before := v;
      var hit;
      hit, v := PeelBin(grid, known, missingRow, dirs, projs, count, i, b, before, g);
      StuckWithinChain(u, before, v, dirs);
      if hit {
        gained := gained + 1;
      } else if gained == 0 && NoSingleton(u, dirs, P, Q, i, 0) {
        NextBin(u, dirs, P, Q, i, b);
      }
    }
    if gained == 0 && NoSingleton(u, dirs, P, Q, i, 0) {
      NextDirection(u, dirs, P, Q, i, len);
    }
  }

  lemma StuckWithinSelf(u: set<Pixel>, dirs: seq<Direction>)
    ensures StuckWithin(u, u, dirs)
  {}

  /** One pass over all bins of all projections. */
  method PeelPass(grid: array2<Word>, known: array2<bool>, missingRow: seq<bool>, dirs: seq<Direction>,
                  projs: seq<array<Word>>, count: seq<array<int>>, ghost u: set<Pixel>, ghost g: Image)
    returns (gained: nat, ghost v: set<Pixel>)
    requires Ready(grid, known, missingRow, dirs, projs, count, u, g)
    modifies grid, known, projs, count
    ensures Ready(grid, known, missingRow, dirs, projs, count, v, g)
    ensures v <= u && |v| + gained == |u| && StuckWithin(u, v, dirs)
    ensures gained == 0 ==> v == u && Stuck(u, dirs)
  {
    ghost var P, Q := grid.Length1, grid.Length0;
    assert u <= Grid(P, Q);
    assert NoSingleton(u, dirs, P, Q, 0, 0);
    hide Ready, StuckWithin, NoSingleton, Stuck;
    gained, v := 0, u;
    StuckWithinSelf(u, dirs);
    for i := 0 to |dirs|
      invariant Ready(grid, known, missingRow, dirs, projs, count, v, g)
      invariant v <= u && |v| + gained == |u| && StuckWithin(u, v, dirs)
      invariant gained == 0 ==> v == u && NoSingleton(u, dirs, P, Q, i, 0)
    {
      ghost var before := v;
      var more;
      more, v := PeelDirection(grid, known, missingRow, dirs, projs, count, i, before, g);
      StuckWithinChain(u, before, v, dirs);
      gained := gained + more;
    }
    if gained == 0 {
      NoSingletonIsStuck(u, dirs, P, Q);
    }
  }

  ghost function RowOf(P: nat, r: int): set<Pixel> {
    set c | 0 <= c < P :: Pixel(r, c)
  }

  lemma {:induction false} RowSize(P: nat, r: int)
    ensures |RowOf(P, r)| == P
  {
    if P > 0 {
      RowSize(P - 1, r);
      assert RowOf(P, r) == RowOf(P - 1, r) + {Pixel(r, P - 1)};
    }
  }

  lemma {:induction false} GridSize(P: nat, Q: nat)
    ensures |Grid(P, Q)| == P * Q
  {
    if Q == 0 {
      assert Grid(P, Q) == {};
    } else {
      GridSize(P, Q - 1);
      RowSize(P, Q - 1);
      assert Grid(P, Q) == Grid(P, Q - 1) + RowOf(P, Q - 1);
      assert P * Q == P * (Q - 1) + P;
    }
  }

  /** Passes until everything is known or a pass recovers nothing. */
  method PeelLoop(grid: array2<Word>, known: array2<bool>, missingRow: seq<bool>, dirs: seq<Direction>,
                  projs: seq<array<Word>>, count: seq<array<int>>, start: int, ghost u: set<Pixel>, ghost g: Image)
    returns (ret: int)
    requires Ready(grid, known, missingRow, dirs, projs, count, u, g)
    requires start + |u| <= grid.Length0 * grid.Length1
    modifies grid, known, projs, count
    ensures ret == 0 || ret == EIO
    ensures ret == 0 ==> Equals(grid, g)
    ensures ret == 0 <==> start + |u| == grid.Length0 * grid.Length1 && PeelableWithin(u, dirs)
    ensures forall r, c :: 0 <= r < grid.Length0 && 0 <= c < grid.Length1 && Pixel(r, c) !in u ==> grid[r, c] == g(Pixel(r, c))
  {
    hide Stuck, Buffers, Separate, Loaded;
    var total := grid.Length0 * grid.Length1;
    var recovered := start;
    ghost var v := u;
    while recovered < total
      invariant Ready(grid, known, missingRow, dirs, projs, count, v, g)
      invariant recovered + |v| == start + |u| && v <= u && StuckWithin(u, v, dirs)
      invariant recovered < total || v == {}
      decreases total - recovered
    {
      ghost var before := v;
      var gained;
      gained, v := PeelPass(grid, known, missingRow, dirs, projs, count, before, g);
      StuckWithinChain(u, before, v, dirs);
      recovered := recovered + gained;
      if gained == 0 {
        break;
      }
    }
    ret := if recovered == total then 0 else EIO;
  }

  // ----- setting up

  lemma GainCount(was: seq<int>, count: seq<int>, d: Direction, off: int, t: set<Pixel>, x: Pixel)
    requires Counts(was, d, off, t) && x !in t && |count| == |was|
    requires forall b :: 0 <= b < |count| ==> count[b] == if Along(d, x) == b + off then was[b] + 1 else was[b]
    ensures Counts(count, d, off, t + {x})
  {
    hide Along;
    forall b | 0 <= b < |count| ensures count[b] == |Line(t + {x}, d, b + off)| {
      if Along(d, x) == b + off {
        assert Line(t + {x}, d, b + off) == Line(t, d, b + off) + {x};
      } else {
        assert Line(t + {x}, d, b + off) == Line(t, d, b + off);
      }
    }
  }

  lemma LosePixel(was: seq<Word>, bins: seq<Word>, d: Direction, off: int, s: set<Pixel>, x: Pixel, g: Image)
    requires Holds(was, d, off, s, g) && x in s && |bins| == |was|
    requires forall b :: 0 <= b < |bins| ==> bins[b] == if Along(d, x) == b + off then Xor(was[b], g(x)) else was[b]
    ensures Holds(bins, d, off, s - {x}, g)
  {
    hide Along, Xor;
    forall b | 0 <= b < |bins| ensures bins[b] == XorOver(Line(s - {x}, d, b + off), g) {
      LineLosesPixel(s, x, d, b + off, g);
    }
  }

  /** XOR a known pixel out of one projection, or count an unknown one. */
  method VisitOne(bins: array<Word>, count: array<int>, d: Direction, P: nat, Q: nat, row: nat, col: nat,
                  isKnown: bool, val: Word, ghost s: set<Pixel>, ghost t: set<Pixel>, ghost g: Image)
    requires bins.Length >= ProjectionSize(d, P, Q) && count.Length >= ProjectionSize(d, P, Q) && bins as object != count
    requires Holds(bins[..], d, BinOffset(d, P, Q), s, g) && Counts(count[..], d, BinOffset(d, P, Q), t)
    requires row < Q && col < P && Pixel(row, col) in s && Pixel(row, col) !in t
    requires isKnown ==> val == g(Pixel(row, col))
    modifies bins, count
    ensures Holds(bins[..], d, BinOffset(d, P, Q), if isKnown then s - {Pixel(row, col)} else s, g)
    ensures Counts(count[..], d, BinOffset(d, P, Q), if isKnown then t else t + {Pixel(row, col)})
  {
    hide Xor, Along, BinOffset, ProjectionSize, Holds, Counts;
    ghost var x, was, wasCount := Pixel(row, col), bins[..], count[..];
    var off := BinOffset(d, P, Q);
    var b := row * d.p + col * d.q - off;
    BinIsLine(d, P, Q, x);
    if isKnown {
      bins[b] := Xor(bins[b], val);
      LosePixel(was, bins[..], d, off, s, x, g);
      assert count[..] == wasCount;
    } else {
      count[b] := count[b] + 1;
      GainCount(wasCount, count[..], d, off, t, x);
      assert bins[..] == was;
    }
  }

  method VisitPixel(projs: seq<array<Word>>, count: seq<array<int>>, dirs: seq<Direction>, P: nat, Q: nat,
                    row: nat, col: nat, isKnown: bool, val: Word, ghost s: set<Pixel>, ghost t: set<Pixel>, ghost g: Image)
    requires Buffers(projs, dirs, P, Q) && Buffers(count, dirs, P, Q) && Separate(projs, count)
    requires Loaded(projs, count, dirs, P, Q, s, t, g)
    requires row < Q && col < P && Pixel(row, col) in s && Pixel(row, col) !in t
    requires isKnown ==> val == g(Pixel(row, col))
    modifies projs, count
    ensures Loaded(projs, count, dirs, P, Q, if isKnown then s - {Pixel(row, col)} else s,
                   if isKnown then t else t + {Pixel(row, col)}, g)
  {
    hide Holds, Counts, BinOffset, ProjectionSize;
    ghost var s' := if isKnown then s - {Pixel(row, col)} else s;
    ghost var t' := if isKnown then t else t + {Pixel(row, col)};
    for j := 0 to |dirs|
      invariant forall i :: 0 <= i < j ==>
                  && Holds(projs[i][..], dirs[i], BinOffset(dirs[i], P, Q), s', g)
                  && Counts(count[i][..], dirs[i], BinOffset(dirs[i], P, Q), t')
      invariant forall i :: j <= i < |dirs| ==>
                  && Holds(projs[i][..], dirs[i], BinOffset(dirs[i], P, Q), s, g)
                  && Counts(count[i][..], dirs[i], BinOffset(dirs[i], P, Q), t)
    {
      VisitOne(projs[j], count[j], dirs[j], P, Q, row, col, isKnown, val, s, t, g);
    }
  }

  /** The pixels of the missing rows. */
  ghost function Unknown(missingRow: seq<bool>, P: nat): set<Pixel> {
    set x | x in Grid(P, |missingRow|) && missingRow[x.row]
  }

  /** What bins and counts hold once the pixels of `seen` have been visited. */
  ghost function BinsAfter(u: set<Pixel>, all: set<Pixel>, seen: set<Pixel>): set<Pixel> {
    u + (all - seen)
  }

  ghost function CountsAfter(u: set<Pixel>, seen: set<Pixel>): set<Pixel> {
    u * seen
  }

  lemma SeeOneMore(u: set<Pixel>, all: set<Pixel>, seen: set<Pixel>, x: Pixel)
    requires u <= all && x in all && x !in seen
    ensures x in BinsAfter(u, all, seen) && x !in CountsAfter(u, seen)
    ensures BinsAfter(u, all, seen + {x}) == if x in u then BinsAfter(u, all, seen) else BinsAfter(u, all, seen) - {x}
    ensures CountsAfter(u, seen + {x}) == if x in u then CountsAfter(u, seen) + {x} else CountsAfter(u, seen)
  {}

  /** After this, bins hold only unknown pixels and counts count them. */
  method Load(grid: array2<Word>, missingRow: seq<bool>, dirs: seq<Direction>,
              projs: seq<array<Word>>, count: seq<array<int>>, ghost g: Image)
    requires |missingRow| == grid.Length0
    requires Buffers(projs, dirs, grid.Length1, grid.Length0) && Buffers(count, dirs, grid.Length1, grid.Length0)
    requires Separate(projs, count)
    requires Loaded(projs, count, dirs, grid.Length1, grid.Length0, Grid(grid.Length1, grid.Length0), {}, g)
    requires forall r, c :: 0 <= r < grid.Length0 && 0 <= c < grid.Length1 && !missingRow[r] ==> grid[r, c] == g(Pixel(r, c))
    modifies projs, count
    ensures var u := Unknown(missingRow, grid.Length1); Loaded(projs, count, dirs, grid.Length1, grid.Length0, u, u, g)
  {
    hide Loaded, BinsAfter, CountsAfter, Before;
    var P, Q := grid.Length1, grid.Length0;
    ghost var all, u := Grid(P, Q), Unknown(missingRow, P);
    NothingSeen(u, all);
    assert Grid(P, 0) == {};
    for row := 0 to Q
      invariant Loaded(projs, count, dirs, P, Q, BinsAfter(u, all, Grid(P, row)), CountsAfter(u, Grid(P, row)), g)
    {
      RowMajor(P, row, 0);
      for col := 0 to P
        invariant Loaded(projs, count, dirs, P, Q, BinsAfter(u, all, Before(P, row, col)), CountsAfter(u, Before(P, row, col)), g)
      {
        ghost var seen, x := Before(P, row, col), Pixel(row, col);
        RowMajor(P, row, col);
        SeeOneMore(u, all, seen, x);
        VisitPixel(projs, count, dirs, P, Q, row, col, !missingRow[row], grid[row, col],
                   BinsAfter(u, all, seen), CountsAfter(u, seen), g);
      }
      RowMajor(P, row, P);
    }
    AllSeen(u, all);
  }

  lemma NothingSeen(u: set<Pixel>, all: set<Pixel>)
    requires u <= all
    ensures BinsAfter(u, all, {}) == all && CountsAfter(u, {}) == {}
  {}

  lemma AllSeen(u: set<Pixel>, all: set<Pixel>)
    requires u <= all
    ensures BinsAfter(u, all, all) == u && CountsAfter(u, all) == u
  {}

  method NewCounts(projs: seq<array<Word>>) returns (count: seq<array<int>>)
    ensures |count| == |projs| && Apart(count)
    ensures forall i :: 0 <= i < |count| ==> fresh(count[i]) && count[i].Length == projs[i].Length
    ensures forall i, b :: 0 <= i < |count| && 0 <= b < count[i].Length ==> count[i][b] == 0
  {
    count := [];
    for j := 0 to |projs|
      invariant |count| == j && Apart(count)
      invariant forall i :: 0 <= i < |count| ==> fresh(count[i]) && count[i].Length == projs[i].Length
      invariant forall i, b :: 0 <= i < |count| && 0 <= b < count[i].Length ==> count[i][b] == 0
    {
      var zeros := new int[projs[j].Length](_ => 0);
      count := count + [zeros];
    }
  }

  // ----- the dense inverse

  lemma StartLoaded(projs: seq<array<Word>>, count: seq<array<int>>, dirs: seq<Direction>, P: nat, Q: nat, g: Image)
    requires |projs| == |count| == |dirs|
    requires forall i :: 0 <= i < |dirs| ==> IsProjection(projs[i][..], dirs[i], g, P, Q)
    requires forall i, b :: 0 <= i < |count| && 0 <= b < count[i].Length ==> count[i][b] == 0
    ensures Loaded(projs, count, dirs, P, Q, Grid(P, Q), {}, g)
  {
    hide Along;
    forall i | 0 <= i < |dirs| ensures Counts(count[i][..], dirs[i], BinOffset(dirs[i], P, Q), {}) {
      forall b | 0 <= b < count[i].Length ensures count[i][..][b] == |Line({}, dirs[i], b + BinOffset(dirs[i], P, Q))| {
        assert Line({}, dirs[i], b + BinOffset(dirs[i], P, Q)) == {};
      }
    }
  }

  /** Counters for the bins, and every pixel of a known row removed from the bins. */
  method Prepare(grid: array2<Word>, known: array2<bool>, missingRow: seq<bool>, dirs: seq<Direction>, projs: seq<array<Word>>, ghost g: Image)
    returns (count: seq<array<int>>)
    requires Buffers(projs, dirs, grid.Length1, grid.Length0) && known as object != grid
    requires |missingRow| == grid.Length0 == known.Length0 && known.Length1 == grid.Length1
    requires forall i :: 0 <= i < |projs| ==> projs[i] as object != known
    requires forall i :: 0 <= i < |dirs| ==> IsProjection(projs[i][..], dirs[i], g, grid.Length1, grid.Length0)
    requires forall r, c :: 0 <= r < grid.Length0 && 0 <= c < grid.Length1 ==> known[r, c] == !missingRow[r]
    requires forall r, c :: 0 <= r < grid.Length0 && 0 <= c < grid.Length1 && !missingRow[r] ==> grid[r, c] == g(Pixel(r, c))
    modifies projs
    ensures forall i :: 0 <= i < |count| ==> fresh(count[i])
    ensures Ready(grid, known, missingRow, dirs, projs, count, Unknown(missingRow, grid.Length1), g)
  {
    hide Along, IsProjection, Holds, Counts, BinOffset, ProjectionSize;
    count := NewCounts(projs);
    StartLoaded(projs, count, dirs, grid.Length1, grid.Length0, g);
    Load(grid, missingRow, dirs, projs, count, g);
  }

  /** Reconstruct the whole grid.  It succeeds exactly when the grid is peelable
      along `dirs`, which is to say when the criterion holds of the reduced
      directions, and then the grid is the image the bins were computed from. */
  method InversePeel(grid: array2<Word>, dirs: seq<Direction>, projs: seq<array<Word>>, ghost g: Image) returns (ret: int)
    requires Buffers(projs, dirs, grid.Length1, grid.Length0)
    requires forall i :: 0 <= i < |dirs| ==> IsProjection(projs[i][..], dirs[i], g, grid.Length1, grid.Length0)
    modifies grid, projs
    ensures ret == 0 || ret == EIO
    ensures ret == 0 <==> Peelable(dirs, grid.Length1, grid.Length0)
    ensures ret == 0 <==> ReducedCriterion(dirs, grid.Length1, grid.Length0)
    ensures ret == 0 ==> Equals(grid, g)
  {
    hide Along, IsProjection, Holds, Counts, BinOffset, ProjectionSize, Stuck, Ready, ReducedCriterion;
    var P, Q := grid.Length1, grid.Length0;
    forall r, c | 0 <= r < Q && 0 <= c < P {
      grid[r, c] := 0;
    }
    assert forall i :: 0 <= i < |projs| ==> projs[i][..] == old(projs[i][..]);
    var known := new bool[Q, P]((_, _) => false);
    var missingRow := seq(Q, _ => true);
    var count := Prepare(grid, known, missingRow, dirs, projs, g);
    ghost var u := Grid(P, Q);
    assert Unknown(missingRow, P) == u;
    GridSize(P, Q);
    KatzTheorem(dirs, P, Q);
    ret := PeelLoop(grid, known, missingRow, dirs, projs, count, 0, u, g);
  }

  // ----- the sparse inverse

  function RowSet(rows: seq<int>): set<int> {
    set r | r in rows
  }

  ghost predicate NoRepeats(rows: seq<int>) {
    forall i, j :: 0 <= i < j < |rows| ==> rows[i] != rows[j]
  }

  lemma LastRepeats(rows: seq<int>, n: nat)
    requires |rows| == n + 1
    ensures NoRepeats(rows) <==> NoRepeats(rows[..n]) && rows[n] !in rows[..n]
  {
    if rows[n] in rows[..n] {
      var i :| 0 <= i < n && rows[i] == rows[n];
    }
  }

  lemma {:induction false} RowSetSize(rows: seq<int>)
    ensures |RowSet(rows)| <= |rows|
    ensures |RowSet(rows)| == |rows| <==> NoRepeats(rows)
  {
    if rows != [] {
      var n := |rows| - 1;
      RowSetSize(rows[..n]);
      hide NoRepeats;
      assert RowSet(rows) == RowSet(rows[..n]) + {rows[n]};
      LastRepeats(rows, n);
      if rows[n] in rows[..n] {
        assert RowSet(rows) == RowSet(rows[..n]);
      }
    }
  }

  ghost function PixelsOf(rows: set<int>, P: nat): set<Pixel> {
    set r, c | r in rows && 0 <= c < P :: Pixel(r, c)
  }

  lemma OneMore(n: nat, P: nat)
    ensures (n + 1) * P == n * P + P
  {}

  lemma {:induction false} PixelsOfSize(rows: set<int>, P: nat)
    ensures |PixelsOf(rows, P)| == |rows| * P
  {
    if rows == {} {
      assert PixelsOf(rows, P) == {};
    } else {
      var r := Pick(rows);
      PixelsOfSize(rows - {r}, P);
      RowSize(P, r);
      assert PixelsOf(rows, P) == PixelsOf(rows - {r}, P) + RowOf(P, r);
      OneMore(|rows - {r}|, P);
    }
  }

  predicate RowsInRange(rows: seq<int>, Q: nat) {
    forall i :: 0 <= i < |rows| ==> 0 <= rows[i] < Q
  }

  /** Reconstruct the missing rows from FULL forward bins and the known rows.
      Besides a set of unknown pixels with no stuck subset, success needs the
      row list to name no row twice: the code counts |missing| * P unknowns. */
  method InversePeelSparse(grid: array2<Word>, dirs: seq<Direction>, projs: seq<array<Word>>, missing: seq<int>,
                           ghost g: Image) returns (ret: int)
    requires Buffers(projs, dirs, grid.Length1, grid.Length0)
    requires forall i :: 0 <= i < |dirs| ==> IsProjection(projs[i][..], dirs[i], g, grid.Length1, grid.Length0)
    requires forall r, c :: 0 <= r < grid.Length0 && 0 <= c < grid.Length1 && r !in missing ==> grid[r, c] == g(Pixel(r, c))
    modifies grid, projs
    ensures var valid := 1 <= |missing| <= grid.Length0 && RowsInRange(missing, grid.Length0);
            && (!valid ==> ret == EINVAL && unchanged(grid) && forall i :: 0 <= i < |projs| ==> unchanged(projs[i]))
            && (valid ==> ret == 0 || ret == EIO)
            && (valid ==> (ret == 0 <==> (grid.Length1 == 0 || NoRepeats(missing))
                                         && PeelableWithin(PixelsOf(RowSet(missing), grid.Length1), dirs)))
    ensures ret == 0 ==> Equals(grid, g)
    ensures forall r, c :: 0 <= r < grid.Length0 && 0 <= c < grid.Length1 && r !in missing ==> grid[r, c] == g(Pixel(r, c))
  {
    hide Along, IsProjection, Holds, Counts, BinOffset, ProjectionSize, Stuck, Ready;
    var P, Q := grid.Length1, grid.Length0;
    if |missing| < 1 || |missing| > Q {
      return EINVAL;
    }
    for i := 0 to |missing|
      invariant RowsInRange(missing[..i], Q)
    {
      if missing[i] < 0 || missing[i] >= Q {
        return EINVAL;
      }
    }
    var missingRow := seq(Q, r => r in missing);
    var known := new bool[Q, P]((r, c) => r !in missing);
    var count := Prepare(grid, known, missingRow, dirs, projs, g);
    ghost var u := PixelsOf(RowSet(missing), P);
    assert Unknown(missingRow, P) == u;
    PixelsOfSize(RowSet(missing), P);
    RowSetSize(missing);
    Excess(|missing|, |RowSet(missing)|, P);
    ret := PeelLoop(grid, known, missingRow, dirs, projs, count, Q * P - |missing| * P, u, g);
  }

  lemma Excess(n: nat, k: nat, P: nat)
    requires k <= n
    ensures k * P <= n * P
    ensures k * P == n * P <==> P == 0 || k == n
  {}
}
