/** Mojette erasure codes with k data and m parity shards: direction generation,
    the dispatchers between the two inverses, and the systematic and
    non-systematic encoders and decoders.  A shard is a buffer of 64-bit words. */
module MojetteCode {
  import opened Basics
  import opened Errno
  import opened Geometry
  import opened Forward
  import opened Katz
  import opened Reduction
  import opened Peel
  import opened Sweep
  import opened Wrappers

  const MAX_STRIPE_WIDTH := 64

  // ----- directions

  /** n directions with q = 1 and distinct non-zero p, as symmetric around 0 as n allows. */
  method GenerateDirections(n: nat) returns (dirs: seq<Direction>)
    ensures |dirs| == n && UnitSlopes(dirs)
    ensures forall i :: 0 <= i < n ==> dirs[i].p == if i < n / 2 then i - n / 2 else i - n / 2 + 1
  {
    dirs := [];
    var half := n / 2;
    for i := half downto 0
      invariant |dirs| == half - i
      invariant forall t :: 0 <= t < |dirs| ==> dirs[t] == Direction(t - half, 1)
    {
      dirs := dirs + [Direction(-(i + 1), 1)];
    }
    var i := 1;
    while |dirs| < n
      invariant half <= |dirs| <= n && i == |dirs| - half + 1
      invariant forall t :: 0 <= t < |dirs| ==> dirs[t] == Direction(if t < half then t - half else t - half + 1, 1)
    {
      dirs := dirs + [Direction(i, 1)];
      i := i + 1;
    }
  }

  // ----- dispatchers

  lemma DistinctUnit(dirs: seq<Direction>, missing: seq<int>, P: nat)
    requires UnitSlopes(dirs)
    ensures |missing| == |dirs| ==> Spaced(Sorted(dirs), missing, P)
  {
    hide Sorted, Spaced;
    if |missing| == |dirs| {
      DistinctIsSpaced(dirs, missing, P);
    }
  }

  lemma {:induction false} UnitSumQ(dirs: seq<Direction>)
    requires UnitQ(dirs)
    ensures SumAbsQ(dirs) == |dirs|
  {
    if dirs != [] {
      UnitSumQ(dirs[..|dirs| - 1]);
    }
  }

  lemma SquareIsPeelable(dirs: seq<Direction>, P: nat, Q: nat)
    requires UnitSlopes(dirs) && |dirs| >= Q
    ensures Peelable(dirs, P, Q)
  {
    UnitSumQ(dirs);
    KatzForUnitSlopes(dirs, P, Q);
  }

  /** Whether the dispatchers run the sweep. */
  ghost predicate Sweeps(gdEnabled: bool, dirs: seq<Direction>, missing: seq<int>, P: nat, Q: nat) {
    gdEnabled && GdShape(P, Q, dirs, missing)
  }

  lemma AllRowsAreTheGrid(dirs: seq<Direction>, P: nat, Q: nat)
    requires GdShape(P, Q, dirs, AllRows(Q)) && Spaced(Sorted(dirs), AllRows(Q), P)
    ensures Peelable(dirs, P, Q)
  {
    hide Sorted, Spaced, Stuck, GdShape;
    SpacedIsPeelable(dirs, AllRows(Q), P, Q);
    forall r | 0 <= r < Q ensures r in AllRows(Q) {
      assert AllRows(Q)[r] == r;
    }
    assert Grid(P, Q) == PixelsOf(RowSet(AllRows(Q)), P);
  }

  /** Reconstruct the whole grid with whichever inverse the flag selects.  Peeling
      succeeds exactly on peelable grids.  The sweep always reports success; where
      rows that share a slope are apart the grid is peelable and the image is
      restored, so the flag changes nothing.  Where two rows clash it does: the
      image that is non-zero just at u comes back wrong. */
  method Inverse(gdEnabled: bool, grid: array2<Word>, dirs: seq<Direction>, projs: seq<array<Word>>, ghost u: Pixel, ghost g: Image)
    returns (ret: int)
    requires Buffers(projs, dirs, grid.Length1, grid.Length0)
    requires forall i :: 0 <= i < |dirs| ==> IsProjection(projs[i][..], dirs[i], g, grid.Length1, grid.Length0)
    modifies grid, projs
    ensures var P, Q := grid.Length1, grid.Length0;
            if Sweeps(gdEnabled, dirs, AllRows(Q), P, Q) then
              && ret == 0
              && (Spaced(Sorted(dirs), AllRows(Q), P) ==> Peelable(dirs, P, Q) && Equals(grid, g))
              && (Clashes(Sorted(dirs), AllRows(Q), P, u) && OffAt(Zeros(P, Q), P, Q, u, g) ==> !Equals(grid, g))
            else
              && (ret == 0 || ret == EIO)
              && (ret == 0 <==> Peelable(dirs, P, Q))
              && (ret == 0 ==> Equals(grid, g))
  {
    hide IsProjection, ProjectionSize, Stuck, Sorted, Spaced, Clashes, OffAt, Peelable;
    if gdEnabled && |dirs| == grid.Length0 {
      var ok := AllUnitQ(dirs);
      if ok {
        ret := InverseGd(grid, dirs, projs, u, g);
        if ret != EINVAL {
          if Spaced(Sorted(dirs), AllRows(grid.Length0), grid.Length1) {
            AllRowsAreTheGrid(dirs, grid.Length1, grid.Length0);
          }
          return;
        }
        assert forall i :: 0 <= i < |projs| ==> projs[i][..] == old(projs[i][..]);
      }
    }
    ret := InversePeel(grid, dirs, projs, g);
  }

  lemma PairIsStuck(dirs: seq<Direction>, d: Direction, y: Pixel, z: Pixel)
    requires (forall e :: e in dirs ==> e == d) && y != z && Along(d, y) == Along(d, z)
    ensures Stuck({y, z}, dirs)
  {
    hide Along;
    forall e, x | e in dirs && x in {y, z} ensures HasPartner({y, z}, e, x) {
      assert e == d;
      assert y in {y, z} && z in {y, z};
    }
  }

  lemma RepeatedIsStuck(dirs: seq<Direction>, P: nat, Q: nat)
    requires (forall d :: d in dirs ==> d == Direction(1, 1)) && P >= 2 && Q >= 2
    ensures !Peelable(dirs, P, Q)
  {
    hide Stuck;
    var y, z := Pixel(0, 1), Pixel(1, 0);
    PairIsStuck(dirs, Direction(1, 1), y, z);
    assert {y, z} <= Grid(P, Q) && y in {y, z};
  }

  lemma RepeatedSorts(d: Direction)
    ensures Sorted([d, d]) == [d.p, d.p]
  {
    var dirs := [d, d];
    assert dirs[..1] == [d] && [d][..0] == [];
    assert Sorted([d]) == [d.p];
  }

  /** Two directions of slope 1 on a 2 x 2 grid: peeling refuses the grid, the sweep
      reports success, and the image that is non-zero just at (1, 0) comes back wrong. */
  lemma RepeatedSlope()
    ensures var dirs, u := [Direction(1, 1), Direction(1, 1)], Pixel(1, 0);
            && GdShape(2, 2, dirs, AllRows(2)) && !Peelable(dirs, 2, 2)
            && !Spaced(Sorted(dirs), AllRows(2), 2) && Clashes(Sorted(dirs), AllRows(2), 2, u)
            && exists g :: OffAt(Zeros(2, 2), 2, 2, u, g)
  {
    hide Peelable, Sorted, OffAt, Zeros, FlippedAt;
    var dirs, u := [Direction(1, 1), Direction(1, 1)], Pixel(1, 0);
    RepeatedIsStuck(dirs, 2, 2);
    RepeatedSorts(Direction(1, 1));
    assert Clash([1, 1], AllRows(2), 2, 0, 1, u);
    ZerosShape(2, 2);
    FlippedIsOff(Zeros(2, 2), 2, 2, u);
  }

  lemma ZerosShape(P: nat, Q: nat)
    ensures Shape(Zeros(P, Q), P, Q)
  {}

  /** As many directions as missing rows leave nothing stuck. */
  lemma EnoughDirections(dirs: seq<Direction>, missing: seq<int>, P: nat, Q: nat)
    requires UnitSlopes(dirs) && RowsInRange(missing, Q) && |missing| <= |dirs|
    ensures PeelableWithin(PixelsOf(RowSet(missing), P), dirs)
  {
    UnitSlopesIndependent(dirs);
    RowSetSize(missing);
    forall s: set<Pixel> | s <= PixelsOf(RowSet(missing), P) && Stuck(s, dirs) ensures s == {} {
      StuckSetNeedsRows(s, dirs, RowSet(missing));
    }
  }

  /** Reconstruct the missing rows with whichever inverse the flag selects: as for
      the whole grid, with the rows and the contents the caller passes. */
  method InverseSparse(gdEnabled: bool, grid: array2<Word>, dirs: seq<Direction>, projs: seq<array<Word>>,
                       missing: seq<int>, ghost u: Pixel, ghost g: Image) returns (ret: int)
    requires Buffers(projs, dirs, grid.Length1, grid.Length0)
    requires forall i :: 0 <= i < |dirs| ==> IsProjection(projs[i][..], dirs[i], g, grid.Length1, grid.Length0)
    requires KnownRows(grid, missing, g)
    modifies grid, projs
    ensures var P, Q := grid.Length1, grid.Length0;
            if !(1 <= |missing| <= Q && RowsInRange(missing, Q)) then
              ret == EINVAL
            else if Sweeps(gdEnabled, dirs, missing, P, Q) then
              && ret == 0
              && (Spaced(Sorted(dirs), missing, P) ==> PeelableWithin(PixelsOf(RowSet(missing), P), dirs) && Equals(grid, g))
              && (Clashes(Sorted(dirs), missing, P, u) && OffAt(old(Cells(grid)), P, Q, u, g) ==> !Equals(grid, g))
            else
              && (ret == 0 || ret == EIO)
              && (ret == 0 <==> (P == 0 || NoRepeats(missing)) && PeelableWithin(PixelsOf(RowSet(missing), P), dirs))
              && (ret == 0 ==> Equals(grid, g))
  {
    hide IsProjection, ProjectionSize, Stuck, Sorted, Spaced, Clashes, OffAt, PeelableWithin;
    if gdEnabled && |dirs| == |missing| {
      var ok := AllUnitQ(dirs);
      if ok {
        ret := InverseGdSparse(grid, dirs, projs, missing, u, g);
        if ret != EINVAL {
          if Spaced(Sorted(dirs), missing, grid.Length1) {
            SpacedIsPeelable(dirs, missing, grid.Length1, grid.Length0);
          }
          return;
        }
        assert forall i :: 0 <= i < |projs| ==> projs[i][..] == old(projs[i][..]);
      }
    }
    ret := InversePeelSparse(grid, dirs, projs, missing, g);
  }

  // ----- codes

  datatype Code = Code(k: nat, m: nat, dirs: seq<Direction>, systematic: bool)

  ghost predicate ValidCode(code: Code) {
    code.k >= 1 && code.m >= 1 && |code.dirs| == code.k + code.m <= MAX_STRIPE_WIDTH && UnitSlopes(code.dirs)
  }

  method Create(k: int, m: int, systematic: bool) returns (code: Option<Code>)
    ensures code.Some? <==> k >= 1 && m >= 1 && k + m <= MAX_STRIPE_WIDTH
    ensures code.Some? ==> ValidCode(code.value) && code.value.k == k && code.value.m == m && code.value.systematic == systematic
    ensures code.Some? ==> forall i :: 0 <= i < k + m ==>
              code.value.dirs[i] == Direction(if i < (k + m) / 2 then i - (k + m) / 2 else i - (k + m) / 2 + 1, 1)
  {
    if k < 1 || m < 1 || k + m > MAX_STRIPE_WIDTH {
      return None;
    }
    var dirs := GenerateDirections(k + m);
    code := Some(Code(k, m, dirs, systematic));
  }

  /** Bins of shard i's projection of a k-row grid with P columns. */
  function Nbins(code: Code, i: nat, P: nat): int
    requires i < |code.dirs|
  {
    ProjectionSize(code.dirs[i], P, code.k)
  }

  /** Words of shard i when data rows have P words. */
  function ShardWords(code: Code, i: nat, P: nat): int
    requires i < |code.dirs|
  {
    if code.systematic && i < code.k then P else Nbins(code, i, P)
  }

  /** A projection has room for a row, so a decoded row fits its shard. */
  lemma ShardHoldsRow(code: Code, i: nat, P: nat)
    requires ValidCode(code) && i < |code.dirs|
    ensures P <= Nbins(code, i, P) && P <= ShardWords(code, i, P)
  {
    assert code.dirs[i].q == 1;
    assert Abs(code.dirs[i].p) * (code.k - 1) >= 0;
  }

  ghost predicate HoldsRow(shard: array<Word>, r: nat, P: nat, g: Image)
    reads shard
  {
    shard.Length >= P && forall c :: 0 <= c < P ==> shard[c] == g(Pixel(r, c))
  }

  ghost predicate HoldsProjection(code: Code, shard: array<Word>, i: nat, P: nat, g: Image)
    requires i < |code.dirs|
    reads shard
  {
    shard.Length >= Nbins(code, i, P) >= 0 && IsProjection(shard[..Nbins(code, i, P)], code.dirs[i], g, P, code.k)
  }

  /** The buffers of a stripe: one per shard, no two the same, each at least shard-sized. */
  ghost predicate StripeBuffers(code: Code, shards: seq<array<Word>>, P: nat) {
    && |shards| == |code.dirs| && Apart(shards)
    && forall i :: 0 <= i < |shards| ==> shards[i].Length == ShardWords(code, i, P)
  }

  lemma WholeShard(code: Code, shard: array<Word>, i: nat, P: nat, g: Image)
    requires i < |code.dirs| && shard.Length == Nbins(code, i, P) && IsProjection(shard[..], code.dirs[i], g, P, code.k)
    ensures HoldsProjection(code, shard, i, P, g)
  {
    assert shard[..Nbins(code, i, P)] == shard[..];
  }

  /** Parity shards are the projections along the last m directions. */
  method SysEncode(code: Code, isa: Isa, scalarOnly: bool, shards: seq<array<Word>>, P: nat, ghost g: Image)
    requires ValidCode(code) && code.systematic && StripeBuffers(code, shards, P)
    requires forall i :: 0 <= i < code.k ==> HoldsRow(shards[i], i, P, g)
    modifies shards[code.k..]
    ensures forall i :: 0 <= i < code.k ==> HoldsRow(shards[i], i, P, g)
    ensures forall i :: code.k <= i < |shards| ==> HoldsProjection(code, shards[i], i, P, g)
  {
    hide IsProjection, ProjectionSize;
    var k := code.k;
    var rows, parity := shards[..k], shards[k..];
    ForwardRows(isa, scalarOnly, rows, P, code.dirs[k..], parity, g);
    forall i | k <= i < |shards| ensures HoldsProjection(code, shards[i], i, P, g) {
      assert shards[i] == parity[i - k] && code.dirs[i] == code.dirs[k..][i - k];
      WholeShard(code, shards[i], i, P, g);
    }
  }

  // ----- collecting what survived

  function Lost(present: seq<bool>): nat {
    if present == [] then 0 else Lost(present[..|present| - 1]) + if present[|present| - 1] then 0 else 1
  }

  lemma {:induction false} LostSplit(present: seq<bool>, k: nat)
    requires k <= |present|
    ensures Lost(present) == Lost(present[..k]) + Lost(present[k..])
  {
    var n := |present| - 1;
    if k == |present| {
      assert present[..k] == present && present[k..] == [];
    } else {
      LostSplit(present[..n], k);
      assert present[..n][..k] == present[..k];
      assert present[k..][..n - k] == present[..n][k..];
    }
  }

  lemma {:induction false} LostBound(present: seq<bool>)
    ensures Lost(present) <= |present|
    ensures Lost(present) == 0 <==> forall i :: 0 <= i < |present| ==> present[i]
  {
    if present != [] {
      var n := |present| - 1;
      LostBound(present[..n]);
      if Lost(present) == 0 {
        forall i | 0 <= i < |present| ensures present[i] {
          assert i < n ==> present[..n][i] == present[i];
        }
      }
    }
  }

  lemma NothingLost()
    ensures Lost([]) == 0
  {}

  lemma LostStep(present: seq<bool>, i: nat)
    requires i < |present|
    ensures Lost(present[..i + 1]) == Lost(present[..i]) + if present[i] then 0 else 1
  {
    assert present[..i + 1][..i] == present[..i];
  }

  method CountLost(present: seq<bool>) returns (lost: nat)
    ensures lost == Lost(present)
  {
    lost := 0;
    for i := 0 to |present|
      invariant lost == Lost(present[..i])
    {
      LostStep(present, i);
      if !present[i] {
        lost := lost + 1;
      }
    }
    assert present[..|present|] == present;
  }

  method CopyPrefix(src: array<Word>, n: nat) returns (copy: array<Word>)
    requires n <= src.Length
    ensures fresh(copy) && copy[..] == src[..n]
  {
    copy := new Word[n](j requires 0 <= j < n <= src.Length reads src => src[j]);
  }

  /** Copy the first `want` surviving projections among shards from.. into fresh buffers. */
  method Collect(code: Code, shards: seq<array<Word>>, present: seq<bool>, from: nat, want: nat, P: nat, ghost g: Image)
    returns (dirs: seq<Direction>, projs: seq<array<Word>>)
    requires ValidCode(code) && |shards| == |present| == |code.dirs| && from <= |shards|
    requires forall i :: from <= i < |shards| && present[i] ==> HoldsProjection(code, shards[i], i, P, g)
    requires want <= |shards| - from - Lost(present[from..])
    ensures |dirs| == want && UnitSlopes(dirs) && Buffers(projs, dirs, P, code.k)
    ensures forall t :: 0 <= t < |projs| ==> fresh(projs[t]) && IsProjection(projs[t][..], dirs[t], g, P, code.k)
  {
    hide IsProjection, ProjectionSize, UnitSlopes, Lost;
    NothingLost();
    dirs, projs := [], [];
    ghost var idx: seq<nat> := [];
    var i := from;
    while i < |shards| && |dirs| < want
      invariant from <= i <= |shards| && |dirs| == |projs| == |idx| <= want
      invariant |dirs| == want || |dirs| == i - from - Lost(present[from..][..i - from])
      invariant forall t :: 0 <= t < |idx| ==> idx[t] < i && dirs[t] == code.dirs[idx[t]]
      invariant forall s, t :: 0 <= s < t < |idx| ==> idx[s] < idx[t]
      invariant Apart(projs)
      invariant forall t :: 0 <= t < |projs| ==> fresh(projs[t]) && projs[t].Length == ProjectionSize(dirs[t], P, code.k)
      invariant forall t :: 0 <= t < |projs| ==> IsProjection(projs[t][..], dirs[t], g, P, code.k)
    {
      LostStep(present[from..], i - from);
      if present[i] {
        var copy := CopyPrefix(shards[i], Nbins(code, i, P));
        dirs, projs, idx := dirs + [code.dirs[i]], projs + [copy], idx + [i];
      }
      i := i + 1;
    }
    assert present[from..][..|shards| - from] == present[from..];
    ChosenSlopes(code.dirs, idx, dirs);
  }

  lemma ChosenSlopes(all: seq<Direction>, idx: seq<nat>, dirs: seq<Direction>)
    requires UnitSlopes(all) && |idx| == |dirs|
    requires forall t :: 0 <= t < |idx| ==> idx[t] < |all| && dirs[t] == all[idx[t]]
    requires forall s, t :: 0 <= s < t < |idx| ==> idx[s] < idx[t]
    ensures UnitSlopes(dirs)
  {}

  // ----- systematic decoding

  /** The full grid with surviving rows filled in, and the missing rows in ascending order. */
  method GatherRows(code: Code, shards: seq<array<Word>>, present: seq<bool>, P: nat, ghost g: Image)
    returns (grid: array2<Word>, missing: seq<int>)
    requires |shards| == |present| && code.k <= |shards|
    requires forall i :: 0 <= i < code.k && present[i] ==> HoldsRow(shards[i], i, P, g)
    ensures fresh(grid) && grid.Length0 == code.k && grid.Length1 == P && KnownRows(grid, missing, g)
    ensures Ascending(missing) && RowsInRange(missing, code.k) && |missing| == Lost(present[..code.k])
    ensures forall r :: r in missing <==> 0 <= r < code.k && !present[r]
  {
    hide Lost;
    grid := new Word[code.k, P]((_, _) => 0);
    missing := [];
    NothingLost();
    for i := 0 to code.k
      invariant Ascending(missing) && RowsInRange(missing, i) && |missing| == Lost(present[..code.k][..i])
      invariant forall r :: r in missing <==> 0 <= r < i && !present[r]
      invariant forall r, c :: 0 <= r < i && 0 <= c < P && present[r] ==> grid[r, c] == g(Pixel(r, c))
    {
      LostStep(present[..code.k], i);
      if present[i] {
        forall c | 0 <= c < P {
          grid[i, c] := shards[i][c];
        }
      } else {
        missing := missing + [i];
      }
    }
    assert present[..code.k][..code.k] == present[..code.k];
  }

  /** Copy rows of a correct grid into their shards. */
  method PutRows(grid: array2<Word>, rows: seq<int>, shards: seq<array<Word>>, P: nat, ghost g: Image)
    requires Equals(grid, g) && grid.Length1 == P && Apart(shards)
    requires RowsInRange(rows, grid.Length0) && grid.Length0 <= |shards|
    requires forall i :: 0 <= i < grid.Length0 ==> shards[i].Length >= P
    modifies set r | r in rows && 0 <= r < |shards| :: shards[r]
    ensures forall r :: r in rows ==> HoldsRow(shards[r], r, P, g)
  {
    for t := 0 to |rows|
      invariant Equals(grid, g)
      invariant forall s :: 0 <= s < t ==> HoldsRow(shards[rows[s]], rows[s], P, g)
    {
      var r := rows[t];
      var shard := shards[r];
      forall c | 0 <= c < P {
        shard[c] := grid[r, c];
      }
      assert HoldsRow(shards[rows[t]], rows[t], P, g);
    }
  }

  /** What is known of a systematic stripe: surviving rows and surviving parity. */
  ghost predicate SysSurvivors(code: Code, shards: seq<array<Word>>, present: seq<bool>, P: nat, g: Image)
    requires |shards| == |present| == |code.dirs|
    reads shards
  {
    && (forall i :: 0 <= i < code.k && i < |shards| && present[i] ==> HoldsRow(shards[i], i, P, g))
    && forall i :: code.k <= i < |shards| && present[i] ==> HoldsProjection(code, shards[i], i, P, g)
  }

  /** Distinct slopes, as many as there are missing rows, always restore them. */
  method RestoreRows(gdEnabled: bool, grid: array2<Word>, dirs: seq<Direction>, projs: seq<array<Word>>, missing: seq<int>,
                     ghost g: Image) returns (ret: int)
    requires Buffers(projs, dirs, grid.Length1, grid.Length0) && UnitSlopes(dirs)
    requires forall i :: 0 <= i < |dirs| ==> IsProjection(projs[i][..], dirs[i], g, grid.Length1, grid.Length0)
    requires 1 <= |missing| == |dirs| && |missing| <= grid.Length0 && RowsInRange(missing, grid.Length0) && NoRepeats(missing)
    requires KnownRows(grid, missing, g)
    modifies grid, projs
    ensures ret == 0 && Equals(grid, g)
  {
    hide IsProjection, ProjectionSize, Stuck, Sorted, Spaced, Clashes, OffAt, PeelableWithin, GdShape, UnitSlopes;
    EnoughDirections(dirs, missing, grid.Length1, grid.Length0);
    DistinctUnit(dirs, missing, grid.Length1);
    ret := InverseSparse(gdEnabled, grid, dirs, projs, missing, Pixel(0, 0), g);
  }

  /** Rebuild the lost data rows from as many surviving parity shards. */
  method RecoverRows(code: Code, gdEnabled: bool, shards: seq<array<Word>>, present: seq<bool>, lost: nat, P: nat, ghost g: Image)
    returns (ret: int)
    requires ValidCode(code) && code.systematic && StripeBuffers(code, shards, P) && |present| == |shards|
    requires SysSurvivors(code, shards, present, P, g)
    requires 1 <= lost == Lost(present[..code.k]) <= code.m - Lost(present[code.k..])
    modifies shards[..code.k]
    ensures ret == 0 && forall i :: 0 <= i < code.k ==> HoldsRow(shards[i], i, P, g)
  {
    hide IsProjection, ProjectionSize, Stuck;
    LostBound(present[..code.k]);
    var dirs, projs := Collect(code, shards, present, code.k, lost, P, g);
    var grid, missing := GatherRows(code, shards, present, P, g);
    ret := RestoreRows(gdEnabled, grid, dirs, projs, missing, g);
    PutRows(grid, missing, shards, P, g);
  }

  lemma NoneLost(present: seq<bool>, k: nat)
    requires k <= |present| && Lost(present[..k]) == 0
    ensures forall i :: 0 <= i < k ==> present[i]
  {
    LostBound(present[..k]);
    forall i | 0 <= i < k ensures present[i] {
      assert present[..k][i];
    }
  }

  /** Up to m losses of any kind are repaired: every data row is restored.  When
      only parity was lost all parity is regenerated; when data was lost, parity
      shards are left as they were.  More than m losses change nothing. */
  method SysDecode(code: Code, gdEnabled: bool, isa: Isa, scalarOnly: bool, shards: seq<array<Word>>, present: seq<bool>,
                   P: nat, ghost g: Image) returns (ret: int)
    requires ValidCode(code) && code.systematic && StripeBuffers(code, shards, P) && |present| == |shards|
    requires SysSurvivors(code, shards, present, P, g)
    modifies shards
    ensures ret == if Lost(present) <= code.m then 0 else EIO
    ensures ret == 0 ==> forall i :: 0 <= i < code.k ==> HoldsRow(shards[i], i, P, g)
    ensures ret == 0 && Lost(present[..code.k]) == 0 ==>
              forall i :: code.k <= i < |shards| ==> HoldsProjection(code, shards[i], i, P, g)
    ensures Lost(present[..code.k]) > 0 ==> forall i :: code.k <= i < |shards| ==> unchanged(shards[i])
    ensures ret != 0 ==> forall i :: 0 <= i < |shards| ==> unchanged(shards[i])
  {
    hide IsProjection, ProjectionSize, HoldsProjection, HoldsRow;
    var k := code.k;
    var totalMissing := CountLost(present);
    var missingData := CountLost(present[..k]);
    LostSplit(present, k);
    if totalMissing > code.m {
      return EIO;
    }
    if totalMissing == 0 {
      LostBound(present);
      return 0;
    }
    if missingData == 0 {
      NoneLost(present, k);
      SysEncode(code, isa, scalarOnly, shards, P, g);
      return 0;
    }
    var lostParity := CountLost(present[k..]);
    if code.m - lostParity < missingData {
      return EIO;
    }
    ret := RecoverRows(code, gdEnabled, shards, present, missingData, P, g);
  }

  // ----- the non-systematic code

  /** Every shard becomes a projection; the data projections go through fresh
      buffers because the data buffers are still being read. */
  method NonsysEncode(code: Code, isa: Isa, scalarOnly: bool, shards: seq<array<Word>>, P: nat, ghost g: Image)
    requires ValidCode(code) && !code.systematic && StripeBuffers(code, shards, P)
    requires forall i :: 0 <= i < code.k ==> HoldsRow(shards[i], i, P, g)
    modifies shards
    ensures forall i :: 0 <= i < |shards| ==> HoldsProjection(code, shards[i], i, P, g)
  {
    hide IsProjection, ProjectionSize;
    var k := code.k;
    var rows, parity := shards[..k], shards[k..];
    ForwardRows(isa, scalarOnly, rows, P, code.dirs[k..], parity, g);
    forall i | k <= i < |shards| ensures HoldsProjection(code, shards[i], i, P, g) {
      assert shards[i] == parity[i - k] && code.dirs[i] == code.dirs[k..][i - k];
      WholeShard(code, shards[i], i, P, g);
    }
    var temps := NewBuffers(code, P);
    ForwardRows(isa, scalarOnly, rows, P, code.dirs[..k], temps, g);
    CopyOut(code, temps, shards, P, g);
  }

  method NewBuffers(code: Code, P: nat) returns (temps: seq<array<Word>>)
    requires ValidCode(code)
    ensures |temps| == code.k && Apart(temps)
    ensures forall i :: 0 <= i < |temps| ==> fresh(temps[i]) && temps[i].Length == Nbins(code, i, P)
  {
    hide ProjectionSize;
    temps := [];
    for i := 0 to code.k
      invariant |temps| == i && Apart(temps)
      invariant forall t :: 0 <= t < |temps| ==> fresh(temps[t]) && temps[t].Length == Nbins(code, t, P)
    {
      ShardHoldsRow(code, i, P);
      var temp := new Word[Nbins(code, i, P)];
      temps := temps + [temp];
    }
  }

  /** Move the data projections from their temporary buffers into the data shards. */
  method CopyOut(code: Code, temps: seq<array<Word>>, shards: seq<array<Word>>, P: nat, ghost g: Image)
    requires ValidCode(code) && !code.systematic && StripeBuffers(code, shards, P)
    requires |temps| == code.k && forall i :: 0 <= i < |temps| ==> temps[i] !in shards && temps[i].Length == Nbins(code, i, P)
    requires forall i :: 0 <= i < code.k ==> IsProjection(temps[i][..], code.dirs[i], g, P, code.k)
    requires forall i :: code.k <= i < |shards| ==> HoldsProjection(code, shards[i], i, P, g)
    modifies shards[..code.k]
    ensures forall i :: 0 <= i < |shards| ==> HoldsProjection(code, shards[i], i, P, g)
  {
    hide IsProjection, ProjectionSize;
    for i := 0 to code.k
      invariant forall t :: 0 <= t < code.k ==> temps[t][..] == old(temps[t][..])
      invariant forall t :: (0 <= t < i || code.k <= t < |shards|) ==> HoldsProjection(code, shards[t], t, P, g)
    {
      var shard, temp := shards[i], temps[i];
      assert shard in shards;
      forall c | 0 <= c < shard.Length {
        shard[c] := temp[c];
      }
      assert shard[..] == temp[..] == old(temps[i][..]);
      WholeShard(code, shard, i, P, g);
    }
  }

  /** Any k surviving projections restore the k data rows into shards 0..k-1. */
  method NonsysDecode(code: Code, gdEnabled: bool, shards: seq<array<Word>>, present: seq<bool>, P: nat, ghost g: Image)
    returns (ret: int)
    requires ValidCode(code) && !code.systematic && StripeBuffers(code, shards, P) && |present| == |shards|
    requires forall i :: 0 <= i < |shards| && present[i] ==> HoldsProjection(code, shards[i], i, P, g)
    modifies shards[..code.k]
    ensures ret == if Lost(present) <= code.m then 0 else EIO
    ensures ret == 0 ==> forall i :: 0 <= i < code.k ==> HoldsRow(shards[i], i, P, g)
    ensures ret != 0 ==> forall i :: 0 <= i < |shards| ==> unchanged(shards[i])
  {
    hide IsProjection, ProjectionSize, Stuck, Sorted, Spaced, Clashes, OffAt;
    var k := code.k;
    var lost := CountLost(present);
    LostBound(present);
    var avail := |present| - lost;
    if avail < k {
      return EIO;
    }
    assert present[0..] == present;
    var dirs, projs := Collect(code, shards, present, 0, k, P, g);
    var grid := new Word[k, P]((_, _) => 0);
    SquareIsPeelable(dirs, P, k);
    DistinctUnit(dirs, AllRows(k), P);
    ret := Inverse(gdEnabled, grid, dirs, projs, Pixel(0, 0), g);
    forall i | 0 <= i < k ensures shards[i].Length >= P {
      ShardHoldsRow(code, i, P);
    }
    var rows := AllRows(k);
    PutRows(grid, rows, shards, P, g);
    forall i | 0 <= i < k ensures HoldsRow(shards[i], i, P, g) {
      assert rows[i] == i && i in rows;
    }
  }

  // ----- end to end

  function ImageOf(rows: seq<seq<Word>>): Image {
    (x: Pixel) => if 0 <= x.row < |rows| && 0 <= x.col < |rows[x.row]| then rows[x.row][x.col] else 0
  }

  method NewStripe(code: Code, rows: seq<seq<Word>>, P: nat) returns (shards: seq<array<Word>>)
    requires ValidCode(code) && |rows| == code.k && forall i :: 0 <= i < |rows| ==> |rows[i]| == P
    ensures StripeBuffers(code, shards, P) && forall i :: 0 <= i < |shards| ==> fresh(shards[i])
    ensures forall i :: 0 <= i < code.k ==> HoldsRow(shards[i], i, P, ImageOf(rows))
  {
    hide ProjectionSize;
    shards := [];
    for i := 0 to |code.dirs|
      invariant |shards| == i && Apart(shards)
      invariant forall t :: 0 <= t < i ==> fresh(shards[t]) && shards[t].Length == ShardWords(code, t, P)
      invariant forall t :: 0 <= t < i && t < code.k ==> HoldsRow(shards[t], t, P, ImageOf(rows))
    {
      ShardHoldsRow(code, i, P);
      var shard := new Word[ShardWords(code, i, P)](j => if i < code.k && 0 <= j < P then rows[i][j] else 0);
      shards := shards + [shard];
    }
  }

  /** Overwrite every lost shard with arbitrary words. */
  method Lose(shards: seq<array<Word>>, present: seq<bool>, noise: (nat, nat) -> Word)
    requires |shards| == |present| && Apart(shards)
    modifies shards
    ensures forall i :: 0 <= i < |shards| && present[i] ==> shards[i][..] == old(shards[i][..])
    ensures forall i, c :: 0 <= i < |shards| && !present[i] && 0 <= c < shards[i].Length ==> shards[i][c] == noise(i, c)
  {
    for i := 0 to |shards|
      invariant forall t :: 0 <= t < |shards| && (present[t] || i <= t) ==> shards[t][..] == old(shards[t][..])
      invariant forall t, c :: 0 <= t < i && !present[t] && 0 <= c < shards[t].Length ==> shards[t][c] == noise(t, c)
    {
      if !present[i] {
        var shard := shards[i];
        forall c | 0 <= c < shard.Length {
          shard[c] := noise(i, c);
        }
      }
    }
  }

  /** Encode in place, lose shards, decode in place. */
  method Transmit(code: Code, gdEnabled: bool, isa: Isa, scalarOnly: bool, shards: seq<array<Word>>, present: seq<bool>,
                  noise: (nat, nat) -> Word, P: nat, ghost g: Image) returns (ret: int)
    requires ValidCode(code) && StripeBuffers(code, shards, P) && |present| == |shards|
    requires forall i :: 0 <= i < code.k ==> HoldsRow(shards[i], i, P, g)
    modifies shards
    ensures ret == if Lost(present) <= code.m then 0 else EIO
    ensures ret == 0 ==> forall i :: 0 <= i < code.k ==> HoldsRow(shards[i], i, P, g)
  {
    hide IsProjection, ProjectionSize;
    if code.systematic {
      SysEncode(code, isa, scalarOnly, shards, P, g);
      Lose(shards, present, noise);
      ret := SysDecode(code, gdEnabled, isa, scalarOnly, shards, present, P, g);
    } else {
      NonsysEncode(code, isa, scalarOnly, shards, P, g);
      Lose(shards, present, noise);
      ret := NonsysDecode(code, gdEnabled, shards, present, P, g);
    }
  }

  /** Encode a stripe, lose at most m of its shards, decode: the data is back, for
      every k, m, row length, loss pattern, instruction set and choice of inverse. */
  method SurvivesLosses(k: int, m: int, systematic: bool, rows: seq<seq<Word>>, P: nat, present: seq<bool>, noise: (nat, nat) -> Word,
                        gdEnabled: bool, isa: Isa, scalarOnly: bool) returns (ret: int, out: seq<seq<Word>>)
    requires k >= 1 && m >= 1 && k + m <= MAX_STRIPE_WIDTH && |present| == k + m
    requires |rows| == k && forall i :: 0 <= i < k ==> |rows[i]| == P
    ensures ret == if Lost(present) <= m then 0 else EIO
    ensures ret == 0 ==> out == rows
  {
    hide ProjectionSize, ImageOf, UnitSlopes, HoldsRow;
    var created := Create(k, m, systematic);
    var code := created.value;
    var shards := NewStripe(code, rows, P);
    ret := Transmit(code, gdEnabled, isa, scalarOnly, shards, present, noise, P, ImageOf(rows));
    out := [];
    if ret == 0 {
      for i := 0 to k
        invariant forall t :: 0 <= t < k ==> HoldsRow(shards[t], t, P, ImageOf(rows))
        invariant |out| == i && forall t :: 0 <= t < i ==> out[t] == rows[t]
      {
        RowIsBack(shards[i], rows, i, P);
        out := out + [shards[i][..P]];
      }
    }
  }

  lemma RowIsBack(shard: array<Word>, rows: seq<seq<Word>>, i: nat, P: nat)
    requires i < |rows| && |rows[i]| == P && HoldsRow(shard, i, P, ImageOf(rows))
    ensures shard.Length >= P && shard[..P] == rows[i]
  {}
}
