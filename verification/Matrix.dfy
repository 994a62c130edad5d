/** Gauss-Jordan inversion over GF(2^8), in place on two n x n arrays. */
module Matrix {
  import opened Errno
  import opened Gf256
  import opened Vectors

  // ----- row operations on values

  function SwapRows(w: Mat, i: nat, j: nat): (r: Mat)
    requires i < |w| && j < |w|
    ensures forall n: nat {:trigger Square(r, n)} :: Square(w, n) ==> Square(r, n)
  {
    w[i := w[j]][j := w[i]]
  }

  function ScaleRow(w: Mat, r: nat, f: Byte): (z: Mat)
    requires r < |w|
    ensures forall n: nat {:trigger Square(z, n)} :: Square(w, n) ==> Square(z, n)
  {
    w[r := Scaled(f, w[r])]
  }

  function AddRow(w: Mat, r: nat, s: nat, f: Byte): (z: Mat)
    requires r < |w| && s < |w| && |w[r]| == |w[s]|
    ensures forall n: nat {:trigger Square(z, n)} :: Square(w, n) ==> Square(z, n)
  {
    w[r := Sum(w[r], Scaled(f, w[s]))]
  }

  /** Every row of `w` is the combination of the rows of `m` that `o` records. */
  ghost predicate Recorded(w: Mat, o: Mat, m: Mat, n: nat) {
    && Square(w, n) && Square(o, n) && Square(m, n)
    && forall r, c :: 0 <= r < n && 0 <= c < n ==> w[r][c] == Dot(o[r], Column(m, c))
  }

  /** The row operations lose nothing: whatever `w` annihilates, `m` annihilates. */
  ghost predicate Reversible(w: Mat, m: Mat, n: nat) {
    && Square(w, n) && Square(m, n)
    && forall v: Vec :: |v| == n && IsZero(Apply(w, v)) ==> IsZero(Apply(m, v))
  }

  ghost predicate NonSingular(o: Mat, n: nat) {
    Square(o, n) && TrivialKernel(o, n)
  }

  ghost predicate Equivalent(w: Mat, o: Mat, m: Mat, n: nat) {
    Recorded(w, o, m, n) && Reversible(w, m, n) && NonSingular(o, n)
  }

  lemma SwapRecorded(w: Mat, o: Mat, m: Mat, n: nat, i: nat, j: nat)
    requires Recorded(w, o, m, n) && i < n && j < n
    ensures Recorded(SwapRows(w, i, j), SwapRows(o, i, j), m, n)
  {
    hide Dot, Column;
  }

  lemma SwapKernel(w: Mat, n: nat, i: nat, j: nat, v: Vec)
    requires Square(w, n) && i < n && j < n && |v| == n && IsZero(Apply(SwapRows(w, i, j), v))
    ensures IsZero(Apply(w, v))
  {
    hide Dot;
    var w' := SwapRows(w, i, j);
    forall r | 0 <= r < n ensures Dot(w[r], v) == 0 {
      var r' := if r == i then j else if r == j then i else r;
      assert w'[r'] == w[r] && Apply(w', v)[r'] == 0;
    }
  }

  lemma SwapReversible(w: Mat, m: Mat, n: nat, i: nat, j: nat)
    requires Reversible(w, m, n) && i < n && j < n
    ensures Reversible(SwapRows(w, i, j), m, n)
  {
    hide Dot, Mul, Add, IsZero, Apply, Rectangular, SwapRows;
    assert Square(SwapRows(w, i, j), n);
    forall v: Vec | |v| == n && IsZero(Apply(SwapRows(w, i, j), v)) ensures IsZero(Apply(m, v)) {
      SwapKernel(w, n, i, j, v);
    }
  }

  lemma SwapNonSingular(o: Mat, n: nat, i: nat, j: nat)
    requires NonSingular(o, n) && i < n && j < n
    ensures NonSingular(SwapRows(o, i, j), n)
  {
    hide Dot, Mul, Add, IsZero, Apply, Rectangular, SwapRows;
    assert Square(SwapRows(o, i, j), n);
    forall v: Vec | |v| == n && IsZero(Apply(SwapRows(o, i, j), v)) ensures IsZero(v) {
      SwapKernel(o, n, i, j, v);
    }
  }

  lemma SwapEquivalent(w: Mat, o: Mat, m: Mat, n: nat, i: nat, j: nat)
    requires Equivalent(w, o, m, n) && i < n && j < n
    ensures Equivalent(SwapRows(w, i, j), SwapRows(o, i, j), m, n)
  {
    hide Dot, Column, Mul, Add, Reversible, NonSingular;
    SwapRecorded(w, o, m, n, i, j);
    SwapReversible(w, m, n, i, j);
    SwapNonSingular(o, n, i, j);
  }

  lemma ScaleRecorded(w: Mat, o: Mat, m: Mat, n: nat, r: nat, f: Byte)
    requires Recorded(w, o, m, n) && r < n
    ensures Recorded(ScaleRow(w, r, f), ScaleRow(o, r, f), m, n)
  {
    hide Dot, Column, Mul;
    forall c | 0 <= c < n ensures ScaleRow(w, r, f)[r][c] == Dot(ScaleRow(o, r, f)[r], Column(m, c)) {
      DotScaled(f, o[r], Column(m, c));
    }
  }

  lemma ScaleKernel(w: Mat, n: nat, r: nat, f: Byte, v: Vec)
    requires Square(w, n) && r < n && f != 0 && |v| == n && IsZero(Apply(ScaleRow(w, r, f), v))
    ensures IsZero(Apply(w, v))
  {
    hide Dot, Mul;
    forall i | 0 <= i < n ensures Dot(w[i], v) == 0 {
      assert Apply(ScaleRow(w, r, f), v)[i] == 0;
      if i == r {
        DotScaled(f, w[r], v);
        MulNonZero(f, Dot(w[r], v));
      }
    }
  }

  lemma ScaleReversible(w: Mat, m: Mat, n: nat, r: nat, f: Byte)
    requires Reversible(w, m, n) && r < n && f != 0
    ensures Reversible(ScaleRow(w, r, f), m, n)
  {
    hide Dot, Mul, Add, IsZero, Apply, Rectangular, ScaleRow;
    assert Square(ScaleRow(w, r, f), n);
    forall v: Vec | |v| == n && IsZero(Apply(ScaleRow(w, r, f), v)) ensures IsZero(Apply(m, v)) {
      ScaleKernel(w, n, r, f, v);
    }
  }

  lemma ScaleNonSingular(o: Mat, n: nat, r: nat, f: Byte)
    requires NonSingular(o, n) && r < n && f != 0
    ensures NonSingular(ScaleRow(o, r, f), n)
  {
    hide Dot, Mul, Add, IsZero, Apply, Rectangular, ScaleRow;
    assert Square(ScaleRow(o, r, f), n);
    forall v: Vec | |v| == n && IsZero(Apply(ScaleRow(o, r, f), v)) ensures IsZero(v) {
      ScaleKernel(o, n, r, f, v);
    }
  }

  lemma ScaleEquivalent(w: Mat, o: Mat, m: Mat, n: nat, r: nat, f: Byte)
    requires Equivalent(w, o, m, n) && r < n && f != 0
    ensures Equivalent(ScaleRow(w, r, f), ScaleRow(o, r, f), m, n)
  {
    hide Dot, Column, Mul, Add, Reversible, NonSingular;
    ScaleRecorded(w, o, m, n, r, f);
    ScaleReversible(w, m, n, r, f);
    ScaleNonSingular(o, n, r, f);
  }

  lemma AddRowRecorded(w: Mat, o: Mat, m: Mat, n: nat, r: nat, s: nat, f: Byte)
    requires Recorded(w, o, m, n) && r < n && s < n
    ensures Recorded(AddRow(w, r, s, f), AddRow(o, r, s, f), m, n)
  {
    hide Dot, Column, Mul, Add;
    forall c | 0 <= c < n ensures AddRow(w, r, s, f)[r][c] == Dot(AddRow(o, r, s, f)[r], Column(m, c)) {
      DotSum(o[r], Scaled(f, o[s]), Column(m, c));
      DotScaled(f, o[s], Column(m, c));
    }
  }

  lemma AddRowKernel(w: Mat, n: nat, r: nat, s: nat, f: Byte, v: Vec)
    requires Square(w, n) && r < n && s < n && r != s && |v| == n && IsZero(Apply(AddRow(w, r, s, f), v))
    ensures IsZero(Apply(w, v))
  {
    hide Dot, Mul, Add;
    var w' := AddRow(w, r, s, f);
    assert Apply(w', v)[s] == 0 && Apply(w', v)[r] == 0;
    DotSum(w[r], Scaled(f, w[s]), v);
    DotScaled(f, w[s], v);
    MulZero(f);
    AddLaws(Dot(w[r], v), 0, 0);
    forall i | 0 <= i < n ensures Dot(w[i], v) == 0 {
      assert i != r ==> Apply(w', v)[i] == 0;
    }
  }

  lemma RowWidth(w: Mat, n: nat, r: nat)
    requires Square(w, n) && r < n
    ensures |w[r]| == n
  {}

  lemma AddRowReversible(w: Mat, m: Mat, n: nat, r: nat, s: nat, f: Byte)
    requires Reversible(w, m, n) && r < n && s < n && r != s
    ensures Reversible(AddRow(w, r, s, f), m, n)
  {
    hide Dot, Mul, Add, IsZero, Apply, Rectangular, AddRow;
    RowWidth(w, n, r);
    RowWidth(w, n, s);
    assert Square(AddRow(w, r, s, f), n);
    forall v: Vec | |v| == n && IsZero(Apply(AddRow(w, r, s, f), v)) ensures IsZero(Apply(m, v)) {
      AddRowKernel(w, n, r, s, f, v);
    }
  }

  lemma AddRowNonSingular(o: Mat, n: nat, r: nat, s: nat, f: Byte)
    requires NonSingular(o, n) && r < n && s < n && r != s
    ensures NonSingular(AddRow(o, r, s, f), n)
  {
    hide Dot, Mul, Add, IsZero, Apply, Rectangular, AddRow;
    RowWidth(o, n, r);
    RowWidth(o, n, s);
    assert Square(AddRow(o, r, s, f), n);
    forall v: Vec | |v| == n && IsZero(Apply(AddRow(o, r, s, f), v)) ensures IsZero(v) {
      AddRowKernel(o, n, r, s, f, v);
    }
  }

  lemma AddRowEquivalent(w: Mat, o: Mat, m: Mat, n: nat, r: nat, s: nat, f: Byte)
    requires Equivalent(w, o, m, n) && r < n && s < n && r != s
    ensures Equivalent(AddRow(w, r, s, f), AddRow(o, r, s, f), m, n)
  {
    hide Dot, Column, Mul, Add, Reversible, NonSingular;
    AddRowRecorded(w, o, m, n, r, s, f);
    AddRowReversible(w, m, n, r, s, f);
    AddRowNonSingular(o, n, r, s, f);
  }

  // ----- progress: columns already reduced to unit columns

  ghost predicate UnitColumns(w: Mat, n: nat, col: nat)
    requires Square(w, n) && col <= n
  {
    forall r, c :: 0 <= r < n && 0 <= c < col ==> w[r][c] == if r == c then 1 else 0
  }

  /** A column with no pivot yields a non-zero vector that `w` annihilates. */
  ghost function KernelVector(w: Mat, n: nat, col: nat): (v: Vec)
    requires Square(w, n) && col < n
    ensures |v| == n
  {
    seq(n, c requires 0 <= c < n => if c < col then w[c][col] else if c == col then 1 else 0)
  }

  lemma {:induction false} KernelDot(w: Mat, n: nat, col: nat, r: nat, k: nat)
    requires Square(w, n) && col < n && r < n && k <= n && UnitColumns(w, n, col)
    ensures var v := KernelVector(w, n, col);
            Dot(w[r][k..], v[k..]) ==
            if col < k then 0 else if k <= r < col then Add(w[r][col], w[r][col]) else w[r][col]
    decreases n - k
  {
    hide Add, Mul;
    var v := KernelVector(w, n, col);
    var x := w[r][col];
    if k < n {
      KernelDot(w, n, col, r, k + 1);
      assert w[r][k..][1..] == w[r][k + 1..] && v[k..][1..] == v[k + 1..];
      AddLaws(x, 0, 0);
      MulZero(w[r][k]);
      MulZero(v[k]);
      MulOne(w[r][k]);
      MulOne(v[k]);
      AddLaws(w[r][k], 0, 0);
      AddLaws(0, 0, 0);
    }
  }

  lemma KernelVectorWorks(w: Mat, n: nat, col: nat)
    requires Square(w, n) && col < n && UnitColumns(w, n, col)
    requires forall r :: col <= r < n ==> w[r][col] == 0
    ensures var v := KernelVector(w, n, col); IsZero(Apply(w, v)) && !IsZero(v)
  {
    hide Dot, Add;
    var v := KernelVector(w, n, col);
    forall r | 0 <= r < n ensures Dot(w[r], v) == 0 {
      KernelDot(w, n, col, r, 0);
      assert w[r][0..] == w[r] && v[0..] == v;
      AddLaws(w[r][col], 0, 0);
    }
    assert v[col] == 1;
  }

  lemma NoPivotIsSingular(w: Mat, o: Mat, m: Mat, n: nat, col: nat)
    requires Square(w, n) && col < n && UnitColumns(w, n, col)
    requires forall r :: col <= r < n ==> w[r][col] == 0
    requires Equivalent(w, o, m, n)
    ensures !NonSingular(m, n)
  {
    hide Dot, Add, IsZero, Apply, UnitColumns, KernelVector, Recorded;
    KernelVectorWorks(w, n, col);
  }

  // ----- one column of the elimination, on values

  ghost predicate Cleared(w: Mat, n: nat, col: nat, row: nat) {
    && Square(w, n) && col < n && row <= n
    && w[col][col] == 1 && forall r :: 0 <= r < row && r != col ==> w[r][col] == 0
  }

  lemma SwapKeepsUnits(w: Mat, n: nat, col: nat, pivot: nat)
    requires Square(w, n) && col <= pivot < n && UnitColumns(w, n, col)
    ensures UnitColumns(SwapRows(w, col, pivot), n, col)
  {}

  lemma ScaleKeepsUnits(w: Mat, n: nat, col: nat, f: Byte)
    requires Square(w, n) && col < n && UnitColumns(w, n, col)
    ensures UnitColumns(ScaleRow(w, col, f), n, col)
  {
    hide Mul;
    MulZero(f);
  }

  lemma EliminateRow(w: Mat, n: nat, col: nat, row: nat)
    requires Square(w, n) && col < n && row < n && row != col && UnitColumns(w, n, col) && Cleared(w, n, col, row)
    ensures var w' := AddRow(w, row, col, w[row][col]);
            UnitColumns(w', n, col) && Cleared(w', n, col, row + 1)
  {
    hide Mul, Add;
    var f := w[row][col];
    MulOne(f);
    MulZero(f);
    AddLaws(f, f, 0);
    forall c | 0 <= c < col ensures Add(w[row][c], Mul(f, w[col][c])) == w[row][c] {
      AddLaws(w[row][c], 0, 0);
    }
  }

  lemma ColumnDone(w: Mat, n: nat, col: nat)
    requires Square(w, n) && col < n && UnitColumns(w, n, col) && Cleared(w, n, col, n)
    ensures UnitColumns(w, n, col + 1)
  {}

  lemma AllColumnsDone(w: Mat, o: Mat, m: Mat, n: nat)
    requires Recorded(w, o, m, n) && UnitColumns(w, n, n)
    ensures LeftInverse(o, m, n) && TrivialKernel(m, n)
  {
    hide Dot, Column;
    LeftInverseTrivialKernel(o, m, n);
  }

  // ----- the same, in place

  function Contents(a: array2<Byte>): (m: Mat)
    reads a
    ensures |m| == a.Length0 && Rectangular(m, a.Length1)
    ensures forall r, c :: 0 <= r < a.Length0 && 0 <= c < a.Length1 ==> m[r][c] == a[r, c]
  {
    seq(a.Length0, r requires 0 <= r < a.Length0 reads a =>
      seq(a.Length1, c requires 0 <= c < a.Length1 reads a => a[r, c]))
  }

  ghost predicate SameShape(a: array2<Byte>, b: array2<Byte>, n: nat) {
    a != b && a.Length0 == a.Length1 == b.Length0 == b.Length1 == n
  }

  lemma MatEqual(a: Mat, b: Mat, n: nat)
    requires Square(a, n) && Square(b, n)
    requires forall r, c :: 0 <= r < n && 0 <= c < n ==> a[r][c] == b[r][c]
    ensures a == b
  {
    forall r | 0 <= r < n ensures a[r] == b[r] {}
  }

  method SwapInPlace(work: array2<Byte>, out: array2<Byte>, n: nat, i: nat, j: nat)
    requires SameShape(work, out, n) && i < n && j < n && i != j
    modifies work, out
    ensures Contents(work) == SwapRows(old(Contents(work)), i, j)
    ensures Contents(out) == SwapRows(old(Contents(out)), i, j)
  {
    for c := 0 to n
      invariant forall r, d :: 0 <= r < n && 0 <= d < n ==>
                  work[r, d] == (if d < c && r == i then old(work[j, d]) else if d < c && r == j then old(work[i, d]) else old(work[r, d]))
      invariant forall r, d :: 0 <= r < n && 0 <= d < n ==>
                  out[r, d] == (if d < c && r == i then old(out[j, d]) else if d < c && r == j then old(out[i, d]) else old(out[r, d]))
    {
      var tmp := work[i, c];
      work[i, c] := work[j, c];
      work[j, c] := tmp;
      tmp := out[i, c];
      out[i, c] := out[j, c];
      out[j, c] := tmp;
    }
    MatEqual(Contents(work), SwapRows(old(Contents(work)), i, j), n);
    MatEqual(Contents(out), SwapRows(old(Contents(out)), i, j), n);
  }

  method ScaleInPlace(work: array2<Byte>, out: array2<Byte>, n: nat, i: nat, f: Byte)
    requires SameShape(work, out, n) && i < n
    modifies work, out
    ensures Contents(work) == ScaleRow(old(Contents(work)), i, f)
    ensures Contents(out) == ScaleRow(old(Contents(out)), i, f)
  {
    hide Mul;
    for c := 0 to n
      invariant forall r, d :: 0 <= r < n && 0 <= d < n ==>
                  work[r, d] == (if d < c && r == i then Mul(f, old(work[r, d])) else old(work[r, d]))
      invariant forall r, d :: 0 <= r < n && 0 <= d < n ==>
                  out[r, d] == (if d < c && r == i then Mul(f, old(out[r, d])) else old(out[r, d]))
    {
      MulComm(work[i, c], f);
      MulComm(out[i, c], f);
      work[i, c] := Mul(work[i, c], f);
      out[i, c] := Mul(out[i, c], f);
    }
    MatEqual(Contents(work), ScaleRow(old(Contents(work)), i, f), n);
    MatEqual(Contents(out), ScaleRow(old(Contents(out)), i, f), n);
  }

  method AddRowInPlace(work: array2<Byte>, out: array2<Byte>, n: nat, i: nat, s: nat, f: Byte)
    requires SameShape(work, out, n) && i < n && s < n && i != s
    modifies work, out
    ensures Contents(work) == AddRow(old(Contents(work)), i, s, f)
    ensures Contents(out) == AddRow(old(Contents(out)), i, s, f)
  {
    hide Mul, Add;
    for c := 0 to n
      invariant forall r, d :: 0 <= r < n && 0 <= d < n ==>
                  work[r, d] == (if d < c && r == i then Add(old(work[i, d]), Mul(f, old(work[s, d]))) else old(work[r, d]))
      invariant forall r, d :: 0 <= r < n && 0 <= d < n ==>
                  out[r, d] == (if d < c && r == i then Add(old(out[i, d]), Mul(f, old(out[s, d]))) else old(out[r, d]))
    {
      work[i, c] := Add(work[i, c], Mul(f, work[s, c]));
      out[i, c] := Add(out[i, c], Mul(f, out[s, c]));
    }
    MatEqual(Contents(work), AddRow(old(Contents(work)), i, s, f), n);
    MatEqual(Contents(out), AddRow(old(Contents(out)), i, s, f), n);
  }

  method FindPivot(work: array2<Byte>, n: nat, col: nat) returns (pivot: int)
    requires work.Length0 == work.Length1 == n && col < n
    ensures pivot == -1 || col <= pivot < n
    ensures pivot >= 0 ==> work[pivot, col] != 0
    ensures pivot < 0 ==> forall r :: col <= r < n ==> work[r, col] == 0
  {
    for r := col to n
      invariant forall t :: col <= t < r ==> work[t, col] == 0
    {
      if work[r, col] != 0 {
        return r;
      }
    }
    return -1;
  }

  /** Where the elimination stands: `col` columns reduced, nothing lost. */
  ghost predicate Progress(work: array2<Byte>, out: array2<Byte>, n: nat, col: nat, m: Mat)
    reads work, out
  {
    && SameShape(work, out, n) && col <= n
    && Equivalent(Contents(work), Contents(out), m, n) && UnitColumns(Contents(work), n, col)
  }

  lemma ContentsAt(a: array2<Byte>, n: nat, r: nat, c: nat)
    requires a.Length0 == a.Length1 == n && r < n && c < n
    ensures Square(Contents(a), n) && Contents(a)[r][c] == a[r, c]
  {}

  /** Bring the pivot into place and scale it to 1. */
  method PlacePivot(work: array2<Byte>, out: array2<Byte>, n: nat, col: nat, pivot: nat, ghost m: Mat)
    requires SameShape(work, out, n) && col <= pivot < n && work[pivot, col] != 0
    requires Progress(work, out, n, col, m)
    modifies work, out
    ensures Cleared(Contents(work), n, col, 0)
    ensures Progress(work, out, n, col, m)
  {
    hide Mul, Recorded, Reversible, NonSingular, UnitColumns, Contents;
    ContentsAt(work, n, pivot, col);
    if pivot != col {
      SwapEquivalent(Contents(work), Contents(out), m, n, col, pivot);
      SwapKeepsUnits(Contents(work), n, col, pivot);
      SwapInPlace(work, out, n, col, pivot);
    }
    ContentsAt(work, n, col, col);
    var inv := Inv(work[col, col]);
    MulInverse(work[col, col]);
    MulComm(inv, work[col, col]);
    ScaleEquivalent(Contents(work), Contents(out), m, n, col, inv);
    ScaleKeepsUnits(Contents(work), n, col, inv);
    ScaleInPlace(work, out, n, col, inv);
  }

  /** Clear the pivot's column in all other rows. */
  method ClearColumn(work: array2<Byte>, out: array2<Byte>, n: nat, col: nat, ghost m: Mat)
    requires Progress(work, out, n, col, m) && col < n && Cleared(Contents(work), n, col, 0)
    modifies work, out
    ensures Progress(work, out, n, col + 1, m)
  {
    hide Mul, Add, Recorded, Reversible, NonSingular, UnitColumns, Contents;
    for row := 0 to n
      invariant Progress(work, out, n, col, m) && Cleared(Contents(work), n, col, row)
    {
      ContentsAt(work, n, row, col);
      var factor := work[row, col];
      if row != col && factor != 0 {
        EliminateRow(Contents(work), n, col, row);
        AddRowEquivalent(Contents(work), Contents(out), m, n, row, col, factor);
        AddRowInPlace(work, out, n, row, col, factor);
      }
    }
    ColumnDone(Contents(work), n, col);
  }

  lemma IdentityKernel(o: Mat, n: nat)
    requires Square(o, n) && IsIdentity(o, n)
    ensures NonSingular(o, n)
  {
    hide Dot;
    forall v: Vec | |v| == n && IsZero(Apply(o, v)) ensures IsZero(v) {
      forall r | 0 <= r < n ensures v[r] == 0 {
        UnitDot(o[r], v, r);
        assert Apply(o, v)[r] == 0;
      }
    }
  }

  lemma IdentityRecords(w: Mat, o: Mat, n: nat)
    requires Square(w, n) && Square(o, n) && IsIdentity(o, n)
    ensures Equivalent(w, o, w, n) && UnitColumns(w, n, 0)
  {
    hide Dot, NonSingular;
    forall r, c | 0 <= r < n && 0 <= c < n ensures w[r][c] == Dot(o[r], Column(w, c)) {
      UnitDot(o[r], Column(w, c), r);
    }
    IdentityKernel(o, n);
  }

  /** Invert `m` into `out`.  It succeeds exactly when `m` is non-singular, and
      then out * m is the identity. */
  method Invert(m: array2<Byte>, out: array2<Byte>) returns (ret: int)
    requires m.Length0 >= 1
    modifies out
    ensures m.Length0 != m.Length1 || m.Length0 != out.Length0 || m.Length0 != out.Length1 ==> ret == EINVAL && unchanged(out)
    ensures m.Length0 == m.Length1 == out.Length0 == out.Length1 ==>
              && (ret == 0 || ret == EINVAL)
              && (ret == 0 <==> TrivialKernel(old(Contents(m)), m.Length0))
              && (ret == 0 ==> LeftInverse(Contents(out), old(Contents(m)), m.Length0) && TrivialKernel(Contents(out), m.Length0))
  {
    hide Mul, Add, Recorded, Reversible, UnitColumns, TrivialKernel;
    var n := m.Length0;
    if n != m.Length1 || n != out.Length0 || n != out.Length1 {
      return EINVAL;
    }
    var work := new Byte[n, n]((r, c) requires 0 <= r < n == m.Length0 && 0 <= c < n == m.Length1 reads m => m[r, c]);
    ghost var m0 := Contents(m);
    forall r, c | 0 <= r < n && 0 <= c < n {
      out[r, c] := if r == c then 1 else 0;
    }
    MatEqual(Contents(work), m0, n);
    IdentityRecords(m0, Contents(out), n);
    for col := 0 to n
      invariant Progress(work, out, n, col, m0)
    {
      var pivot := FindPivot(work, n, col);
      if pivot < 0 {
        NoPivotIsSingular(Contents(work), Contents(out), m0, n, col);
        return EINVAL;
      }
      PlacePivot(work, out, n, col, pivot, m0);
      ClearColumn(work, out, n, col, m0);
    }
    AllColumnsDone(Contents(work), Contents(out), m0, n);
    ret := 0;
  }

  /** The product of two matrices; refused when the shapes do not fit. */
  method Multiply(a: array2<Byte>, b: array2<Byte>, out: array2<Byte>) returns (ret: int)
    requires out != a && out != b
    modifies out
    ensures var fits := a.Length1 == b.Length0 && out.Length0 == a.Length0 && out.Length1 == b.Length1;
            && (!fits ==> ret == EINVAL && unchanged(out))
            && (fits ==> ret == 0 && forall r, c :: 0 <= r < out.Length0 && 0 <= c < out.Length1 ==>
                           out[r, c] == Dot(Contents(a)[r], Column(Contents(b), c)))
  {
    hide Mul, Add, Dot, Column;
    if a.Length1 != b.Length0 || out.Length0 != a.Length0 || out.Length1 != b.Length1 {
      return EINVAL;
    }
    ghost var ma, mb := Contents(a), Contents(b);
    for r := 0 to a.Length0
      invariant Contents(a) == ma && Contents(b) == mb
      invariant forall i, j :: 0 <= i < r && 0 <= j < out.Length1 ==> out[i, j] == Dot(ma[i], Column(mb, j))
    {
      for c := 0 to b.Length1
        invariant Contents(a) == ma && Contents(b) == mb
        invariant forall i, j :: 0 <= i < r && 0 <= j < out.Length1 ==> out[i, j] == Dot(ma[i], Column(mb, j))
        invariant forall j :: 0 <= j < c ==> out[r, j] == Dot(ma[r], Column(mb, j))
      {
        out[r, c] := DotOf(a, b, r, c);
      }
    }
    ret := 0;
  }

  method DotOf(a: array2<Byte>, b: array2<Byte>, r: nat, c: nat) returns (sum: Byte)
    requires a.Length1 == b.Length0 && r < a.Length0 && c < b.Length1
    ensures sum == Dot(Contents(a)[r], Column(Contents(b), c))
  {
    hide Mul, Add;
    ghost var u, v := Contents(a)[r], Column(Contents(b), c);
    sum := 0;
    for i := 0 to a.Length1
      invariant sum == Dot(u[..i], v[..i])
    {
      DotSnoc(u[..i], v[..i], u[i], v[i]);
      assert u[..i] + [u[i]] == u[..i + 1] && v[..i] + [v[i]] == v[..i + 1];
      sum := Add(sum, Mul(a[r, i], b[i, c]));
    }
    assert u[..a.Length1] == u && v[..a.Length1] == v;
  }
}
