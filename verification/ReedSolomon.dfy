/** The systematic Reed-Solomon code over GF(2^8), from the encoding matrix to a
    stripe that survives any m losses. */
module ReedSolomon {
  import opened Basics
  import opened Errno
  import opened Wrappers
  import opened Gf256
  import opened GfTables
  import opened Vectors
  import opened Matrix
  import opened Vandermonde
  import opened Mds

  const MAX_SHARDS := 255

  // ----- the encoding matrix

  method BuildSmall(t: Tables, k: nat, m: nat) returns (enc: array2<Byte>)
    requires ValidTables(t) && k >= 1 && 1 <= m <= 2
    ensures fresh(enc) && enc.Length0 == k + m && enc.Length1 == k && SmallRows(Contents(enc), k, m)
  {
    hide Power, Mul, Step;
    enc := new Byte[k + m, k]((_, _) => 0);
    for r := 0 to k
      invariant forall i, c :: 0 <= i < k + m && 0 <= c < k ==> enc[i, c] == if i == c && i < r then 1 else 0
    {
      enc[r, r] := 1;
    }
    for c := 0 to k
      invariant forall i, d :: 0 <= i < k + m && 0 <= d < k && i != k ==> enc[i, d] == if i == d && i < k then 1 else 0
      invariant forall d :: 0 <= d < c ==> enc[k, d] == 1
    {
      enc[k, c] := 1;
    }
    if m == 2 {
      var coef: Byte := 1;
      ZeroPower();
      for c := 0 to k
        invariant coef == Power(c)
        invariant forall i, d :: 0 <= i < k && 0 <= d < k ==> enc[i, d] == if i == d then 1 else 0
        invariant forall d :: 0 <= d < k ==> enc[k, d] == 1
        invariant forall d :: 0 <= d < c ==> enc[k + 1, d] == Power(d)
      {
        enc[k + 1, c] := coef;
        MulComm(coef, 2);
        MulTwo(coef);
        NextPower(c);
        coef := GfMul(t, coef, 2);
      }
    }
  }

  lemma BuiltRows(v: array2<Byte>, k: nat, n: nat)
    requires k <= n <= 255 && v.Length0 == n && v.Length1 == k
    requires forall r, c :: 0 <= r < n && 0 <= c < k ==> v[r, c] == Pow(Point(r), c % 256)
    ensures VandermondeRows(Contents(v), k, n)
  {
    hide Pow, Point;
  }

  /** Never fails: the top of a Vandermonde matrix is non-singular.  By EvaluatesOnce
      the result is the only matrix that evaluates. */
  method BuildLarge(k: nat, m: nat) returns (enc: array2<Byte>)
    requires k >= 1 && m >= 3 && k + m <= MAX_SHARDS
    ensures fresh(enc) && enc.Length0 == k + m && enc.Length1 == k
    ensures Systematic(Contents(enc), k) && IsMds(Contents(enc), k, k + m) && Evaluates(Contents(enc), k)
  {
    hide Pow, Point, Dot, LeftInverse, TrivialKernel, IsMds, Systematic, Contents, VandermondeRows, Evaluates;
    var n := k + m;
    var vand := Build(n, k);
    BuiltRows(vand, k, n);
    ghost var v := Contents(vand);
    var top := new Byte[k, k]((r, c) requires 0 <= r < k <= vand.Length0 && 0 <= c < k == vand.Length1 reads vand => vand[r, c]);
    TopIs(vand, top, k);
    TopInverts(v, k, n);
    var inv := new Byte[k, k];
    var ret := Invert(top, inv);
    enc := new Byte[n, k];
    ret := Multiply(vand, inv, enc);
    ProductIs(vand, inv, enc, k);
    NormalizedSystematic(Contents(enc), v, Contents(inv), k);
    NormalizedIsMds(Contents(enc), v, Contents(inv), k, n);
    NormalizedEvaluates(Contents(enc), v, Contents(inv), k, n);
  }

  lemma TopIs(vand: array2<Byte>, top: array2<Byte>, k: nat)
    requires vand.Length0 >= k == vand.Length1 && top.Length0 == top.Length1 == k
    requires forall r, c :: 0 <= r < k && 0 <= c < k ==> top[r, c] == vand[r, c]
    ensures Contents(top) == Contents(vand)[..k] && Square(Contents(top), k)
  {
    MatEqual(Contents(top), Contents(vand)[..k], k);
  }

  lemma ProductIs(vand: array2<Byte>, inv: array2<Byte>, enc: array2<Byte>, k: nat)
    requires vand.Length0 == enc.Length0 >= k && vand.Length1 == enc.Length1 == inv.Length0 == inv.Length1 == k
    requires LeftInverse(Contents(inv), Contents(vand)[..k], k) && TrivialKernel(Contents(inv), k)
    requires forall r, c :: 0 <= r < enc.Length0 && 0 <= c < k ==> enc[r, c] == Dot(Contents(vand)[r], Column(Contents(inv), c))
    ensures Normalized(Contents(enc), Contents(vand), Contents(inv), k)
  {
    hide Dot, LeftInverse, TrivialKernel, Column;
  }

  /** Which code it is: up to two parity rows are all ones and the powers of 2; with
      more, every row evaluates the data's polynomial at its own point. */
  ghost predicate Layout(enc: Mat, k: nat, m: nat) {
    if m <= 2 then SmallRows(enc, k, m) else Evaluates(enc, k)
  }

  /** Identity on top, any k rows independent, in the layout of m. */
  method BuildEncodingMatrix(t: Tables, k: nat, m: nat) returns (enc: array2<Byte>)
    requires ValidTables(t) && k >= 1 && m >= 1 && k + m <= MAX_SHARDS
    ensures fresh(enc) && enc.Length0 == k + m && enc.Length1 == k
    ensures Systematic(Contents(enc), k) && IsMds(Contents(enc), k, k + m)
    ensures Layout(Contents(enc), k, m)
  {
    hide Systematic, IsMds, SmallRows, Evaluates, Contents;
    if m <= 2 {
      enc := BuildSmall(t, k, m);
      SmallSystematic(Contents(enc), k, m);
      SmallIsMds(Contents(enc), k, m);
    } else {
      enc := BuildLarge(k, m);
    }
  }

  // ----- multiplying a shard by a coefficient

  datatype CoeffTables = CoeffTables(full: seq<Byte>, split: seq<Byte>)

  ghost predicate TablesFor(ct: CoeffTables, c: Byte) {
    && |ct.full| == 256 && |ct.split| == 32
    && (forall b: Byte :: ct.full[b as int] == Mul(c, b))
    && forall b: Byte :: LowNibble(b) as int < 16 && HighNibble(b) as int < 16
                         && Add(ct.split[LowNibble(b) as int], ct.split[16 + HighNibble(b) as int]) == Mul(c, b)
  }

  method MakeTables(t: Tables, c: Byte) returns (ct: CoeffTables)
    requires ValidTables(t)
    ensures TablesFor(ct, c)
  {
    hide Mul, Add, LowNibble, HighNibble;
    var full := MulTable(t, c);
    var split := SplitTable(t, c);
    ct := CoeffTables(full[..], split[..]);
  }

  /** What one position of the accumulator becomes. */
  function Accumulated(init: bool, was: Byte, c: Byte, b: Byte): Byte {
    if init then Mul(c, b) else Add(was, Mul(c, b))
  }

  function FromFull(ct: CoeffTables, init: bool, was: Byte, b: Byte, ghost c: Byte): (r: Byte)
    requires TablesFor(ct, c)
    ensures r == Accumulated(init, was, c, b)
  {
    if init then ct.full[b as int] else Add(was, ct.full[b as int])
  }

  function FromSplit(ct: CoeffTables, init: bool, was: Byte, b: Byte, ghost c: Byte): (r: Byte)
    requires TablesFor(ct, c)
    ensures r == Accumulated(init, was, c, b)
  {
    var prod := Add(ct.split[LowNibble(b) as int], ct.split[16 + HighNibble(b) as int]);
    if init then prod else Add(was, prod)
  }

  /** out = c * in, or out += c * in.  Where the vector shuffles exist they take
      whole blocks of 16 through the split tables; the rest goes through the full table. */
  method MulAdd(out: array<Byte>, inp: array<Byte>, ct: CoeffTables, init: bool, simd: bool, ghost c: Byte)
    requires out != inp && out.Length == inp.Length && TablesFor(ct, c)
    modifies out
    ensures forall p :: 0 <= p < out.Length ==> out[p] == Accumulated(init, old(out[p]), c, inp[p])
  {
    hide TablesFor, Accumulated;
    var len := out.Length;
    var done := if simd then len - len % 16 else 0;
    var p := 0;
    while p < done
      invariant 0 <= p <= done && p % 16 == 0 && done % 16 == 0
      invariant forall q :: 0 <= q < p ==> out[q] == Accumulated(init, old(out[q]), c, inp[q])
      invariant forall q :: p <= q < len ==> out[q] == old(out[q])
      decreases done - p
    {
      for i := 0 to 16
        invariant forall q :: 0 <= q < p + i ==> out[q] == Accumulated(init, old(out[q]), c, inp[q])
        invariant forall q :: p + i <= q < len ==> out[q] == old(out[q])
      {
        out[p + i] := FromSplit(ct, init, out[p + i], inp[p + i], c);
      }
      p := p + 16;
    }
    while p < len
      invariant 0 <= p <= len
      invariant forall q :: 0 <= q < p ==> out[q] == Accumulated(init, old(out[q]), c, inp[q])
      invariant forall q :: p <= q < len ==> out[q] == old(out[q])
    {
      out[p] := FromFull(ct, init, out[p], inp[p], c);
      p := p + 1;
    }
  }

  // ----- combining shards

  /** The shard a matrix row makes of the data. */
  ghost function Word(row: Vec, data: Mat, len: nat): (w: Vec)
    requires |row| == |data| && Rectangular(data, len)
    ensures |w| == len && forall p :: 0 <= p < len ==> w[p] == Dot(row, Column(data, p))
  {
    seq(len, p requires 0 <= p < len => Dot(row, Column(data, p)))
  }

  lemma FirstTerm(row: Vec, x: Vec, c: Byte, was: Byte)
    requires |row| == |x| >= 1 && c == row[0]
    ensures Accumulated(true, was, c, x[0]) == Dot(row[..1], x[..1])
  {
    hide Mul, Add;
    DotSnoc([], [], row[0], x[0]);
    AddLaws(Mul(row[0], x[0]), 0, 0);
    assert row[..1] == [] + [row[0]] && x[..1] == [] + [x[0]];
  }

  lemma NextTerm(row: Vec, x: Vec, j: nat, was: Byte)
    requires |row| == |x| && 1 <= j < |row| && was == Dot(row[..j], x[..j])
    ensures Accumulated(false, was, row[j], x[j]) == Dot(row[..j + 1], x[..j + 1])
  {
    hide Mul, Add;
    DotSnoc(row[..j], x[..j], row[j], x[j]);
    assert row[..j + 1] == row[..j] + [row[j]] && x[..j + 1] == x[..j] + [x[j]];
  }

  /** out becomes the combination of the inputs with the row's coefficients. */
  method Combine(out: array<Byte>, inputs: seq<array<Byte>>, tables: seq<CoeffTables>, simd: bool, ghost row: Vec, ghost data: Mat)
    requires |inputs| == |tables| == |row| == |data| >= 1 && Rectangular(data, out.Length)
    requires forall j :: 0 <= j < |inputs| ==> inputs[j] != out && inputs[j][..] == data[j]
    requires forall j :: 0 <= j < |inputs| ==> TablesFor(tables[j], row[j])
    modifies out
    ensures out[..] == Word(row, data, out.Length)
  {
    hide TablesFor, Accumulated, Dot;
    var k := |inputs|;
    var j := 0;
    while j < k
      invariant 0 <= j <= k
      invariant forall i :: 0 <= i < k ==> inputs[i][..] == data[i]
      invariant j >= 1 ==> forall p :: 0 <= p < out.Length ==> out[p] == Dot(row[..j], Column(data, p)[..j])
    {
      ghost var was := out[..];
      assert inputs[j].Length == |data[j]| == out.Length;
      MulAdd(out, inputs[j], tables[j], j == 0, simd, row[j]);
      forall p | 0 <= p < out.Length ensures out[p] == Dot(row[..j + 1], Column(data, p)[..j + 1]) {
        assert inputs[j][p] == data[j][p] == Column(data, p)[j];
        if j == 0 {
          FirstTerm(row, Column(data, p), row[0], was[p]);
        } else {
          NextTerm(row, Column(data, p), j, was[p]);
        }
      }
      j := j + 1;
    }
    forall p | 0 <= p < out.Length ensures out[p] == Dot(row, Column(data, p)) {
      assert row[..k] == row && Column(data, p)[..k] == Column(data, p);
    }
  }

  // ----- codes

  datatype Code = Code(k: nat, m: nat, enc: Mat, tables: seq<seq<CoeffTables>>)

  ghost predicate TableRow(tables: seq<CoeffTables>, row: Vec) {
    |tables| == |row| && forall j :: 0 <= j < |row| ==> TablesFor(tables[j], row[j])
  }

  ghost predicate ValidCode(code: Code) {
    && code.k >= 1 && code.m >= 1 && code.k + code.m <= MAX_SHARDS
    && |code.enc| == code.k + code.m && Systematic(code.enc, code.k) && IsMds(code.enc, code.k, code.k + code.m)
    && Layout(code.enc, code.k, code.m)
    && |code.tables| == code.m && forall i :: 0 <= i < code.m ==> TableRow(code.tables[i], code.enc[code.k + i])
  }

  method MakeTableRow(t: Tables, row: Vec) returns (tables: seq<CoeffTables>)
    requires ValidTables(t)
    ensures TableRow(tables, row)
  {
    hide TablesFor;
    tables := [];
    for j := 0 to |row|
      invariant |tables| == j && forall i :: 0 <= i < j ==> TablesFor(tables[i], row[i])
    {
      var ct := MakeTables(t, row[j]);
      tables := tables + [ct];
    }
  }

  /** A code exists for exactly the shapes with 1 <= k, 1 <= m and k + m <= 255. */
  method Create(k: int, m: int) returns (code: Option<Code>)
    ensures code.Some? <==> k >= 1 && m >= 1 && k + m <= MAX_SHARDS
    ensures code.Some? ==> ValidCode(code.value) && code.value.k == k && code.value.m == m
  {
    hide Systematic, Layout, TableRow, ValidTables, Contents;
    if k < 1 || m < 1 || k + m > MAX_SHARDS {
      return None;
    }
    var t := InitTables();
    var enc := BuildEncodingMatrix(t, k, m);
    var e := Contents(enc);
    var tables := [];
    for i := 0 to m
      invariant |tables| == i && forall j :: 0 <= j < i ==> TableRow(tables[j], e[k + j])
    {
      var row := MakeTableRow(t, e[k + i]);
      tables := tables + [row];
    }
    code := Some(Code(k, m, e, tables));
  }

  /** Buffers for a stripe of `len` bytes a shard. */
  ghost predicate StripeBuffers(code: Code, shards: seq<array<Byte>>, len: nat) {
    |shards| == code.k + code.m && Apart(shards) && forall i :: 0 <= i < |shards| ==> shards[i].Length == len
  }

  /** Shard i holds row i of the codeword for `data`. */
  ghost predicate HoldsShard(code: Code, shard: array<Byte>, i: nat, data: Mat, len: nat)
    reads shard
  {
    && i < |code.enc| && |code.enc[i]| == |data| && Rectangular(data, len)
    && shard[..] == Word(code.enc[i], data, len)
  }

  lemma DataShardIsData(code: Code, i: nat, data: Mat, len: nat)
    requires ValidCode(code) && i < code.k == |data| && Rectangular(data, len)
    ensures |code.enc[i]| == |data| && Word(code.enc[i], data, len) == data[i]
  {
    hide Dot, IsMds, TableRow, Layout;
    forall p | 0 <= p < len ensures Word(code.enc[i], data, len)[p] == data[i][p] {
      assert Dot(code.enc[i], Column(data, p)) == Column(data, p)[i];
    }
  }

  method EncodeShard(code: Code, shard: array<Byte>, i: nat, inputs: seq<array<Byte>>, len: nat, simd: bool, ghost data: Mat)
    requires ValidCode(code) && i < code.m && shard.Length == len && |inputs| == |data| == code.k && Rectangular(data, len)
    requires forall j :: 0 <= j < code.k ==> inputs[j] != shard && inputs[j][..] == data[j]
    modifies shard
    ensures HoldsShard(code, shard, code.k + i, data, len)
  {
    hide Dot, IsMds, TablesFor, Word, Layout;
    ghost var row := code.enc[code.k + i];
    assert TableRow(code.tables[i], row);
    Combine(shard, inputs, code.tables[i], simd, row, data);
  }

  function XorOf(x: Vec): Byte {
    if x == [] then 0 else Add(x[0], XorOf(x[1..]))
  }

  lemma {:induction false} OnesDot(u: Vec, x: Vec)
    requires |u| == |x| && forall c :: 0 <= c < |u| ==> u[c] == 1
    ensures Dot(u, x) == XorOf(x)
  {
    hide Mul, Add;
    if u != [] {
      OnesDot(u[1..], x[1..]);
      MulOne(x[0]);
    }
  }

  lemma {:induction false} PowerOfTwo(c: nat)
    ensures Power(c) == Pow(2, c)
  {
    hide Mul, Power;
    if c == 0 {
      ZeroPower();
    } else {
      PowerOfTwo(c - 1);
      MulTwo(Power(c - 1));
      NextPower(c - 1);
    }
  }

  /** The two parity rows of a small code: the XOR of the data, and their polynomial at 2. */
  lemma SmallShards(enc: Mat, k: nat, m: nat, x: Vec)
    requires SmallRows(enc, k, m) && |x| == k
    ensures Dot(enc[k], x) == XorOf(x) && (m == 2 ==> Dot(enc[k + 1], x) == Eval(x, 2))
  {
    hide Power, Dot, Eval, XorOf, Pow;
    OnesDot(enc[k], x);
    if m == 2 {
      forall c | 0 <= c < k ensures enc[k + 1][c] == PowerRow(2, k)[c] {
        PowerOfTwo(c);
      }
      assert enc[k + 1] == PowerRow(2, k);
      PowerRowEvaluates(2, x);
    }
  }

  /** The data bytes at position p are the values of polynomial a at points 1 to k. */
  ghost predicate DataOf(code: Code, data: Mat, p: nat, a: Vec) {
    && code.m >= 3 && |a| == code.k == |data|
    && forall j :: 0 <= j < code.k ==> p < |data[j]| && data[j][p] == Eval(a, Point(j))
  }

  lemma ShardEvaluates(code: Code, i: nat, data: Mat, len: nat, p: nat, a: Vec)
    requires ValidCode(code) && i < |code.enc| && |data| == code.k && Rectangular(data, len) && p < len && DataOf(code, data, p, a)
    ensures |code.enc[i]| == |data| && Word(code.enc[i], data, len)[p] == Eval(a, Point(i))
  {
    hide IsMds, Systematic, TableRow, Eval, Point, Dot;
    assert Column(data, p) == Values(a, code.k);
  }

  lemma SmallShardIs(code: Code, data: Mat, len: nat, p: nat)
    requires ValidCode(code) && code.m <= 2 && |data| == code.k && Rectangular(data, len) && p < len
    ensures |code.enc[code.k]| == code.k && Word(code.enc[code.k], data, len)[p] == XorOf(Column(data, p))
    ensures code.m == 2 ==> |code.enc[code.k + 1]| == code.k && Word(code.enc[code.k + 1], data, len)[p] == Eval(Column(data, p), 2)
  {
    hide IsMds, TableRow, Eval, XorOf, Dot, SmallRows;
    SmallShards(code.enc, code.k, code.m, Column(data, p));
  }

  /** Fill the parity shards from the data shards.  With one or two parity shards they
      are the XOR of the data and its polynomial at 2; with more, every shard is the
      value at its own point of the polynomial whose values the data are. */
  method Encode(code: Code, shards: seq<array<Byte>>, len: nat, simd: bool, ghost data: Mat)
    requires ValidCode(code) && StripeBuffers(code, shards, len) && |data| == code.k && Rectangular(data, len)
    requires forall i :: 0 <= i < code.k ==> shards[i][..] == data[i]
    modifies shards[code.k..]
    ensures forall i :: 0 <= i < |shards| ==> HoldsShard(code, shards[i], i, data, len)
    ensures forall p, a :: 0 <= p < len && DataOf(code, data, p, a) ==> forall i :: 0 <= i < |shards| ==> shards[i][p] == Eval(a, Point(i))
    ensures code.m <= 2 ==> forall p :: 0 <= p < len ==> shards[code.k][p] == XorOf(Column(data, p))
    ensures code.m == 2 ==> forall p :: 0 <= p < len ==> shards[code.k + 1][p] == Eval(Column(data, p), 2)
  {
    hide IsMds, Systematic, TableRow, Word, HoldsShard, Layout, DataOf, XorOf, Eval, Point;
    var k := code.k;
    for i := 0 to code.m
      invariant forall j :: 0 <= j < k ==> shards[j][..] == data[j]
      invariant forall j :: k <= j < k + i ==> HoldsShard(code, shards[j], j, data, len)
    {
      assert shards[k + i] == shards[k..][i];
      EncodeShard(code, shards[k + i], i, shards[..k], len, simd, data);
    }
    DataShardsHold(code, shards, data, len);
    forall p, a | 0 <= p < len && DataOf(code, data, p, a) ensures forall i :: 0 <= i < |shards| ==> shards[i][p] == Eval(a, Point(i)) {
      forall i | 0 <= i < |shards| ensures shards[i][p] == Eval(a, Point(i)) {
        HeldByte(code, shards[i], i, data, len, p);
        ShardEvaluates(code, i, data, len, p, a);
      }
    }
    if code.m <= 2 {
      forall p | 0 <= p < len
        ensures shards[k][p] == XorOf(Column(data, p)) && (code.m == 2 ==> shards[k + 1][p] == Eval(Column(data, p), 2))
      {
        SmallShardIs(code, data, len, p);
        HeldByte(code, shards[k], k, data, len, p);
        if code.m == 2 {
          HeldByte(code, shards[k + 1], k + 1, data, len, p);
        }
      }
    }
  }

  lemma HeldByte(code: Code, shard: array<Byte>, i: nat, data: Mat, len: nat, p: nat)
    requires HoldsShard(code, shard, i, data, len) && p < len
    ensures shard.Length == len && i < |code.enc| && |code.enc[i]| == |data| && shard[p] == Word(code.enc[i], data, len)[p]
  {
    hide Word;
  }

  lemma DataShardsHold(code: Code, shards: seq<array<Byte>>, data: Mat, len: nat)
    requires ValidCode(code) && StripeBuffers(code, shards, len) && |data| == code.k && Rectangular(data, len)
    requires forall i :: 0 <= i < code.k ==> shards[i][..] == data[i]
    ensures forall i :: 0 <= i < code.k ==> HoldsShard(code, shards[i], i, data, len)
  {
    hide IsMds, Systematic, TableRow, Word, Layout;
    forall i | 0 <= i < code.k ensures HoldsShard(code, shards[i], i, data, len) {
      DataShardIsData(code, i, data, len);
    }
  }

  // ----- decoding

  function Available(present: seq<bool>): nat {
    if present == [] then 0 else Available(present[..|present| - 1]) + if present[|present| - 1] then 1 else 0
  }

  lemma {:induction false} AllAvailable(present: seq<bool>)
    ensures Available(present) <= |present|
    ensures Available(present) == |present| ==> forall i :: 0 <= i < |present| ==> present[i]
  {
    if present != [] {
      AllAvailable(present[..|present| - 1]);
    }
  }

  /** The first k shards that are there. */
  method FirstAvailable(present: seq<bool>, k: nat) returns (idx: seq<nat>)
    requires Available(present) >= k
    ensures Choice(idx, k, |present|) && forall i :: 0 <= i < k ==> present[idx[i]]
  {
    idx := [];
    var i := 0;
    assert present[..0] == [];
    while i < |present| && |idx| < k
      invariant 0 <= i <= |present| && |idx| <= k
      invariant |idx| < k ==> |idx| == Available(present[..i])
      invariant forall j :: 0 <= j < |idx| ==> idx[j] < i && present[idx[j]]
      invariant forall j, l :: 0 <= j < l < |idx| ==> idx[j] != idx[l]
    {
      assert present[..i + 1][..i] == present[..i];
      if present[i] {
        idx := idx + [i];
      }
      i := i + 1;
    }
    assert present[..|present|] == present;
  }

  /** The shards that were read, as a matrix: row c is the codeword row of shard idx[c]. */
  ghost function Received(code: Code, idx: seq<nat>, data: Mat, len: nat): (r: Mat)
    requires ValidCode(code) && Choice(idx, code.k, code.k + code.m) && |data| == code.k && Rectangular(data, len)
    ensures |r| == code.k && Rectangular(r, len) && forall c :: 0 <= c < code.k ==> r[c] == Word(code.enc[idx[c]], data, len)
  {
    seq(code.k, c requires 0 <= c < code.k => Word(code.enc[idx[c]], data, len))
  }

  lemma RecoveredIsData(code: Code, idx: seq<nat>, inv: Mat, r: nat, data: Mat, len: nat)
    requires ValidCode(code) && Choice(idx, code.k, code.k + code.m) && |data| == code.k && Rectangular(data, len)
    requires Square(Rows(code.enc, idx), code.k) && Square(inv, code.k) && LeftInverse(inv, Rows(code.enc, idx), code.k) && r < code.k
    ensures Word(inv[r], Received(code, idx, data, len), len) == data[r]
  {
    hide Dot, IsMds, Systematic, TableRow, LeftInverse, Layout;
    var k := code.k;
    var sub := Rows(code.enc, idx);
    var received := Received(code, idx, data, len);
    forall p | 0 <= p < len ensures Dot(inv[r], Column(received, p)) == data[r][p] {
      var x := Column(data, p);
      assert Column(received, p) == Apply(sub, x);
      LeftInverseSolves(inv, sub, k, x);
      assert Apply(inv, Apply(sub, x))[r] == x[r];
    }
  }

  lemma ChosenRowsInvert(code: Code, idx: seq<nat>, sub: array2<Byte>)
    requires ValidCode(code) && Choice(idx, code.k, code.k + code.m) && sub.Length0 == sub.Length1 == code.k
    requires forall r, c :: 0 <= r < code.k && 0 <= c < code.k ==> sub[r, c] == code.enc[idx[r]][c]
    ensures Contents(sub) == Rows(code.enc, idx) && TrivialKernel(Contents(sub), code.k)
  {
    hide TrivialKernel, TableRow, Systematic;
    MatEqual(Contents(sub), Rows(code.enc, idx), code.k);
  }

  /** The inverse of any k rows; it always exists. */
  method InvertChosen(code: Code, idx: seq<nat>) returns (inv: Mat)
    requires ValidCode(code) && Choice(idx, code.k, code.k + code.m)
    ensures Square(Rows(code.enc, idx), code.k) && Square(inv, code.k) && LeftInverse(inv, Rows(code.enc, idx), code.k)
  {
    hide IsMds, TableRow, LeftInverse, TrivialKernel, Contents, Layout;
    var k := code.k;
    var enc := code.enc;
    var sub := new Byte[k, k]((r, c) requires 0 <= r < k <= |idx| && 0 <= c < k && idx[r] < |enc| && k == |enc[idx[r]]| => enc[idx[r]][c]);
    ChosenRowsInvert(code, idx, sub);
    var inverse := new Byte[k, k];
    var ret := Invert(sub, inverse);
    inv := Contents(inverse);
  }

  /** Rebuild every data shard, from any k shards, into new buffers. */
  method Recover(t: Tables, code: Code, shards: seq<array<Byte>>, idx: seq<nat>, len: nat, simd: bool, ghost data: Mat)
    returns (recovered: seq<array<Byte>>)
    requires ValidTables(t) && ValidCode(code) && StripeBuffers(code, shards, len) && |data| == code.k && Rectangular(data, len)
    requires Choice(idx, code.k, code.k + code.m) && forall c :: 0 <= c < code.k ==> HoldsShard(code, shards[idx[c]], idx[c], data, len)
    ensures |recovered| == code.k && forall r :: 0 <= r < code.k ==> fresh(recovered[r]) && recovered[r][..] == data[r]
  {
    hide Dot, IsMds, Systematic, TablesFor, Word, LeftInverse, TrivialKernel, ValidTables, Layout;
    var k := code.k;
    var inv := InvertChosen(code, idx);
    var inputs := seq(k, c requires 0 <= c < k && |idx| == k && idx[c] < |shards| => shards[idx[c]]);
    ghost var received := Received(code, idx, data, len);
    recovered := [];
    for r := 0 to k
      invariant |recovered| == r && forall i :: 0 <= i < r ==> fresh(recovered[i]) && recovered[i][..] == data[i]
      invariant forall c :: 0 <= c < k ==> inputs[c][..] == received[c]
    {
      var tables := MakeTableRow(t, inv[r]);
      var rr := new Byte[len];
      Combine(rr, inputs, tables, simd, inv[r], received);
      RecoveredIsData(code, idx, inv, r, data, len);
      recovered := recovered + [rr];
    }
  }

  method CopyShard(to: array<Byte>, from: array<Byte>)
    requires to != from && to.Length == from.Length
    modifies to
    ensures to[..] == from[..]
  {
    for p := 0 to to.Length
      invariant to[..p] == from[..p]
    {
      to[p] := from[p];
    }
  }

  /** Put the recovered data into the data shards that were lost. */
  method CopyBack(code: Code, shards: seq<array<Byte>>, present: seq<bool>, recovered: seq<array<Byte>>, len: nat, ghost data: Mat)
    requires ValidCode(code) && StripeBuffers(code, shards, len) && |present| == |shards| && |data| == code.k == |recovered|
    requires Rectangular(data, len)
    requires forall r, i :: 0 <= r < code.k && 0 <= i < |shards| ==> recovered[r] != shards[i]
    requires forall r :: 0 <= r < code.k ==> recovered[r][..] == data[r]
    requires forall i :: 0 <= i < |shards| && present[i] ==> HoldsShard(code, shards[i], i, data, len)
    modifies shards
    ensures forall r :: 0 <= r < code.k ==> recovered[r][..] == data[r] && shards[r][..] == data[r]
    ensures forall i :: 0 <= i < |shards| && present[i] ==> HoldsShard(code, shards[i], i, data, len)
  {
    hide IsMds, Systematic, TableRow, Word, Layout;
    forall i | 0 <= i < code.k && present[i] ensures shards[i][..] == data[i] {
      DataShardIsData(code, i, data, len);
    }
    for i := 0 to code.k
      invariant forall r :: 0 <= r < code.k ==> recovered[r][..] == data[r] && (r < i || present[r] ==> shards[r][..] == data[r])
      invariant forall j :: 0 <= j < |shards| && present[j] ==> shards[j][..] == old(shards[j][..])
    {
      if !present[i] {
        assert recovered[i].Length == |data[i]| == len;
        CopyShard(shards[i], recovered[i]);
      }
    }
  }

  /** Re-encode the parity shards that were lost. */
  method Regenerate(code: Code, shards: seq<array<Byte>>, present: seq<bool>, recovered: seq<array<Byte>>, len: nat, simd: bool, ghost data: Mat)
    requires ValidCode(code) && StripeBuffers(code, shards, len) && |present| == |shards| && |data| == code.k == |recovered|
    requires Rectangular(data, len)
    requires forall r, i :: 0 <= r < code.k && 0 <= i < |shards| ==> recovered[r] != shards[i]
    requires forall r :: 0 <= r < code.k ==> recovered[r][..] == data[r] && shards[r][..] == data[r]
    requires forall i :: 0 <= i < |shards| && present[i] ==> HoldsShard(code, shards[i], i, data, len)
    modifies shards[code.k..]
    ensures forall i :: 0 <= i < |shards| ==> HoldsShard(code, shards[i], i, data, len)
  {
    hide IsMds, Systematic, TableRow, Word, HoldsShard, Layout;
    var k := code.k;
    var inputs := seq(k, j requires 0 <= j < k && k <= |present| && k <= |shards| && k == |recovered| =>
                     if present[j] then shards[j] else recovered[j]);
    for i := 0 to code.m
      invariant forall j :: 0 <= j < k ==> inputs[j][..] == data[j] && shards[j][..] == data[j]
      invariant forall j :: k <= j < |shards| && (j < k + i || present[j]) ==> HoldsShard(code, shards[j], j, data, len)
    {
      if !present[k + i] {
        assert shards[k + i] == shards[k..][i];
        EncodeShard(code, shards[k + i], i, inputs, len, simd, data);
      }
    }
    DataShardsHold(code, shards, data, len);
  }

  /** Decode succeeds exactly when at least k shards are there, and then every
      shard, data and parity, is the codeword's again. */
  method Decode(t: Tables, code: Code, shards: seq<array<Byte>>, present: seq<bool>, len: nat, simd: bool, ghost data: Mat) returns (ret: int)
    requires ValidTables(t) && ValidCode(code) && StripeBuffers(code, shards, len) && |present| == |shards|
    requires |data| == code.k && Rectangular(data, len)
    requires forall i :: 0 <= i < |shards| && present[i] ==> HoldsShard(code, shards[i], i, data, len)
    modifies shards
    ensures ret == if Available(present) >= code.k then 0 else EIO
    ensures ret == 0 ==> forall i :: 0 <= i < |shards| ==> HoldsShard(code, shards[i], i, data, len)
    ensures ret != 0 ==> forall i :: 0 <= i < |shards| ==> shards[i][..] == old(shards[i][..])
  {
    hide IsMds, Systematic, TableRow, Word, ValidTables, HoldsShard, Layout;
    var avail := 0;
    for i := 0 to |present|
      invariant avail == Available(present[..i])
    {
      assert present[..i + 1][..i] == present[..i];
      if present[i] {
        avail := avail + 1;
      }
    }
    assert present[..|present|] == present;
    if avail < code.k {
      return EIO;
    }
    AllAvailable(present);
    if avail == |present| {
      return 0;
    }
    var idx := FirstAvailable(present, code.k);
    var recovered := Recover(t, code, shards, idx, len, simd, data);
    CopyBack(code, shards, present, recovered, len, data);
    Regenerate(code, shards, present, recovered, len, simd, data);
    ret := 0;
  }

  // ----- end to end

  method NewStripe(code: Code, rows: seq<seq<Byte>>, len: nat) returns (shards: seq<array<Byte>>)
    requires ValidCode(code) && |rows| == code.k && Rectangular(rows, len)
    ensures StripeBuffers(code, shards, len) && forall i :: 0 <= i < |shards| ==> fresh(shards[i])
    ensures forall i :: 0 <= i < code.k ==> shards[i][..] == rows[i]
  {
    shards := [];
    for i := 0 to code.k + code.m
      invariant |shards| == i && Apart(shards)
      invariant forall j :: 0 <= j < i ==> fresh(shards[j]) && shards[j].Length == len && (j < code.k ==> shards[j][..] == rows[j])
    {
      var s := if i < code.k then rows[i] else seq(len, _ => 0);
      var shard := new Byte[len](p requires 0 <= p < len && |s| == len => s[p]);
      assert shard[..] == s;
      shards := shards + [shard];
    }
  }

  /** Overwrite the shards that are not present. */
  method Lose(shards: seq<array<Byte>>, present: seq<bool>, noise: (nat, nat) -> Byte)
    requires Apart(shards) && |present| == |shards|
    modifies shards
    ensures forall i :: 0 <= i < |shards| && present[i] ==> shards[i][..] == old(shards[i][..])
    ensures forall i, p :: 0 <= i < |shards| && !present[i] && 0 <= p < shards[i].Length ==> shards[i][p] == noise(i, p)
  {
    for i := 0 to |shards|
      invariant forall j :: 0 <= j < |shards| && present[j] ==> shards[j][..] == old(shards[j][..])
      invariant forall j, p :: 0 <= j < i && !present[j] && 0 <= p < shards[j].Length ==> shards[j][p] == noise(j, p)
    {
      if !present[i] {
        var s := shards[i];
        forall p | 0 <= p < s.Length {
          s[p] := noise(i, p);
        }
      }
    }
  }

  /** Encode a stripe, lose any shards, decode: the data is back exactly when at
      least k shards were left, for every k, m, shard length and loss pattern,
      with or without the vector shuffles. */
  method SurvivesLosses(k: int, m: int, rows: seq<seq<Byte>>, len: nat, present: seq<bool>, noise: (nat, nat) -> Byte, simd: bool)
    returns (ret: int, out: seq<seq<Byte>>)
    requires k >= 1 && m >= 1 && k + m <= MAX_SHARDS && |present| == k + m && |rows| == k && Rectangular(rows, len)
    ensures ret == if Available(present) >= k then 0 else EIO
    ensures ret == 0 ==> out == rows
  {
    hide IsMds, Systematic, TableRow, Word, ValidTables, SmallRows, Layout;
    var created := Create(k, m);
    var code := created.value;
    var shards := NewStripe(code, rows, len);
    Encode(code, shards, len, simd, rows);
    Lose(shards, present, noise);
    var t := InitTables();
    ret := Decode(t, code, shards, present, len, simd, rows);
    out := [];
    if ret == 0 {
      for i := 0 to k
        invariant forall j :: 0 <= j < |shards| ==> HoldsShard(code, shards[j], j, rows, len)
        invariant |out| == i && forall j :: 0 <= j < i ==> out[j] == rows[j]
      {
        assert HoldsShard(code, shards[i], i, rows, len);
        DataShardIsData(code, i, rows, len);
        out := out + [shards[i][..]];
      }
    }
  }
}
