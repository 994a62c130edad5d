/** The log and antilog tables, the lookups that multiply with them, and the
    per-coefficient product tables of the encoders' inner loops. */
module GfTables {
  import opened Gf256

  datatype Tables = Tables(exp: seq<Byte>, log: seq<nat>)

  ghost predicate ValidTables(t: Tables) {
    && |t.exp| == 512 && |t.log| == 256 && t.log[0] == 0
    && (forall i :: 0 <= i < 512 ==> t.exp[i] == Power(i))
    && forall i :: 0 <= i < ORDER ==> t.log[Power(i) as int] == i
  }

  /** The loop's x as the source keeps it: a wider integer reduced after each shift. */
  function WideStep(x: bv16): bv16 {
    var y := x << 1;
    if y & 0x100 != 0 then y ^ 0x11d else y
  }

  lemma WideStepIsStep(x: bv16)
    requires x < 0x100
    ensures WideStep(x) < 0x100 && WideStep(x) as Byte == Step(x as Byte)
  {
    if x & 0x80 != 0 {} else {}
  }

  /** Fill the tables: 255 steps of x, then the doubled half. */
  method InitTables() returns (t: Tables)
    ensures ValidTables(t)
  {
    hide Power, WideStep, Step;
    var exp, log := new Byte[512], new nat[256](_ => 0);
    var x: bv16 := 1;
    ZeroPower();
    for i := 0 to ORDER
      invariant x < 0x100 && x as Byte == Power(i)
      invariant forall j :: 0 <= j < i ==> exp[j] == Power(j)
      invariant forall j :: 0 <= j < i ==> log[Power(j) as int] == j
    {
      exp[i] := x as Byte;
      forall j | 0 <= j < i ensures Power(j) as int != Power(i) as int {
        PowersDistinct(j, i);
        if Power(j) as int == Power(i) as int {
          SameByte(Power(j), Power(i));
        }
      }
      log[(x as Byte) as int] := i;
      WideStepIsStep(x);
      NextPower(i);
      x := WideStep(x);
    }
    for i := ORDER to 512
      invariant forall j :: 0 <= j < i ==> exp[j] == Power(j)
      invariant forall j :: 0 <= j < ORDER ==> log[Power(j) as int] == j
    {
      PowerPeriod(i - ORDER, 1);
      exp[i] := exp[i - ORDER];
    }
    forall j | 0 <= j < ORDER ensures Power(j) as int != 0 {
      PowerNotZero(j);
    }
    log[0] := 0;
    t := Tables(exp[..], log[..]);
  }

  lemma NextPower(i: nat)
    ensures Power(i + 1) == Step(Power(i))
  {}

  lemma TableLog(t: Tables, a: Byte)
    requires ValidTables(t) && a != 0
    ensures t.log[a as int] == Log(a) < ORDER
  {
    hide Power, Log;
    LogPower(a);
  }

  // ----- lookups

  function GfMul(t: Tables, a: Byte, b: Byte): (r: Byte)
    requires ValidTables(t)
    ensures r == Mul(a, b)
  {
    if a == 0 || b == 0 then 0
    else
      TableLog(t, a); TableLog(t, b);
      t.exp[t.log[a as int] + t.log[b as int]]
  }

  function GfInv(t: Tables, a: Byte): (r: Byte)
    requires ValidTables(t)
    ensures a != 0 ==> Mul(a, r) == 1
    ensures a == 0 ==> r == 0
  {
    if a == 0 then 0
    else
      TableLog(t, a); MulInverse(a);
      t.exp[ORDER - t.log[a as int]]
  }

  function GfPow(t: Tables, a: Byte, n: nat): (r: Byte)
    requires ValidTables(t) && n < 256
    ensures r == Pow(a, n)
  {
    TablePowIsPow(a, n);
    if n == 0 then 1
    else if a == 0 then 0
    else
      TableLog(t, a);
      t.exp[(t.log[a as int] * n) % ORDER]
  }

  // ----- product tables

  /** tbl[b] = c * b for every byte b. */
  method MulTable(t: Tables, c: Byte) returns (tbl: array<Byte>)
    requires ValidTables(t)
    ensures fresh(tbl) && tbl.Length == 256 && forall b: Byte :: tbl[b as int] == Mul(c, b)
  {
    hide Mul, Power, Log;
    tbl := new Byte[256](_ => 0);
    if c == 0 {
      forall b: Byte ensures Mul(c, b) == 0 {
        MulZero(b);
      }
      return;
    }
    MulZero(c);
    for i := 1 to 256
      invariant tbl[0] == 0
      invariant forall j :: 1 <= j < i ==> tbl[j] == Mul(c, j as Byte)
    {
      tbl[i] := LookupProduct(t, c, i as Byte);
    }
    forall b: Byte ensures tbl[b as int] == Mul(c, b) {
      assert b != 0 ==> (b as int) as Byte == b;
    }
  }

  function LookupProduct(t: Tables, c: Byte, b: Byte): (r: Byte)
    requires ValidTables(t) && c != 0 && b != 0
    ensures r == Mul(c, b)
  {
    TableLog(t, c); TableLog(t, b);
    t.exp[t.log[c as int] + t.log[b as int]]
  }

  function LowNibble(b: Byte): Byte {
    b & 0x0f
  }

  function HighNibble(b: Byte): Byte {
    b >> 4
  }

  function Shifted(n: Byte): Byte {
    n << 4
  }

  lemma Nibbles(b: Byte)
    ensures b == Add(LowNibble(b), Shifted(HighNibble(b)))
    ensures LowNibble(b) < 16 && HighNibble(b) < 16
  {}

  lemma NibbleIndex(n: Byte)
    requires n < 16
    ensures n as int < 16 && (n == 0 <==> Shifted(n) == 0)
  {}

  lemma SplitProduct(c: Byte, b: Byte)
    ensures var lo, hi := LowNibble(b), HighNibble(b);
            && lo < 16 && hi < 16 && lo as int < 16 && hi as int < 16 && (hi == 0 <==> Shifted(hi) == 0)
            && Add(Mul(c, lo), Mul(c, Shifted(hi))) == Mul(c, b)
  {
    hide Mul, LowNibble, HighNibble, Shifted, Add;
    Nibbles(b);
    NibbleIndex(LowNibble(b));
    NibbleIndex(HighNibble(b));
    MulDistributes(c, LowNibble(b), Shifted(HighNibble(b)));
  }

  /** Two 16-entry tables, one per nibble, whose XOR is the product: what the
      vector shuffles compute for 16 bytes at a time. */
  method SplitTable(t: Tables, c: Byte) returns (tbl: array<Byte>)
    requires ValidTables(t)
    ensures fresh(tbl) && tbl.Length == 32
    ensures forall b: Byte :: LowNibble(b) as int < 16 && HighNibble(b) as int < 16 &&
              Add(tbl[LowNibble(b) as int], tbl[16 + HighNibble(b) as int]) == Mul(c, b)
  {
    hide Mul, Power, Log, LowNibble, HighNibble, Shifted, Add;
    tbl := new Byte[32](_ => 0);
    if c != 0 {
      for i := 1 to 16
        invariant tbl[0] == 0 && tbl[16] == 0
        invariant forall j: Byte :: 0 < j < 16 && j as int < i ==> tbl[j as int] == Mul(c, j)
      {
        tbl[i] := LookupProduct(t, c, i as Byte);
      }
      for i := 1 to 16
        invariant tbl[0] == 0 && tbl[16] == 0
        invariant forall j: Byte :: 0 < j < 16 && j as int < 16 ==> tbl[j as int] == Mul(c, j)
        invariant forall j: Byte :: 0 < j < 16 && j as int < i ==> tbl[16 + j as int] == Mul(c, Shifted(j))
      {
        NibbleIndex(i as Byte);
        tbl[16 + i] := LookupProduct(t, c, Shifted(i as Byte));
      }
    }
    forall b: Byte ensures LowNibble(b) as int < 16 && HighNibble(b) as int < 16 &&
              Add(tbl[LowNibble(b) as int], tbl[16 + HighNibble(b) as int]) == Mul(c, b) {
      SplitProduct(c, b);
      MulZero(c);
      MulZero(LowNibble(b));
      MulZero(Shifted(HighNibble(b)));
    }
  }
}
