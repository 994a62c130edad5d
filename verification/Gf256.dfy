/** The field GF(2^8) as the tables build it: powers of x modulo
    x^8 + x^4 + x^3 + x^2 + 1 (0x11d).  The field laws are derived from the table
    loop alone: entry i of the antilog table is i steps of "multiply by x", and
    that step is linear over XOR. */
module Gf256 {

  type Byte = bv8

  const ORDER := 255

  /** x <<= 1, reduced by the polynomial when it overflows. */
  function Step(x: Byte): Byte {
    (x << 1) ^ (if x & 0x80 != 0 then 0x1d else 0)
  }

  /** n steps from `x`. */
  function Iterate(n: nat, x: Byte): Byte {
    if n == 0 then x else Step(Iterate(n - 1, x))
  }

  /** The antilog table: x to the power n. */
  function Power(n: nat): Byte {
    Iterate(n, 1)
  }

  function Add(a: Byte, b: Byte): Byte {
    a ^ b
  }

  lemma AddLaws(a: Byte, b: Byte, c: Byte)
    ensures Add(a, b) == Add(b, a)
    ensures Add(a, a) == 0 && Add(a, 0) == a && Add(0, a) == a
    ensures Add(a, b) == 0 <==> a == b
  {}

  lemma AddAssoc(a: Byte, b: Byte, c: Byte)
    ensures Add(Add(a, b), c) == Add(a, Add(b, c))
  {}

  // ----- linearity

  lemma StepLinear(a: Byte, b: Byte)
    ensures Step(Add(a, b)) == Add(Step(a), Step(b))
  {
    hide Step;
    StepXor(a, b);
  }

  lemma StepXor(a: Byte, b: Byte)
    ensures Step(a ^ b) == Step(a) ^ Step(b)
  {
    if a & 0x80 != 0 {
      if b & 0x80 != 0 {} else {}
    } else {
      if b & 0x80 != 0 {} else {}
    }
  }

  lemma StepInjective(a: Byte, b: Byte)
    requires Step(a) == Step(b)
    ensures a == b
  {}

  lemma {:induction false} IterateLinear(n: nat, a: Byte, b: Byte)
    ensures Iterate(n, Add(a, b)) == Add(Iterate(n, a), Iterate(n, b))
  {
    hide Step, Add;
    if n > 0 {
      IterateLinear(n - 1, a, b);
      StepLinear(Iterate(n - 1, a), Iterate(n - 1, b));
    }
  }

  lemma {:induction false} IterateAdd(m: nat, n: nat, a: Byte)
    ensures Iterate(m, Iterate(n, a)) == Iterate(m + n, a)
  {
    hide Step;
    if m > 0 {
      IterateAdd(m - 1, n, a);
    }
  }

  lemma {:induction false} IterateInjective(n: nat, a: Byte, b: Byte)
    requires Iterate(n, a) == Iterate(n, b)
    ensures a == b
  {
    hide Step;
    if n > 0 {
      StepInjective(Iterate(n - 1, a), Iterate(n - 1, b));
      IterateInjective(n - 1, a, b);
    }
  }

  lemma {:induction false} IterateZero(n: nat, a: Byte)
    ensures Iterate(n, a) == 0 <==> a == 0
  {
    if n > 0 {
      IterateZero(n - 1, a);
    }
  }

  // ----- x is a generator: its order is exactly 255

  function Step5(x: Byte): Byte {
    Step(Step(Step(Step(Step(x)))))
  }

  predicate NoneIsOne5(x: Byte) {
    x != 1 && Step(x) != 1 && Step(Step(x)) != 1 && Step(Step(Step(x))) != 1 && Step(Step(Step(Step(x)))) != 1
  }

  lemma Five(i: nat)
    ensures Power(i + 5) == Step5(Power(i))
    ensures NoneIsOne5(Power(i)) ==> forall t :: i <= t < i + 5 ==> Power(t) != 1
  {
    hide Step;
    assert Power(i + 1) == Step(Power(i));
    assert Power(i + 2) == Step(Power(i + 1));
    assert Power(i + 3) == Step(Power(i + 2));
    assert Power(i + 4) == Step(Power(i + 3));
    assert Power(i + 5) == Step(Power(i + 4));
  }

  /** From `x` the next fifteen values lead to `y` and avoid 1. */
  predicate Leg(x: Byte, y: Byte) {
    && NoneIsOne5(x) && NoneIsOne5(Step5(x)) && NoneIsOne5(Step5(Step5(x)))
    && Step5(Step5(Step5(x))) == y
  }

  /** No power of x from 1 up to n - 1 is 1. */
  ghost predicate ClearBelow(n: nat) {
    forall i :: 0 < i < n ==> Power(i) != 1
  }

  lemma ClearFive(i: nat)
    requires ClearBelow(i) && NoneIsOne5(Power(i))
    ensures ClearBelow(i + 5) && Power(i + 5) == Step5(Power(i))
  {
    hide Step;
    Five(i);
  }

  lemma LegCovers(i: nat, x: Byte, y: Byte)
    requires ClearBelow(i) && Power(i) == x && Leg(x, y)
    ensures ClearBelow(i + 15) && Power(i + 15) == y
  {
    hide Step, Step5, NoneIsOne5, Power, ClearBelow;
    ClearFive(i);
    ClearFive(i + 5);
    ClearFive(i + 10);
  }

  lemma ClearOne(i: nat)
    requires ClearBelow(i) && Power(i) != 1
    ensures ClearBelow(i + 1) && Power(i + 1) == Step(Power(i))
  {
    hide Step;
  }

  lemma FirstQuarter()
    ensures Leg(0x02, 0x4c) && Leg(0x4c, 0xc0)
    ensures Leg(0xc0, 0x9f) && Leg(0x9f, 0x6f)
  {}

  lemma SecondQuarter()
    ensures Leg(0x6f, 0x1e) && Leg(0x1e, 0xa3)
    ensures Leg(0xa3, 0x34) && Leg(0x34, 0x76)
  {}

  lemma ThirdQuarter()
    ensures Leg(0x76, 0x4f) && Leg(0x4f, 0xaa)
    ensures Leg(0xaa, 0x3f) && Leg(0x3f, 0x31)
  {}

  lemma FourthQuarter()
    ensures Leg(0x31, 0xc8) && Leg(0xc8, 0xb2)
    ensures Leg(0xb2, 0x48) && Leg(0x48, 0x58)
  {}

  lemma LastSteps()
    ensures NoneIsOne5(0x58) && NoneIsOne5(Step5(0x58)) && Step5(Step5(0x58)) == 0xd8
    ensures 0xd8 as Byte != 1 && Step(0xd8) == 0xad && Step(0xad) == 0x47
    ensures Step(0x47) == 0x8e && Step(0x8e) == 1 && Step(1) == 2
  {}

  lemma OrderIs255()
    ensures Power(ORDER) == 1
    ensures ClearBelow(ORDER)
  {
    hide Step, Step5, NoneIsOne5, Leg, Power, ClearBelow;
    LastSteps();
    FirstPower();
    FirstQuarter();
    SecondQuarter();
    ThirdQuarter();
    FourthQuarter();
    LegCovers(1, 0x02, 0x4c);
    LegCovers(16, 0x4c, 0xc0);
    LegCovers(31, 0xc0, 0x9f);
    LegCovers(46, 0x9f, 0x6f);
    LegCovers(61, 0x6f, 0x1e);
    LegCovers(76, 0x1e, 0xa3);
    LegCovers(91, 0xa3, 0x34);
    LegCovers(106, 0x34, 0x76);
    LegCovers(121, 0x76, 0x4f);
    LegCovers(136, 0x4f, 0xaa);
    LegCovers(151, 0xaa, 0x3f);
    LegCovers(166, 0x3f, 0x31);
    LegCovers(181, 0x31, 0xc8);
    LegCovers(196, 0xc8, 0xb2);
    LegCovers(211, 0xb2, 0x48);
    LegCovers(226, 0x48, 0x58);
    ClearFive(241);
    ClearFive(246);
    ClearOne(251);
    ClearOne(252);
    ClearOne(253);
    ClearOne(254);
  }

  lemma FirstPower()
    ensures Power(1) == 2 && ClearBelow(1)
  {
    assert Power(1) == Step(Power(0));
  }

  // ----- every non-zero byte is exactly one of the 255 powers

  lemma PowersDistinct(i: nat, j: nat)
    requires i < j < ORDER
    ensures Power(i) != Power(j)
  {
    hide Step;
    OrderIs255();
    if Power(i) == Power(j) {
      IterateAdd(i, j - i, 1);
      IterateInjective(i, 1, Power(j - i));
    }
  }

  lemma PowerNotZero(n: nat)
    ensures Power(n) != 0
  {
    IterateZero(n, 1);
  }

  ghost function PowersBelow(n: nat): set<int> {
    set i | 0 <= i < n :: Power(i) as int
  }

  ghost function Below(n: nat): (s: set<int>)
    ensures |s| == n && forall i :: i in s <==> 1 <= i <= n
  {
    if n == 0 then {} else Below(n - 1) + {n}
  }

  lemma NonZeroInBelow(a: Byte)
    requires a != 0
    ensures a as int in Below(ORDER)
  {}

  lemma SameByte(a: Byte, b: Byte)
    requires a as int == b as int
    ensures a == b
  {}

  lemma {:induction false} PowersBelowSize(n: nat)
    requires n <= ORDER
    ensures |PowersBelow(n)| == n && PowersBelow(n) <= Below(ORDER)
  {
    hide Power, Below;
    if n > 0 {
      PowersBelowSize(n - 1);
      var last := Power(n - 1) as int;
      if last in PowersBelow(n - 1) {
        var i :| 0 <= i < n - 1 && Power(i) as int == last;
        SameByte(Power(i), Power(n - 1));
        PowersDistinct(i, n - 1);
        assert false;
      }
      PowerNotZero(n - 1);
      NonZeroInBelow(Power(n - 1));
      assert PowersBelow(n) == PowersBelow(n - 1) + {last};
    }
  }

  lemma SameSize(a: set<int>, b: set<int>)
    requires a <= b && |a| == |b|
    ensures a == b
  {
    assert b == a + (b - a);
  }

  lemma BelowSize()
    ensures |Below(ORDER)| == ORDER
  {}

  lemma PowersCover(a: Byte) returns (i: nat)
    requires a != 0
    ensures i < ORDER && Power(i) == a
  {
    hide Power, Below;
    PowersBelowSize(ORDER);
    BelowSize();
    SameSize(PowersBelow(ORDER), Below(ORDER));
    NonZeroInBelow(a);
    i :| 0 <= i < ORDER && Power(i) as int == a as int;
    SameByte(Power(i), a);
  }

  function LogFrom(a: Byte, i: nat): nat
    decreases ORDER - i
  {
    if i >= ORDER || Power(i) == a then i else LogFrom(a, i + 1)
  }

  /** The log table. */
  function Log(a: Byte): nat {
    LogFrom(a, 0)
  }

  lemma {:induction false} LogFromFinds(a: Byte, i: nat, n: nat)
    requires i <= n < ORDER && Power(n) == a
    ensures LogFrom(a, i) <= n && Power(LogFrom(a, i)) == a
    decreases n - i
  {
    hide Power;
    if Power(i) != a {
      LogFromFinds(a, i + 1, n);
    }
  }

  /** Log and Power are inverse to each other on the non-zero bytes. */
  lemma LogPower(a: Byte)
    requires a != 0
    ensures Log(a) < ORDER && Power(Log(a)) == a
  {
    hide Power, LogFrom;
    var n := PowersCover(a);
    LogFromFinds(a, 0, n);
  }

  lemma PowerLog(n: nat)
    requires n < ORDER
    ensures Log(Power(n)) == n
  {
    hide Power, LogFrom;
    LogFromFinds(Power(n), 0, n);
    var m := Log(Power(n));
    if m < n {
      PowersDistinct(m, n);
    }
  }

  // ----- multiplication

  function Mul(a: Byte, b: Byte): Byte {
    if a == 0 || b == 0 then 0 else Power(Log(a) + Log(b))
  }

  function Inv(a: Byte): Byte {
    if a == 0 then 0 else LogPower(a); Power(ORDER - Log(a))
  }

  /** Multiplying by a non-zero element is stepping as often as its logarithm says. */
  lemma MulIsIterate(a: Byte, b: Byte)
    requires a != 0
    ensures Mul(a, b) == Iterate(Log(a), b)
  {
    hide Iterate, Log;
    if b == 0 {
      IterateZero(Log(a), 0);
    } else {
      LogPower(b);
      IterateAdd(Log(a), Log(b), 1);
    }
  }

  lemma MulComm(a: Byte, b: Byte)
    ensures Mul(a, b) == Mul(b, a)
  {}

  lemma MulZero(a: Byte)
    ensures Mul(a, 0) == 0 && Mul(0, a) == 0
  {}

  lemma MulOne(a: Byte)
    ensures Mul(a, 1) == a && Mul(1, a) == a
  {
    hide Iterate, Log;
    if a != 0 {
      MulIsIterate(a, 1);
      LogPower(a);
      MulComm(a, 1);
    }
  }

  /** The field has no zero divisors. */
  lemma MulNonZero(a: Byte, b: Byte)
    ensures Mul(a, b) == 0 <==> a == 0 || b == 0
  {
    hide Iterate, Log, Power;
    if a != 0 && b != 0 {
      PowerNotZero(Log(a) + Log(b));
    }
  }

  lemma MulAssoc(a: Byte, b: Byte, c: Byte)
    ensures Mul(Mul(a, b), c) == Mul(a, Mul(b, c))
  {
    hide Iterate, Log, Mul;
    if a == 0 || b == 0 || c == 0 {
      MulZero(a); MulZero(b); MulZero(c); MulZero(Mul(a, b)); MulZero(Mul(b, c));
    } else {
      var i, j, k := Log(a), Log(b), Log(c);
      LogPower(a);
      LogPower(b);
      MulIsIterate(a, b);
      MulIsIterate(b, c);
      MulIsIterate(a, Mul(b, c));
      IterateAdd(i, j, c);
      // (ab)c = c(ab) = x^k x^(i+j)
      MulComm(Mul(a, b), c);
      MulIsIterate(c, Mul(a, b));
      IterateAdd(i, j, 1);
      IterateAdd(k, i + j, 1);
      IterateAdd(i + j, k, 1);
      LogPower(c);
    }
  }

  lemma MulDistributes(a: Byte, b: Byte, c: Byte)
    ensures Mul(a, Add(b, c)) == Add(Mul(a, b), Mul(a, c))
  {
    hide Iterate, Log, Mul, Add;
    if a == 0 {
      MulZero(b); MulZero(c); MulZero(Add(b, c));
      AddLaws(0, 0, 0);
    } else {
      MulIsIterate(a, b);
      MulIsIterate(a, c);
      MulIsIterate(a, Add(b, c));
      IterateLinear(Log(a), b, c);
    }
  }

  lemma MulInverse(a: Byte)
    requires a != 0
    ensures Mul(a, Inv(a)) == 1 && Inv(a) != 0
  {
    hide Iterate, Log, Mul;
    LogPower(a);
    MulIsIterate(a, Inv(a));
    IterateAdd(Log(a), ORDER - Log(a), 1);
    OrderIs255();
    PowerNotZero(ORDER - Log(a));
  }

  // ----- an independent reference: polynomial multiplication modulo 0x11d

  function LowBit(b: Byte): Byte {
    b & 1
  }

  function Half(b: Byte): Byte {
    b >> 1
  }

  /** Shift-and-add: for each bit of `b`, XOR in `a` times the matching power of x. */
  function PolyMul(a: Byte, b: Byte): Byte
    decreases b as int
  {
    if b == 0 then 0 else HalfIsSmaller(b); Add(if LowBit(b) != 0 then a else 0, PolyMul(Step(a), Half(b)))
  }

  lemma HalfIsSmaller(b: Byte)
    requires b != 0
    ensures Half(b) as int < b as int
  {
    assert b >> 1 < b;
  }

  lemma LowBitAndRest(b: Byte)
    ensures b == Add(LowBit(b), Step(Half(b)))
    ensures LowBit(b) == 0 || LowBit(b) == 1
  {
    assert (b >> 1) & 0x80 == 0;
  }

  lemma MulStep(a: Byte, b: Byte)
    ensures Mul(Step(a), b) == Mul(a, Step(b))
  {
    hide Iterate, Log, Mul, Step;
    MulTwo(a);
    MulTwo(b);
    MulComm(2, a);
    MulAssoc(a, 2, b);
  }

  lemma MulTwo(a: Byte)
    ensures Mul(2, a) == Step(a)
  {
    hide Iterate, Log, Mul, Step;
    FirstPower();
    PowerLog(1);
    MulIsIterate(2, a);
    assert Iterate(1, a) == Step(a) by { OneStep(a); }
  }

  lemma OneStep(a: Byte)
    ensures Iterate(1, a) == Step(a)
  {
    hide Step;
  }

  /** The table-driven product is the product of polynomials modulo 0x11d. */
  lemma {:induction false} MulIsPolyMul(a: Byte, b: Byte)
    ensures Mul(a, b) == PolyMul(a, b)
    decreases b as int
  {
    hide Iterate, Log, Mul, Step, Add, LowBit, Half;
    if b == 0 {
      MulZero(a);
    } else {
      HalfIsSmaller(b);
      LowBitAndRest(b);
      MulDistributes(a, LowBit(b), Step(Half(b)));
      MulStep(a, Half(b));
      MulIsPolyMul(Step(a), Half(b));
      MulOne(a);
      MulZero(a);
    }
  }

  // ----- powers

  /** a to the power n by repeated multiplication. */
  function Pow(a: Byte, n: nat): Byte {
    if n == 0 then 1 else Mul(a, Pow(a, n - 1))
  }

  lemma {:induction false} PowerPeriod(n: nat, k: nat)
    ensures Power(n + k * ORDER) == Power(n)
  {
    hide Iterate;
    if k > 0 {
      PowerPeriod(n, k - 1);
      OrderIs255();
      IterateAdd(n + (k - 1) * ORDER, ORDER, 1);
    }
  }

  lemma {:induction false} PowIsPower(a: Byte, n: nat)
    requires a != 0
    ensures Pow(a, n) == Power(Log(a) * n)
  {
    hide Log, Mul, Iterate;
    if n == 0 {
      assert Power(0) == 1 by { ZeroPower(); }
    } else {
      PowIsPower(a, n - 1);
      MulIsIterate(a, Pow(a, n - 1));
      IterateAdd(Log(a), Log(a) * (n - 1), 1);
      assert Log(a) * n == Log(a) + Log(a) * (n - 1);
    }
  }

  lemma ZeroPower()
    ensures Power(0) == 1
  {}

  /** gf_pow: one table lookup at log(a) * n modulo 255. */
  function TablePow(a: Byte, n: nat): Byte {
    if n == 0 then 1 else if a == 0 then 0 else Power((Log(a) * n) % ORDER)
  }

  lemma TablePowIsPow(a: Byte, n: nat)
    ensures TablePow(a, n) == Pow(a, n)
  {
    hide Log, Mul, Power;
    if n > 0 {
      if a == 0 {
        MulZero(Pow(a, n - 1));
      } else {
        PowIsPower(a, n);
        var e := Log(a) * n;
        assert e == e % ORDER + (e / ORDER) * ORDER;
        PowerPeriod(e % ORDER, e / ORDER);
      }
    }
  }
}
