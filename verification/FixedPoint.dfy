/** Fixed-point amounts (Amount in libs/common/types.hpp) on 64-bit words. */
module FixedPoint {

  const TWO_31 := 0x8000_0000
  const TWO_32 := 0x1_0000_0000
  const TWO_63 := 0x8000_0000_0000_0000
  const TWO_64 := 0x1_0000_0000_0000_0000

  type UInt64 = x: int | 0 <= x < TWO_64

  datatype Amount = Amount(intPart: UInt64, fracPart: UInt64)

  function Pow(base: int, exp: nat): int {
    if exp == 0 then 1 else base * Pow(base, exp - 1)
  }

  /** The value an `int` takes when a product overflows, in two's complement. */
  function Wrap32(n: int): (r: int)
    ensures -TWO_31 <= r < TWO_31
  {
    (n + TWO_31) % TWO_32 - TWO_31
  }

  /** The number of decimal digits, the length of std::to_string. */
  function Digits(n: nat): (d: nat)
    ensures d >= 1
  {
    if n < 10 then 1 else 1 + Digits(n / 10)
  }

  /** get_joint_amount: the scale is an `int` and the sum wraps at 64 bits. */
  function JointAmount(a: Amount, precision: nat): UInt64 {
    (a.intPart * Wrap32(Pow(10, precision)) + a.fracPart) % TWO_64
  }

  // ---- exponentiation by squaring ----

  ghost predicate Congruent(a: int, b: int) {
    a % TWO_32 == b % TWO_32
  }

  lemma CongruentMul(a: int, b: int, c: int)
    requires Congruent(a, b)
    ensures Congruent(a * c, b * c)
  {
    var k := a / TWO_32 - b / TWO_32;
    assert a == b + TWO_32 * k;
    assert a * c == b * c + TWO_32 * (k * c) by {
      assert (b + TWO_32 * k) * c == b * c + TWO_32 * k * c;
    }
    ModPlus(b * c, k * c);
  }

  lemma ModPlus(x: int, k: int)
    ensures (x + TWO_32 * k) % TWO_32 == x % TWO_32
  {}

  lemma WrapCongruent(n: int)
    ensures Congruent(Wrap32(n), n)
  {}

  lemma {:induction false} CongruentPow(a: int, b: int, e: nat)
    requires Congruent(a, b)
    ensures Congruent(Pow(a, e), Pow(b, e))
  {
    if e > 0 {
      CongruentPow(a, b, e - 1);
      CongruentMul(a, b, Pow(a, e - 1));
      CongruentMul(Pow(a, e - 1), Pow(b, e - 1), b);
      assert Pow(a, e) == a * Pow(a, e - 1) && Pow(b, e) == Pow(b, e - 1) * b;
    }
  }

  lemma {:induction false} PowSquare(b: int, e: nat)
    ensures Pow(b * b, e) == Pow(b, 2 * e)
  {
    if e > 0 {
      PowSquare(b, e - 1);
      assert Pow(b, 2 * e) == b * Pow(b, 2 * e - 1) == b * (b * Pow(b, 2 * e - 2));
    }
  }

  lemma SquareStep(result: int, base: int, half: nat)
    ensures Congruent(result * Pow(Wrap32(base * base), half), result * Pow(base * base, half))
  {
    WrapCongruent(base * base);
    CongruentPow(Wrap32(base * base), base * base, half);
    CongruentMul(Pow(Wrap32(base * base), half), Pow(base * base, half), result);
  }

  /** An odd exponent first moves one factor from the power to the result. */
  lemma OddStep(result: int, base: int, rest: nat)
    ensures Congruent(Wrap32(result * base) * Pow(base, rest), result * Pow(base, rest + 1))
  {
    WrapCongruent(result * base);
    CongruentMul(Wrap32(result * base), result * base, Pow(base, rest));
    Regroup(result, base, Pow(base, rest));
  }

  lemma Regroup(a: int, b: int, c: int)
    ensures a * b * c == a * (b * c)
  {}

  lemma WrapsAlike(a: int, b: int)
    requires Congruent(a, b)
    ensures Wrap32(a) == Wrap32(b)
  {}

  /** What the squaring loop makes of its three variables. */
  function Squaring(result: int, base: int, exp: nat): int
    decreases exp
  {
    if exp == 0 then result
    else Squaring(if exp % 2 == 1 then Wrap32(result * base) else result, Wrap32(base * base), exp / 2)
  }

  lemma {:induction false} SquaringIs(result: int, base: int, exp: nat)
    requires -TWO_31 <= result < TWO_31
    ensures Squaring(result, base, exp) == Wrap32(result * Pow(base, exp))
    decreases exp
  {
    if exp > 0 {
      var half, next := exp / 2, if exp % 2 == 1 then Wrap32(result * base) else result;
      SquaringIs(next, Wrap32(base * base), half);
      SquareStep(next, base, half);
      WrapsAlike(next * Pow(Wrap32(base * base), half), next * Pow(base * base, half));
      PowSquare(base, half);
      if exp % 2 == 1 {
        OddStep(result, base, exp - 1);
        WrapsAlike(next * Pow(base, exp - 1), result * Pow(base, exp));
      }
    }
  }

  /** ipow: the squaring loop computes the power in 32-bit arithmetic, for every
      exponent, although the last squaring of the base may overflow. */
  method IPow(base0: int, exp0: nat) returns (result: int)
    ensures result == Wrap32(Pow(base0, exp0))
  {
    var base, exp := base0, exp0;
    result := 1;
    while exp != 0
      invariant Squaring(result, base, exp) == Squaring(1, base0, exp0)
      decreases exp
    {
      if exp % 2 == 1 {
        result := Wrap32(result * base);
      }
      exp := exp / 2;
      base := Wrap32(base * base);
    }
    SquaringIs(1, base0, exp0);
  }

  method GetJointAmount(a: Amount, precision: nat) returns (joint: UInt64)
    ensures joint == JointAmount(a, precision)
  {
    var coef := IPow(10, precision);
    joint := (a.intPart * coef + a.fracPart) % TWO_64;
  }

  // ---- what a joint amount means ----

  lemma {:induction false} DigitsBound(n: nat, p: nat)
    ensures Digits(n) <= p <==> p >= 1 && n < Pow(10, p)
  {
    if p >= 1 {
      if n < 10 {
        PowPositive(p - 1);
      } else {
        DigitsBound(n / 10, p - 1);
        assert Pow(10, p) == 10 * Pow(10, p - 1);
        if p == 1 { assert Pow(10, 0) == 1; }
      }
    }
  }

  lemma {:induction false} PowPositive(p: nat)
    ensures Pow(10, p) >= 1
  {
    if p > 0 { PowPositive(p - 1); }
  }

  lemma SmallPowers(p: nat)
    requires p <= 9
    ensures 1 <= Pow(10, p) <= 1_000_000_000 && Wrap32(Pow(10, p)) == Pow(10, p)
  {
    PowPositive(p);
    PowIncreases(p, 9);
    NinthPower();
  }

  lemma {:induction false} PowIncreases(p: nat, q: nat)
    requires p <= q
    ensures Pow(10, p) <= Pow(10, q)
    decreases q
  {
    if p < q { PowIncreases(p, q - 1); PowPositive(q - 1); }
  }

  /** The scale is the true power of ten exactly up to precision 9; beyond, it overflows an `int`. */
  lemma ScaleIsExactIff(p: nat)
    ensures Wrap32(Pow(10, p)) == Pow(10, p) <==> p <= 9
  {
    if p <= 9 {
      SmallPowers(p);
    } else {
      SmallPowers(9);
      PowIncreases(10, p);
      assert Pow(10, 9) == 1_000_000_000 && Pow(10, 10) == 10 * Pow(10, 9) by { NinthPower(); }
    }
  }

  lemma NinthPower()
    ensures Pow(10, 9) == 1_000_000_000
  {
    assert Pow(10, 3) == 1000;
    assert Pow(10, 6) == 1000 * Pow(10, 3);
    assert Pow(10, 9) == 1000 * Pow(10, 6);
  }

  /** An amount that fits `precision` digits after the point, and an integer part that AddAssetQuantity accepts. */
  predicate WellFormed(a: Amount, precision: nat) {
    a.intPart < TWO_32 - 1 && Digits(a.fracPart) <= precision
  }

  /** For precisions up to 9 the joint amount is the exact scaled value and fits the ledger's signed column. */
  lemma JointIsExact(a: Amount, precision: nat)
    requires WellFormed(a, precision) && precision <= 9
    ensures a.fracPart < Pow(10, precision)
    ensures JointAmount(a, precision) == a.intPart * Pow(10, precision) + a.fracPart < TWO_63
  {
    DigitsBound(a.fracPart, precision);
    SmallPowers(precision);
    ScaledValue(a.intPart, Pow(10, precision), a.fracPart);
  }

  lemma ScaledValue(i: nat, p: nat, f: nat)
    requires i <= TWO_32 - 2 && p <= 1_000_000_000 && f < p
    ensures (i * p + f) % TWO_64 == i * p + f < TWO_63
  {
    ProductBound(i, p, TWO_32 - 2, 1_000_000_000);
    NoWrap(i * p + f);
  }

  lemma ProductBound(x: nat, p: nat, maxX: nat, maxP: nat)
    requires x <= maxX && p <= maxP
    ensures x * p <= maxX * maxP
  {
    assert x * p <= maxX * p <= maxX * maxP;
  }

  lemma NoWrap(n: int)
    requires 0 <= n < TWO_64
    ensures n % TWO_64 == n
  {}

  lemma Lexicographic(x: nat, f: nat, y: nat, g: nat, p: nat)
    requires f < p && g < p
    ensures x * p + f < y * p + g <==> x < y || (x == y && f < g)
  {
    if x < y {
      assert x * p + p == (x + 1) * p <= y * p;
    } else if y < x {
      assert y * p + p == (y + 1) * p <= x * p;
    }
  }

  predicate Lower(a: Amount, b: Amount) {
    a.intPart < b.intPart || (a.intPart == b.intPart && a.fracPart < b.fracPart)
  }

  /** Joint amounts order well-formed amounts by integer part, then by fraction; equal ones are the same amount. */
  lemma JointOrders(a: Amount, b: Amount, precision: nat)
    requires WellFormed(a, precision) && WellFormed(b, precision) && precision <= 9
    ensures JointAmount(a, precision) < JointAmount(b, precision) <==> Lower(a, b)
    ensures JointAmount(a, precision) == JointAmount(b, precision) ==> a == b
  {
    JointIsExact(a, precision);
    JointIsExact(b, precision);
    Lexicographic(a.intPart, a.fracPart, b.intPart, b.fracPart, Pow(10, precision));
    Lexicographic(b.intPart, b.fracPart, a.intPart, a.fracPart, Pow(10, precision));
  }

  // ---- precisions above 9 ----

  lemma LargePowers()
    ensures Pow(10, 10) == 10_000_000_000
    ensures Pow(10, 11) == 100_000_000_000
    ensures Pow(10, 12) == 1_000_000_000_000
    ensures Pow(10, 13) == 10_000_000_000_000
    ensures Pow(10, 14) == 100_000_000_000_000
    ensures Pow(10, 15) == 1_000_000_000_000_000
    ensures Pow(10, 16) == 10_000_000_000_000_000
    ensures Pow(10, 17) == 100_000_000_000_000_000
    ensures Pow(10, 18) == 1_000_000_000_000_000_000
    ensures Pow(10, 19) == 10_000_000_000_000_000_000
  {
    NinthPower();
    assert Pow(10, 10) == 10 * Pow(10, 9);
    assert Pow(10, 11) == 10 * Pow(10, 10);
    assert Pow(10, 12) == 10 * Pow(10, 11);
    assert Pow(10, 13) == 10 * Pow(10, 12);
    assert Pow(10, 14) == 10 * Pow(10, 13);
    assert Pow(10, 15) == 10 * Pow(10, 14);
    assert Pow(10, 16) == 10 * Pow(10, 15);
    assert Pow(10, 17) == 10 * Pow(10, 16);
    assert Pow(10, 18) == 10 * Pow(10, 17);
    assert Pow(10, 19) == 10 * Pow(10, 18);
  }

  /** The scales that the overflowed powers leave; four of them are negative. */
  lemma LargeScales()
    ensures Wrap32(Pow(10, 10)) == 1_410_065_408
    ensures Wrap32(Pow(10, 11)) == 1_215_752_192
    ensures Wrap32(Pow(10, 12)) == -727_379_968
    ensures Wrap32(Pow(10, 13)) == 1_316_134_912
    ensures Wrap32(Pow(10, 14)) == 276_447_232
    ensures Wrap32(Pow(10, 15)) == -1_530_494_976
    ensures Wrap32(Pow(10, 16)) == 1_874_919_424
    ensures Wrap32(Pow(10, 17)) == 1_569_325_056
    ensures Wrap32(Pow(10, 18)) == -1_486_618_624
    ensures Wrap32(Pow(10, 19)) == -1_981_284_352
  {
    LargePowers();
  }

  /** A wrapped scale gives the true value only if the difference is a multiple of 2^64. */
  lemma WrongScale(i: nat, f: nat, power: nat, scale: int)
    requires (i * scale + f) % TWO_64 == i * power + f
    ensures i * (power - scale) % TWO_64 == 0
  {
    var q := (i * scale + f) / TWO_64;
    assert i * (power - scale) == i * power - i * scale;
    assert i * (power - scale) == TWO_64 * -q;
    WholeMultiple(-q);
  }

  lemma WholeMultiple(k: int)
    ensures TWO_64 * k % TWO_64 == 0
  {}

  /** With an integer part, no scale of precision 10 to 19 gives the true value. */
  lemma LargeScaleIsWrong(i: nat, f: nat, p: nat, power: nat, scale: int)
    requires i >= 1 && 10 <= p <= 19 && power == Pow(10, p) && scale == Wrap32(Pow(10, p))
    ensures (i * scale + f) % TWO_64 != i * power + f
  {
    if (i * scale + f) % TWO_64 == i * power + f {
      WrongScale(i, f, power, scale);
      NotWhole(i, p, power, scale);
    }
  }

  lemma NotWhole(i: nat, p: nat, power: nat, scale: int)
    requires i >= 1 && 10 <= p <= 19 && power == Pow(10, p) && scale == Wrap32(Pow(10, p)) && i * power < TWO_64
    ensures i * (power - scale) % TWO_64 != 0
  {
    LargePowers();
    LargeScales();
    if p == 12 {
      assert i * (power - scale) == 233 * TWO_32 * i;
    } else if p == 15 {
      assert i * (power - scale) == 232_831 * TWO_32 * i;
    } else if p == 18 {
      assert i * (power - scale) == 232_830_644 * TWO_32 * i;
    } else if p == 19 {
      assert i == 1;
    } else {
      assert 0 < i * (power - scale) < TWO_64;
    }
  }

  /** From precision 20 on a unit no longer fits 64 bits. */
  lemma HugePower(i: nat, p: nat)
    requires i >= 1 && p >= 20
    ensures i * Pow(10, p) >= TWO_64
  {
    LargePowers();
    PowIncreases(19, p - 1);
    assert Pow(10, p) == 10 * Pow(10, p - 1);
    assert i * Pow(10, p) >= Pow(10, p);
  }

  lemma FitsIff(n: nat)
    ensures n % TWO_64 == n <==> n < TWO_64
  {}

  /** The joint amount is the true scaled value exactly if that value fits 64 bits
      and the scale did not overflow, which matters only to an integer part. */
  lemma JointIsValueIff(a: Amount, p: nat)
    ensures JointAmount(a, p) == a.intPart * Pow(10, p) + a.fracPart <==>
      a.intPart * Pow(10, p) + a.fracPart < TWO_64 && (p <= 9 || a.intPart == 0)
  {
    PowPositive(p);
    JointOfParts(a.intPart, a.fracPart, p, Pow(10, p), Wrap32(Pow(10, p)));
  }

  lemma JointOfParts(i: nat, f: nat, p: nat, power: nat, scale: int)
    requires f < TWO_64 && power == Pow(10, p) && scale == Wrap32(power)
    ensures (i * scale + f) % TWO_64 == i * power + f <==> i * power + f < TWO_64 && (p <= 9 || i == 0)
  {
    if i == 0 {
      assert i * scale == 0 && i * power == 0;
      FitsIff(f);
    } else if p <= 9 {
      SmallPowers(p);
      FitsIff(i * power + f);
    } else if p <= 19 {
      LargeScaleIsWrong(i, f, p, power, scale);
    } else {
      HugePower(i, p);
    }
  }

  /** The precisions whose scale, overflowed or not, is positive and small enough. */
  predicate SafePrecision(p: nat) {
    p <= 11 || p in {13, 14, 16, 17}
  }

  /** An amount that AddAssetQuantity accepts and that wraps a balance around 2^64. */
  predicate WrapsBalance(a: Amount, p: nat, balance: nat) {
    WellFormed(a, p) && balance < TWO_63 && balance + JointAmount(a, p) >= TWO_64
  }

  lemma SafeJoint(a: Amount, p: nat)
    requires WellFormed(a, p) && SafePrecision(p)
    ensures JointAmount(a, p) < TWO_63
  {
    if p <= 9 {
      JointIsExact(a, p);
    } else {
      LargePowers();
      LargeScales();
      DigitsBound(a.fracPart, p);
      ProductBound(a.intPart, Wrap32(Pow(10, p)), TWO_32 - 2, 1_874_919_424);
      PowIncreases(p, 17);
      NoWrap(a.intPart * Wrap32(Pow(10, p)) + a.fracPart);
    }
  }

  lemma UnsafeAmount(p: nat) returns (a: Amount, balance: nat)
    requires !SafePrecision(p)
    ensures WrapsBalance(a, p, balance)
  {
    LargePowers();
    LargeScales();
    if p >= 19 {
      a, balance := Amount(0, 9_999_999_999_999_999_999), TWO_63 - 1;
      PowIncreases(19, p);
    } else {
      a, balance := Amount(1, 0), -Wrap32(Pow(10, p));
      PowPositive(p);
    }
    DigitsBound(a.fracPart, p);
  }

  /** Issues can wrap a balance around exactly at the precisions 12, 15, 18 and above. */
  lemma WrapsIff(p: nat)
    ensures (exists a, balance :: WrapsBalance(a, p, balance)) <==> !SafePrecision(p)
  {
    if SafePrecision(p) {
      forall a, balance: nat
        ensures !WrapsBalance(a, p, balance)
      {
        if WellFormed(a, p) { SafeJoint(a, p); }
      }
    } else {
      var a, balance := UnsafeAmount(p);
    }
  }

  // ---- order ----

  /** The order of joint amounts agrees with that of two well-formed amounts. */
  predicate InOrder(a: Amount, b: Amount, p: nat) {
    WellFormed(a, p) && WellFormed(b, p) ==> (JointAmount(a, p) < JointAmount(b, p) <==> Lower(a, b))
  }

  /** Two amounts that an overflowed scale makes equal or exchanges. */
  lemma Disordered(p: nat) returns (a: Amount, b: Amount)
    requires p > 9
    ensures !InOrder(a, b, p)
  {
    var s := Wrap32(Pow(10, p));
    PowPositive(p);
    PowIncreases(10, p);
    LargePowers();
    if s < 0 {
      a, b := Amount(1, 0), Amount(2, 0);
    } else {
      a, b := Amount(0, s), Amount(1, 0);
    }
    DigitsBound(a.fracPart, p);
    DigitsBound(b.fracPart, p);
  }

  /** Joint amounts are in the order of their amounts if and only if the precision is at most 9. */
  lemma OrdersIff(p: nat)
    ensures (forall a, b :: InOrder(a, b, p)) <==> p <= 9
  {
    if p <= 9 {
      forall a, b
        ensures InOrder(a, b, p)
      {
        if WellFormed(a, p) && WellFormed(b, p) { JointOrders(a, b, p); }
      }
    } else {
      var a, b := Disordered(p);
    }
  }
}
