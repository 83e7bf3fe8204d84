/** Rounding to a double, and toFixed(2), as the dashboard shows an amount. */
module Doubles {
  import opened Numerals

  const POW52: real := 4_503_599_627_370_496.0
  const POW53: real := 9_007_199_254_740_992.0

  /** r * 2^e */
  ghost function Shift(r: real, e: int): real
    decreases Abs(e)
  {
    if e == 0 then r else if e > 0 then 2.0 * Shift(r, e - 1) else Shift(r, e + 1) / 2.0
  }

  /** To the nearest integer, ties to even. */
  ghost function Round(r: real): int {
    var n := r.Floor;
    var part := r - n as real;
    if part < 0.5 || (part == 0.5 && n % 2 == 0) then n else n + 1
  }

  /** v * 2^-e has the 53 bits of a double's significand. */
  ghost predicate Normal(v: real, e: int) {
    POW52 <= Shift(v, -e) < POW53
  }

  /** x is the double nearest to v, for v from 10^-6 on and below 10^21: no double in this range is subnormal or
      infinite. */
  ghost predicate IsDouble(v: real, x: real) {
    exists e :: Normal(v, e) && x == Shift(Round(Shift(v, -e)) as real, e)
  }

  // ---- the rounding error ----

  lemma {:induction false} ShiftBack(r: real, e: int)
    ensures Shift(Shift(r, -e), e) == r
    decreases Abs(e)
  {
    if e > 0 {
      ShiftOne(Shift(r, -e), e - 1);
      ShiftBack(r, e - 1);
    } else if e < 0 {
      ShiftOne(Shift(r, -e - 1), e + 1);
      ShiftBack(r, e + 1);
    }
  }

  lemma {:induction false} ShiftOne(r: real, e: int)
    ensures Shift(2.0 * r, e) == 2.0 * Shift(r, e) == Shift(r, e + 1)
    decreases Abs(e)
  {
    if e > 0 {
      ShiftOne(r, e - 1);
    } else if e < 0 {
      ShiftOne(r, e + 1);
    }
  }

  lemma {:induction false} ShiftLinear(a: real, b: real, e: int)
    ensures Shift(a, e) - Shift(b, e) == Shift(a - b, e)
    ensures Shift(POW53 * a, e) == POW53 * Shift(a, e)
    ensures a <= b <==> Shift(a, e) <= Shift(b, e)
    decreases Abs(e)
  {
    if e > 0 {
      ShiftLinear(a, b, e - 1);
    } else if e < 0 {
      ShiftLinear(a, b, e + 1);
    }
  }

  /** The nearest double is off by at most one part in 2^53. */
  lemma DoubleError(v: real, x: real)
    requires IsDouble(v, x)
    ensures -v <= POW53 * (x - v) <= v
  {
    hide Shift, Round;
    var e :| Normal(v, e) && x == Shift(Round(Shift(v, -e)) as real, e);
    var u := Shift(v, -e);
    var n := Round(u) as real;
    RoundError(u);
    ShiftBack(v, e);
    ShiftLinear(n, u, e);
    ShiftLinear(n - u, 0.0, e);
    ShiftLinear(POW53 * (n - u), u, e);
    ShiftLinear(-u, POW53 * (n - u), e);
    ShiftLinear(0.0, u, e);
    ZeroShift(e);
  }

  lemma {:induction false} ZeroShift(e: int)
    ensures Shift(0.0, e) == 0.0
    decreases Abs(e)
  {
    if e > 0 {
      ZeroShift(e - 1);
    } else if e < 0 {
      ZeroShift(e + 1);
    }
  }

  /** Round gives the nearest integer, and of two the even one. */
  lemma RoundIsNearest(r: real, n: int)
    ensures Round(r) == n <==>
            -0.5 <= r - n as real <= 0.5 && (r - n as real == 0.5 || r - n as real == -0.5 ==> n % 2 == 0)
  {
  }

  lemma RoundError(u: real)
    requires u >= POW52
    ensures -u <= POW53 * (Round(u) as real - u) <= u
  {
  }

  // ---- every amount has exactly one ----

  lemma {:induction false} ShiftSum(r: real, a: int, b: nat)
    ensures Shift(Shift(r, a), b) == Shift(r, a + b)
  {
    if b > 0 {
      ShiftSum(r, a, b - 1);
      ShiftStep(r, a + b - 1);
    }
  }

  lemma ShiftStep(r: real, e: int)
    ensures Shift(r, e + 1) == 2.0 * Shift(r, e)
  {
    ShiftOne(r, e);
  }

  lemma {:induction false} Rises(r: real, a: int, b: int)
    requires r >= 0.0 && a < b
    ensures 0.0 <= 2.0 * Shift(r, a) <= Shift(r, b)
    decreases b - a
  {
    ShiftStep(r, b - 1);
    ShiftLinear(0.0, r, a);
    ZeroShift(a);
    if a < b - 1 {
      Rises(r, a, b - 1);
    }
  }

  lemma {:induction false} ExponentBetween(v: real, low: int, high: int) returns (e: int)
    requires low <= high && Shift(v, -low) >= POW52 && Shift(v, -high) < POW53
    ensures Normal(v, e)
    decreases high - low
  {
    if Shift(v, -high) >= POW52 {
      e := high;
    } else {
      ShiftStep(v, -high);
      e := ExponentBetween(v, low, high - 1);
    }
  }

  lemma Shift24(r: real)
    ensures Shift(r, 24) == 16_777_216.0 * r
  {
    Shift8(r);
    Shift8(Shift(r, 8));
    Shift8(Shift(r, 16));
    ShiftSum(r, 8, 8);
    ShiftSum(r, 16, 8);
  }

  lemma Shift8(r: real)
    ensures Shift(r, 8) == 256.0 * r
  {
    assert Shift(r, 4) == 16.0 * r;
    assert Shift(Shift(r, 4), 4) == 16.0 * Shift(r, 4);
    ShiftSum(r, 4, 4);
  }

  lemma Shift72(r: real)
    ensures Shift(r, 72) == 4_722_366_482_869_645_213_696.0 * r
  {
    Shift24(r);
    Shift24(Shift(r, 24));
    Shift24(Shift(r, 48));
    ShiftSum(r, 24, 24);
    ShiftSum(r, 48, 24);
  }

  lemma ShiftDown17(r: real)
    ensures Shift(r, -17) == r / 131_072.0
  {
    Shift24(Shift(r, -17));
    ShiftSum(r, -17, 24);
    assert Shift(r, 7) == 128.0 * r by {
      ShiftStep(r, 4);
      ShiftStep(r, 5);
      ShiftStep(r, 6);
      assert Shift(r, 4) == 16.0 * r;
    }
  }

  lemma HasDouble(v: real) returns (x: real)
    requires 0.000_001 <= v < 1_000_000_000_000_000_000_000.0
    ensures IsDouble(v, x)
  {
    hide Shift, Round;
    Shift72(v);
    ShiftDown17(v);
    var e := ExponentBetween(v, -72, 17);
    x := Shift(Round(Shift(v, -e)) as real, e);
  }

  lemma DoubleIsUnique(v: real, x: real, y: real)
    requires v > 0.0 && IsDouble(v, x) && IsDouble(v, y)
    ensures x == y
  {
    hide Shift, Round;
    var d :| Normal(v, d) && x == Shift(Round(Shift(v, -d)) as real, d);
    var e :| Normal(v, e) && y == Shift(Round(Shift(v, -e)) as real, e);
    if d < e {
      Rises(v, -e, -d);
    } else if e < d {
      Rises(v, -d, -e);
    }
  }

  // ---- toFixed ----

  /** What the page shows for an amount: a number of cents, or another form of numeral for 10^21 and more. */
  datatype Page = NotANumber | Cents(cents: int) | OtherForm

  /** toFixed(2) of a positive number: the nearest number of cents, the larger one of two. */
  ghost function ToFixed(x: real): Page {
    if x >= 1_000_000_000_000_000_000_000.0 then OtherForm else Cents((100.0 * x + 0.5).Floor)
  }

  /** The page shows v, by way of the nearest double. */
  ghost predicate Shows(v: real, page: Page) {
    if v >= 1_000_000_000_000_000_000_000.0 then page == OtherForm
    else exists x :: IsDouble(v, x) && page == ToFixed(x)
  }

  /** For every amount v of micro micro-units and every number x shown in its place: the cents shown are v if and
      only if v is a whole number of cents and x is less than half a cent off, or half a cent below. */
  lemma CentsAreExact(v: real, x: real, micro: nat)
    requires 1_000_000.0 * v == micro as real
    ensures (100.0 * x + 0.5).Floor * 10_000 == micro <==> micro % 10_000 == 0 && -0.005 <= x - v < 0.005
  {
    var cents := (100.0 * x + 0.5).Floor;
    if cents * 10_000 == micro {
      assert 100.0 * v == cents as real;
    }
    if micro % 10_000 == 0 {
      var whole := micro / 10_000;
      assert 100.0 * v == whole as real;
    }
  }

  /** An error of at most err moves the cents shown by at most that beyond the rounding to cents. */
  lemma CentsAreClose(v: real, x: real, err: real)
    requires -err <= x - v <= err
    ensures -0.005 - err <= (100.0 * x + 0.5).Floor as real / 100.0 - v <= 0.005 + err
  {
  }

  /** Below about 4.5 * 10^13 USDC a double is precise enough: the page is off by at most half a cent and one part
      in 2^53, and shows the exact amount if and only if that is a whole number of cents. */
  lemma SmallIsExact(v: real, micro: nat, page: Page)
    requires 1_000_000.0 * v == micro as real && micro > 0
    requires micro < 45_035_996_273_704_960_000
    requires Shows(v, page)
    ensures page.Cents?
    ensures -0.005 - v / POW53 <= page.cents as real / 100.0 - v <= 0.005 + v / POW53
    ensures page.cents * 10_000 == micro <==> micro % 10_000 == 0
  {
    hide IsDouble;
    assert v < 0.005 * POW53;
    var x :| IsDouble(v, x) && page == ToFixed(x);
    DoubleError(v, x);
    CentsAreExact(v, x, micro);
    CentsAreClose(v, x, v / POW53);
  }

  /** For larger amounts it need not be: 99999999999999999 is shown as 100000000000000000.00. */
  lemma LargeIsInexact(page: Page)
    requires Shows(99_999_999_999_999_999.0, page)
    ensures page == Cents(10_000_000_000_000_000_000)
  {
    hide IsDouble, Shift;
    var v := 99_999_999_999_999_999.0;
    var x :| IsDouble(v, x) && page == ToFixed(x);
    DoubleOfLarge(v);
    DoubleIsUnique(v, x, 100_000_000_000_000_000.0);
  }

  lemma DoubleOfLarge(v: real)
    requires v == 99_999_999_999_999_999.0
    ensures IsDouble(v, 100_000_000_000_000_000.0)
  {
    var u := Shift(v, -4);
    assert u == v / 16.0;
    assert Round(u) == 6_250_000_000_000_000;
    assert Normal(v, 4);
    assert Shift(Round(u) as real, 4) == 100_000_000_000_000_000.0;
  }
}
