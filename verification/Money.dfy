/** Scaling amounts to units and back with `big.Float`: each operation rounds its exact result to
    nearest, ties to even, at a fixed number of mantissa bits, and the way back truncates. */
module Money {

  // ---- exact arithmetic --------------------------------------------------

  /** Products and quotients of variables go through these two, so that proofs can hide them. */
  function Mul(a: real, b: real): real {
    a * b
  }

  function Div(a: real, b: real): real
    requires b > 0.0
  {
    a / b
  }

  lemma Undivide(x: real, u: real)
    requires u > 0.0
    ensures Mul(Div(x, u), u) == x
    ensures x > 0.0 ==> Div(x, u) > 0.0
    ensures Div(-x, u) == -Div(x, u)
  {
  }

  lemma MulLess(a: real, b: real, c: real)
    requires a < b && c > 0.0
    ensures Mul(a, c) < Mul(b, c)
  {
  }

  lemma MulLessEq(a: real, b: real, c: real)
    requires a <= b && c >= 0.0
    ensures Mul(a, c) <= Mul(b, c)
  {
  }

  lemma Distribute(a: real, b: real, c: real)
    ensures Mul(a - b, c) == Mul(a, c) - Mul(b, c)
    ensures Mul(-a, c) == -Mul(a, c)
  {
  }

  lemma Reassociate(a: real, b: real, c: real)
    ensures Mul(Mul(a, b), c) == Mul(a, Mul(b, c))
    ensures Mul(Mul(a, b), c) == Mul(Mul(a, c), b)
  {
  }

  lemma Scale(a: real, c: real)
    ensures Mul(a, 1.0) == a && Mul(1.0, a) == a && Mul(a, c) == Mul(c, a)
    ensures Mul(0.5, a) == a / 2.0 && Mul(-0.5, a) == -(a / 2.0)
    ensures Mul(2.0 * a, c) == 2.0 * Mul(a, c) && Mul(a, 2.0 * c) == 2.0 * Mul(a, c)
  {
  }

  lemma IntProduct(a: int, b: int)
    ensures (a * b) as real == Mul(a as real, b as real)
  {
  }

  // ---- powers of two -----------------------------------------------------

  function Pow2(e: int): (r: real)
    ensures r > 0.0
    decreases if e < 0 then -e else e
  {
    if e == 0 then 1.0 else if e > 0 then 2.0 * Pow2(e - 1) else Pow2(e + 1) / 2.0
  }

  lemma Pow2Next(e: int)
    ensures Pow2(e + 1) == 2.0 * Pow2(e)
    ensures Pow2(0) == 1.0
  {
  }

  lemma {:induction false} Pow2Sum(a: int, n: nat)
    ensures Pow2(a + n) == Mul(Pow2(a), Pow2(n))
  {
    hide Pow2, Mul;
    Pow2Next(n - 1);
    if n == 0 {
      Scale(Pow2(a), 1.0);
    } else {
      Pow2Sum(a, n - 1);
      Pow2Next(a + (n - 1));
      Scale(Pow2(a), Pow2(n - 1));
    }
  }

  lemma {:induction false} Pow2Monotone(a: int, b: int)
    requires a <= b
    ensures Pow2(a) <= Pow2(b)
    decreases b - a
  {
    if a < b {
      Pow2Monotone(a, b - 1);
      Pow2Next(b - 1);
    }
  }

  function IntPow2(n: nat): (r: int)
    ensures r > n
  {
    if n == 0 then 1 else 2 * IntPow2(n - 1)
  }

  lemma IntPow2Next(n: nat)
    ensures IntPow2(n + 1) == 2 * IntPow2(n) && IntPow2(0) == 1
  {
  }

  lemma {:induction false} IntPow2Is(n: nat)
    ensures IntPow2(n) as real == Pow2(n)
  {
    if n > 0 {
      IntPow2Is(n - 1);
    }
  }

  // ---- binary exponents --------------------------------------------------

  /** `x` has the binary exponent `e`: its leading bit is worth 2^(e-1). */
  ghost predicate InBinade(x: real, e: int) {
    Pow2(e - 1) <= x < Pow2(e)
  }

  lemma {:induction false} BinadeBetween(x: real, lo: int, hi: int)
    requires lo < hi && Pow2(lo) <= x < Pow2(hi)
    ensures exists e :: InBinade(x, e)
    decreases hi - lo
  {
    hide Pow2;
    if hi > lo + 1 && x < Pow2(hi - 1) {
      BinadeBetween(x, lo, hi - 1);
    } else {
      assert InBinade(x, hi);
    }
  }

  lemma PowerAbove(x: real) returns (n: int)
    requires x >= 0.0
    ensures n >= 0 && x < Pow2(n)
  {
    n := x.Floor + 1;
    IntPow2Is(n);
  }

  /** If 1/x is below b and a b = 1, then x is above a. */
  lemma InverseBelow(x: real, i: real, a: real, b: real)
    requires x > 0.0 && a > 0.0 && i > 0.0 && Mul(i, x) == 1.0 && i < b && Mul(a, b) == 1.0
    ensures a < x
  {
    hide Mul;
    if x <= a {
      MulLessEq(x, a, i);
      MulLess(i, b, a);
      Scale(i, x);
      Scale(i, a);
      Scale(a, b);
    }
  }

  lemma BinadeExists(x: real)
    requires x > 0.0
    ensures exists e :: InBinade(x, e)
  {
    hide Pow2, Mul, Div;
    Undivide(1.0, x);
    var hi := PowerAbove(x);
    var m := PowerAbove(Div(1.0, x));
    Pow2Sum(-m, m);
    Pow2Next(hi);
    InverseBelow(x, Div(1.0, x), Pow2(-m), Pow2(m));
    BinadeBetween(x, -m, hi + 1);
  }

  ghost function Binade(x: real): (e: int)
    requires x > 0.0
    ensures InBinade(x, e)
  {
    BinadeExists(x);
    var e :| InBinade(x, e);
    e
  }

  lemma BinadeUnique(x: real, d: int, e: int)
    requires InBinade(x, d) && InBinade(x, e)
    ensures d == e
  {
    if d < e {
      Pow2Monotone(d, e - 1);
    } else if e < d {
      Pow2Monotone(e, d - 1);
    }
  }

  // ---- rounding ----------------------------------------------------------

  /** The nearest integer, the even one of two equally near ones. */
  function NearestEven(y: real): int {
    var f := y.Floor;
    var rest := y - f as real;
    if rest < 0.5 || (rest == 0.5 && f % 2 == 0) then f else f + 1
  }

  /** The value of a unit in the last place of a `p`-bit mantissa around `x`. */
  ghost function Ulp(x: real, p: nat): (u: real)
    requires x > 0.0
    ensures u > 0.0
  {
    Pow2(Binade(x) - p)
  }

  ghost function RoundPositive(x: real, p: nat): real
    requires x > 0.0
  {
    Mul(NearestEven(Div(x, Ulp(x, p))) as real, Ulp(x, p))
  }

  /** `x` rounded to a mantissa of `p` bits. */
  ghost function Round(x: real, p: nat): real {
    if x == 0.0 then 0.0 else if x > 0.0 then RoundPositive(x, p) else -RoundPositive(-x, p)
  }

  lemma NearestEvenIsNear(y: real, k: int)
    ensures -0.5 <= NearestEven(y) as real - y <= 0.5
    ensures k as real <= y ==> k <= NearestEven(y)
    ensures y <= k as real ==> NearestEven(y) <= k
  {
  }

  /** Rounding moves a positive value by at most half an ulp. */
  lemma RoundingError(x: real, p: nat)
    requires x > 0.0
    ensures -(Ulp(x, p) / 2.0) <= Round(x, p) - x <= Ulp(x, p) / 2.0
  {
    hide Ulp, NearestEven, Mul, Div;
    var u := Ulp(x, p);
    var y := Div(x, u);
    var n := NearestEven(y) as real;
    NearestEvenIsNear(y, 0);
    Undivide(x, u);
    Distribute(n, y, u);
    MulLessEq(-0.5, n - y, u);
    MulLessEq(n - y, 0.5, u);
    Scale(u, u);
  }

  /** A grid point on one side of a value stays on that side of the rounded value. */
  lemma GridBracket(y: real, u: real, g: int)
    requires u > 0.0
    ensures Mul(g as real, u) <= Mul(y, u) ==> Mul(g as real, u) <= Mul(NearestEven(y) as real, u)
    ensures Mul(y, u) <= Mul(g as real, u) ==> Mul(NearestEven(y) as real, u) <= Mul(g as real, u)
  {
    hide NearestEven, Mul;
    var n, r := NearestEven(y), g as real;
    NearestEvenIsNear(y, g);
    if y < r {
      MulLess(y, r, u);
    } else {
      MulLessEq(r, n as real, u);
    }
    if r < y {
      MulLess(r, y, u);
    } else {
      MulLessEq(n as real, r, u);
    }
  }

  /** Below 2^p the ulp divides one: it is one in the topmost binade and an even fraction below it. */
  lemma UlpDividesOne(x: real, p: nat) returns (scale: int)
    requires 0.0 < x < Pow2(p)
    ensures Mul(scale as real, Ulp(x, p)) == 1.0
    ensures scale == 1 || (scale % 2 == 0 && x < Pow2(p - 1))
  {
    hide Mul, Pow2;
    var e := Binade(x);
    if e > p {
      Pow2Monotone(p, e - 1);
    }
    Pow2Sum(e - p, p - e);
    Pow2Next(0);
    IntPow2Is(p - e);
    scale := IntPow2(p - e);
    Scale(scale as real, Ulp(x, p));
    if e < p {
      IntPow2Next(p - e - 1);
      Pow2Monotone(e, p - 1);
    }
  }

  /** Below 2^p every integer is on the grid, so rounding cannot jump over one. */
  lemma RoundingRespectsIntegers(x: real, p: nat, k: int)
    requires 0.0 < x < Pow2(p)
    ensures k as real <= x ==> k as real <= Round(x, p)
    ensures x <= k as real ==> Round(x, p) <= k as real
  {
    hide NearestEven, Ulp, Pow2, Mul, Div;
    var scale := UlpDividesOne(x, p);
    var u := Ulp(x, p);
    IntProduct(k, scale);
    Reassociate(k as real, scale as real, u);
    Scale(k as real, u);
    Undivide(x, u);
    GridBracket(Div(x, u), u, k * scale);
  }

  lemma RoundOdd(x: real, p: nat)
    ensures Round(-x, p) == -Round(x, p)
  {
    hide RoundPositive;
    assert -(-x) == x;
  }

  // ---- amounts -----------------------------------------------------------

  function BitLen(n: nat): nat {
    if n == 0 then 0 else 1 + BitLen(n / 2)
  }

  lemma {:induction false} BitLenBounds(n: nat)
    ensures n < IntPow2(BitLen(n))
  {
    if n > 0 {
      BitLenBounds(n / 2);
    }
  }

  function Abs(v: int): nat {
    if v < 0 then -v else v
  }

  function Max(a: nat, b: nat): nat {
    if a < b then b else a
  }

  /** The precision `SetInt` gives a fresh `big.Float`. */
  function IntPrec(v: int): nat {
    Max(64, BitLen(Abs(v)))
  }

  /** `decimalsMultiplier`. */
  function Multiplier(decimals: nat): (m: nat)
    ensures m >= 1
  {
    if decimals == 0 then 1 else 10 * Multiplier(decimals - 1)
  }

  /** `decimalsMultiplier` is the power of ten. */
  lemma {:induction false} MultiplierIsPower(a: nat, b: nat)
    ensures Multiplier(0) == 1 && Multiplier(1) == 10
    ensures Multiplier(a + b) == Multiplier(a) * Multiplier(b)
  {
    if b > 0 {
      MultiplierIsPower(a, b - 1);
      TenfoldProduct(Multiplier(a), Multiplier(b - 1));
    }
  }

  lemma TenfoldProduct(x: int, y: int)
    ensures 10 * (x * y) == x * (10 * y)
  {
  }

  datatype Float = Float(value: real, prec: nat)

  /** `toUnits`: the quotient has the larger of the operands' precisions. */
  ghost function ToUnits(v: int, decimals: nat): Float {
    var m := Multiplier(decimals);
    var p := Max(IntPrec(v), IntPrec(m));
    Float(Round(Div(v as real, m as real), p), p)
  }

  function Truncate(x: real): int {
    if x >= 0.0 then x.Floor else -((-x).Floor)
  }

  /** `fromUnits`: the product is rounded at the precision of the first operand, then truncated. */
  ghost function FromUnits(f: Float, decimals: nat): int {
    Truncate(Round(Mul(f.value, Multiplier(decimals) as real), f.prec))
  }

  lemma HalfUlpIs(x: real, p: nat)
    requires x > 0.0
    ensures Mul(Ulp(x, p) / 2.0, Pow2(p)) == Pow2(Binade(x) - 1)
  {
    hide Pow2, Mul;
    var e := Binade(x);
    Pow2Sum(e - p, p);
    Pow2Next(e - 1);
    Scale(Ulp(x, p) / 2.0, Pow2(p));
  }

  lemma ScaledBelow(h: real, b: real, x: real, m: real, c: real)
    requires m > 0.0 && b > 0.0 && Mul(h, b) <= x && Mul(x, m) < Mul(c, b)
    ensures Mul(h, m) < c
  {
    hide Mul;
    MulLessEq(Mul(h, b), x, m);
    Reassociate(h, b, m);
    if Mul(h, m) >= c {
      MulLessEq(c, Mul(h, m), b);
    }
  }

  /** The scaled-back product before rounding is less than `c` away from an amount below c 2^p: half an
      ulp of the quotient is that small after multiplication. */
  lemma ProductNear(v: real, m: real, p: nat, c: real)
    requires v > 0.0 && m > 0.0 && v < Mul(c, Pow2(p))
    ensures v - c < Mul(Round(Div(v, m), p), m) < v + c
  {
    hide Pow2, Ulp, Round, Mul, Div;
    var x := Div(v, m);
    Undivide(v, m);
    var q, h := Round(x, p), Ulp(x, p) / 2.0;
    RoundingError(x, p);
    HalfUlpIs(x, p);
    ScaledBelow(h, Pow2(p), x, m, c);
    Distribute(q, x, m);
    Distribute(h, x, m);
    MulLessEq(q - x, h, m);
    MulLessEq(-h, q - x, m);
  }

  lemma EnoughBits(v: nat, p: nat)
    requires BitLen(v) <= p
    ensures (v + 1) as real <= Pow2(p)
  {
    BitLenBounds(v);
    IntPow2Is(BitLen(v));
    Pow2Monotone(BitLen(v), p);
  }

  lemma TruncateBetween(r: real, lo: int, hi: int)
    requires 0 <= lo && lo as real <= r <= hi as real
    ensures lo <= Truncate(r) <= hi
  {
  }

  lemma PositiveRoundTrip(v: nat, decimals: nat)
    requires v >= 1
    ensures v - 1 <= FromUnits(ToUnits(v, decimals), decimals) <= v + 1
  {
    hide Pow2, Round, BitLen, Multiplier, Mul, Div, Truncate;
    var m := Multiplier(decimals);
    var p := Max(IntPrec(v), IntPrec(m));
    assert BitLen(Abs(v)) <= p;
    EnoughBits(v, p);
    Scale(Pow2(p), 1.0);
    ProductNear(v as real, m as real, p, 1.0);
    var y := Mul(ToUnits(v, decimals).value, m as real);
    RoundingRespectsIntegers(y, p, v - 1);
    RoundingRespectsIntegers(y, p, v + 1);
    TruncateBetween(Round(y, p), v - 1, v + 1);
  }

  /** Negative amounts behave like positive ones. */
  lemma Negation(v: int, decimals: nat)
    ensures FromUnits(ToUnits(-v, decimals), decimals) == -FromUnits(ToUnits(v, decimals), decimals)
  {
    hide Round, BitLen, Multiplier, Mul, Div;
    var m := Multiplier(decimals);
    var p := Max(IntPrec(v), IntPrec(m));
    assert Abs(-v) == Abs(v);
    Undivide(v as real, m as real);
    RoundOdd(Div(v as real, m as real), p);
    var q := Round(Div(v as real, m as real), p);
    Distribute(q, 0.0, m as real);
    RoundOdd(Mul(q, m as real), p);
  }

  /** Scaling to units and back loses or gains at most one smallest unit, for every amount and every
      number of decimals. */
  lemma ScalingBound(v: int, decimals: nat)
    ensures -1 <= FromUnits(ToUnits(v, decimals), decimals) - v <= 1
  {
    hide Round, BitLen, Multiplier, Mul, Div, Truncate;
    if v > 0 {
      PositiveRoundTrip(v, decimals);
    } else if v < 0 {
      PositiveRoundTrip(-v, decimals);
      Negation(v, decimals);
    } else {
      Negation(0, decimals);
    }
  }

  // ---- when nothing is lost ----------------------------------------------

  /** An integer below 2^p is not changed by rounding. */
  lemma RoundInteger(k: nat, p: nat)
    requires k as real < Pow2(p)
    ensures Round(k as real, p) == k as real
  {
    hide Pow2, RoundPositive;
    if k > 0 {
      RoundingRespectsIntegers(k as real, p, k);
    }
  }

  lemma ExactQuotient(w: int, m: int)
    requires m >= 1
    ensures Div((w * m) as real, m as real) == w as real
    ensures Mul(w as real, m as real) == (w * m) as real
    ensures w >= 0 ==> w * m >= w
  {
    IntProduct(w, m);
  }

  /** Whole units, of either sign, survive the way there and back exactly. */
  lemma WholeUnitsExact(w: int, decimals: nat)
    ensures FromUnits(ToUnits(w * Multiplier(decimals), decimals), decimals) == w * Multiplier(decimals)
  {
    hide Pow2, Round, BitLen, Multiplier, Mul, Div;
    var m := Multiplier(decimals);
    if w < 0 {
      PositiveWholeUnits(-w, decimals);
      Negation(w * m, decimals);
      NegatedProduct(w, m);
    } else {
      PositiveWholeUnits(w, decimals);
    }
  }

  lemma NegatedProduct(w: int, m: int)
    ensures (-w) * m == -(w * m)
  {
  }

  lemma PositiveWholeUnits(w: nat, decimals: nat)
    ensures FromUnits(ToUnits(w * Multiplier(decimals), decimals), decimals) == w * Multiplier(decimals)
  {
    hide Pow2, Round, BitLen, Multiplier, Mul, Div;
    var m := Multiplier(decimals);
    var v := w * m;
    var p := Max(IntPrec(v), IntPrec(m));
    ExactQuotient(w, m);
    assert Abs(v) == v && BitLen(Abs(v)) <= p;
    EnoughBits(v, p);
    RoundInteger(w, p);
    RoundInteger(v, p);
  }

  // ---- what the operations compute ---------------------------------------

  /** Rounding to nearest, ties to even, stated without the functions that compute it: a value between
      2^(e-1) and 2^e goes to the nearest multiple of 2^(e-p), and from the middle to the even multiple. */
  lemma RoundingIs(x: real, p: nat, e: int) returns (n: int)
    requires x > 0.0 && Pow2(e - 1) <= x < Pow2(e)
    ensures IsNearestMultiple(n, Pow2(e - p), x) && Round(x, p) == n as real * Pow2(e - p)
    ensures Round(-x, p) == -Round(x, p)
  {
    hide Pow2, NearestEven, Mul, Div;
    BinadeUnique(x, e, Binade(x));
    var u := Pow2(e - p);
    var y := Div(x, u);
    n := NearestEven(y);
    Undivide(x, u);
    NearestEvenExactly(y, n);
    MultipleNear(n, u, y, x);
    assert Round(x, p) == Mul(n as real, u);
    PlainProduct(n as real, u);
  }

  ghost predicate IsNearestMultiple(n: int, u: real, x: real) {
    && -(u / 2.0) <= x - n as real * u <= u / 2.0
    && (x - n as real * u == u / 2.0 || n as real * u - x == u / 2.0 ==> n % 2 == 0)
  }

  lemma PlainProduct(a: real, b: real)
    ensures Mul(a, b) == a * b
  {
  }

  lemma MultipleNear(n: int, u: real, y: real, x: real)
    requires u > 0.0 && x == Mul(y, u) && -0.5 <= y - n as real <= 0.5
    requires y - n as real == 0.5 || n as real - y == 0.5 ==> n % 2 == 0
    ensures IsNearestMultiple(n, u, x)
  {
    hide Mul;
    var d := y - n as real;
    Distribute(y, n as real, u);
    PlainProduct(n as real, u);
    MulLessEq(-0.5, d, u);
    MulLessEq(d, 0.5, u);
    Scale(u, u);
    if d < 0.5 {
      MulLess(d, 0.5, u);
    }
    if d > -0.5 {
      MulLess(-0.5, d, u);
    }
  }

  lemma {:induction false} BitLenLeast(n: nat)
    requires n >= 1
    ensures BitLen(n) >= 1 && IntPow2(BitLen(n) - 1) <= n < IntPow2(BitLen(n))
  {
    if n > 1 {
      BitLenLeast(n / 2);
    }
  }

  /** An integer gets 64 bits, or as many as it needs if that is more. */
  lemma PrecisionIs(v: int)
    ensures var size := if v < 0 then -v else v;
            var p := IntPrec(v);
            && p >= 64 && size < IntPow2(p)
            && (p > 64 ==> IntPow2(p - 1) <= size)
  {
    hide IntPow2;
    var size := if v < 0 then -v else v;
    if size >= 1 {
      BitLenLeast(size);
      IntPow2Monotone(BitLen(size), IntPrec(v));
    } else {
      IntPow2Monotone(0, IntPrec(v));
      IntPow2Next(0);
    }
  }

  lemma {:induction false} IntPow2Monotone(a: nat, b: nat)
    requires a <= b
    ensures IntPow2(a) <= IntPow2(b)
  {
    if a < b {
      IntPow2Monotone(a, b - 1);
    }
  }

  /** A positive amount in units is within half a unit in the last place of amount / 10^decimals, at the
      larger precision of the two operands. */
  lemma UnitsNear(v: nat, decimals: nat)
    requires v >= 1
    ensures var x := v as real / Multiplier(decimals) as real;
            var f, p, m := ToUnits(v, decimals), IntPrec(v), IntPrec(Multiplier(decimals));
            && f.prec == (if p < m then m else p)
            && x > 0.0 && -(Ulp(x, f.prec) / 2.0) <= f.value - x <= Ulp(x, f.prec) / 2.0
  {
    hide Ulp, Round, Multiplier;
    var m := Multiplier(decimals);
    Undivide(v as real, m as real);
    RoundingError(Div(v as real, m as real), ToUnits(v, decimals).prec);
  }

  // ---- exactly when something is lost or gained --------------------------

  /** The rounded quotient scaled back, before the second rounding. */
  ghost function ScaledBack(v: nat, decimals: nat): real {
    Mul(ToUnits(v, decimals).value, Multiplier(decimals) as real)
  }

  /** From `y`, on a grid of step `u`, rounding and truncating lead back to `v`: `y` falls short by at
      most half a step, does not overshoot by more than half a unit, and a half goes to the even side. */
  predicate LeadsBack(v: nat, y: real, u: real) {
    && v as real - y <= u / 2.0
    && y - v as real <= 0.5
    && (v as real - y == 0.5 || y - v as real == 0.5 ==> v % 2 == 0)
  }

  lemma NearestEvenExactly(y: real, k: int)
    ensures NearestEven(y) == k <==>
      && -0.5 <= y - k as real <= 0.5
      && (y - k as real == 0.5 || k as real - y == 0.5 ==> k % 2 == 0)
  {
    assert NearestEven(y) == k ==> y.Floor == k || y.Floor == k - 1;
    assert -0.5 <= y - k as real <= 0.5 ==> y.Floor == k || y.Floor == k - 1;
  }

  lemma NearestEvenReaches(y: real, g: int)
    requires g % 2 == 0
    ensures NearestEven(y) >= g <==> y >= g as real - 0.5
  {
    assert y >= g as real - 0.5 ==> y.Floor >= g - 1;
    assert NearestEven(y) >= g ==> y.Floor >= g - 1;
  }

  /** In the topmost binade the grid is the integers. */
  lemma RoundOnUnits(y: real, p: nat)
    requires y > 0.0 && Ulp(y, p) == 1.0
    ensures Round(y, p) == NearestEven(y) as real
  {
    hide NearestEven, Mul, Div, Ulp;
    Undivide(y, 1.0);
    Scale(Div(y, 1.0), 1.0);
    Scale(NearestEven(y) as real, 1.0);
  }

  /** On a finer grid rounding reaches an integer exactly from half a step below it on, and cannot
      reach the next one from half a unit above it. */
  lemma RoundOnFractions(y: real, p: nat, v: int, scale: int)
    requires y > 0.0 && scale % 2 == 0 && Mul(scale as real, Ulp(y, p)) == 1.0
    ensures v as real <= Round(y, p) <==> v as real - y <= Ulp(y, p) / 2.0
    ensures y <= v as real + 0.5 ==> Round(y, p) <= v as real + 0.5
  {
    hide NearestEven, Mul, Div, Ulp;
    var u := Ulp(y, p);
    var q := Div(y, u);
    var n, g := NearestEven(q), v * scale;
    Undivide(y, u);
    GridPoint(v, scale, u);
    EvenMultiple(v, scale);
    NearestEvenReaches(q, g);
    Distribute(g as real, 0.5, u);
    Scale(u, u);
    if n >= g {
      MulLessEq(g as real, n as real, u);
      MulLessEq(g as real - 0.5, q, u);
    } else {
      MulLess(n as real, g as real, u);
      MulLess(q, g as real - 0.5, u);
    }
    HalfGridPoint(v, scale, u);
    GridBracket(q, u, (2 * v + 1) * (scale / 2));
  }

  lemma GridPoint(v: int, scale: int, u: real)
    requires Mul(scale as real, u) == 1.0
    ensures Mul((v * scale) as real, u) == v as real
  {
    hide Mul;
    IntProduct(v, scale);
    Reassociate(v as real, scale as real, u);
    Scale(v as real, u);
  }

  lemma HalfGridPoint(v: int, scale: int, u: real)
    requires scale % 2 == 0 && Mul(scale as real, u) == 1.0
    ensures Mul(((2 * v + 1) * (scale / 2)) as real, u) == v as real + 0.5
  {
    hide Mul;
    var s := scale / 2;
    assert scale == 2 * s;
    Scale(s as real, u);
    IntProduct(2 * v + 1, s);
    Reassociate((2 * v + 1) as real, s as real, u);
    Scale((2 * v + 1) as real, 0.5);
  }

  lemma EvenMultiple(v: int, scale: int)
    requires scale % 2 == 0
    ensures (v * scale) % 2 == 0
  {
    var s := scale / 2;
    assert v * scale == 2 * (v * s);
  }

  /** Rounding a value within one of an integer and truncating gives the integer exactly if it leads
      back, and otherwise its neighbour on the value's side. */
  lemma RoundedExactly(v: nat, y: real, p: nat)
    requires v >= 1 && v as real - 1.0 < y < v as real + 1.0 && (v + 1) as real <= Pow2(p)
    requires y < Pow2(p - 1) ==> y < v as real + 0.5
    ensures Truncate(Round(y, p)) ==
      if LeadsBack(v, y, Ulp(y, p)) then v else if y < v as real then v - 1 else v + 1
  {
    hide NearestEven, Mul, Div, Ulp, Pow2, Round;
    var scale := UlpDividesOne(y, p);
    var r := Round(y, p);
    RoundingRespectsIntegers(y, p, v - 1);
    RoundingRespectsIntegers(y, p, v);
    RoundingRespectsIntegers(y, p, v + 1);
    if scale == 1 {
      Scale(Ulp(y, p), 1.0);
      RoundOnUnits(y, p);
      NearestEvenExactly(y, v);
    } else {
      HalfAtMost(scale, Ulp(y, p));
      RoundOnFractions(y, p, v, scale);
    }
  }

  lemma HalfAtMost(scale: int, u: real)
    requires u > 0.0 && scale % 2 == 0 && Mul(scale as real, u) == 1.0
    ensures u <= 0.5
  {
    hide Mul;
    Scale(0.0, u);
    if scale <= 0 {
      MulLessEq(scale as real, 0.0, u);
      Distribute(0.0, 0.0, u);
    } else {
      MulLessEq(2.0, scale as real, u);
      Scale(1.0, u);
      Scale(u, u);
    }
  }

  lemma PositiveScalingExactly(v: nat, decimals: nat)
    requires v >= 1
    ensures var y := ScaledBack(v, decimals);
            && y > 0.0
            && FromUnits(ToUnits(v, decimals), decimals) ==
               if LeadsBack(v, y, Ulp(y, ToUnits(v, decimals).prec)) then v
               else if y < v as real then v - 1
               else v + 1
  {
    hide Pow2, Round, BitLen, Multiplier, Mul, Div, Truncate, Ulp;
    var m := Multiplier(decimals);
    var p := Max(IntPrec(v), IntPrec(m));
    var y := ScaledBack(v, decimals);
    assert BitLen(Abs(v)) <= p && p >= 64;
    EnoughBits(v, p);
    Scale(Pow2(p), 1.0);
    ProductNear(v as real, m as real, p, 1.0);
    if y < Pow2(p - 1) && y >= v as real {
      Pow2Next(p - 1);
      Scale(Pow2(p), Pow2(p));
      ProductNear(v as real, m as real, p, 0.5);
    }
    RoundedExactly(v, y, p);
  }

  /** What becomes of every amount: it comes back unchanged if and only if its magnitude leads back, and
      otherwise one smallest unit towards the rounded quotient, on the same side of zero. */
  lemma ScalingExactly(v: int, decimals: nat)
    ensures var a := Abs(v);
            var y := ScaledBack(a, decimals);
            var back := FromUnits(ToUnits(v, decimals), decimals);
            && (v == 0 ==> back == 0)
            && (v != 0 ==> y > 0.0)
            && (v != 0 ==> (back == v <==> LeadsBack(a, y, Ulp(y, ToUnits(a, decimals).prec))))
            && (v != 0 && back != v ==> Abs(back) == if y < a as real then a - 1 else a + 1)
            && (v > 0 ==> back >= 0) && (v < 0 ==> back <= 0)
  {
    hide Pow2, Round, BitLen, Multiplier, Mul, Div, Truncate, Ulp, LeadsBack, ScaledBack;
    if v > 0 {
      PositiveScalingExactly(v, decimals);
    } else if v < 0 {
      PositiveScalingExactly(-v, decimals);
      Negation(v, decimals);
    } else {
      Negation(0, decimals);
    }
  }

  /** An amount with spare precision, such as any below 2^63, never grows; it comes back unchanged if and
      only if the scaled-back quotient falls short by at most half an ulp. */
  lemma SmallAmountsExactly(v: nat, decimals: nat)
    requires v >= 1 && BitLen(v) < ToUnits(v, decimals).prec
    ensures var y := ScaledBack(v, decimals);
            && y > 0.0
            && FromUnits(ToUnits(v, decimals), decimals) <= v
            && (FromUnits(ToUnits(v, decimals), decimals) == v <==>
                v as real - y <= Ulp(y, ToUnits(v, decimals).prec) / 2.0)
  {
    hide Pow2, Round, BitLen, Multiplier, Mul, Div, Truncate, Ulp;
    var m := Multiplier(decimals);
    var p := ToUnits(v, decimals).prec;
    var y := ScaledBack(v, decimals);
    PositiveScalingExactly(v, decimals);
    EnoughBits(v, p - 1);
    Pow2Next(p - 1);
    Scale(Pow2(p), Pow2(p));
    ProductNear(v as real, m as real, p, 0.5);
    var scale := UlpDividesOne(y, p);
    if scale == 1 {
      UnitUlpIsHigh(y, p);
    } else {
      HalfAtMost(scale, Ulp(y, p));
    }
  }

  /** An ulp of one means the topmost binade. */
  lemma UnitUlpIsHigh(y: real, p: nat)
    requires 0.0 < y < Pow2(p) && Mul(1.0, Ulp(y, p)) == 1.0
    ensures y >= Pow2(p - 1)
  {
    hide Mul;
    Scale(Ulp(y, p), 1.0);
    var e := Binade(y);
    Pow2Next(e - p);
    if e < p {
      Pow2Monotone(e - p, -1);
      Pow2Next(-1);
    } else if e > p {
      Pow2Monotone(p, e - 1);
    }
  }

  lemma InversePower(n: nat, k: int)
    requires IntPow2(n) == k
    ensures Pow2(-(n as int)) == 1.0 / k as real
  {
    hide Pow2, Mul, IntPow2;
    Pow2Sum(-(n as int), n);
    Pow2Next(0);
    IntPow2Is(n);
    InverseOf(Pow2(-(n as int)), k as real);
  }

  lemma InverseOf(a: real, b: real)
    requires b > 0.0 && Mul(a, b) == 1.0
    ensures a == 1.0 / b
  {
  }

  lemma {:induction false} IntPow2Sum(a: nat, n: nat)
    ensures IntPow2(a + n) == IntPow2(a) * IntPow2(n)
  {
    hide IntPow2;
    IntPow2Next(0);
    if n > 0 {
      IntPow2Sum(a, n - 1);
      IntPow2Next(a + (n - 1));
      IntPow2Next(n - 1);
      DoubleProduct(IntPow2(a), IntPow2(n - 1));
    }
  }

  lemma DoubleProduct(x: int, y: int)
    ensures 2 * (x * y) == x * (2 * y)
  {
  }

  lemma BigPowers()
    ensures IntPow2(64) == 18446744073709551616
    ensures IntPow2(73) == 9444732965739290427392
  {
    assert IntPow2(8) == 256 && IntPow2(9) == 512;
    IntPow2Sum(8, 8);
    IntPow2Sum(16, 16);
    IntPow2Sum(32, 32);
    IntPow2Sum(64, 9);
  }

  lemma SmallPowers()
    ensures IntPow2(10) == 1024 && IntPow2(9) == 512 && IntPow2(1) == 2
  {
  }

  lemma NearestEvenIs(y: real, n: int)
    requires -0.5 < y - n as real < 0.5
    ensures NearestEven(y) == n
  {
    assert y.Floor == n || y.Floor == n - 1;
  }

  /** A value less than half an ulp away from a grid point rounds to it. */
  lemma RoundsTo(x: real, p: nat, e: int, n: int)
    requires x > 0.0 && InBinade(x, e)
    requires -0.5 < Div(x, Pow2(e - p)) - n as real < 0.5
    ensures Round(x, p) == Mul(n as real, Pow2(e - p))
  {
    hide Pow2, Mul, Div, NearestEven;
    BinadeUnique(x, e, Binade(x));
    NearestEvenIs(Div(x, Pow2(e - p)), n);
  }

  /** One thousandth rounded to 64 bits. */
  lemma ThousandthRounded()
    ensures Round(0.001, 64) == 9444732965739290427.0 / 9444732965739290427392.0
  {
    hide Pow2, IntPow2, Round;
    BigPowers();
    SmallPowers();
    InversePower(10, 1024);
    InversePower(9, 512);
    InversePower(73, 9444732965739290427392);
    assert Div(0.001, 1.0 / 9444732965739290427392.0) == 9444732965739290427.392;
    RoundsTo(0.001, 64, -9, 9444732965739290427);
  }

  /** A thousand of those, rounded again, stays below one. */
  lemma ThousandRounded(y: real)
    requires y == 9444732965739290427000.0 / 9444732965739290427392.0
    ensures Round(y, 64) == 18446744073709551615.0 / 18446744073709551616.0
  {
    hide Pow2, IntPow2, Round;
    BigPowers();
    SmallPowers();
    InversePower(64, 18446744073709551616);
    InversePower(1, 2);
    Pow2Next(0);
    assert Div(y, 1.0 / 18446744073709551616.0) == 18446744073709551615.234375;
    RoundsTo(y, 64, 0, 18446744073709551615);
  }

  /** Other amounts can lose a unit: one thousandth, at three decimals, comes back as zero. */
  lemma OneThousandthIsLost()
    ensures FromUnits(ToUnits(1, 3), 3) == 0
  {
    assert Multiplier(3) == 1000;
    assert IntPrec(1) == 64 && IntPrec(1000) == 64;
    hide Round, Multiplier, IntPrec;
    ThousandthRounded();
    var q := 9444732965739290427.0 / 9444732965739290427392.0;
    assert ToUnits(1, 3) == Float(q, 64);
    ThousandRounded(Mul(q, 1000.0));
  }

  lemma {:induction false} BitLenIs(n: nat, b: nat)
    requires b >= 1 && IntPow2(b - 1) <= n < IntPow2(b)
    ensures BitLen(n) == b
  {
    if b > 1 {
      BitLenIs(n / 2, b - 1);
    }
  }

  /** The precision of an amount between 2^63 and 2^64 at seven decimals. */
  lemma GainedPrecision()
    ensures IntPrec(11020228474075705008) == 64 && IntPrec(10000000) == 64 && Multiplier(7) == 10000000
  {
    assert Multiplier(7) == 10000000;
    hide BitLen, Multiplier;
    LargeBitLen();
    MillionsBitLen();
  }

  lemma LargeBitLen()
    ensures BitLen(11020228474075705008) == 64
  {
    hide BitLen;
    BigPowers();
    IntPow2Next(63);
    hide IntPow2;
    BitLenIs(11020228474075705008, 64);
  }

  lemma MillionsBitLen()
    ensures BitLen(10000000) == 24
  {
    hide BitLen;
    assert IntPow2(8) == 256;
    IntPow2Sum(8, 8);
    IntPow2Sum(16, 8);
    IntPow2Next(23);
    hide IntPow2;
    BitLenIs(10000000, 24);
  }

  lemma GainedQuotient()
    ensures Round(1102022847407.5705008, 64) == 9244437673945925164.0 / 8388608.0
  {
    hide Pow2, IntPow2, Round;
    SmallPowers();
    IntPow2Sum(10, 10);
    IntPow2Sum(20, 20);
    IntPow2Next(40);
    IntPow2Is(40);
    IntPow2Is(41);
    IntPow2Sum(10, 9);
    IntPow2Next(19);
    IntPow2Next(20);
    IntPow2Next(21);
    IntPow2Next(22);
    InversePower(23, 8388608);
    assert Div(1102022847407.5705008, 1.0 / 8388608.0) == 9244437673945925163.5748864;
    RoundsTo(1102022847407.5705008, 64, 41, 9244437673945925164);
  }

  lemma GainedProduct(y: real)
    requires y == 11020228474075705008.50677490234375
    ensures Round(y, 64) == 11020228474075705009.0
  {
    hide Pow2, IntPow2, Round;
    BigPowers();
    IntPow2Next(63);
    IntPow2Is(63);
    IntPow2Is(64);
    Pow2Next(0);
    assert Div(y, 1.0) == y;
    RoundsTo(y, 64, 64, 11020228474075705009);
  }

  /** Amounts of 2^63 and more can also gain a unit. */
  lemma OneUnitIsGained()
    ensures FromUnits(ToUnits(11020228474075705008, 7), 7) == 11020228474075705009
  {
    GainedPrecision();
    hide Round, Multiplier, IntPrec;
    GainedQuotient();
    assert Div(11020228474075705008.0, 10000000.0) == 1102022847407.5705008;
    var q := 9244437673945925164.0 / 8388608.0;
    assert ToUnits(11020228474075705008, 7) == Float(q, 64);
    GainedProduct(Mul(q, 10000000.0));
  }
}
