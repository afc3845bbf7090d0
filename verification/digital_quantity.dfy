/**
 `digital_quantity<Rep, Base>` (include/msl/quantities/digital_quantity.hpp,
 and its older copy include/msl/utilities/digital_quantity.hpp): a count of
 units of `Base` bytes, where `Base` is a compile-time ratio `num/den` (so
 `bits` is `ratio<1, CHAR_BIT>`).

 A quantity is modelled as its count and its base; the amount of memory it
 denotes, in bytes, is the real number `count * num / den`. Every operation
 is stated against that amount. `Rep` is an unbounded integer here, so
 overflow of a fixed-width `Rep` is not modelled; `/` and `%` on counts
 truncate toward zero as in C++.

 `std::ratio` keeps its fraction in lowest terms. The model does not reduce
 a `Ratio`: every property below depends only on the value `num/den`, and a
 lossless conversion, a truncating cast and a comparison all agree between a
 ratio and its reduced form.
 */
module DigitalQuantities {
  import opened CppIntegers
  import BitOps

  /** A unit: `num/den` bytes. */
  datatype Ratio = Ratio(num: nat, den: nat)
  {
    predicate Valid()
    {
      num > 0 && den > 0
    }
  }

  /** The only member is `m_count`; the base is part of the type. */
  datatype Quantity = Quantity(count: int, base: Ratio)

  /** `CHAR_BIT`. */
  const CharBit: nat := 8

  /** The base of `bytes`. */
  const Bytes: Ratio := Ratio(1, 1)

  /** The base of `bits`. */
  const Bits: Ratio := Ratio(1, CharBit)

  //----------------------------------------------------------------------------
  // Amounts
  //----------------------------------------------------------------------------

  function Frac(a: int, b: nat): real
    requires b > 0
  {
    a as real / b as real
  }

  /** The size of one unit of `b`, in bytes. */
  function Unit(b: Ratio): real
    requires b.Valid()
  {
    Frac(b.num, b.den)
  }

  /** The amount of memory a quantity denotes, in bytes. */
  function Value(q: Quantity): real
    requires q.base.Valid()
  {
    q.count as real * Unit(q.base)
  }

  function RAbs(x: real): real
  {
    if x < 0.0 then -x else x
  }

  lemma UnitPositive(b: Ratio)
    requires b.Valid()
    ensures Unit(b) > 0.0
  {
  }

  lemma FracScale(a: int, b: nat, k: nat)
    requires b > 0 && k > 0
    ensures Frac(a * k, b * k) == Frac(a, b)
  {
    var x := Frac(a, b);
    assert x * (b as real) == a as real;
    assert (a * k) as real == a as real * k as real;
    assert (b * k) as real == b as real * k as real;
    assert x * ((b * k) as real) == (a * k) as real;
  }

  lemma FracAdd(a: int, c: int, b: nat)
    requires b > 0
    ensures Frac(a, b) + Frac(c, b) == Frac(a + c, b)
  {
    var x, y := Frac(a, b), Frac(c, b);
    assert x * (b as real) == a as real;
    assert y * (b as real) == c as real;
    assert (x + y) * (b as real) == (a + c) as real;
  }

  lemma FracOrder(a: int, c: int, b: nat)
    requires b > 0
    ensures Frac(a, b) <= Frac(c, b) <==> a <= c
    ensures Frac(a, b) < Frac(c, b) <==> a < c
  {
    FracAdd(a, c - a, b);
    var d := Frac(c - a, b);
    assert d * (b as real) == (c - a) as real;
  }

  /** An amount as a fraction over the unit's denominator times `k`. */
  lemma ValueAsFrac(c: int, b: Ratio, k: nat)
    requires b.Valid() && k > 0
    ensures Value(Quantity(c, b)) == Frac(c * b.num * k, b.den * k)
  {
    var u := Unit(b);
    assert u * (b.den as real) == b.num as real;
    assert (c * b.num) as real == c as real * b.num as real;
    assert (c as real * u) * (b.den as real) == (c * b.num) as real;
    assert Value(Quantity(c, b)) == Frac(c * b.num, b.den);
    FracScale(c * b.num, b.den, k);
  }

  /** Within one base, amounts are ordered as counts. */
  lemma SameBaseOrder(a: Quantity, b: Quantity)
    requires a.base.Valid() && a.base == b.base
    ensures Value(a) <= Value(b) <==> a.count <= b.count
    ensures Value(a) < Value(b) <==> a.count < b.count
    ensures Value(a) == Value(b) <==> a.count == b.count
  {
    ValueAsFrac(a.count, a.base, 1);
    ValueAsFrac(b.count, b.base, 1);
    FracOrder(a.count * a.base.num * 1, b.count * b.base.num * 1, a.base.den * 1);
    var n := a.base.num;
    if a.count < b.count {
      assert a.count * n < b.count * n;
    } else if a.count > b.count {
      assert a.count * n > b.count * n;
    }
  }

  /** Within one base, amounts add as counts. */
  lemma SameBaseAdd(a: int, b: int, base: Ratio)
    requires base.Valid()
    ensures Value(Quantity(a + b, base)) == Value(Quantity(a, base)) + Value(Quantity(b, base))
  {
    assert (a + b) as real == a as real + b as real;
  }

  //----------------------------------------------------------------------------
  // The common base: ratio(gcd(num1, num2), lcm(den1, den2))
  //----------------------------------------------------------------------------

  lemma MultipleMod(n: nat, d: nat, k: nat)
    requires d > 0 && n == d * k
    ensures n % d == 0
  {
    BitOps.DivModUnique(n, d, k, 0);
  }

  lemma DifferenceMultiple(a: nat, b: nat, m: nat, d: nat)
    requires d > 0 && a % d == 0 && b % d == 0 && a >= m * b
    ensures (a - m * b) % d == 0
  {
    var p, q := a / d, b / d;
    assert a == d * p && b == d * q;
    assert a - m * b == d * (p - m * q);
    MultipleMod(a - m * b, d, p - m * q);
  }

  lemma MutualDivides(a: nat, b: nat)
    requires a > 0 && b > 0 && a % b == 0 && b % a == 0
    ensures a == b
  {
    assert a == b * (a / b);
    assert b == a * (b / a);
    BitOps.MulMono(1, a / b, b);
    BitOps.MulMono(1, b / a, a);
  }

  /** `detail::gcd<X, Y>`: Euclid's recursion, ending at `gcd<X, 0> == X`. */
  function Gcd(x: nat, y: nat): (g: nat)
    requires x > 0
    ensures g > 0 && x % g == 0 && y % g == 0
    decreases y
  {
    if y == 0 then x
    else
      var g := Gcd(y, x % y);
      assert x % g == 0 by {
        var a, b := y / g, (x % y) / g;
        assert y == g * a && x % y == g * b;
        assert x == (x / y) * y + x % y;
        assert x == g * ((x / y) * a + b);
        MultipleMod(x, g, (x / y) * a + b);
      }
      g
  }

  /** Every common divisor divides the `gcd`. */
  lemma {:induction false} GcdGreatest(x: nat, y: nat, d: nat)
    requires x > 0 && d > 0 && x % d == 0 && y % d == 0
    ensures Gcd(x, y) % d == 0
    decreases y
  {
    if y > 0 {
      assert x % y == x - (x / y) * y;
      DifferenceMultiple(x, y, x / y, d);
      GcdGreatest(y, x % y, d);
    }
  }

  lemma GcdCommutative(x: nat, y: nat)
    requires x > 0 && y > 0
    ensures Gcd(x, y) == Gcd(y, x)
  {
    GcdGreatest(y, x, Gcd(x, y));
    GcdGreatest(x, y, Gcd(y, x));
    MutualDivides(Gcd(x, y), Gcd(y, x));
  }

  /** `detail::lcm<X, Y>`: `(X / gcd) * Y`, a common multiple of both. */
  function Lcm(x: nat, y: nat): (l: nat)
    requires x > 0 && y > 0
    ensures l > 0 && l % x == 0 && l % y == 0
  {
    var g := Gcd(x, y);
    var a, b := x / g, y / g;
    assert x == g * a && y == g * b;
    assert a * y == x * b;
    MultipleMod(a * y, y, a);
    MultipleMod(a * y, x, b);
    BitOps.MulMono(1, a, g);
    a * y
  }

  lemma LcmCommutative(x: nat, y: nat)
    requires x > 0 && y > 0
    ensures Lcm(x, y) == Lcm(y, x)
  {
    GcdCommutative(x, y);
    var g := Gcd(x, y);
    var a, b := x / g, y / g;
    assert Lcm(x, y) == a * y && Lcm(y, x) == b * x;
    ExactQuotient(x, g);
    ExactQuotient(y, g);
    CrossProduct(a, b, g);
  }

  lemma ExactQuotient(x: nat, g: nat)
    requires g > 0 && x % g == 0
    ensures x == g * (x / g)
  {
  }

  lemma CrossProduct(a: nat, b: nat, g: nat)
    ensures a * (g * b) == b * (g * a)
  {
  }

  lemma GcdSelf(x: nat)
    requires x > 0
    ensures Gcd(x, x) == x
  {
    assert Gcd(x, x) == Gcd(x, 0);
  }

  lemma LcmSelf(x: nat)
    requires x > 0
    ensures Lcm(x, x) == x
  {
    GcdSelf(x);
  }

  /** The base of `std::common_type` of two quantities. */
  function CommonBase(a: Ratio, b: Ratio): (c: Ratio)
    requires a.Valid() && b.Valid()
    ensures c.Valid()
    ensures Lossless(a, c) && Lossless(b, c)
  {
    var c := Ratio(Gcd(a.num, b.num), Lcm(a.den, b.den));
    LosslessWhenDivides(a, c);
    LosslessWhenDivides(b, c);
    c
  }

  /** The common base of two equal bases is that base. */
  lemma CommonBaseSelf(b: Ratio)
    requires b.Valid()
    ensures CommonBase(b, b) == b
  {
    GcdSelf(b.num);
    LcmSelf(b.den);
  }

  /** The common base does not depend on the order of the operands. */
  lemma CommonBaseSymmetric(a: Ratio, b: Ratio)
    requires a.Valid() && b.Valid()
    ensures CommonBase(a, b) == CommonBase(b, a)
  {
    GcdCommutative(a.num, b.num);
    LcmCommutative(a.den, b.den);
  }

  //----------------------------------------------------------------------------
  // Conversions
  //----------------------------------------------------------------------------

  /** `ratio_divide<From, To>::den == 1`: one `From` is a whole number of `To`. */
  predicate Lossless(from: Ratio, to: Ratio)
    requires from.Valid() && to.Valid()
  {
    (from.num * to.den) % (from.den * to.num) == 0
  }

  /** `ratio_divide<From, To>::num` when the conversion is lossless. */
  function Factor(from: Ratio, to: Ratio): nat
    requires from.Valid() && to.Valid()
  {
    (from.num * to.den) / (from.den * to.num)
  }

  lemma LosslessWhenDivides(from: Ratio, to: Ratio)
    requires from.Valid() && to.Valid()
    requires from.num % to.num == 0 && to.den % from.den == 0
    ensures Lossless(from, to)
  {
    var p, q := from.num / to.num, to.den / from.den;
    assert from.num == to.num * p && to.den == from.den * q;
    assert from.num * to.den == (from.den * to.num) * (p * q);
    MultipleMod(from.num * to.den, from.den * to.num, p * q);
  }

  /** A whole number of `to` units make one `from` unit. */
  lemma FactorScales(from: Ratio, to: Ratio)
    requires from.Valid() && to.Valid() && Lossless(from, to)
    ensures Factor(from, to) * (from.den * to.num) == from.num * to.den
  {
  }

  /**
   The converting constructor: allowed only when lossless, it multiplies the
   count by the whole number of `to` units in one `from` unit. The amount is
   unchanged.
   */
  function Convert(q: Quantity, to: Ratio): (r: Quantity)
    requires q.base.Valid() && to.Valid() && Lossless(q.base, to)
    ensures r.base == to
    ensures Value(r) == Value(q)
  {
    var r := Quantity(q.count * Factor(q.base, to), to);
    ConvertValue(q, to);
    r
  }

  lemma ConvertValue(q: Quantity, to: Ratio)
    requires q.base.Valid() && to.Valid() && Lossless(q.base, to)
    ensures Value(Quantity(q.count * Factor(q.base, to), to)) == Value(q)
  {
    var (fn, fd, tn, td) := (q.base.num, q.base.den, to.num, to.den);
    var k := Factor(q.base, to);
    FactorScales(q.base, to);
    ValueAsFrac(q.count * k, to, fd);
    ValueAsFrac(q.count, q.base, td);
    assert q.count * k * tn * fd == q.count * (k * (fd * tn)) == q.count * fn * td;
    assert td * fd == fd * td;
  }

  /**
   `digital_quantity_cast<To>(from)`: `count * num / den` of `From/To`, the
   division truncating toward zero. The result is within one `To` unit of
   the amount, on the side of zero.
   */
  function Cast(q: Quantity, to: Ratio): (r: Quantity)
    requires q.base.Valid() && to.Valid()
    ensures r.base == to
    ensures Value(q) >= 0.0 ==> Value(r) <= Value(q) < Value(r) + Unit(to)
    ensures Value(q) <= 0.0 ==> Value(r) - Unit(to) < Value(q) <= Value(r)
  {
    CastBounds(q, to);
    Quantity(TruncDiv(q.count * (q.base.num * to.den), q.base.den * to.num), to)
  }

  lemma CastBounds(q: Quantity, to: Ratio)
    requires q.base.Valid() && to.Valid()
    ensures var r := Quantity(TruncDiv(q.count * (q.base.num * to.den), q.base.den * to.num), to);
      (Value(q) >= 0.0 ==> Value(r) <= Value(q) < Value(r) + Unit(to))
      && (Value(q) <= 0.0 ==> Value(r) - Unit(to) < Value(q) <= Value(r))
  {
    var (fn, fd, tn, td) := (q.base.num, q.base.den, to.num, to.den);
    var n, d := q.count * (fn * td), fd * tn;
    var t := TruncDiv(n, d);
    var big := fd * td;
    CastOverCommonDenominator(q, to, t);
    var m := TruncMod(n, d);
    Bracket(n, t, d, m, big);
  }

  /** The amount, the cast's amount and one `to` unit, over `fd * td`. */
  lemma CastOverCommonDenominator(q: Quantity, to: Ratio, t: int)
    requires q.base.Valid() && to.Valid()
    ensures var big := q.base.den * to.den;
      Value(q) == Frac(q.count * (q.base.num * to.den), big)
      && Value(Quantity(t, to)) == Frac(t * (q.base.den * to.num), big)
      && Unit(to) == Frac(q.base.den * to.num, big)
  {
    var (fn, fd, tn, td) := (q.base.num, q.base.den, to.num, to.den);
    ValueAsFrac(q.count, q.base, td);
    assert q.count * fn * td == q.count * (fn * td);
    ValueAsFrac(t, to, fd);
    assert t * tn * fd == t * (fd * tn);
    assert td * fd == fd * td;
    ValueAsFrac(1, to, fd);
    assert 1 * tn * fd == fd * tn;
  }

  /** A truncated quotient brackets the dividend, on the side of zero. */
  lemma Bracket(n: int, t: int, d: nat, m: int, big: nat)
    requires d > 0 && big > 0
    requires n == t * d + m && Abs(m) < d && (m != 0 ==> (m < 0 <==> n < 0))
    ensures Frac(n, big) >= 0.0 ==> Frac(t * d, big) <= Frac(n, big) < Frac(t * d, big) + Frac(d, big)
    ensures Frac(n, big) <= 0.0 ==> Frac(t * d, big) - Frac(d, big) < Frac(n, big) <= Frac(t * d, big)
  {
    FracAdd(t * d, d, big);
    FracAdd(t * d - d, d, big);
    assert Frac(0, big) == 0.0;
    FracOrder(0, n, big);
    FracOrder(n, 0, big);
    FracOrder(t * d, n, big);
    FracOrder(n, t * d + d, big);
    FracOrder(t * d - d, n, big);
    FracOrder(n, t * d, big);
  }

  /** A cast to a base the amount is a whole number of does not lose anything. */
  lemma CastExact(q: Quantity, to: Ratio, k: int)
    requires q.base.Valid() && to.Valid()
    requires Value(q) == Value(Quantity(k, to))
    ensures Cast(q, to) == Quantity(k, to)
  {
    var (fn, fd, tn, td) := (q.base.num, q.base.den, to.num, to.den);
    var n, d := q.count * (fn * td), fd * tn;
    ValueAsFrac(q.count, q.base, td);
    ValueAsFrac(k, to, fd);
    assert td * fd == fd * td;
    FracOrder(q.count * fn * td, k * tn * fd, fd * td);
    assert n == k * d;
    TruncDivUnique(n, d, k, 0);
  }

  /** A lossless cast is the converting constructor. */
  lemma CastLossless(q: Quantity, to: Ratio)
    requires q.base.Valid() && to.Valid() && Lossless(q.base, to)
    ensures Cast(q, to) == Convert(q, to)
  {
    CastExact(q, to, Convert(q, to).count);
  }

  /** Casting a converted quantity back to its base recovers it. */
  lemma ConvertThenCastBack(q: Quantity, to: Ratio)
    requires q.base.Valid() && to.Valid() && Lossless(q.base, to)
    ensures Cast(Convert(q, to), q.base) == q
  {
    CastExact(Convert(q, to), q.base, q.count);
  }

  //----------------------------------------------------------------------------
  // Arithmetic
  //----------------------------------------------------------------------------

  /** `zero()`. */
  function Zero(b: Ratio): (r: Quantity)
    requires b.Valid()
    ensures r.base == b && Value(r) == 0.0
  {
    Quantity(0, b)
  }

  /** `ToQuantity{1}`: one unit. */
  function One(b: Ratio): (r: Quantity)
    requires b.Valid()
    ensures r.base == b && Value(r) == Unit(b)
  {
    Quantity(1, b)
  }

  /** `lhs + rhs`: the counts in the common base, added. */
  function Add(a: Quantity, b: Quantity): (r: Quantity)
    requires a.base.Valid() && b.base.Valid()
    ensures r.base == CommonBase(a.base, b.base)
    ensures Value(r) == Value(a) + Value(b)
  {
    var c := CommonBase(a.base, b.base);
    var (x, y) := (Convert(a, c), Convert(b, c));
    SameBaseAdd(x.count, y.count, c);
    Quantity(x.count + y.count, c)
  }

  /** `lhs - rhs`: the counts in the common base, subtracted. */
  function Sub(a: Quantity, b: Quantity): (r: Quantity)
    requires a.base.Valid() && b.base.Valid()
    ensures r.base == CommonBase(a.base, b.base)
    ensures Value(r) == Value(a) - Value(b)
  {
    var c := CommonBase(a.base, b.base);
    var (x, y) := (Convert(a, c), Convert(b, c));
    SameBaseAdd(x.count - y.count, y.count, c);
    Quantity(x.count - y.count, c)
  }

  /** Unary `-`. */
  function Negate(q: Quantity): (r: Quantity)
    requires q.base.Valid()
    ensures r.base == q.base && Value(r) == -Value(q)
  {
    SameBaseAdd(-q.count, q.count, q.base);
    Quantity(-q.count, q.base)
  }

  /** Unary `+`. */
  function Plus(q: Quantity): (r: Quantity)
    requires q.base.Valid()
    ensures r.base == q.base && Value(r) == Value(q)
  {
    Quantity(q.count, q.base)
  }

  /** Subtracting adds the negation. */
  lemma SubIsAddNegate(a: Quantity, b: Quantity)
    requires a.base.Valid() && b.base.Valid()
    ensures Sub(a, b) == Add(a, Negate(b))
  {
    var c := CommonBase(a.base, b.base);
    assert Convert(Negate(b), c).count == -Convert(b, c).count;
  }

  /** `+=` and `-=`: the right-hand side already has this base. */
  function AddAssign(q: Quantity, rhs: Quantity): (r: Quantity)
    requires q.base.Valid() && rhs.base == q.base
    ensures r == Add(q, rhs)
  {
    CommonBaseSelf(q.base);
    assert Factor(q.base, q.base) == 1;
    Quantity(q.count + rhs.count, q.base)
  }

  function SubAssign(q: Quantity, rhs: Quantity): (r: Quantity)
    requires q.base.Valid() && rhs.base == q.base
    ensures r == Sub(q, rhs)
  {
    CommonBaseSelf(q.base);
    assert Factor(q.base, q.base) == 1;
    Quantity(q.count - rhs.count, q.base)
  }

  /** Prefix `++` and `--`: one unit more or less. */
  function Increment(q: Quantity): (r: Quantity)
    requires q.base.Valid()
    ensures r.base == q.base && Value(r) == Value(q) + Unit(q.base)
  {
    SameBaseAdd(q.count, 1, q.base);
    Quantity(q.count + 1, q.base)
  }

  function Decrement(q: Quantity): (r: Quantity)
    requires q.base.Valid()
    ensures r.base == q.base && Value(r) == Value(q) - Unit(q.base)
  {
    SameBaseAdd(q.count - 1, 1, q.base);
    Quantity(q.count - 1, q.base)
  }

  /**
   Postfix `++` and `--`: the quantity becomes the prefix result and the
   expression yields the old value (the pair is (new value, result)).
   */
  function PostIncrement(q: Quantity): (r: (Quantity, Quantity))
    requires q.base.Valid()
    ensures r.1 == q && r.0.base == q.base
    ensures Value(r.0) == Value(r.1) + Unit(q.base)
  {
    (Increment(q), q)
  }

  function PostDecrement(q: Quantity): (r: (Quantity, Quantity))
    requires q.base.Valid()
    ensures r.1 == q && r.0.base == q.base
    ensures Value(r.0) == Value(r.1) - Unit(q.base)
  {
    (Decrement(q), q)
  }

  lemma IncrementThenDecrement(q: Quantity)
    requires q.base.Valid()
    ensures Decrement(Increment(q)) == q && Increment(Decrement(q)) == q
  {
  }

  /** `q * k` and `k * q` (and `*=`): the count scaled. */
  function ScalarMul(q: Quantity, k: int): (r: Quantity)
    requires q.base.Valid()
    ensures r.base == q.base && Value(r) == Value(q) * k as real
  {
    assert (q.count * k) as real == q.count as real * k as real;
    Quantity(q.count * k, q.base)
  }

  /** `q / k` (and `/=`): the count divided, truncating toward zero. */
  function ScalarDiv(q: Quantity, k: int): (r: Quantity)
    requires q.base.Valid() && k != 0
    ensures r.base == q.base
    ensures Abs(r.count) == Quotient(Abs(q.count), Abs(k))
  {
    Quantity(TruncDiv(q.count, k), q.base)
  }

  /** `q % k` (and `%=`): what `q / k` leaves over, with the sign of `q`. */
  function ScalarMod(q: Quantity, k: int): (r: Quantity)
    requires q.base.Valid() && k != 0
    ensures r.base == q.base
    ensures Abs(r.count) < Abs(k)
    ensures r.count != 0 ==> (r.count < 0 <==> q.count < 0)
  {
    Quantity(TruncMod(q.count, k), q.base)
  }

  /** `q / k * k + q % k` recomposes `q`. */
  lemma ScalarDivMod(q: Quantity, k: int)
    requires q.base.Valid() && k != 0
    ensures Add(ScalarMul(ScalarDiv(q, k), k), ScalarMod(q, k)) == q
  {
    CommonBaseSelf(q.base);
    assert Factor(q.base, q.base) == 1;
  }

  /**
   `lhs / rhs` of two quantities: a plain number, the quotient of the counts
   in the common base, truncated toward zero.
   */
  function QuantityDiv(a: Quantity, b: Quantity): (r: int)
    requires a.base.Valid() && b.base.Valid() && b.count != 0
    ensures r as real * Value(b) + Value(QuantityMod(a, b)) == Value(a)
  {
    var c := CommonBase(a.base, b.base);
    var (x, y) := (Convert(a, c), Convert(b, c));
    DivisorStaysNonZero(b, c);
    QuantityDivRecomposes(a, b, c, x, y);
    TruncDiv(x.count, y.count)
  }

  lemma DivisorStaysNonZero(b: Quantity, c: Ratio)
    requires b.base.Valid() && c.Valid() && Lossless(b.base, c) && b.count != 0
    ensures Convert(b, c).count != 0
  {
    SameBaseOrder(Convert(b, c), Zero(c));
  }

  lemma QuantityDivRecomposes(a: Quantity, b: Quantity, c: Ratio, x: Quantity, y: Quantity)
    requires a.base.Valid() && b.base.Valid() && b.count != 0
    requires c == CommonBase(a.base, b.base) && x == Convert(a, c) && y == Convert(b, c)
    requires y.count != 0
    ensures TruncDiv(x.count, y.count) as real * Value(b) + Value(QuantityMod(a, b)) == Value(a)
  {
    ModValue(a, b, c, x, y);
    DivModRecompose(x, y);
    SubstituteFactor(TruncDiv(x.count, y.count) as real, Value(y), Value(b),
      Value(QuantityMod(a, b)), Value(a));
  }

  lemma ModValue(a: Quantity, b: Quantity, c: Ratio, x: Quantity, y: Quantity)
    requires a.base.Valid() && b.base.Valid() && b.count != 0
    requires c == CommonBase(a.base, b.base) && x == Convert(a, c) && y == Convert(b, c)
    requires y.count != 0
    ensures QuantityMod(a, b) == Quantity(TruncMod(x.count, y.count), c)
  {
  }

  /** Within one base, `x / y * y + x % y` units are `x`. */
  lemma DivModRecompose(x: Quantity, y: Quantity)
    requires x.base.Valid() && x.base == y.base && y.count != 0
    ensures Value(x) == TruncDiv(x.count, y.count) as real * Value(y)
      + Value(Quantity(TruncMod(x.count, y.count), x.base))
  {
    var q, m := TruncDiv(x.count, y.count), TruncMod(x.count, y.count);
    assert x == Quantity(q * y.count + m, x.base);
    Recompose(q, y.count, m, x.base);
  }

  lemma SubstituteFactor(k: real, y: real, b: real, m: real, a: real)
    requires a == k * y + m && y == b
    ensures k * b + m == a
  {
  }

  /** `q * y + m` units are `q` times `y` units plus `m` units. */
  lemma Recompose(q: int, y: int, m: int, c: Ratio)
    requires c.Valid()
    ensures Value(Quantity(q * y + m, c)) == q as real * Value(Quantity(y, c)) + Value(Quantity(m, c))
  {
    SameBaseAdd(q * y, m, c);
    assert (q * y) as real == q as real * y as real;
  }

  /**
   `lhs % rhs` of two quantities: the remainder of the counts in the common
   base. It is smaller than `rhs` and has the sign of `lhs`.
   */
  function QuantityMod(a: Quantity, b: Quantity): (r: Quantity)
    requires a.base.Valid() && b.base.Valid() && b.count != 0
    ensures r.base == CommonBase(a.base, b.base)
    ensures RAbs(Value(r)) < RAbs(Value(b))
    ensures Value(r) != 0.0 ==> (Value(r) < 0.0 <==> Value(a) < 0.0)
  {
    var c := CommonBase(a.base, b.base);
    var (x, y) := (Convert(a, c), Convert(b, c));
    DivisorStaysNonZero(b, c);
    RemainderBounds(x, y);
    Quantity(TruncMod(x.count, y.count), c)
  }

  /** A truncated remainder is smaller than the divisor and has the dividend's sign. */
  lemma RemainderBounds(x: Quantity, y: Quantity)
    requires x.base.Valid() && x.base == y.base && y.count != 0
    ensures var r := Quantity(TruncMod(x.count, y.count), x.base);
      RAbs(Value(r)) < RAbs(Value(y)) && (Value(r) != 0.0 ==> (Value(r) < 0.0 <==> Value(x) < 0.0))
  {
    var c := x.base;
    var r := Quantity(TruncMod(x.count, y.count), c);
    SameBaseOrder(r, Zero(c));
    SameBaseOrder(x, Zero(c));
    SameBaseOrder(y, Zero(c));
    SameBaseOrder(Negate(r), Negate(y));
    SameBaseOrder(r, Negate(y));
    SameBaseOrder(r, y);
    SameBaseOrder(Negate(r), y);
  }

  //----------------------------------------------------------------------------
  // Comparison
  //----------------------------------------------------------------------------

  datatype Ordering = Less | Equivalent | Greater

  /** `operator==`: the counts in the common base are equal. */
  predicate Equal(a: Quantity, b: Quantity)
    requires a.base.Valid() && b.base.Valid()
  {
    var c := CommonBase(a.base, b.base);
    Convert(a, c).count == Convert(b, c).count
  }

  /** `operator<=>`: the counts in the common base, compared. */
  function Compare(a: Quantity, b: Quantity): (r: Ordering)
    requires a.base.Valid() && b.base.Valid()
    ensures r == Less <==> Value(a) < Value(b)
    ensures r == Equivalent <==> Value(a) == Value(b)
    ensures r == Greater <==> Value(a) > Value(b)
  {
    var c := CommonBase(a.base, b.base);
    var (x, y) := (Convert(a, c), Convert(b, c));
    SameBaseOrder(x, y);
    SameBaseOrder(y, x);
    if x.count < y.count then Less
    else if x.count == y.count then Equivalent
    else Greater
  }

  /** Equality is equality of the amounts, and agrees with `<=>`. */
  lemma EqualIffSameAmount(a: Quantity, b: Quantity)
    requires a.base.Valid() && b.base.Valid()
    ensures Equal(a, b) <==> Value(a) == Value(b)
    ensures Equal(a, b) <==> Compare(a, b) == Equivalent
  {
    var c := CommonBase(a.base, b.base);
    SameBaseOrder(Convert(a, c), Convert(b, c));
  }

  /** `bytes{1} == bits{8}`. */
  lemma OneByteIsEightBits()
    ensures Equal(Quantity(1, Bytes), Quantity(8, Bits))
    ensures Compare(Quantity(1, Bytes), Quantity(7, Bits)) == Greater
  {
    EqualIffSameAmount(Quantity(1, Bytes), Quantity(8, Bits));
    assert Value(Quantity(8, Bits)) == 8.0 * (1.0 / 8.0);
  }

  //----------------------------------------------------------------------------
  // Utilities
  //----------------------------------------------------------------------------

  /**
   `difference(lhs, rhs)`: both converted to the common base, the smaller
   subtracted from the larger.
   */
  function Difference(a: Quantity, b: Quantity): (r: Quantity)
    requires a.base.Valid() && b.base.Valid()
    ensures r.base == CommonBase(a.base, b.base)
    ensures Value(r) == RAbs(Value(a) - Value(b))
    ensures r.count >= 0
  {
    var c := CommonBase(a.base, b.base);
    var (l, r) := (Convert(a, c), Convert(b, c));
    CommonBaseSelf(c);
    var d := if Compare(l, r) == Less then Sub(r, l) else Sub(l, r);
    SameBaseOrder(d, Zero(c));
    d
  }

  /** `difference` does not depend on the order of its operands. */
  lemma DifferenceSymmetric(a: Quantity, b: Quantity)
    requires a.base.Valid() && b.base.Valid()
    ensures Difference(a, b) == Difference(b, a)
  {
    CommonBaseSymmetric(a.base, b.base);
    var c := CommonBase(a.base, b.base);
    var (l, r) := (Convert(a, c), Convert(b, c));
    SameBaseOrder(Difference(a, b), Difference(b, a));
  }

  /**
   `floor<To>(c)`: the cast, moved down one unit when the cast rounded up.
   The result is the largest whole number of `To` units not above `c`.
   */
  function Floor(q: Quantity, to: Ratio): (r: Quantity)
    requires q.base.Valid() && to.Valid()
    ensures r.base == to
    ensures Value(r) <= Value(q) < Value(r) + Unit(to)
  {
    var t := Cast(q, to);
    CommonBaseSelf(to);
    if Compare(t, q) == Greater then Sub(t, One(to)) else t
  }

  /**
   `ceil<To>(c)`: the cast, moved up one unit when the cast rounded down.
   The result is the smallest whole number of `To` units not below `c`.
   */
  function Ceil(q: Quantity, to: Ratio): (r: Quantity)
    requires q.base.Valid() && to.Valid()
    ensures r.base == to
    ensures Value(r) - Unit(to) < Value(q) <= Value(r)
  {
    var t := Cast(q, to);
    CommonBaseSelf(to);
    if Compare(t, q) == Less then Add(t, One(to)) else t
  }

  /** `floor` and `ceil` bracket the amount and are at most one unit apart. */
  lemma FloorCeilBracket(q: Quantity, to: Ratio)
    requires q.base.Valid() && to.Valid()
    ensures Value(Floor(q, to)) <= Value(q) <= Value(Ceil(q, to))
    ensures Ceil(q, to).count - Floor(q, to).count in {0, 1}
    ensures Ceil(q, to) == Floor(q, to) <==> Value(q) == Value(Floor(q, to))
  {
    var f, c := Floor(q, to), Ceil(q, to);
    SameBaseOrder(f, c);
    SameBaseOrder(Increment(f), c);
    SameBaseOrder(c, Increment(f));
    SameBaseOrder(Decrement(c), f);
    SameBaseOrder(f, Decrement(c));
  }

  /**
   `round<To>(c)`: the nearer of `lower = floor<To>(c)` and
   `upper = lower + 1`; when `c` is exactly halfway, `upper` if it is
   positive and `lower` otherwise.
   */
  function Round(q: Quantity, to: Ratio): (r: Quantity)
    requires q.base.Valid() && to.Valid()
    ensures r.base == to
    ensures var lower := Floor(q, to);
      var below := Value(q) - Value(lower);
      var above := Value(lower) + Unit(to) - Value(q);
      (below < above ==> r == lower)
      && (below > above ==> r == Increment(lower))
      && (below == above ==> r == if lower.count + 1 > 0 then Increment(lower) else lower)
    ensures 2.0 * RAbs(Value(r) - Value(q)) <= Unit(to)
  {
    var lower := Floor(q, to);
    CommonBaseSelf(to);
    var upper := Add(lower, One(to));
    assert upper == Increment(lower);
    var lowerDiff := Difference(q, lower);
    var upperDiff := Difference(upper, q);
    EqualIffSameAmount(lowerDiff, upperDiff);
    SameBaseOrder(Zero(to), upper);
    if Equal(lowerDiff, upperDiff) then
      if Compare(upper, Zero(to)) == Greater then upper else lower
    else if Compare(lowerDiff, upperDiff) == Less then lower
    else upper
  }

  /** `abs(c)`: `c` when it is at least zero, `-c` otherwise. */
  function AbsQ(q: Quantity): (r: Quantity)
    requires q.base.Valid()
    ensures r.base == q.base && Value(r) == RAbs(Value(q))
  {
    if Compare(q, Zero(q.base)) != Less then q else Negate(q)
  }

  /** `abs(c)` is the difference from zero. */
  lemma AbsIsDifferenceFromZero(q: Quantity)
    requires q.base.Valid()
    ensures Difference(q, Zero(q.base)) == AbsQ(q)
  {
    CommonBaseSelf(q.base);
    SameBaseOrder(Difference(q, Zero(q.base)), AbsQ(q));
  }

  //----------------------------------------------------------------------------
  // Byte pointers
  //----------------------------------------------------------------------------

  /**
   `p + offset` on a `std::byte*`: the pointer moved by `bytes{offset}`, which
   compiles only when the offset is a whole number of bytes. Addresses are
   unbounded integers.
   */
  function BytePointerAdd(p: int, offset: Quantity): (r: int)
    requires offset.base.Valid() && Lossless(offset.base, Bytes)
    ensures r as real == p as real + Value(offset)
  {
    var b := Convert(offset, Bytes);
    assert Value(b) == b.count as real;
    p + b.count
  }

  /** `p - offset` on a `std::byte*`. */
  function BytePointerSub(p: int, offset: Quantity): (r: int)
    requires offset.base.Valid() && Lossless(offset.base, Bytes)
    ensures r as real == p as real - Value(offset)
  {
    var b := Convert(offset, Bytes);
    assert Value(b) == b.count as real;
    p - b.count
  }

  /** Moving a byte pointer forward and back by the same offset restores it. */
  lemma BytePointerRoundTrip(p: int, offset: Quantity)
    requires offset.base.Valid() && Lossless(offset.base, Bytes)
    ensures BytePointerSub(BytePointerAdd(p, offset), offset) == p
  {
  }
}
