/**
 Bitwise arithmetic on unbounded naturals.

 The library computes alignments, masks and tags with `&`, `|` and `~` on
 `uintptr_t` words. Here a word is a `nat` and the three operations the
 library uses (`x & y`, `x | y`, `x & ~y`) are one recursive definition,
 taken bit by bit from the least significant end. The lemmas connect the
 masks the library builds (`(1 << k) - 1`, `~((1 << k) - 1)`) to `%` and
 division by powers of two, which is what every caller actually relies on.
 */
module BitOps {

  /** 2 to the power k. */
  function Pow2(k: nat): (r: nat)
    ensures r >= 1
    ensures k > 0 ==> r % 2 == 0
  {
    if k == 0 then 1 else 2 * Pow2(k - 1)
  }

  /** The three bitwise forms the library writes: `x & y`, `x | y`, `x & ~y`. */
  datatype Op = AndOp | OrOp | AndNotOp

  /** One bit of `Op`, for bits `a` and `b` (each 0 or 1). */
  function Bit(op: Op, a: nat, b: nat): (r: nat)
    requires a < 2 && b < 2
    ensures r < 2
  {
    match op
    case AndOp => if a == 1 && b == 1 then 1 else 0
    case OrOp => if a == 1 || b == 1 then 1 else 0
    case AndNotOp => if a == 1 && b == 0 then 1 else 0
  }

  /** `op` applied to every bit position of `x` and `y`. */
  function Bitwise(op: Op, x: nat, y: nat): nat
    decreases x + y
  {
    if x == 0 && y == 0 then 0
    else 2 * Bitwise(op, x / 2, y / 2) + Bit(op, x % 2, y % 2)
  }

  /** `x & y` */
  function And(x: nat, y: nat): nat { Bitwise(AndOp, x, y) }

  /** `x | y` */
  function Or(x: nat, y: nat): nat { Bitwise(OrOp, x, y) }

  /** `x & ~y`: the bits of `x` that `y` does not have. */
  function AndNot(x: nat, y: nat): nat { Bitwise(AndNotOp, x, y) }

  /** The number of one bits (`std::popcount`). */
  function PopCount(x: nat): nat
  {
    if x == 0 then 0 else x % 2 + PopCount(x / 2)
  }

  /** Powers of two, defined by halving. */
  predicate IsPowerOfTwo(n: nat)
  {
    n == 1 || (n >= 2 && n % 2 == 0 && IsPowerOfTwo(n / 2))
  }

  /** The exponent of a power of two. */
  function Log2(n: nat): (k: nat)
    requires IsPowerOfTwo(n)
    ensures Pow2(k) == n
  {
    if n == 1 then 0 else 1 + Log2(n / 2)
  }

  /**
   The number of trailing zero bits of a non-zero word (`std::countr_zero`):
   the largest k such that 2^k divides x.
   */
  function CountrZero(x: nat): (k: nat)
    requires x > 0
    ensures x % Pow2(k) == 0
    ensures (x / Pow2(k)) % 2 == 1
  {
    if x % 2 == 1 then 0
    else
      var k' := CountrZero(x / 2);
      DivModPow2Step(x, k');
      1 + k'
  }

  // ---------------------------------------------------------------------------
  // Arithmetic helpers
  // ---------------------------------------------------------------------------

  /** Division and remainder by 2^(k+1) in terms of halving first. */
  lemma DivModPow2Step(x: nat, k: nat)
    ensures x / Pow2(k + 1) == (x / 2) / Pow2(k)
    ensures x % Pow2(k + 1) == 2 * ((x / 2) % Pow2(k)) + x % 2
  {
    var p := Pow2(k);
    var q := (x / 2) / p;
    var r := (x / 2) % p;
    assert x / 2 == q * p + r;
    assert x == 2 * (x / 2) + x % 2;
    assert x == q * (2 * p) + (2 * r + x % 2);
    assert 0 <= 2 * r + x % 2 < 2 * p;
    DivModUnique(x, 2 * p, q, 2 * r + x % 2);
  }

  /** Quotient and remainder are determined by x == q * d + r with 0 <= r < d. */
  lemma DivModUnique(x: nat, d: nat, q: nat, r: nat)
    requires d > 0 && r < d && x == q * d + r
    ensures x / d == q && x % d == r
  {
    var q', r' := x / d, x % d;
    if q' > q {
      MulMono(q + 1, q', d);
    } else if q' < q {
      MulMono(q' + 1, q, d);
    }
  }

  lemma MulMono(a: nat, b: nat, d: nat)
    requires a <= b
    ensures a * d <= b * d
  {
  }

  /** Halving a number whose low part sits below an even power. */
  lemma HalveSplit(h: nat, p: nat, l: nat)
    ensures (h * (2 * p) + l) / 2 == h * p + l / 2
    ensures (h * (2 * p) + l) % 2 == l % 2
  {
    assert h * (2 * p) == 2 * (h * p);
  }

  /** Adding less than `d` to a multiple of `d` leaves exactly that remainder. */
  lemma AlignedPlus(x: nat, d: nat, t: nat)
    requires d > 0 && t < d
    ensures x % d == 0 ==> (x + t) % d == t
  {
    if x % d == 0 {
      assert x == (x / d) * d;
      DivModUnique(x + t, d, x / d, t);
    }
  }

  /** Rounding down to a multiple of `d` lands within `d` of the input. */
  lemma RoundDown(x: nat, d: nat)
    requires d > 0
    ensures (x - x % d) % d == 0
    ensures x - x % d <= x < x - x % d + d
  {
    assert x - x % d == (x / d) * d;
    DivModUnique((x / d) * d, d, x / d, 0);
  }

  /** Multiples of a positive `size` keep the order of their factors. */
  lemma StrictlyBelow(i: nat, j: nat, size: nat)
    requires size > 0 && i < j
    ensures i * size + size <= j * size
  {
    MulMono(i + 1, j, size);
    assert (i + 1) * size == i * size + size;
  }

  lemma StepBelow(i: nat, n: nat, size: nat)
    requires size > 0 && i <= n
    ensures i < n <==> i * size < n * size
  {
    if i < n {
      StrictlyBelow(i, n, size);
    }
  }

  lemma Injective(i: nat, j: nat, size: nat)
    requires size > 0
    ensures i * size == j * size <==> i == j
  {
    if i < j {
      StrictlyBelow(i, j, size);
    } else if j < i {
      StrictlyBelow(j, i, size);
    }
  }

  /** Two distinct multiples of `d` are at least `d` apart. */
  lemma MultiplesApart(x: nat, y: nat, d: nat)
    requires d > 0 && x % d == 0 && y % d == 0 && x < y
    ensures x + d <= y
  {
    var qx, qy := x / d, y / d;
    assert x == qx * d && y == qy * d;
    if qy <= qx {
      MulMono(qy, qx, d);
    } else {
      MulMono(qx + 1, qy, d);
      assert (qx + 1) * d == qx * d + d;
    }
  }

  // ---------------------------------------------------------------------------
  // Bitwise lemmas
  // ---------------------------------------------------------------------------

  /** One step of the bit-by-bit definition, including the all-zero case. */
  lemma Step(op: Op, x: nat, y: nat)
    ensures Bitwise(op, x, y) == 2 * Bitwise(op, x / 2, y / 2) + Bit(op, x % 2, y % 2)
  {
  }

  /** Halving `h * 2^k + l` halves the low part and lowers the power by one. */
  lemma HalvePow2(k: nat, h: nat, l: nat)
    requires k > 0
    ensures (h * Pow2(k) + l) / 2 == h * Pow2(k - 1) + l / 2
    ensures (h * Pow2(k) + l) % 2 == l % 2
  {
    assert Pow2(k) == 2 * Pow2(k - 1);
    HalveSplit(h, Pow2(k - 1), l);
  }

  lemma NatProduct(a: nat, b: nat)
    ensures a * b >= 0
  {
  }

  lemma Combine(a: nat, b: nat, c: nat, p: nat, whole: nat, low: nat)
    requires whole == 2 * (a * p + b) + c && low == 2 * b + c
    ensures whole == a * (2 * p) + low
  {
    assert a * (2 * p) == 2 * (a * p);
  }

  /** Bitwise operations act independently on the bits above and below 2^k. */
  lemma {:induction false} BitwiseSplit(op: Op, k: nat, xh: nat, xl: nat, yh: nat, yl: nat)
    requires xl < Pow2(k) && yl < Pow2(k)
    ensures Bitwise(op, xh * Pow2(k) + xl, yh * Pow2(k) + yl)
         == Bitwise(op, xh, yh) * Pow2(k) + Bitwise(op, xl, yl)
  {
    if k == 0 {
      assert xl == 0 && yl == 0;
    } else {
      assert Pow2(k) == 2 * Pow2(k - 1);
      assert xl / 2 < Pow2(k - 1) && yl / 2 < Pow2(k - 1);
      BitwiseSplit(op, k - 1, xh, xl / 2, yh, yl / 2);
      SplitStep(op, k, xh, xl, yh, yl);
    }
  }

  /** The step of `BitwiseSplit`: from the split one bit higher up to this one. */
  lemma SplitStep(op: Op, k: nat, xh: nat, xl: nat, yh: nat, yl: nat)
    requires k > 0 && xl < Pow2(k) && yl < Pow2(k)
    requires Bitwise(op, xh * Pow2(k - 1) + xl / 2, yh * Pow2(k - 1) + yl / 2)
         == Bitwise(op, xh, yh) * Pow2(k - 1) + Bitwise(op, xl / 2, yl / 2)
    ensures Bitwise(op, xh * Pow2(k) + xl, yh * Pow2(k) + yl)
         == Bitwise(op, xh, yh) * Pow2(k) + Bitwise(op, xl, yl)
  {
    NatProduct(xh, Pow2(k));
    NatProduct(yh, Pow2(k));
    var p := Pow2(k - 1);
    var x: nat := xh * Pow2(k) + xl;
    var y: nat := yh * Pow2(k) + yl;
    var a, b, c := Bitwise(op, xh, yh), Bitwise(op, xl / 2, yl / 2), Bit(op, xl % 2, yl % 2);
    NatProduct(a, p);
    assert Bitwise(op, x / 2, y / 2) == a * p + b && Bit(op, x % 2, y % 2) == c by {
      HalvePow2(k, xh, xl);
      HalvePow2(k, yh, yl);
    }
    assert Bitwise(op, x, y) == 2 * (a * p + b) + c by {
      Step(op, x, y);
    }
    assert Bitwise(op, xl, yl) == 2 * b + c by {
      Step(op, xl, yl);
    }
    Combine(a, b, c, p, Bitwise(op, x, y), Bitwise(op, xl, yl));
    assert Pow2(k) == 2 * p;
  }

  /** `x & 0 == 0`, `x | 0 == x`, `x & ~0 == x`. */
  lemma {:induction false} BitwiseZeroRight(op: Op, x: nat)
    ensures Bitwise(op, x, 0) == (if op == AndOp then 0 else x)
    decreases x
  {
    if x > 0 {
      BitwiseZeroRight(op, x / 2);
    }
  }

  /** `0 & y == 0`, `0 | y == y`, `0 & ~y == 0`. */
  lemma {:induction false} BitwiseZeroLeft(op: Op, y: nat)
    ensures Bitwise(op, 0, y) == (if op == OrOp then y else 0)
    decreases y
  {
    if y > 0 {
      BitwiseZeroLeft(op, y / 2);
    }
  }

  /** Below 2^k, `a & (2^k - 1) == a` and `a & ~(2^k - 1) == 0`. */
  lemma {:induction false} LowMaskBelow(k: nat, a: nat)
    requires a < Pow2(k)
    ensures And(a, Pow2(k) - 1) == a
    ensures AndNot(a, Pow2(k) - 1) == 0
  {
    if k > 0 {
      var m := Pow2(k) - 1;
      assert m / 2 == Pow2(k - 1) - 1 && m % 2 == 1;
      LowMaskBelow(k - 1, a / 2);
    }
  }

  /** Or of two numbers below 2^k stays below 2^k. */
  lemma {:induction false} OrBelow(k: nat, a: nat, b: nat)
    requires a < Pow2(k) && b < Pow2(k)
    ensures Or(a, b) < Pow2(k)
  {
    if k > 0 && !(a == 0 && b == 0) {
      OrBelow(k - 1, a / 2, b / 2);
    }
  }

  lemma MaskParts(k: nat, xh: nat, xl: nat)
    requires xl < Pow2(k)
    ensures And(xh * Pow2(k) + xl, Pow2(k) - 1) == xl
    ensures AndNot(xh * Pow2(k) + xl, Pow2(k) - 1) == xh * Pow2(k)
  {
    assert 0 * Pow2(k) + (Pow2(k) - 1) == Pow2(k) - 1;
    BitwiseSplit(AndOp, k, xh, xl, 0, Pow2(k) - 1);
    BitwiseSplit(AndNotOp, k, xh, xl, 0, Pow2(k) - 1);
    BitwiseZeroRight(AndOp, xh);
    BitwiseZeroRight(AndNotOp, xh);
    LowMaskBelow(k, xl);
  }

  /** The low-bit mask `(1 << k) - 1` extracts the remainder modulo 2^k. */
  lemma LowMask(x: nat, k: nat)
    ensures And(x, Pow2(k) - 1) == x % Pow2(k)
    ensures AndNot(x, Pow2(k) - 1) == x - x % Pow2(k)
  {
    var p := Pow2(k);
    DivModParts(x, p);
    LowMaskSplit(k, p, x, x / p, x % p);
  }

  lemma LowMaskSplit(k: nat, p: nat, x: nat, h: nat, l: nat)
    requires p == Pow2(k) && l < p && x == h * p + l
    ensures And(x, p - 1) == l && AndNot(x, p - 1) == x - l
  {
    MaskParts(k, h, l);
  }

  lemma DivModParts(x: nat, p: nat)
    requires p > 0
    ensures x == (x / p) * p + x % p && 0 <= x % p < p && x / p >= 0
  {
  }

  lemma OrParts(k: nat, h: nat, lo: nat, t: nat)
    requires lo < Pow2(k) && t < Pow2(k)
    ensures Or(h * Pow2(k) + lo, t) == h * Pow2(k) + Or(lo, t)
  {
    assert 0 * Pow2(k) + t == t;
    BitwiseSplit(OrOp, k, h, lo, 0, t);
    BitwiseZeroRight(OrOp, h);
  }

  /** Or-ing a value below 2^k into a multiple of 2^k is addition. */
  lemma OrDisjoint(k: nat, hi: nat, lo: nat)
    requires hi % Pow2(k) == 0 && lo < Pow2(k)
    ensures Or(hi, lo) == hi + lo
  {
    assert hi == (hi / Pow2(k)) * Pow2(k);
    OrParts(k, hi / Pow2(k), 0, lo);
    BitwiseZeroLeft(OrOp, lo);
  }

  /** Or-ing a value below 2^k into `hi + lo` only touches the low part. */
  lemma OrLow(k: nat, hi: nat, lo: nat, t: nat)
    requires hi % Pow2(k) == 0 && lo < Pow2(k) && t < Pow2(k)
    ensures Or(hi + lo, t) == hi + Or(lo, t)
    ensures Or(lo, t) < Pow2(k)
  {
    assert hi == (hi / Pow2(k)) * Pow2(k);
    OrParts(k, hi / Pow2(k), lo, t);
    OrBelow(k, lo, t);
  }

  /** `|` is commutative. */
  lemma {:induction false} OrComm(a: nat, b: nat)
    ensures Or(a, b) == Or(b, a)
    decreases a + b
  {
    if !(a == 0 && b == 0) {
      OrComm(a / 2, b / 2);
    }
  }

  /** Or only ever adds bits: `(a | b) & b == b`, stated on the low part. */
  lemma {:induction false} OrKeepsBits(a: nat, b: nat)
    ensures And(Or(a, b), b) == b
    ensures And(Or(a, b), a) == a
    decreases a + b
  {
    if !(a == 0 && b == 0) {
      OrKeepsBits(a / 2, b / 2);
      var o := Or(a, b);
      assert o / 2 == Or(a / 2, b / 2) && o % 2 == Bit(OrOp, a % 2, b % 2);
      assert And(o, b) == 2 * And(o / 2, b / 2) + Bit(AndOp, o % 2, b % 2);
      assert And(o, a) == 2 * And(o / 2, a / 2) + Bit(AndOp, o % 2, a % 2);
    }
  }

  // ---------------------------------------------------------------------------
  // Powers of two
  // ---------------------------------------------------------------------------

  lemma {:induction false} Pow2IsPowerOfTwo(k: nat)
    ensures IsPowerOfTwo(Pow2(k))
  {
    if k > 0 {
      Pow2IsPowerOfTwo(k - 1);
      assert Pow2(k) / 2 == Pow2(k - 1);
    }
  }

  /** Exactly one bit set (`std::has_single_bit`) is the same as a power of two. */
  lemma {:induction false} SingleBitIffPowerOfTwo(n: nat)
    ensures PopCount(n) == 1 <==> IsPowerOfTwo(n)
    decreases n
  {
    if n >= 2 {
      SingleBitIffPowerOfTwo(n / 2);
      if n % 2 == 1 {
        PopCountPositive(n / 2);
      }
    }
  }

  lemma {:induction false} PopCountPositive(n: nat)
    requires n > 0
    ensures PopCount(n) >= 1
    decreases n
  {
    if n % 2 == 0 {
      PopCountPositive(n / 2);
    }
  }

  /**
   The classic test `n != 0 && (n & (n - 1)) == 0` characterises powers of
   two.
   */
  lemma {:induction false} ClearLowestBitIffPowerOfTwo(n: nat)
    requires n > 0
    ensures And(n, n - 1) == 0 <==> IsPowerOfTwo(n)
    decreases n
  {
    if n == 1 {
      BitwiseZeroRight(AndOp, 1);
    } else if n % 2 == 0 {
      var m := n / 2;
      assert n - 1 == 2 * (m - 1) + 1;
      assert And(n, n - 1) == 2 * And(m, m - 1) + Bit(AndOp, 0, 1);
      ClearLowestBitIffPowerOfTwo(m);
    } else {
      var m := n / 2;
      assert n - 1 == 2 * m;
      assert And(n, n - 1) == 2 * And(m, m) + Bit(AndOp, 1, 0);
      AndSelf(m);
    }
  }

  lemma {:induction false} AndSelf(x: nat)
    ensures And(x, x) == x
    decreases x
  {
    if x > 0 {
      AndSelf(x / 2);
    }
  }

  /** For n >= 1, `n & (n - 1)` is strictly below n, so it never equals n. */
  lemma {:induction false} ClearLowestBitBelow(n: nat)
    requires n > 0
    ensures And(n, n - 1) < n
  {
    AndBelowLeft(n, n - 1);
    AndBelowRight(n, n - 1);
  }

  lemma {:induction false} AndBelowLeft(x: nat, y: nat)
    ensures And(x, y) <= x
    decreases x + y
  {
    if !(x == 0 && y == 0) {
      AndBelowLeft(x / 2, y / 2);
    }
  }

  lemma {:induction false} AndBelowRight(x: nat, y: nat)
    ensures And(x, y) <= y
    decreases x + y
  {
    if !(x == 0 && y == 0) {
      AndBelowRight(x / 2, y / 2);
    }
  }

  /** 2^a divides 2^b when a <= b. */
  lemma {:induction false} Pow2Divides(a: nat, b: nat)
    requires a <= b
    ensures Pow2(b) % Pow2(a) == 0
    ensures Pow2(b) == Pow2(a) * Pow2(b - a)
    decreases b
  {
    if a < b {
      Pow2Divides(a, b - 1);
      assert Pow2(b) == 2 * Pow2(b - 1) == Pow2(a) * (2 * Pow2(b - 1 - a));
      DivModUnique(Pow2(b), Pow2(a), 2 * Pow2(b - 1 - a), 0);
    } else {
      DivModUnique(Pow2(b), Pow2(a), 1, 0);
    }
  }
}
