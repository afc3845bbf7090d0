/**
 C++ integer division. The quotient of `/` is truncated toward zero and the
 remainder of `%` takes the sign of the dividend (section 7.6.5 of ISO/IEC
 14882:2020), unlike Dafny's Euclidean operators.
 */
module CppIntegers {

  function Abs(x: int): nat
  {
    if x < 0 then -x else x
  }

  /** `a / b` on C++ integers. */
  function TruncDiv(a: int, b: int): (q: int)
    requires b != 0
    ensures Abs(q) == Quotient(Abs(a), Abs(b))
    ensures q != 0 ==> (q < 0 <==> (a < 0) != (b < 0))
  {
    var m: int := Quotient(Abs(a), Abs(b));
    if (a < 0) == (b < 0) then m else -m
  }

  /** Division of magnitudes. */
  function Quotient(x: nat, y: nat): nat
    requires y > 0
  {
    x / y
  }

  /** `a % b` on C++ integers: whatever `a / b` leaves over. */
  function TruncMod(a: int, b: int): (r: int)
    requires b != 0
    ensures a == TruncDiv(a, b) * b + r
    ensures Abs(r) < Abs(b)
    ensures r != 0 ==> (r < 0 <==> a < 0)
  {
    DivisionIdentity(a, b);
    a - TruncDiv(a, b) * b
  }

  /** The truncated quotient and remainder recompose the dividend. */
  lemma DivisionIdentity(a: int, b: int)
    requires b != 0
    ensures var r := a - TruncDiv(a, b) * b;
      Abs(r) < Abs(b) && (r != 0 ==> (r < 0 <==> a < 0))
  {
    var m: int := Quotient(Abs(a), Abs(b));
    var d: int := Abs(b);
    assert Abs(a) == m * d + Abs(a) % d;
    var q := TruncDiv(a, b);
    if a >= 0 && b > 0 {
      assert q * b == m * d;
    } else if a >= 0 {
      assert q * b == (-m) * (-d) == m * d;
    } else if b > 0 {
      assert q * b == (-m) * d == -(m * d);
    } else {
      assert q * b == m * (-d) == -(m * d);
    }
  }

  /**
   Truncated division is the unique quotient whose remainder is smaller
   than the divisor and never has the opposite sign to the dividend.
   */
  lemma TruncDivUnique(a: int, b: int, q: int, r: int)
    requires b != 0
    requires a == q * b + r && Abs(r) < Abs(b)
    requires r != 0 ==> (r < 0 <==> a < 0)
    ensures q == TruncDiv(a, b) && r == TruncMod(a, b)
  {
    var q0, r0 := TruncDiv(a, b), TruncMod(a, b);
    assert (q - q0) * b == r0 - r;
    if q != q0 {
      assert Abs((q - q0) * b) >= Abs(b) by {
        AbsProduct(q - q0, b);
      }
      assert false;
    }
  }

  lemma AbsProduct(x: int, y: int)
    requires x != 0
    ensures Abs(x * y) >= Abs(y)
  {
    if x > 0 {
      if y >= 0 {
        assert x * y >= y;
      } else {
        assert x * y <= y;
      }
    } else {
      if y >= 0 {
        assert x * y <= -y;
      } else {
        assert x * y >= -y;
      }
    }
  }
}
