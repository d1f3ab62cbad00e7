/** `checked_multiply` and `overflowCheck` for every signed and unsigned integer type. */
module CheckedMultiply {

  /** An integer type, given by its limits. */
  datatype IntType = IntType(min: int, max: int) {
    predicate Signed() { min == -max - 1 && 1 <= max }
    predicate Unsigned() { min == 0 && 1 <= max }
    predicate Valid() { Signed() || Unsigned() }
    predicate Contains(x: int) { min <= x <= max }
  }

  const INT32 := IntType(-0x8000_0000, 0x7FFF_FFFF)

  /** C++ division: the quotient is truncated towards zero. It must fit the type. */
  function Quotient(t: IntType, a: int, b: int): (q: int)
    requires t.Valid() && t.Contains(a) && t.Contains(b) && b > 0
    ensures t.Contains(q)
  {
    QuotientFits(if a >= 0 then a else -a, b);
    if a >= 0 then a / b else -((-a) / b)
  }

  /** `std::abs`, undefined for the minimum. */
  function Abs(t: IntType, a: int): (r: int)
    requires t.Signed() && t.Contains(a) && a != t.min
    ensures t.Contains(r)
  {
    if a < 0 then -a else a
  }

  function Negate(t: IntType, a: int): (r: int)
    requires t.Signed() && t.Contains(a) && a != t.min
    ensures t.Contains(r)
  {
    -a
  }

  lemma {:induction false} ProductGrows(b: nat, m: nat)
    requires b > 0
    ensures b * m >= m
    decreases m
  {
    if m > 0 {
      ProductGrows(b, m - 1);
      assert b * m == b * (m - 1) + b;
    }
  }

  lemma QuotientFits(m: nat, b: nat)
    requires b > 0
    ensures 0 <= m / b <= m
  {
    DivisionDecides(m, b, m + 1);
    ProductGrows(b, m + 1);
  }

  predicate Overflows(t: IntType, a: int, b: int)
    requires t.Valid() && t.Contains(a) && t.Contains(b) && a != 0 && b != 0 && a != t.min && b != t.min
  {
    if t.Unsigned() then Quotient(t, t.max, a) < b
    else if (a > 0) == (b > 0) then Quotient(t, t.max, Abs(t, a)) < Abs(t, b)
    else Quotient(t, t.min, Abs(t, a)) > Negate(t, Abs(t, b))
  }

  /** Dividing the bound decides whether a product exceeds it. */
  lemma DivisionDecides(m: nat, x: nat, y: nat)
    requires x > 0
    ensures m / x < y <==> x * y > m
  {
    var q, r := m / x, m % x;
    assert m == x * q + r && r < x;
    if q < y {
      assert x * y >= x * (q + 1) == x * q + x;
    } else {
      assert x * y <= x * q;
    }
  }

  lemma OverflowExact(t: IntType, a: int, b: int)
    requires t.Valid() && t.Contains(a) && t.Contains(b) && a != 0 && b != 0 && a != t.min && b != t.min
    ensures Overflows(t, a, b) <==> !t.Contains(a * b)
  {
    var x, y := if a < 0 then -a else a, if b < 0 then -b else b;
    ProductSign(a, b, x, y);
    DivisionDecides(t.max, x, y);
    DivisionDecides(-t.min, x, y);
  }

  lemma ProductSign(a: int, b: int, x: nat, y: nat)
    requires x == (if a < 0 then -a else a) && y == (if b < 0 then -b else b) && a != 0 && b != 0
    ensures a * b == if (a > 0) == (b > 0) then x * y else -(x * y)
    ensures x * y >= 1
  {
    if a < 0 && b < 0 {
      assert (-a) * (-b) == a * b;
    } else if a < 0 {
      assert (-a) * b == -(a * b);
    } else if b < 0 {
      assert a * (-b) == -(a * b);
    }
  }

  /** The minimum times anything but 0 and 1 is out of range. */
  lemma MinimumOverflows(t: IntType, a: int, b: int)
    requires t.Signed() && t.Contains(b) && a == t.min && b != 0 && b != 1
    ensures !t.Contains(a * b)
  {
    if b < 0 {
      assert a * b == (-a) * (-b) >= -a;
    } else {
      assert a * b == a * 2 + a * (b - 2) && a * (b - 2) <= 0;
    }
  }

  /** Succeeds exactly when the product is representable; otherwise `a` is left alone. */
  method Multiply(t: IntType, a: int, b: int) returns (ok: bool, r: int)
    requires t.Valid() && t.Contains(a) && t.Contains(b)
    ensures ok <==> t.Contains(a * b)
    ensures r == if ok then a * b else a
  {
    if a == 0 || b == 0 || a == 1 || b == 1 {
      return true, a * b;
    }
    if a == t.min || b == t.min {
      if t.Signed() && a == t.min {
        MinimumOverflows(t, a, b);
      } else if t.Signed() {
        MinimumOverflows(t, b, a);
      }
      return false, a;
    }
    OverflowExact(t, a, b);
    if Overflows(t, a, b) {
      return false, a;
    }
    return true, a * b;
  }
}
