/**
 * Java's fixed-width integer arithmetic on top of Dafny's unbounded integers:
 * two's-complement narrowing to `int` and `long`, and the truncating `/` and `%`
 * that Java uses (Dafny's own `/` and `%` are Euclidean).
 */
module JavaInts {

  const INT_MIN: int := -0x8000_0000
  const INT_MAX: int := 0x7fff_ffff
  const LONG_MIN: int := -0x8000_0000_0000_0000
  const LONG_MAX: int := 0x7fff_ffff_ffff_ffff

  /** A Java `int` value. */
  type Int32 = x: int | INT_MIN <= x <= INT_MAX

  /** A Java `long` value. */
  type Long = x: int | LONG_MIN <= x <= LONG_MAX

  /** The `int` that Java's `(int)` cast, or overflowing `int` arithmetic, yields for `x`. */
  function Wrap32(x: int): (r: Int32)
    ensures (r - x) % 0x1_0000_0000 == 0
    ensures INT_MIN <= x <= INT_MAX ==> r == x
  {
    (x - INT_MIN) % 0x1_0000_0000 + INT_MIN
  }

  /** The `long` that overflowing `long` arithmetic yields for the exact value `x`. */
  function Wrap64(x: int): (r: Long)
    ensures (r - x) % 0x1_0000_0000_0000_0000 == 0
    ensures LONG_MIN <= x <= LONG_MAX ==> r == x
  {
    (x - LONG_MIN) % 0x1_0000_0000_0000_0000 + LONG_MIN
  }

  /** Java's `a / b` for a positive divisor: the quotient rounded toward zero. */
  function Div(a: int, b: int): (q: int)
    requires b > 0
    ensures a >= 0 ==> 0 <= q <= a
    ensures a < 0 ==> a <= q <= 0
  {
    if a >= 0 then NatDivBound(a, b); a / b else NatDivBound(-a, b); -((-a) / b)
  }

  lemma NatDivBound(a: int, b: int)
    requires a >= 0 && b > 0
    ensures 0 <= a / b <= a
  {
    var q, r := a / b, a % b;
    assert a == b * q + r && 0 <= r < b;
    if q < 0 {
      MulMono(b, q, -1);
      assert false;
    }
    MulMono(q, 1, b);
  }

  /** Java's `a % b` for a positive divisor: the remainder takes the sign of `a`. */
  function Rem(a: int, b: int): (r: int)
    requires b > 0
    ensures a == b * Div(a, b) + r
    ensures a >= 0 ==> 0 <= r < b
    ensures a < 0 ==> -b < r <= 0
  {
    a - b * Div(a, b)
  }

  /** Division is determined by a quotient and a remainder in range. */
  lemma DivModUnique(a: int, b: int, q: int, r: int)
    requires b > 0 && 0 <= r < b && a == b * q + r
    ensures a / b == q && a % b == r
  {
    var q', r' := a / b, a % b;
    assert b * (q - q') == r' - r;
    if q > q' {
      assert b * (q - q') >= b by { MulAtLeast(b, q - q'); }
    } else if q < q' {
      assert b * (q' - q) >= b by { MulAtLeast(b, q' - q); }
    }
  }

  lemma MulAtLeast(b: int, k: int)
    requires b > 0 && k >= 1
    ensures b * k >= b
  {
  }

  /** Dividing by `b` and then by `c` is dividing by `b * c`, for Euclidean division of a natural. */
  lemma NatDivDiv(a: int, b: int, c: int)
    requires a >= 0 && b > 0 && c > 0
    ensures a / b / c == a / (b * c)
  {
    var q, r := a / b, a % b;
    var q2, r2 := q / c, q % c;
    assert a == b * q + r;
    assert q == c * q2 + r2;
    assert a == (b * c) * q2 + (b * r2 + r) by {
      assert b * q == b * (c * q2) + b * r2;
      assert b * (c * q2) == (b * c) * q2;
    }
    assert 0 <= b * r2 + r < b * c by {
      assert b * r2 <= b * (c - 1) by { MulMono(b, r2, c - 1); }
      assert b * (c - 1) == b * c - b;
      assert 0 <= b * r2 by { MulMono(b, 0, r2); }
    }
    DivModUnique(a, b * c, q2, b * r2 + r);
  }

  lemma MulMono(b: int, x: int, y: int)
    requires b >= 0 && x <= y
    ensures b * x <= b * y
  {
    assert b * y - b * x == b * (y - x);
  }

  /** Java's truncating division composes like Euclidean division on naturals. */
  lemma {:induction false} DivDiv(a: int, b: int, c: int)
    requires b > 0 && c > 0
    ensures Div(Div(a, b), c) == Div(a, b * c)
  {
    if a >= 0 {
      NatDivDiv(a, b, c);
    } else {
      NatDivDiv(-a, b, c);
    }
  }

  /** Java's `%` is zero exactly when Dafny's is: both mean "divisible by". */
  lemma RemZeroIsDivisible(a: int, b: int)
    requires b > 0
    ensures Rem(a, b) == 0 <==> a % b == 0
  {
    if a < 0 {
      var q, r := (-a) / b, (-a) % b;
      assert -a == b * q + r && 0 <= r < b;
      assert Rem(a, b) == -r by {
        assert Div(a, b) == -q;
        assert b * (-q) == -(b * q);
      }
      if r == 0 {
        DivModUnique(a, b, -q, 0);
      } else {
        assert a == b * (-q - 1) + (b - r) by {
          assert b * (-q - 1) == -(b * q) - b;
        }
        DivModUnique(a, b, -q - 1, b - r);
      }
    }
  }
}
