/**
 * Integer division as C# defines it on `int`: the quotient is truncated toward
 * zero and the remainder takes the sign of the dividend. Dafny's own `/` and `%`
 * are Euclidean, so the grid arithmetic of the manager is written with these.
 */
module CSharpInt {

  function Abs(x: int): nat { if x < 0 then -x else x }

  /** C# `a / b`: the quotient truncated toward zero. */
  function Quot(a: int, b: int): int
    requires b != 0
  {
    var q := Abs(a) / Abs(b);
    if (a < 0) == (b < 0) then q else -q
  }

  /** C# `a % b`: what is left after `Quot`, with the sign of `a`. */
  function Rem(a: int, b: int): int
    requires b != 0
  {
    a - b * Quot(a, b)
  }

  /** On a non-negative dividend and a positive divisor C# and Dafny agree. */
  lemma NonNegativeAgrees(a: int, b: int)
    requires a >= 0 && b > 0
    ensures Quot(a, b) == a / b && Rem(a, b) == a % b
  {
  }

  /** A negative dividend: C# rounds the quotient up and the remainder is never positive. */
  lemma NegativeTruncates(a: int, b: int)
    requires a < 0 && b > 0
    ensures Quot(a, b) == -((-a) / b)
    ensures Rem(a, b) == -((-a) % b)
    ensures -b < Rem(a, b) <= 0
  {
    var q := (-a) / b;
    assert Quot(a, b) == -q;
    calc {
      Rem(a, b);
      a - b * (-q);
      a + b * q;
      -((-a) - b * q);
    }
  }

  /** For a positive divisor the remainder lies strictly between `-b` and `b`,
      and it is non-negative exactly when the dividend is (or it is zero). */
  lemma RemBounds(a: int, b: int)
    requires b > 0
    ensures -b < Rem(a, b) < b
    ensures a >= 0 ==> 0 <= Rem(a, b)
  {
    if a >= 0 {
      NonNegativeAgrees(a, b);
    } else {
      NegativeTruncates(a, b);
    }
  }

  /** A dividend in `[-b, 0)` truncates to `-1` only at `-b` and to `0` otherwise:
      this is why the manager's `RowOf(index - Columns)` for a first-row index is
      not the row above. */
  lemma QuotJustBelowZero(a: int, b: int)
    requires b > 0 && -b <= a < 0
    ensures Quot(a, b) == if a == -b then -1 else 0
  {
    NegativeTruncates(a, b);
    if a == -b {
      assert (-a) / b == 1;
    } else {
      assert 0 < -a < b;
      assert (-a) / b == 0;
    }
  }

  /** The Euclidean quotient and remainder are the unique pair with `c == r*C + k`
      and `0 <= k < C`. */
  lemma DivModOf(c: int, d: int, r: int, k: int)
    requires d > 0 && 0 <= k < d && c == r * d + k
    ensures c / d == r && c % d == k
  {
    var q, m := c / d, c % d;
    assert (r - q) * d == m - k;
    ScaledAwayFromZero(r - q, d);
  }

  lemma ScaledAwayFromZero(e: int, d: int)
    requires d > 0
    ensures e >= 1 ==> e * d >= d
    ensures e <= -1 ==> e * d <= -d
  {
  }
}
