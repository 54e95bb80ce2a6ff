/**
 * The integer behaviour of JavaScript's `Math.floor(x / y)` and `x % y`, and
 * the `divide` helper of the what3chords app built from them.
 *
 * Dafny's `/` and `%` are Euclidean: the remainder is never negative. In
 * JavaScript `%` takes the sign of the dividend (the quotient is truncated
 * toward zero), while `Math.floor(x / y)` rounds toward minus infinity. Both
 * are written out here for every sign of `x` and `y`. For integers with
 * `|x|, |y| < 2^53` the double `Math.floor(x / y)` equals the floor quotient and
 * `x % y` is exact; the model itself puts no bound on the integers.
 */
module JsNumber {
  import opened Wrappers
  import opened Arith

  function Abs(n: int): (a: nat)
    ensures a == n || a == -n
  {
    if n < 0 then -n else n
  }

  /** `Math.floor(x / y)`: the largest integer not above the real quotient. */
  function FloorDiv(x: int, y: int): (a: int)
    requires y != 0
    ensures y > 0 ==> a * y <= x < a * y + y
    ensures y < 0 ==> a * y >= x > a * y + y
  {
    if y > 0 then
      Euclid(x, y);
      x / y
    else
      Euclid(-x, -y);
      var a := (-x) / (-y);
      assert a * (-y) == -(a * y);
      a
  }

  /** The quotient truncated toward zero: the quotient of the magnitudes, with the sign of the real quotient. */
  function TruncDiv(x: int, y: int): (t: int)
    requires y != 0
    ensures (x >= 0) == (y > 0) ==> t >= 0
    ensures (x >= 0) != (y > 0) ==> t <= 0
  {
    var n: int, d: int := Abs(x), Abs(y);
    Euclid(n, d);
    var q := n / d;
    assert q >= 0 by { if q < 0 { MulAtLeast(-q, d); } }
    if (x >= 0) == (y > 0) then q else -q
  }

  /** JavaScript `x % y`: the remainder of the magnitudes, with the sign of `x`. */
  function JsRem(x: int, y: int): (b: int)
    requires y != 0
    ensures Abs(b) < Abs(y)
    ensures x >= 0 ==> b >= 0
    ensures x <= 0 ==> b <= 0
  {
    var n: int, d: int := Abs(x), Abs(y);
    Euclid(n, d);
    var m := n % d;
    if x >= 0 then m else -m
  }

  /** The truncated quotient times `y` stays within `y` of `x`, toward zero. */
  lemma TruncDivBounds(x: int, y: int)
    requires y != 0
    ensures Abs(TruncDiv(x, y)) * Abs(y) <= Abs(x) < Abs(TruncDiv(x, y)) * Abs(y) + Abs(y)
  {
    var n: int, d: int := Abs(x), Abs(y);
    Euclid(n, d);
    var q := n / d;
    assert q >= 0 by { if q < 0 { MulAtLeast(-q, d); } }
    assert Abs(TruncDiv(x, y)) == q;
  }

  /** JavaScript's remainder is what the truncated quotient leaves: `TruncDiv(x, y) * y + x % y == x`. */
  lemma TruncatedIdentity(x: int, y: int)
    requires y != 0
    ensures TruncDiv(x, y) * y + JsRem(x, y) == x
  {
    var n: int, d: int := Abs(x), Abs(y);
    Euclid(n, d);
    var q, m := n / d, n % d;
    var t := TruncDiv(x, y);
    if x >= 0 {
      assert t * y == q * d by {
        if y < 0 { assert t == -q && d == -y; } else { assert t == q && d == y; }
      }
    } else {
      assert t * y == -(q * d) by {
        if y < 0 { assert t == q && d == -y; } else { assert t == -q && d == y; }
      }
    }
  }

  /**
   * `divide(x, y)` returns the pair `[Math.floor(x / y), x % y]`. A zero
   * divisor makes JavaScript produce non-finite numbers; that case is `None`.
   */
  function Divide(x: int, y: int): (d: Option<(int, int)>)
    ensures d.None? <==> y == 0
    ensures d.Some? ==> d.value.0 == FloorDiv(x, y) && d.value.1 == JsRem(x, y)
  {
    if y == 0 then None else Some((FloorDiv(x, y), JsRem(x, y)))
  }

  /**
   * The floor and the truncated quotient agree when the division is exact or
   * the real quotient is not negative; otherwise the floor is one less.
   */
  lemma FloorVersusTrunc(x: int, y: int)
    requires y != 0
    ensures FloorDiv(x, y) ==
      if JsRem(x, y) == 0 || (x >= 0) == (y > 0) then TruncDiv(x, y) else TruncDiv(x, y) - 1
  {
    var t, b := TruncDiv(x, y), JsRem(x, y);
    TruncatedIdentity(x, y);
    var exact := b == 0 || (x >= 0) == (y > 0);
    var c := if exact then t else t - 1;
    if y > 0 {
      FloorCandidate(x, y, t, b, c, exact);
      FloorIs(x, y, c);
    } else {
      assert t * (-y) == -(t * y);
      FloorCandidate(-x, -y, t, -b, c, exact);
      FloorIs(x, y, c);
    }
  }

  /** Any integer with the floor's defining bounds is the floor (for `y < 0` read on `-x` and `-y`). */
  lemma FloorIs(x: int, y: int, c: int)
    requires y != 0
    requires y > 0 ==> c * y <= x < c * y + y
    requires y < 0 ==> c * (-y) <= -x < c * (-y) + (-y)
    ensures FloorDiv(x, y) == c
  {
    if y > 0 {
      Euclid(x, y);
      QuotientUnique(x, y, x / y, c);
    } else {
      Euclid(-x, -y);
      QuotientUnique(-x, -y, (-x) / (-y), c);
    }
  }

  /** The arithmetic step of `FloorVersusTrunc`, for a positive divisor `d`. */
  lemma FloorCandidate(n: int, d: int, t: int, b: int, c: int, exact: bool)
    requires d > 0 && t * d + b == n && -d < b < d
    requires n >= 0 ==> b >= 0
    requires n <= 0 ==> b <= 0
    requires exact == (b == 0 || n >= 0)
    requires c == if exact then t else t - 1
    ensures c * d <= n < c * d + d
  {
    if !exact {
      assert c * d == t * d - d;
    }
  }

  /**
   * For a non-negative dividend and a positive divisor `divide` is ordinary
   * Euclidean division: `a * y + b == x` and `0 <= b < y`.
   */
  lemma DivideNonNegative(x: int, y: int)
    requires x >= 0 && y > 0
    ensures Divide(x, y).Some?
    ensures var (a, b) := Divide(x, y).value; a * y + b == x && 0 <= b < y
  {
    FloorVersusTrunc(x, y);
    TruncatedIdentity(x, y);
  }

  /**
   * The two halves of `divide` recombine to the dividend exactly when the
   * division is exact or dividend and divisor do not have opposite signs;
   * otherwise `a * y + b` misses `x` by exactly `y`.
   */
  lemma DivideRecombines(x: int, y: int)
    requires y != 0
    ensures var (a, b) := Divide(x, y).value;
      (a * y + b == x <==> b == 0 || (x >= 0) == (y > 0)) &&
      (a * y + b == x || a * y + b == x - y)
  {
    FloorVersusTrunc(x, y);
    TruncatedIdentity(x, y);
    var a, t, b := FloorDiv(x, y), TruncDiv(x, y), JsRem(x, y);
    if a == t - 1 {
      assert a * y == t * y - y;
    }
  }
}
