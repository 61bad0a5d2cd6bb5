/**
 The part of JavaScript's number arithmetic the FizzBuzz loop relies on, restricted
 to integral values: the `%` operator. JavaScript's remainder truncates toward
 zero (the result takes the sign of the dividend), unlike Dafny's `%`, which is
 Euclidean (never negative). `x % 0` is NaN in JavaScript, so `Rem` is only
 defined for a non-zero divisor and callers treat the zero divisor themselves.
 */
module JsNumber {

  function Abs(x: int): (r: nat)
    ensures r == x || r == -x
  {
    if x < 0 then -x else x
  }

  /** The quotient of `a / b` truncated toward zero (`Math.trunc(a / b)`). */
  function Quot(a: int, b: int): int
    requires b != 0
  {
    var q := Abs(a) / Abs(b);
    if (a >= 0) == (b > 0) then q else -q
  }

  /** `a % b` for integral `a` and non-zero integral `b`. */
  function Rem(a: int, b: int): (r: int)
    requires b != 0
    ensures a == b * Quot(a, b) + r
    ensures Abs(r) < Abs(b)
    ensures a > 0 ==> r >= 0
    ensures a < 0 ==> r <= 0
  {
    var m := Abs(a) % Abs(b);
    var q := Abs(a) / Abs(b);
    assert Abs(a) == Abs(b) * q + m;
    if a >= 0 then m else -m
  }

  /**
   A JavaScript remainder is zero exactly when the divisor divides the dividend,
   which Dafny's Euclidean `%` also detects. For a negative dividend the two
   differ (JavaScript's `-7 % 3` is -1, Dafny's is 2), but they are zero for
   exactly the same inputs.
   */
  lemma RemZeroIffDivides(a: int, b: int)
    requires b != 0
    ensures Rem(a, b) == 0 <==> a % b == 0
  {
    var n := Abs(b);
    ModAbsDivisor(a, b);
    if a < 0 {
      ModNegate(a, n);
    }
  }

  /** Dafny's `%` depends on the divisor's magnitude only. */
  lemma ModAbsDivisor(a: int, b: int)
    requires b != 0
    ensures a % b == a % Abs(b)
  {
    if b < 0 {
      var q, r := a / b, a % b;
      assert a == b * q + r;
      assert b * q == Abs(b) * (-q);
      ModUnique(a, Abs(b), -q, r);
    }
  }

  /** A number is a multiple of `n` exactly when its negation is. */
  lemma ModNegate(a: int, n: int)
    requires n > 0
    ensures a % n == 0 <==> (-a) % n == 0
  {
    var q, r := a / n, a % n;
    assert a == n * q + r;
    if r == 0 {
      assert -a == n * (-q);
      ModUnique(-a, n, -q, 0);
    }
    var q', r' := (-a) / n, (-a) % n;
    assert -a == n * q' + r';
    if r' == 0 {
      assert a == n * (-q');
      ModUnique(a, n, -q', 0);
    }
  }

  /** Euclidean division is unique: any decomposition with a remainder in range is Dafny's. */
  lemma ModUnique(a: int, n: int, q: int, r: int)
    requires n > 0
    requires 0 <= r < n
    requires a == n * q + r
    ensures a % n == r
  {
    var q0, r0 := a / n, a % n;
    assert a == n * q0 + r0;
    var d := q - q0;
    assert n * q - n * q0 == n * d;
    assert n * d == r0 - r;
  }
}
