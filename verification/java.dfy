/** Java-level vocabulary shared by every model: the exceptions the source throws,
    an outcome type for "returns a value or throws", and Java's integer arithmetic
    (truncating division and remainder, 32-bit wrap-around). */
module Java {

  /** The unchecked exceptions the modelled code can throw. */
  datatype Exception =
    | NullPointer
    | IllegalArgument
    | IllegalState
    | Arithmetic
    | IndexOutOfBounds

  /** A reference that may be null, or an optional result. */
  datatype Option<+T> = None | Some(value: T)

  /** A call that either returns normally with `value` or throws `error`. */
  datatype Outcome<+T> = Ok(value: T) | Thrown(error: Exception)

  /** Java's `/` on ints: the quotient truncated toward zero. */
  function Div(a: int, b: int): (q: int)
    requires b != 0
    ensures Abs(q) * Abs(b) <= Abs(a) < (Abs(q) + 1) * Abs(b)
    ensures (0 <= a) == (0 < b) ==> 0 <= q
    ensures (0 <= a) != (0 < b) ==> q <= 0
  {
    var m := Abs(a) / Abs(b);
    FloorBounds(Abs(a), Abs(b));
    if (0 <= a) == (0 < b) then m else -m
  }

  lemma FloorBounds(x: int, y: int)
    requires 0 <= x && 0 < y
    ensures (x / y) * y <= x < (x / y + 1) * y
  {
    var m, k := x / y, x % y;
    assert x == y * m + k && 0 <= k < y;
    assert (m + 1) * y == m * y + y;
  }

  /** Java's `%` on ints: the remainder takes the sign of the dividend. */
  function Rem(a: int, b: int): (r: int)
    requires b != 0
    ensures a == b * Div(a, b) + r
    ensures 0 <= a ==> 0 <= r < Abs(b)
    ensures a < 0 ==> -Abs(b) < r <= 0
  {
    var m := Abs(a) % Abs(b);
    RemSign(a, b);
    if 0 <= a then m else -m
  }

  function Abs(x: int): int { if x < 0 then -x else x }

  lemma RemSign(a: int, b: int)
    requires b != 0
    ensures a == b * Div(a, b) + (if 0 <= a then Abs(a) % Abs(b) else -(Abs(a) % Abs(b)))
  {
    var m, k := Abs(a) / Abs(b), Abs(a) % Abs(b);
    assert Abs(a) == Abs(b) * m + k;
    if 0 <= a {
      if 0 < b { assert b * Div(a, b) == b * m; } else { assert b * Div(a, b) == (-b) * m; }
    } else {
      if 0 < b { assert b * Div(a, b) == -(b * m); } else { assert b * Div(a, b) == -((-b) * m); }
    }
  }

  const INT_MIN: int := -0x8000_0000
  const INT_MAX: int := 0x7fff_ffff

  predicate IsInt(x: int) { INT_MIN <= x <= INT_MAX }

  /** Java `int` addition: the mathematical sum wrapped into 32 bits. */
  function AddInt(a: int, b: int): (r: int)
    ensures IsInt(r)
    ensures (r - (a + b)) % 0x1_0000_0000 == 0
    ensures IsInt(a + b) ==> r == a + b
  {
    (a + b - INT_MIN) % 0x1_0000_0000 + INT_MIN
  }
}
