/**
 * The value ranges of the C integer types the library is instantiated for,
 * the C operators `/` and `%` (which truncate toward zero, unlike Dafny's
 * Euclidean ones), powers, and the "wrap into [a, b)" value that every
 * wrapping routine of the library is measured against.
 */
module CInt {

  /** The closed range [min, max] of a C integer type. */
  datatype IntType = IntType(min: int, max: int) {

    /** Unsigned (min == 0) or one of the signed ranges C permits. */
    predicate Valid() {
      0 < max && (min == 0 || min == -max || min == -max - 1)
    }

    predicate Unsigned() {
      Valid() && min == 0
    }

    predicate Signed() {
      Valid() && min < 0
    }

    /** Two's complement: the negative range is one longer than the positive one. */
    predicate TwosComplement() {
      Valid() && min == -max - 1
    }

    predicate Contains(x: int) {
      min <= x <= max
    }
  }

  /**
   * What evaluating a C expression yields: a value; a value the
   * implementation chooses, as when an out-of-range value is converted to a
   * signed type (section 6.3.1.3 of C11); or undefined behaviour, as when a
   * signed operation leaves the type it is evaluated in (section 6.5 of C11).
   */
  datatype Outcome<T> = Exact(value: T) | ImplDefined | Undefined

  const SignedChar := IntType(-0x80, 0x7f)
  const UnsignedChar := IntType(0, 0xff)
  const Int := IntType(-0x8000_0000, 0x7fff_ffff)
  const SizeT := IntType(0, 0xffff_ffff_ffff_ffff)
  const LongLong := IntType(-0x8000_0000_0000_0000, 0x7fff_ffff_ffff_ffff)

  /**
   * The type C evaluates arithmetic on operands of type `t` in: the integer
   * promotions (section 6.3.1.1 of C11) widen every type whose values all
   * fit `int` to `int`, and leave wider types as they are.
   */
  function Promoted(t: IntType): (p: IntType)
    ensures p.min <= t.min && t.max <= p.max
    ensures t.Valid() ==> p.Valid() && (t.min < 0 ==> p.min < 0)
  {
    if Int.Contains(t.min) && Int.Contains(t.max) then Int else t
  }

  /** `SIZE_MAX`, the error value of the particle allocator. */
  const SizeMax := SizeT.max

  function Abs(x: int): nat {
    if x < 0 then -x else x
  }

  /** The sign of `x` as -1, 0 or 1, as `bmm_sgn` gives it. */
  function Sgn(x: int): (s: int)
    ensures s == -1 || s == 0 || s == 1
    ensures s * Abs(x) == x
  {
    if x < 0 then -1 else if x == 0 then 0 else 1
  }

  /** C's `x / y`: the quotient truncated toward zero. */
  function TruncDiv(x: int, y: int): (q: int)
    requires y != 0
    ensures Abs(q) == Abs(x) / Abs(y)
    ensures q < 0 ==> (x < 0) != (y < 0)
    ensures q > 0 ==> (x < 0) == (y < 0)
  {
    DivNonNegative(Abs(x), Abs(y));
    if (x < 0) == (y < 0) then Abs(x) / Abs(y) else -(Abs(x) / Abs(y))
  }

  lemma {:induction false} DivNonNegative(a: int, b: int)
    requires a >= 0 && b > 0
    ensures a / b >= 0
  {
    var q, r := a / b, a % b;
    assert a == b * q + r && 0 <= r < b;
    if q < 0 {
      MulAtLeast(b, -q);
      MulSub(b, 0, q);
    }
  }

  /** C's `x % y`: the remainder that goes with `TruncDiv`, signed like `x`. */
  function TruncRem(x: int, y: int): (r: int)
    requires y != 0
    ensures TruncDiv(x, y) * y + r == x
    ensures Abs(r) < Abs(y)
    ensures r != 0 ==> (r < 0 <==> x < 0)
  {
    TruncRemMagnitude(x, y);
    x - TruncDiv(x, y) * y
  }

  /** The truncated remainder has the magnitude of the remainder of the magnitudes. */
  lemma {:induction false} TruncRemMagnitude(x: int, y: int)
    requires y != 0
    ensures x - TruncDiv(x, y) * y == (if x < 0 then -(Abs(x) % Abs(y)) else Abs(x) % Abs(y))
  {
    var ax: int, ay: int := Abs(x), Abs(y);
    var d: int, m: int := ax / ay, ax % ay;
    assert ax == ay * d + m;
    var q := TruncDiv(x, y);
    MulSigns(d, ay);
    if x >= 0 && y > 0 {
      assert q == d && y == ay;
    } else if x >= 0 {
      assert q == -d && y == -ay;
    } else if y > 0 {
      assert q == -d && x == -ax && y == ay;
    } else {
      assert q == d && x == -ax && y == -ay;
    }
  }

  lemma MulStep(q: int, y: int)
    ensures (q + 1) * y == q * y + y && (q - 1) * y == q * y - y
  {
  }

  lemma MulSigns(a: int, b: int)
    ensures a * b == b * a
    ensures (-a) * b == -(a * b) && a * (-b) == -(a * b) && (-a) * (-b) == a * b
  {
  }

  /** `x` to the power `e`, the value `bmm_pow` and the loop oracle `pow_ref` compute. */
  function Pow(x: int, e: nat): int {
    if e == 0 then 1 else Pow(x, e - 1) * x
  }

  /**
   * The unique `y` in [a, b) with `y - x` a multiple of `b - a`: what
   * `bmm_wrap(x, a, b)` is documented to find.
   */
  function Shift(x: int, a: int, b: int): (y: int)
    requires a < b
    ensures a <= y < b
    ensures (y - x) % (b - a) == 0
  {
    ShiftCongruent(x, a, b);
    a + (x - a) % (b - a)
  }

  lemma {:induction false} ShiftCongruent(x: int, a: int, b: int)
    requires a < b
    ensures (a + (x - a) % (b - a) - x) % (b - a) == 0
  {
    var c := b - a;
    var q := (x - a) / c;
    assert x - a == c * q + (x - a) % c;
    assert a + (x - a) % c - x == c * -q;
    MultipleMod(-q, c);
  }

  /** A multiple of `c` leaves no remainder. */
  lemma {:induction false} MultipleMod(k: int, c: int)
    requires c > 0
    ensures (c * k) % c == 0
  {
    DivModUnique(c * k, c, k, 0);
  }

  /** Division with remainder is unique: the facts behind every round trip here. */
  lemma {:induction false} DivModUnique(x: int, c: int, q: int, r: int)
    requires c > 0 && 0 <= r < c && x == c * q + r
    ensures x / c == q && x % c == r
  {
    var q', r' := x / c, x % c;
    assert x == c * q' + r';
    MulSub(c, q, q');
    assert c * (q - q') == r' - r;
    if q - q' >= 1 {
      MulAtLeast(c, q - q');
    } else if q' - q >= 1 {
      MulSub(c, q', q);
      MulAtLeast(c, q' - q);
    }
  }

  lemma MulSub(c: int, a: int, b: int)
    ensures c * (a - b) == c * a - c * b
  {
  }

  lemma MulAssoc(a: int, b: int, c: int)
    ensures a * (b * c) == (a * b) * c
  {
  }

  lemma {:induction false} MulAtLeast(c: int, k: int)
    requires c > 0 && k >= 1
    ensures c * k >= c
  {
    MulSub(c, k, 1);
    assert c * (k - 1) >= 0;
  }

  /** Dividing by a larger divisor gives a smaller quotient. */
  lemma {:induction false} DivMonotone(x: nat, a: int, b: int)
    requires 0 < a <= b
    ensures x / b <= x / a
  {
    var qa, qb := x / a, x / b;
    assert x == a * qa + x % a;
    assert x == b * qb + x % b;
    if qb > qa {
      MulMonotone(a, b, qb);
      MulMonotone(qa + 1, qb, a);
    }
  }

  lemma {:induction false} MulMonotone(a: int, b: int, c: int)
    requires 0 <= a <= b && c >= 0
    ensures a * c <= b * c
  {
    MulNonNegative(b - a, c);
  }

  lemma MulNonNegative(a: int, b: int)
    requires a >= 0 && b >= 0
    ensures a * b >= 0
  {
  }

  /** Any value of [a, b) congruent to `x` modulo `b - a` is `Shift(x, a, b)`. */
  lemma {:induction false} ShiftUnique(x: int, a: int, b: int, y: int, k: int)
    requires a < b && a <= y < b && y == x + k * (b - a)
    ensures y == Shift(x, a, b)
  {
    var c := b - a;
    var q := (x - a) / c;
    assert x - a == c * q + (x - a) % c;
    assert y - a == c * (q + k) + (x - a) % c;
    DivModUnique(y - a, c, 0, y - a);
    DivModUnique(y - a, c, q + k, (x - a) % c);
  }

  /** The remainder-difference formula of both `bmm_wrap`s finds the shift. */
  lemma {:induction false} WrapFormula(x: int, a: int, b: int)
    requires a < b
    ensures var c, r, s := b - a, x % (b - a), a % (b - a);
      (if r >= s then r - s else c - (s - r)) + a == Shift(x, a, b)
  {
    var c, r, s := b - a, x % (b - a), a % (b - a);
    var qx, qa := x / c, a / c;
    assert x == c * qx + r;
    assert a == c * qa + s;
    MulSub(c, qx, qa);
    if r >= s {
      assert x - a == c * (qx - qa) + (r - s);
      ShiftUnique(x, a, b, r - s + a, qa - qx);
    } else {
      MulSub(c, qx - qa, 1);
      assert x - a == c * (qx - qa - 1) + (c - (s - r));
      ShiftUnique(x, a, b, c - (s - r) + a, qa - qx + 1);
    }
  }

  /** A value already inside [a, b) is its own shift. */
  lemma {:induction false} ShiftIdentity(x: int, a: int, b: int)
    requires a <= x < b
    ensures Shift(x, a, b) == x
  {
    ShiftUnique(x, a, b, x, 0);
  }
}
