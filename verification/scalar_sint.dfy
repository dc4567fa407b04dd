/**
 * Scalar arithmetic for signed integer types: predicates that tell in
 * advance whether an operation would overflow, the checked operations
 * built on them, and their in-place variants. The type only needs
 * `min < 0 < max`; the checks are written so that no intermediate value
 * leaves the type.
 *
 * A failed `dynamic_assert` ends the program; here it is the value
 * `Abort(cause)`. An operation C leaves undefined is the value `Undefined`.
 */
module ScalarSint {
  import opened CInt

  /** The bounds every operation here assumes: a negative and a positive range. */
  predicate Straddles(t: IntType) {
    t.min < 0 < t.max
  }

  datatype Cause = Overflow | DivisionByZero | UnsupportedLimits

  datatype Checked<T> = Value(v: T) | Abort(cause: Cause) | Undefined

  /** `add_ovf(x, y)`: the sum leaves the type. */
  function AddOvf(t: IntType, x: int, y: int): (b: bool)
    requires Straddles(t) && t.Contains(x) && t.Contains(y)
    ensures b <==> !t.Contains(x + y)
  {
    assert y > 0 ==> t.Contains(t.max - y);
    assert y < 0 ==> t.Contains(t.min - y);
    (y > 0 && t.max - y < x) || (y < 0 && t.min - y > x)
  }

  /** `neg_ovf(x)`: the negation leaves the type. */
  function NegOvf(t: IntType, x: int): (b: bool)
    requires Straddles(t) && t.Contains(x)
    ensures b <==> !t.Contains(-x)
  {
    assert x > 0 ==> t.Contains(t.min + x);
    assert x < 0 ==> t.Contains(t.max + x);
    (x > 0 && t.min + x > 0) || (x < 0 && t.max + x < 0)
  }

  /** In two's complement only `MIN` has no negation. */
  lemma NegOvfTwosComplement(t: IntType, x: int)
    requires t.TwosComplement() && t.Contains(x)
    ensures NegOvf(t, x) <==> x == t.min
  {
  }

  /** `sub_ovf(x, y)`: the difference leaves the type. */
  function SubOvf(t: IntType, x: int, y: int): (b: bool)
    requires Straddles(t) && t.Contains(x) && t.Contains(y)
    ensures b <==> !t.Contains(x - y)
  {
    assert y > 0 ==> t.Contains(t.min + y);
    assert y < 0 ==> t.Contains(t.max + y);
    (y > 0 && t.min + y > x) || (y < 0 && t.max + y < x)
  }

  /**
   * `mul_ovf(x, y)`: the product leaves the type. Each sign case compares
   * one factor with a truncated quotient of a limit by the other.
   */
  function MulOvf(t: IntType, x: int, y: int): (b: bool)
    requires Straddles(t) && t.Contains(x) && t.Contains(y)
    ensures b <==> !t.Contains(x * y)
  {
    MulOvfCases(t, x, y);
    x != 0 && (if x > 0 then
      (if y > 0 then TruncDiv(t.max, x) < y else TruncDiv(t.min, x) > y)
    else
      (if y > 0 then TruncDiv(t.min, y) > x
       else if t.min + t.max <= 0 then TruncDiv(t.max, x) > y
       else TruncDiv(t.max, -x) < -y))
  }

  /** Floor division by a positive divisor: `m / x < y` exactly when `m < x * y`. */
  lemma {:induction false} FloorDivLess(m: int, x: int, y: int)
    requires x > 0
    ensures m / x < y <==> m < x * y
  {
    var q := m / x;
    assert m == x * q + m % x;
    if q < y {
      MulSub(x, y, q + 1);
      MulNonNegative(x, y - q - 1);
      assert x * (q + 1) == x * q + x;
    } else {
      MulSub(x, q, y);
      MulNonNegative(x, q - y);
    }
  }

  /** The sign cases of `mul_ovf`, each reduced to `FloorDivLess`. */
  lemma {:induction false} MulOvfCases(t: IntType, x: int, y: int)
    requires Straddles(t) && t.Contains(x) && t.Contains(y)
    ensures x > 0 && y > 0 ==> (TruncDiv(t.max, x) < y <==> !t.Contains(x * y))
    ensures x > 0 && y <= 0 ==> (TruncDiv(t.min, x) > y <==> !t.Contains(x * y))
    ensures x < 0 && y > 0 ==> (TruncDiv(t.min, y) > x <==> !t.Contains(x * y))
    ensures x < 0 && y <= 0 && t.min + t.max <= 0 ==> (TruncDiv(t.max, x) > y <==> !t.Contains(x * y))
    ensures x < 0 && y <= 0 && t.min + t.max > 0 ==>
      t.Contains(-x) && t.Contains(-y) && (TruncDiv(t.max, -x) < -y <==> !t.Contains(x * y))
  {
    if x > 0 && y > 0 {
      FloorDivLess(t.max, x, y);
      MulNonNegative(x, y);
    } else if x > 0 {
      FloorDivLess(-t.min, x, -y);
      MulNonNegative(x, -y);
      assert x * -y == -(x * y);
    } else if x < 0 && y > 0 {
      FloorDivLess(-t.min, y, -x);
      MulNonNegative(-x, y);
      assert y * -x == -(x * y);
    } else if x < 0 {
      MulNonNegative(-x, -y);
      assert -x * -y == x * y;
      FloorDivLess(t.max, -x, -y);
    }
  }

  /** The limits `quott_ovf` accepts: halving the wider side lands in the narrower one. */
  predicate SupportedLimits(t: IntType) {
    (t.min + t.max <= 0 && TruncDiv(t.min, 2) + t.max >= 0) ||
    (t.min + t.max >= 0 && t.min + t.max / 2 <= 0)
  }

  /** Every valid signed C range is supported. */
  lemma SignedSupported(t: IntType)
    requires t.Signed()
    ensures Straddles(t) && SupportedLimits(t)
  {
  }

  /**
   * `quott_ovf(x, y)`: the truncated quotient leaves the type, which can only
   * happen for `y == -1`. Unsupported limits fail the assertion.
   */
  function QuottOvf(t: IntType, x: int, y: int): (r: Checked<bool>)
    requires Straddles(t) && t.Contains(x) && t.Contains(y)
    ensures r.Abort? <==> !SupportedLimits(t)
    ensures !r.Undefined?
    ensures r.Abort? ==> r.cause == UnsupportedLimits
    ensures r.Value? && y != 0 ==> (r.v <==> !t.Contains(TruncDiv(x, y)))
    ensures r.Value? && y == 0 ==> !r.v
  {
    if !SupportedLimits(t) then Abort(UnsupportedLimits)
    else
      QuottFits(t, x, y);
      Value(if t.min + t.max <= 0 then x < -t.max && y < 0 && y == -1
            else x > -t.min && y < 0 && y == -1)
  }

  /** Under supported limits a truncated quotient fits unless it is `x / -1`. */
  lemma {:induction false} QuottFits(t: IntType, x: int, y: int)
    requires Straddles(t) && SupportedLimits(t) && t.Contains(x) && t.Contains(y)
    ensures y != 0 && y != -1 ==> t.Contains(TruncDiv(x, y))
  {
    if y != 0 && Abs(y) >= 2 {
      var ax := Abs(x);
      DivMonotone(ax, 2, Abs(y));
      var h := ax / 2;
      assert Abs(TruncDiv(x, y)) <= h;
      assert TruncDiv(t.min, 2) == -(Abs(t.min) / 2);
      assert h <= Abs(t.min) / 2 || h <= t.max / 2;
    }
  }

  /**
   * `remt_ovf(x, y)`: always false. That is right about the remainder, which
   * always fits; but C (section 6.5.5 of C11) leaves `x % y` undefined
   * together with an unrepresentable `x / y`, which it does not report.
   */
  function RemtOvf(t: IntType, x: int, y: int): (b: bool)
    requires Straddles(t) && t.Contains(x) && t.Contains(y)
    ensures y != 0 ==> (b <==> !t.Contains(TruncRem(x, y)))
  {
    RemtFits(t, x, y);
    false
  }

  /** The truncated remainder is smaller than the divisor and signed like the dividend. */
  lemma {:induction false} RemtFits(t: IntType, x: int, y: int)
    requires Straddles(t) && t.Contains(x) && t.Contains(y)
    ensures y != 0 ==> t.Contains(TruncRem(x, y))
  {
    if y != 0 {
      var r := TruncRem(x, y);
      assert Abs(r) < Abs(y);
    }
  }

  /** `quote_ovf(x, y)`: an unfinished stub that always reports overflow. */
  function QuoteOvf(t: IntType, x: int, y: int): (b: bool)
    requires Straddles(t) && t.Contains(x) && t.Contains(y)
    ensures b
  {
    true
  }

  /** `reme_ovf(x, y)`: an unfinished stub that always reports overflow. */
  function RemeOvf(t: IntType, x: int, y: int): (b: bool)
    requires Straddles(t) && t.Contains(x) && t.Contains(y)
    ensures b
  {
    true
  }

  /** `add(x, y)`: the exact sum, or an overflow abort. */
  function Add(t: IntType, x: int, y: int): (r: Checked<int>)
    requires Straddles(t) && t.Contains(x) && t.Contains(y)
    ensures r.Value? <==> t.Contains(x + y)
    ensures r.Value? ==> r.v == x + y
    ensures r.Abort? ==> r.cause == Overflow
    ensures !t.Contains(x + y) ==> r == Abort(Overflow)
  {
    if AddOvf(t, x, y) then Abort(Overflow) else Value(x + y)
  }

  /** `neg(x)`: the exact negation, or an overflow abort. */
  function Neg(t: IntType, x: int): (r: Checked<int>)
    requires Straddles(t) && t.Contains(x)
    ensures r.Value? <==> t.Contains(-x)
    ensures r.Value? ==> r.v == -x
    ensures r.Abort? ==> r.cause == Overflow
    ensures !t.Contains(-x) ==> r == Abort(Overflow)
  {
    if NegOvf(t, x) then Abort(Overflow) else Value(-x)
  }

  /** `sub(x, y)`: the exact difference, or an overflow abort. */
  function Sub(t: IntType, x: int, y: int): (r: Checked<int>)
    requires Straddles(t) && t.Contains(x) && t.Contains(y)
    ensures r.Value? <==> t.Contains(x - y)
    ensures r.Value? ==> r.v == x - y
    ensures r.Abort? ==> r.cause == Overflow
    ensures !t.Contains(x - y) ==> r == Abort(Overflow)
  {
    if SubOvf(t, x, y) then Abort(Overflow) else Value(x - y)
  }

  /** `mul(x, y)`: the exact product, or an overflow abort. */
  function Mul(t: IntType, x: int, y: int): (r: Checked<int>)
    requires Straddles(t) && t.Contains(x) && t.Contains(y)
    ensures r.Value? <==> t.Contains(x * y)
    ensures r.Value? ==> r.v == x * y
    ensures r.Abort? ==> r.cause == Overflow
    ensures !t.Contains(x * y) ==> r == Abort(Overflow)
  {
    if MulOvf(t, x, y) then Abort(Overflow) else Value(x * y)
  }

  /** `quott(x, y)`: C's truncated quotient, checked for a zero divisor first, then for overflow. */
  function Quott(t: IntType, x: int, y: int): (r: Checked<int>)
    requires Straddles(t) && t.Contains(x) && t.Contains(y)
    ensures y == 0 ==> r == Abort(DivisionByZero)
    ensures y != 0 && !SupportedLimits(t) ==> r == Abort(UnsupportedLimits)
    ensures y != 0 && SupportedLimits(t) ==>
      r == (if t.Contains(TruncDiv(x, y)) then Value(TruncDiv(x, y)) else Abort(Overflow))
  {
    if y == 0 then Abort(DivisionByZero)
    else
      var ovf := QuottOvf(t, x, y);
      if ovf.Abort? then Abort(ovf.cause)
      else if ovf.v then Abort(Overflow)
      else Value(TruncDiv(x, y))
  }

  /**
   * C leaves `x % y` undefined when `x / y` is not representable in the
   * type the operands are promoted to (section 6.5.5 of C11).
   */
  predicate RemUndefined(t: IntType, x: int, y: int)
    requires y != 0
  {
    !Promoted(t).Contains(TruncDiv(x, y))
  }

  /**
   * `remt(x, y)` as written: only a zero divisor aborts, and `x % y` is
   * evaluated even where C leaves it undefined.
   */
  function Remt(t: IntType, x: int, y: int): (r: Checked<int>)
    requires Straddles(t) && t.Contains(x) && t.Contains(y)
    ensures y == 0 <==> r.Abort?
    ensures r.Abort? ==> r.cause == DivisionByZero
    ensures r.Undefined? <==> y != 0 && RemUndefined(t, x, y)
    ensures r.Value? ==> r.v == TruncRem(x, y) && t.Contains(r.v)
  {
    if y == 0 then Abort(DivisionByZero)
    else if RemtOvf(t, x, y) then Abort(Overflow)
    else if RemUndefined(t, x, y) then Checked.Undefined
    else Value(TruncRem(x, y))
  }

  /**
   * `remt(INT_MIN, -1)` passes the `remt_ovf` check and reaches the
   * undefined `INT_MIN % -1`. For `signed char` the promoted `-128 % -1` is 0.
   */
  lemma RemtUndefinedAtMinusOne()
    ensures !RemtOvf(Int, Int.min, -1) && Remt(Int, Int.min, -1) == Checked.Undefined
    ensures Remt(SignedChar, SignedChar.min, -1) == Value(0)
  {
    assert Promoted(Int) == Int && Promoted(SignedChar) == Int;
  }

  /**
   * `remt_ovf(x, y)` corrected: the test of `quott_ovf`, made in the type C
   * evaluates `%` in, so that it reports exactly the undefined remainders.
   */
  function RemtOvfChecked(t: IntType, x: int, y: int): (r: Checked<bool>)
    requires Straddles(t) && t.Contains(x) && t.Contains(y)
    ensures r.Abort? <==> !SupportedLimits(Promoted(t))
    ensures !r.Undefined?
    ensures r.Value? && y != 0 ==> (r.v <==> RemUndefined(t, x, y))
  {
    QuottOvf(Promoted(t), x, y)
  }

  /**
   * `remt(x, y)` with the corrected check: never undefined, and the
   * truncated remainder exactly where C defines it.
   */
  function RemtChecked(t: IntType, x: int, y: int): (r: Checked<int>)
    requires Straddles(t) && t.Contains(x) && t.Contains(y)
    ensures !r.Undefined?
    ensures y == 0 ==> r == Abort(DivisionByZero)
    ensures y != 0 && SupportedLimits(Promoted(t)) ==>
      r == (if RemUndefined(t, x, y) then Abort(Overflow) else Value(TruncRem(x, y)))
    ensures r.Value? ==> t.Contains(r.v)
  {
    if y == 0 then Abort(DivisionByZero)
    else
      var ovf := RemtOvfChecked(t, x, y);
      RemtFits(t, x, y);
      if ovf.Abort? then Abort(ovf.cause)
      else if ovf.v then Abort(Overflow)
      else Value(TruncRem(x, y))
  }

  /** Wherever `remt` as written returns a value, the corrected `remt` returns the same value. */
  lemma {:induction false} RemtCheckedAgrees(t: IntType, x: int, y: int)
    requires Straddles(t) && t.Contains(x) && t.Contains(y) && t.Signed()
    ensures Remt(t, x, y).Value? ==> RemtChecked(t, x, y) == Remt(t, x, y)
  {
    SignedSupported(Promoted(t));
  }

  /** The sign fix-up `s` shared by `quote` and `reme`. */
  function FixUp(r: int, y: int): (s: int)
    ensures s == 0 || s == 1 || s == -1
  {
    if r >= 0 then 0 else if y < 0 then -1 else 1
  }

  /**
   * The quotient formula of `quote`, `x / y - s`. The zero-divisor check
   * precedes it, so it is taken as 0 there.
   */
  function QuoteFormula(x: int, y: int): int {
    if y == 0 then 0 else TruncDiv(x, y) - FixUp(TruncRem(x, y), y)
  }

  /** The remainder formula of `reme`, `x % y + s * y`, taken as 0 for a zero divisor. */
  function RemeFormula(x: int, y: int): int {
    if y == 0 then 0 else TruncRem(x, y) + FixUp(TruncRem(x, y), y) * y
  }

  /** The formulas of `quote` and `reme` are Euclidean division. */
  lemma {:induction false} EuclideanFormulas(x: int, y: int)
    requires y != 0
    ensures QuoteFormula(x, y) * y + RemeFormula(x, y) == x
    ensures 0 <= RemeFormula(x, y) < Abs(y)
  {
    var q, r := TruncDiv(x, y), TruncRem(x, y);
    var s := FixUp(r, y);
    assert (q - s) * y == q * y - s * y;
  }

  /** `quote(x, y)`: the Euclidean quotient, behind the `quote_ovf` stub. */
  function Quote(t: IntType, x: int, y: int): (r: Checked<int>)
    requires Straddles(t) && t.Contains(x) && t.Contains(y)
    ensures r.Abort?
    ensures r.cause == (if y == 0 then DivisionByZero else Overflow)
  {
    if y == 0 then Abort(DivisionByZero)
    else if QuoteOvf(t, x, y) then Abort(Overflow)
    else Value(QuoteFormula(x, y))
  }

  /** `reme(x, y)`: the Euclidean remainder, behind the `reme_ovf` stub. */
  function Reme(t: IntType, x: int, y: int): (r: Checked<int>)
    requires Straddles(t) && t.Contains(x) && t.Contains(y)
    ensures r.Abort?
    ensures r.cause == (if y == 0 then DivisionByZero else Overflow)
  {
    if y == 0 then Abort(DivisionByZero)
    else if RemeOvf(t, x, y) then Abort(Overflow)
    else Value(RemeFormula(x, y))
  }

  /** The object `iox` points to in the in-place variants. */
  class Scalar {
    var value: int

    constructor (x: int)
      ensures value == x
    {
      value := x;
    }
  }

  /** Stores the checked result in `iox`; an abort stores nothing. */
  method Store(iox: Scalar, r: Checked<int>)
    modifies iox
    ensures iox.value == (if r.Value? then r.v else old(iox.value))
  {
    if r.Value? {
      iox.value := r.v;
    }
  }

  /** `add_mut(iox, y)`: `*iox += y`, checked. */
  method AddMut(t: IntType, iox: Scalar, y: int) returns (r: Checked<int>)
    requires Straddles(t) && t.Contains(iox.value) && t.Contains(y)
    modifies iox
    ensures r == Add(t, old(iox.value), y)
    ensures iox.value == (if r.Value? then old(iox.value) + y else old(iox.value))
    ensures t.Contains(iox.value)
  {
    r := Add(t, iox.value, y);
    Store(iox, r);
  }

  /** `neg_mut(iox)`: `*iox = -*iox`, checked. */
  method NegMut(t: IntType, iox: Scalar) returns (r: Checked<int>)
    requires Straddles(t) && t.Contains(iox.value)
    modifies iox
    ensures r == Neg(t, old(iox.value))
    ensures iox.value == (if r.Value? then -old(iox.value) else old(iox.value))
    ensures t.Contains(iox.value)
  {
    r := Neg(t, iox.value);
    Store(iox, r);
  }

  /** `sub_mut(iox, y)`: `*iox -= y`, checked. */
  method SubMut(t: IntType, iox: Scalar, y: int) returns (r: Checked<int>)
    requires Straddles(t) && t.Contains(iox.value) && t.Contains(y)
    modifies iox
    ensures r == Sub(t, old(iox.value), y)
    ensures iox.value == (if r.Value? then old(iox.value) - y else old(iox.value))
    ensures t.Contains(iox.value)
  {
    r := Sub(t, iox.value, y);
    Store(iox, r);
  }

  /** `mul_mut(iox, y)`: `*iox *= y`, checked. */
  method MulMut(t: IntType, iox: Scalar, y: int) returns (r: Checked<int>)
    requires Straddles(t) && t.Contains(iox.value) && t.Contains(y)
    modifies iox
    ensures r == Mul(t, old(iox.value), y)
    ensures iox.value == (if r.Value? then old(iox.value) * y else old(iox.value))
    ensures t.Contains(iox.value)
  {
    r := Mul(t, iox.value, y);
    Store(iox, r);
  }

  /** `quott_mut(iox, y)`: `*iox /= y`, checked. */
  method QuottMut(t: IntType, iox: Scalar, y: int) returns (r: Checked<int>)
    requires Straddles(t) && t.Contains(iox.value) && t.Contains(y)
    modifies iox
    ensures r == Quott(t, old(iox.value), y)
    ensures iox.value == (if r.Value? then TruncDiv(old(iox.value), y) else old(iox.value))
    ensures t.Contains(iox.value)
  {
    r := Quott(t, iox.value, y);
    Store(iox, r);
  }

  /** `remt_mut(iox, y)`: `*iox %= y`, checked by the corrected `remt`. */
  method RemtMut(t: IntType, iox: Scalar, y: int) returns (r: Checked<int>)
    requires Straddles(t) && t.Contains(iox.value) && t.Contains(y)
    modifies iox
    ensures r == RemtChecked(t, old(iox.value), y)
    ensures iox.value == (if r.Value? then TruncRem(old(iox.value), y) else old(iox.value))
    ensures t.Contains(iox.value)
  {
    r := RemtChecked(t, iox.value, y);
    Store(iox, r);
  }

  /** `quote_mut(iox, y)`: always aborts, so `*iox` keeps its value. */
  method QuoteMut(t: IntType, iox: Scalar, y: int) returns (r: Checked<int>)
    requires Straddles(t) && t.Contains(iox.value) && t.Contains(y)
    modifies iox
    ensures r == Quote(t, old(iox.value), y) && r.Abort?
    ensures iox.value == old(iox.value)
  {
    r := Quote(t, iox.value, y);
    Store(iox, r);
  }

  /** `reme_mut(iox, y)`: always aborts, so `*iox` keeps its value. */
  method RemeMut(t: IntType, iox: Scalar, y: int) returns (r: Checked<int>)
    requires Straddles(t) && t.Contains(iox.value) && t.Contains(y)
    modifies iox
    ensures r == Reme(t, old(iox.value), y) && r.Abort?
    ensures iox.value == old(iox.value)
  {
    r := Reme(t, iox.value, y);
    Store(iox, r);
  }
}
