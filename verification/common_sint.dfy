/**
 * Common operations for signed integer types (instantiated for
 * `signed char` and `int`): Euclidean division built on C's truncating
 * `/` and `%`, and wrapping into a half-open interval.
 */
module CommonSint {
  import opened CInt
  import CommonUint

  type QuotRem = CommonUint.QuotRem

  /** `x / y` of the type fits: it fails only for `MIN / -1` in two's complement. */
  predicate QuotFits(t: IntType, x: int, y: int)
    requires y != 0
  {
    t.Contains(TruncDiv(x, y))
  }

  lemma {:induction false} QuotFitsIff(t: IntType, x: int, y: int)
    requires t.Signed() && t.Contains(x) && t.Contains(y) && y != 0
    ensures QuotFits(t, x, y) <==> !(t.TwosComplement() && x == t.min && y == -1)
  {
    var q := TruncDiv(x, y);
    if Abs(y) >= 2 {
      assert Abs(x) <= t.max + 1;
      assert Abs(q) <= Abs(x) / 2 by {
        DivMonotone(Abs(x), 2, Abs(y));
      }
    }
  }

  /** Division by a positive divisor always fits. */
  lemma {:induction false} QuotFitsPositive(t: IntType, x: int, y: int)
    requires t.Signed() && t.Contains(x) && y > 0
    ensures QuotFits(t, x, y)
  {
    DivMonotone(Abs(x), 1, y);
  }

  /**
   * `bmm_quot(x, y)` as written. The operands are promoted first (to `int`
   * for both instances), so `x / y`, `x % y`, `s * y`, `q - s` and
   * `r + s * y` are evaluated in `Promoted(t)`: a value that leaves it is
   * undefined behaviour, and C11 makes `x % y` undefined together with an
   * unrepresentable `x / y`. The stores into `q`, `.quot` and `.rem`
   * convert back to `t`, and a value that does not fit there is
   * implementation-defined. (`r` and `s` always fit.)
   */
  function QuotAsWritten(t: IntType, x: int, y: int): Outcome<QuotRem>
    requires t.Signed() && t.Contains(x) && t.Contains(y) && y != 0
  {
    var p := Promoted(t);
    var q := TruncDiv(x, y);
    var r := TruncRem(x, y);
    var s := if r >= 0 then 0 else if y < 0 then -1 else 1;
    if !p.Contains(q) then Undefined
    else if !t.Contains(q) then ImplDefined
    else if !p.Contains(s * y) || !p.Contains(q - s) || !p.Contains(r + s * y) then Undefined
    else if !t.Contains(q - s) || !t.Contains(r + s * y) then ImplDefined
    else Exact(CommonUint.QuotRem(q - s, r + s * y))
  }

  /**
   * `bmm_quot(MIN, -1)`, although the documentation says overflows are
   * impossible: for `int` the quotient `-INT_MIN` overflows, which is
   * undefined; for `signed char` it is 128 in `int`, and storing it into
   * `q` is implementation-defined. No `signed char` pair can meet the
   * promise there, so whatever the conversion gives is wrong.
   */
  lemma QuotAsWrittenOverflowsAtMinusOne()
    ensures QuotAsWritten(Int, Int.min, -1) == Undefined
    ensures QuotAsWritten(SignedChar, SignedChar.min, -1) == ImplDefined
    ensures forall qr: QuotRem :: SignedChar.Contains(qr.quot) && 0 <= qr.rem ==>
      qr.quot * -1 + qr.rem != SignedChar.min
  {
  }

  /**
   * A negative non-multiple divided by `INT_MIN` overflows in
   * `s * y == -INT_MIN`.
   */
  lemma QuotAsWrittenOverflowsAtMinDivisor()
    ensures QuotAsWritten(Int, -1, Int.min) == Undefined
  {
    assert Promoted(Int) == Int && Promoted(SignedChar) == Int;
    DivModUnique(1, 0x8000_0000, 0, 1);
    assert TruncDiv(-1, Int.min) == 0;
    assert TruncRem(-1, Int.min) == -1;
  }

  /** For `signed char` the product `s * y` is formed in `int`, and `bmm_quot(-1, SCHAR_MIN)` is exact. */
  lemma QuotAsWrittenCharMinDivisor()
    ensures QuotAsWritten(SignedChar, -1, SignedChar.min) == Exact(CommonUint.QuotRem(1, 0x7f))
  {
    DivModUnique(1, 0x80, 0, 1);
    var q, r := TruncDiv(-1, SignedChar.min), TruncRem(-1, SignedChar.min);
    assert q == 0 && r == -1;
    assert Promoted(SignedChar) == Int;
  }

  /** Where the as-written quotient is exact, it is the corrected one. */
  lemma {:induction false} QuotAsWrittenAgrees(t: IntType, x: int, y: int)
    requires t.Signed() && t.Contains(x) && t.Contains(y) && y != 0
    ensures QuotAsWritten(t, x, y).Exact? ==> QuotFits(t, x, y) && QuotAsWritten(t, x, y).value == Quot(t, x, y)
  {
  }

  /**
   * A positive divisor never leaves `bmm_quot` as written inexact: its pair
   * is the corrected one.
   */
  lemma {:induction false} QuotAsWrittenPositive(t: IntType, x: int, y: int)
    requires t.Signed() && t.Contains(x) && t.Contains(y) && y > 0
    ensures QuotFits(t, x, y) && QuotAsWritten(t, x, y) == Exact(Quot(t, x, y))
  {
    QuotFitsPositive(t, x, y);
    var p := Promoted(t);
    var q, r := TruncDiv(x, y), TruncRem(x, y);
    assert t.Contains(q) && p.Contains(q) && Abs(r) < y;
    if r < 0 {
      QuotCorrectionFits(t, x, y);
      assert 1 * y == y;
      assert t.Contains(q - 1) && t.Contains(r + y);
    } else {
      assert 0 * y == 0;
    }
  }

  /**
   * For `int`, `bmm_quot` is exact away from the two overflowing families
   * of inputs, and undefined on them.
   */
  lemma {:induction false} QuotAsWrittenDefinedInt(x: int, y: int)
    requires Int.Contains(x) && Int.Contains(y) && y != 0
    ensures !QuotAsWritten(Int, x, y).ImplDefined?
    ensures QuotAsWritten(Int, x, y).Exact? <==>
      !(x == Int.min && y == -1) && !(y == Int.min && TruncRem(x, y) < 0)
  {
    QuotFitsIff(Int, x, y);
    if QuotFits(Int, x, y) && TruncRem(x, y) < 0 {
      QuotCorrectionFits(Int, x, y);
    }
  }

  /**
   * For `signed char`, computing in `int` makes `bmm_quot` exact for every
   * input but `(SCHAR_MIN, -1)`, and never undefined.
   */
  lemma {:induction false} QuotAsWrittenDefinedChar(x: int, y: int)
    requires SignedChar.Contains(x) && SignedChar.Contains(y) && y != 0
    ensures !QuotAsWritten(SignedChar, x, y).Undefined?
    ensures QuotAsWritten(SignedChar, x, y).Exact? <==> !(x == SignedChar.min && y == -1)
  {
    QuotFitsIff(SignedChar, x, y);
    if QuotFits(SignedChar, x, y) && TruncRem(x, y) < 0 {
      QuotCorrectionFits(SignedChar, x, y);
    }
  }

  lemma {:induction false} QuotCorrectionFits(t: IntType, x: int, y: int)
    requires t.Signed() && t.Contains(x) && t.Contains(y) && y != 0
    requires QuotFits(t, x, y) && TruncRem(x, y) < 0
    ensures t.Contains(TruncDiv(x, y) + 1) && t.Contains(TruncDiv(x, y) - 1)
  {
    var q := TruncDiv(x, y);
    assert Abs(y) >= 2;
    DivMonotone(Abs(x), 2, Abs(y));
  }

  /**
   * `bmm_quot(x, y)` corrected: the sign fix-up adds or subtracts `y`
   * instead of forming `s * y`, and the inputs whose quotient does not
   * fit are excluded. It is Euclidean division, with every intermediate
   * inside the type.
   */
  function Quot(t: IntType, x: int, y: int): (qr: QuotRem)
    requires t.Signed() && t.Contains(x) && t.Contains(y) && y != 0
    requires QuotFits(t, x, y)
    ensures qr.quot * y + qr.rem == x && 0 <= qr.rem < Abs(y)
    ensures t.Contains(qr.quot) && t.Contains(qr.rem)
    ensures qr.quot == x / y && qr.rem == x % y
    ensures TruncRem(x, y) >= 0 ==> qr == CommonUint.QuotRem(TruncDiv(x, y), TruncRem(x, y))
  {
    var q := TruncDiv(x, y);
    var r := TruncRem(x, y);
    QuotFixUp(t, x, y);
    if r >= 0 then CommonUint.QuotRem(q, r)
    else if y < 0 then CommonUint.QuotRem(q + 1, r - y)
    else CommonUint.QuotRem(q - 1, r + y)
  }

  /** The sign fix-up of `bmm_quot` turns the truncated pair into the Euclidean one, inside the type. */
  lemma {:induction false} QuotFixUp(t: IntType, x: int, y: int)
    requires t.Signed() && t.Contains(x) && t.Contains(y) && y != 0
    requires QuotFits(t, x, y)
    ensures var q, r := TruncDiv(x, y), TruncRem(x, y);
      && t.Contains(q) && t.Contains(r) && q * y + r == x
      && (r >= 0 ==> x / y == q && x % y == r && r < Abs(y))
      && (r < 0 && y < 0 ==>
            x / y == q + 1 && x % y == r - y && t.Contains(q + 1) && t.Contains(r - y)
            && (q + 1) * y + (r - y) == x && 0 <= r - y < Abs(y))
      && (r < 0 && y > 0 ==>
            x / y == q - 1 && x % y == r + y && t.Contains(q - 1) && t.Contains(r + y)
            && (q - 1) * y + (r + y) == x && 0 <= r + y < Abs(y))
  {
    var q := TruncDiv(x, y);
    var r := TruncRem(x, y);
    assert q * y + r == x;
    assert t.Contains(q);
    assert Abs(r) < Abs(y);
    if r >= 0 {
      EuclidUnique(x, y, q, r);
    } else {
      QuotCorrectionFits(t, x, y);
      MulStep(q, y);
      if y < 0 {
        EuclidUnique(x, y, q + 1, r - y);
      } else {
        EuclidUnique(x, y, q - 1, r + y);
      }
    }
  }

  /** Dafny's `/` and `%` are Euclidean: any `q`, `r` with `0 <= r < |y|` are them. */
  lemma {:induction false} EuclidUnique(x: int, y: int, q: int, r: int)
    requires y != 0 && q * y + r == x && 0 <= r < Abs(y)
    ensures x / y == q && x % y == r
  {
    if y > 0 {
      DivModUnique(x, y, q, r);
    } else {
      var q', r' := x / y, x % y;
      assert x == y * q' + r' && 0 <= r' < -y;
      assert (-y) * (-q) + r == x;
      assert (-y) * (-q') + r' == x;
      DivModUnique(x, -y, -q, r);
      DivModUnique(x, -y, -q', r');
    }
  }

  /**
   * The same-sign branch of `bmm_wrap(x, a, b)`: `b - a` fits the type and
   * the Euclidean remainders of `x` and `a` give the shift.
   */
  function WrapSameSign(t: IntType, x: int, a: int, b: int): (y: int)
    requires t.Signed() && t.Contains(x) && t.Contains(a) && t.Contains(b) && a < b
    requires Sgn(a) == Sgn(b)
    ensures y == Shift(x, a, b)
  {
    var c := b - a;
    assert t.Contains(c);
    QuotAsWrittenPositive(t, x, c);
    QuotAsWrittenPositive(t, a, c);
    var xmc := QuotAsWritten(t, x, c).value.rem;
    var amc := QuotAsWritten(t, a, c).value.rem;
    assert t.Contains(xmc) && t.Contains(amc);
    WrapFormula(x, a, b);
    assert xmc >= amc ==> t.Contains(xmc - amc);
    assert xmc < amc ==> t.Contains(amc - xmc) && t.Contains(c - (amc - xmc));
    (if xmc >= amc then xmc - amc else c - (amc - xmc)) + a
  }

  /**
   * `bmm_wrap(x, a, b)` as written. The mixed-sign branch forms `b - a` in
   * the promoted operand type and only then widens it to `long long`, so
   * it is undefined when the difference leaves `Promoted(t)`; otherwise
   * the stepping loop, the method `Wrap`, lands on the shift.
   */
  function WrapAsWritten(t: IntType, x: int, a: int, b: int): (o: Outcome<int>)
    requires t.Signed() && t.Contains(x) && t.Contains(a) && t.Contains(b) && a < b
    ensures o.Exact? ==> o.value == Shift(x, a, b)
  {
    if Sgn(a) == Sgn(b) then Exact(WrapSameSign(t, x, a, b))
    else if !Promoted(t).Contains(b - a) then Undefined
    else Exact(Shift(x, a, b))
  }

  /**
   * `bmm_wrap(-3, -2, INT_MAX)`, although the documentation says overflows
   * are impossible: `INT_MAX - (-2)` overflows `int`, while the wrapped
   * value `INT_MAX - 1` fits.
   */
  lemma WrapAsWrittenOverflows()
    ensures WrapAsWritten(Int, -3, -2, Int.max) == Undefined
    ensures Shift(-3, -2, Int.max) == Int.max - 1
  {
    ShiftUnique(-3, -2, Int.max, Int.max - 1, 1);
  }

  /** For `int`, `bmm_wrap` is undefined exactly when `a < 0` and `b - a` exceeds `INT_MAX`. */
  lemma {:induction false} WrapAsWrittenDefinedInt(x: int, a: int, b: int)
    requires Int.Contains(x) && Int.Contains(a) && Int.Contains(b) && a < b
    ensures !WrapAsWritten(Int, x, a, b).ImplDefined?
    ensures WrapAsWritten(Int, x, a, b).Undefined? <==> a < 0 && b - a > Int.max
  {
  }

  /** For `signed char` the difference is formed in `int`, and `bmm_wrap` is always exact. */
  lemma {:induction false} WrapAsWrittenDefinedChar(x: int, a: int, b: int)
    requires SignedChar.Contains(x) && SignedChar.Contains(a) && SignedChar.Contains(b) && a < b
    ensures WrapAsWritten(SignedChar, x, a, b) == Exact(Shift(x, a, b))
  {
  }

  /**
   * `bmm_wrap(x, a, b)` corrected: when `a` and `b` have the same sign the
   * remainder formula applies; otherwise `b - a` is formed in `long long`,
   * and `y` starts at `x` and is stepped by it until it lands in [a, b).
   */
  method Wrap(t: IntType, x: int, a: int, b: int) returns (y: int)
    requires t.Signed() && t.Contains(x) && t.Contains(a) && t.Contains(b) && a < b
    requires LongLong.Contains(t.min) && LongLong.Contains(t.max) && LongLong.Contains(t.max - t.min)
    ensures y == Shift(x, a, b)
  {
    if Sgn(a) == Sgn(b) {
      return WrapSameSign(t, x, a, b);
    }
    var c := b - a;
    assert LongLong.Contains(c);
    y := x;
    ghost var k := 0;
    if y < a {
      y := y + c;
      k := k + 1;
      while y < a
        invariant x < y < b && y == x + k * c
        decreases a - y
      {
        assert (k + 1) * c == k * c + c;
        y := y + c;
        k := k + 1;
      }
    } else if y >= b {
      y := y - c;
      k := k - 1;
      while y >= b
        invariant a <= y < x && y == x + k * c
        decreases y - a
      {
        assert (k - 1) * c == k * c - c;
        y := y - c;
        k := k - 1;
      }
    }
    assert LongLong.Contains(y);
    ShiftUnique(x, a, b, y, k);
  }
}
