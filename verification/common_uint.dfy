/**
 * Common operations for unsigned integer types (instantiated for
 * `unsigned char` and `size_t`): Euclidean division, wrapping into a
 * half-open interval and the mixed-radix flattening of index vectors
 * over hypercubes and hypercuboids.
 *
 * On unsigned operands C's `/` and `%` agree with Dafny's, so they are
 * written as Dafny's operators here.
 */
module CommonUint {
  import opened CInt

  datatype QuotRem = QuotRem(quot: int, rem: int)

  /** `bmm_quot(x, y)`: quotient and remainder with `quot * y + rem == x`, `rem >= 0`. */
  function Quot(t: IntType, x: int, y: int): (qr: QuotRem)
    requires t.Unsigned() && t.Contains(x) && t.Contains(y) && y != 0
    ensures qr.quot * y + qr.rem == x && 0 <= qr.rem < y
    ensures t.Contains(qr.quot) && t.Contains(qr.rem)
  {
    DivAtMost(x, y);
    QuotRem(x / y, x % y)
  }

  lemma {:induction false} DivAtMost(x: int, y: int)
    requires x >= 0 && y > 0
    ensures 0 <= x / y <= x
  {
    var q := x / y;
    assert x == y * q + x % y;
    if q > 0 {
      MulAtLeast(y, q);
      assert y * q >= q by {
        MulSub(y, q, 1);
        MulAtLeast(q, y);
      }
    }
  }

  /**
   * `bmm_wrap(x, a, b)`: shifts `x` by multiples of `b - a` into [a, b).
   * Every intermediate value stays inside the type.
   */
  function Wrap(t: IntType, x: int, a: int, b: int): (y: int)
    requires t.Unsigned() && t.Contains(x) && t.Contains(a) && t.Contains(b) && a < b
    ensures y == Shift(x, a, b)
  {
    var c := b - a;
    var r := x % c;
    var s := a % c;
    assert t.Contains(c) && t.Contains(r) && t.Contains(s);
    WrapFormula(x, a, b);
    assert r >= s ==> t.Contains(r - s);
    assert r < s ==> t.Contains(s - r) && t.Contains(c - (s - r));
    (if r >= s then r - s else c - (s - r)) + a
  }

  /** `bmm_uwrap(x, b)`: the same as `bmm_wrap(x, 0, b)`, computed as `x % b`. */
  function UWrap(t: IntType, x: int, b: int): (y: int)
    requires t.Unsigned() && t.Contains(x) && t.Contains(b) && b > 0
    ensures y == Wrap(t, x, 0, b)
    ensures 0 <= y < b
  {
    ShiftUnique(x, 0, b, x % b, -(x / b));
    x % b
  }

  // Mixed-radix index vectors. A radix vector `ns` lists the side lengths of a
  // hypercuboid; the last radix varies fastest.

  predicate Radices(ns: seq<int>) {
    forall k :: 0 <= k < |ns| ==> ns[k] > 0
  }

  /** Digit vectors that fit their radices. */
  predicate DigitsFit(ds: seq<int>, ns: seq<int>) {
    |ds| == |ns| && forall k :: 0 <= k < |ds| ==> 0 <= ds[k] < ns[k]
  }

  /** The number of cells of the hypercuboid with side lengths `ns`. */
  function Prod(ns: seq<int>): (p: int)
    ensures Radices(ns) ==> p > 0
  {
    if |ns| == 0 then 1
    else
      assert Radices(ns) ==> Radices(ns[1..]);
      MulPositive(ns[0], Prod(ns[1..]));
      ns[0] * Prod(ns[1..])
  }

  lemma {:induction false} MulPositive(a: int, b: int)
    ensures a > 0 && b > 0 ==> a * b > 0
  {
    if a > 0 && b > 0 {
      MulAtLeast(b, a);
      assert b * a == a * b;
    }
  }

  /** The side lengths of a hypercube with dimension `ndim` and side length `nper`. */
  function Uniform(ndim: nat, nper: int): (ns: seq<int>)
    ensures |ns| == ndim && forall k :: 0 <= k < ndim ==> ns[k] == nper
  {
    seq(ndim, _ => nper)
  }

  /** Digit `k` of cell `i`: multiples of the product of the radices after `k`, modulo radix `k`. */
  function Digit(i: int, ns: seq<int>, k: int): (d: int)
    requires i >= 0 && Radices(ns) && 0 <= k < |ns|
    ensures 0 <= d < ns[k]
  {
    assert Radices(ns[k + 1..]);
    (i / Prod(ns[k + 1..])) % ns[k]
  }

  /** The index vector of cell `i`, most significant digit first. */
  function Digits(i: int, ns: seq<int>): (ds: seq<int>)
    requires i >= 0 && Radices(ns)
    ensures DigitsFit(ds, ns)
  {
    seq(|ns|, k requires 0 <= k < |ns| => Digit(i, ns, k))
  }

  /** The index of an index vector, accumulated most significant digit first. */
  function Horner(ds: seq<int>, ns: seq<int>): int
    requires |ds| == |ns|
  {
    if |ds| == 0 then 0
    else Horner(ds[..|ds| - 1], ns[..|ns| - 1]) * ns[|ns| - 1] + ds[|ds| - 1]
  }

  lemma {:induction false} ProdSnoc(ns: seq<int>, x: int)
    ensures Prod(ns + [x]) == Prod(ns) * x
  {
    if |ns| == 0 {
      assert ns + [x] == [x] && [x][1..] == [];
    } else {
      var p := Prod(ns[1..]);
      assert (ns + [x])[0] == ns[0];
      assert (ns + [x])[1..] == ns[1..] + [x];
      ProdSnoc(ns[1..], x);
      assert Prod(ns + [x]) == ns[0] * (p * x);
      MulAssoc(ns[0], p, x);
    }
  }

  lemma {:induction false} ProdUniform(ndim: nat, nper: int)
    ensures Prod(Uniform(ndim, nper)) == Pow(nper, ndim)
  {
    if ndim > 0 {
      assert Uniform(ndim, nper)[1..] == Uniform(ndim - 1, nper);
      ProdUniform(ndim - 1, nper);
    }
  }

  /** Dividing twice is dividing by the product. */
  lemma {:induction false} DivDiv(i: int, a: int, b: int)
    requires i >= 0 && a > 0 && b > 0
    ensures i / a / b == i / (a * b)
  {
    var q1 := i / a;
    var q2 := q1 / b;
    assert i == a * q1 + i % a;
    assert q1 == b * q2 + q1 % b;
    MulPositive(a, b);
    assert a * q1 == (a * b) * q2 + a * (q1 % b) by {
      MulAdd(a, b * q2, q1 % b);
      assert a * (b * q2) == (a * b) * q2;
    }
    assert 0 <= a * (q1 % b) + i % a < a * b by {
      MulBelow(a, q1 % b, b);
    }
    DivModUnique(i, a * b, q2, a * (q1 % b) + i % a);
  }

  lemma {:induction false} MulAdd(a: int, b: int, c: int)
    ensures a * (b + c) == a * b + a * c
  {
  }

  /** With `0 <= d < b`, `a * d + (a - 1) < a * b`. */
  lemma {:induction false} MulBelow(a: int, d: int, b: int)
    requires a > 0 && 0 <= d < b
    ensures 0 <= a * d && a * d + a <= a * b
  {
    MulAdd(a, d, 1);
    MulSub(a, b, d + 1);
    MulPositive(a, b - d - 1);
    MulNonNegative(a, d);
  }

  /** Splitting off the last radix: `i mod (P * n)` in terms of `i / n`. */
  lemma {:induction false} ModMul(i: int, p: int, n: int)
    requires i >= 0 && p > 0 && n > 0
    ensures i % (p * n) == ((i / n) % p) * n + i % n
  {
    var q := i / n;
    assert i == n * q + i % n;
    assert q == p * (q / p) + q % p;
    MulPositive(p, n);
    assert i == (p * n) * (q / p) + (n * (q % p) + i % n) by {
      MulAdd(n, p * (q / p), q % p);
      assert n * (p * (q / p)) == (p * n) * (q / p);
    }
    assert 0 <= n * (q % p) + i % n < p * n by {
      MulBelow(n, q % p, p);
    }
    DivModUnique(i, p * n, q / p, n * (q % p) + i % n);
  }

  /** The digit vector of `i` is that of `i / n` over the leading radices, then `i % n`. */
  lemma {:induction false} DigitsSnoc(i: int, ns: seq<int>)
    requires i >= 0 && Radices(ns) && |ns| > 0
    ensures var last := ns[|ns| - 1];
      Digits(i, ns) == Digits(i / last, ns[..|ns| - 1]) + [i % last]
  {
    var last := ns[|ns| - 1];
    var init := ns[..|ns| - 1];
    var lhs := Digits(i, ns);
    var rhs := Digits(i / last, init) + [i % last];
    forall k | 0 <= k < |ns|
      ensures lhs[k] == rhs[k]
    {
      if k < |init| {
        DigitInit(i, ns, k);
      } else {
        assert ns[k + 1..] == [];
      }
    }
  }

  lemma {:induction false} DigitInit(i: int, ns: seq<int>, k: int)
    requires i >= 0 && Radices(ns) && 0 <= k < |ns| - 1
    ensures Digit(i, ns, k) == Digit(i / ns[|ns| - 1], ns[..|ns| - 1], k)
  {
    var last := ns[|ns| - 1];
    var init := ns[..|ns| - 1];
    var tail := init[k + 1..];
    assert ns[k + 1..] == tail + [last];
    ProdSnoc(tail, last);
    assert Radices(tail);
    var p := Prod(tail);
    DivDiv(i, last, p);
    assert p * last == last * p;
  }

  /** Flattening after unflattening gives the index back, modulo the cell count. */
  lemma {:induction false} HornerDigits(i: int, ns: seq<int>)
    requires i >= 0 && Radices(ns)
    ensures Horner(Digits(i, ns), ns) == i % Prod(ns)
    decreases |ns|
  {
    if |ns| == 0 {
      assert i % 1 == 0;
    } else {
      var last := ns[|ns| - 1];
      var init := ns[..|ns| - 1];
      var p := Prod(init);
      assert Radices(init);
      assert Horner(Digits(i, ns), ns) == ((i / last) % p) * last + i % last by {
        var ds := Digits(i, ns);
        var dinit := Digits(i / last, init);
        DigitsSnoc(i, ns);
        assert ds[..|ds| - 1] == dinit;
        HornerDigits(i / last, init);
      }
      assert Prod(ns) == p * last by {
        assert init + [last] == ns;
        ProdSnoc(init, last);
      }
      ModMul(i, p, last);
    }
  }

  /** The index of a fitting digit vector lies inside the hypercuboid. */
  lemma {:induction false} HornerBound(ds: seq<int>, ns: seq<int>)
    requires DigitsFit(ds, ns)
    ensures 0 <= Horner(ds, ns) < Prod(ns)
  {
    if |ds| > 0 {
      var last := ns[|ns| - 1];
      var init := ns[..|ns| - 1];
      HornerBound(ds[..|ds| - 1], init);
      var h := Horner(ds[..|ds| - 1], init);
      assert ns == init + [last];
      ProdSnoc(init, last);
      MulBelow(last, h, Prod(init));
      assert h * last == last * h;
      assert Prod(init) * last == last * Prod(init);
    }
  }

  /** Unflattening after flattening gives the index vector back. */
  lemma {:induction false} DigitsHorner(ds: seq<int>, ns: seq<int>)
    requires DigitsFit(ds, ns)
    ensures Radices(ns) && Horner(ds, ns) >= 0
    ensures Digits(Horner(ds, ns), ns) == ds
  {
    assert Radices(ns) by {
      forall k | 0 <= k < |ns| ensures ns[k] > 0 {
        assert 0 <= ds[k] < ns[k];
      }
    }
    HornerBound(ds, ns);
    if |ds| > 0 {
      var last := ns[|ns| - 1];
      var init := ns[..|ns| - 1];
      var dinit := ds[..|ds| - 1];
      var dlast := ds[|ds| - 1];
      var h := Horner(dinit, init);
      HornerBound(dinit, init);
      assert Horner(ds, ns) == last * h + dlast;
      DivModUnique(Horner(ds, ns), last, h, dlast);
      DigitsSnoc(Horner(ds, ns), ns);
      DigitsHorner(dinit, init);
      assert ds == dinit + [dlast];
    }
  }

  /** The hypercube round trip `bmm_unhc(bmm_hc(i)) == i` for every cell index. */
  lemma {:induction false} HcRoundTrip(t: IntType, i: int, ndim: nat, nper: int)
    requires t.Unsigned() && t.Contains(i) && nper > 0 && i < Pow(nper, ndim)
    ensures Horner(Digits(i, Uniform(ndim, nper)), Uniform(ndim, nper)) % (t.max + 1) == i
  {
    ProdUniform(ndim, nper);
    HcdRoundTrip(t, i, Uniform(ndim, nper));
  }

  /** The hypercuboid round trip `bmm_unhcd(bmm_hcd(i)) == i` for every cell index. */
  lemma {:induction false} HcdRoundTrip(t: IntType, i: int, ns: seq<int>)
    requires t.Unsigned() && t.Contains(i) && Radices(ns) && i < Prod(ns)
    ensures Horner(Digits(i, ns), ns) % (t.max + 1) == i
  {
    HornerDigits(i, ns);
    DivModUnique(i, Prod(ns), 0, i);
    DivModUnique(i, t.max + 1, 0, i);
  }

  /** Digits of an index below the last radix: all leading digits are zero. */
  lemma {:induction false} DigitsSmall(i: int, ns: seq<int>)
    requires Radices(ns) && |ns| > 0 && 0 <= i < ns[|ns| - 1]
    ensures Digits(i, ns) == seq(|ns| - 1, _ => 0) + [i]
  {
    var last := ns[|ns| - 1];
    DigitsSnoc(i, ns);
    DivModUnique(i, last, 0, i);
    ZeroDigits(ns[..|ns| - 1]);
  }

  lemma {:induction false} ZeroDigits(ns: seq<int>)
    requires Radices(ns)
    ensures Digits(0, ns) == seq(|ns|, _ => 0)
  {
    forall k | 0 <= k < |ns| ensures Digits(0, ns)[k] == 0 {
      assert Radices(ns[k + 1..]);
      var p := Prod(ns[k + 1..]);
      DivModUnique(0, p, 0, 0);
      DivModUnique(0, ns[k], 0, 0);
    }
  }

  /** One step of `bmm_hc`: the running quotient gives digit `m` and the next quotient. */
  lemma {:induction false} HcStep(i: int, ns: seq<int>, m: int, q: int)
    requires i >= 0 && Radices(ns) && 0 <= m < |ns| && q == i / Prod(ns[m + 1..])
    ensures q % ns[m] == Digits(i, ns)[m]
    ensures q / ns[m] == i / Prod(ns[m..])
  {
    var tail := ns[m + 1..];
    assert ns[m..][1..] == tail;
    assert Radices(tail);
    var p := Prod(tail);
    DivDiv(i, p, ns[m]);
    assert Prod(ns[m..]) == ns[m] * p;
    assert p * ns[m] == ns[m] * p;
  }

  /** Reducing modulo `m` before each step of a Horner accumulation changes nothing modulo `m`. */
  lemma {:induction false} ModStep(h: int, n: int, d: int, m: int)
    requires m > 0
    ensures (((h % m) * n) % m + d) % m == (h * n + d) % m
  {
    var a := (h % m) * n;
    assert h == m * (h / m) + h % m;
    assert h * n == m * ((h / m) * n) + a by {
      MulAdd(n, m * (h / m), h % m);
      assert n * (m * (h / m)) == m * ((h / m) * n);
      assert (h % m) * n == n * (h % m);
      assert h * n == n * h;
    }
    assert a == m * (a / m) + a % m;
    var k := (h / m) * n + a / m;
    MulAdd(m, (h / m) * n, a / m);
    assert h * n + d == m * k + (a % m + d);
    var e := a % m + d;
    assert e == m * (e / m) + e % m;
    MulAdd(m, k, e / m);
    DivModUnique(h * n + d, m, k + e / m, e % m);
  }

  /**
   * `bmm_hc(pij, i, ndim, nper)`: writes the base-`nper` digits of `i` into
   * `pij[0..ndim]`, most significant first.
   */
  method Hc(t: IntType, pij: array<int>, i: int, ndim: nat, nper: int)
    requires t.Unsigned() && t.Contains(i) && t.Contains(nper) && nper > 0
    requires ndim <= pij.Length
    modifies pij
    ensures pij[..ndim] == Digits(i, Uniform(ndim, nper))
    ensures pij[ndim..] == old(pij[ndim..])
  {
    ghost var ns := Uniform(ndim, nper);
    var q := i;
    for idim := 0 to ndim
      invariant 0 <= q <= i
      invariant q == i / Prod(ns[ndim - idim..])
      invariant forall k :: ndim - idim <= k < ndim ==> pij[k] == Digits(i, ns)[k]
      invariant forall k :: 0 <= k < ndim - idim ==> pij[k] == old(pij[k])
      invariant pij[ndim..] == old(pij[ndim..])
    {
      var qr := Quot(t, q, nper);
      var m := ndim - 1 - idim;
      HcStep(i, ns, m, q);
      DivAtMost(i, Prod(ns[m..]));
      q := qr.quot;
      pij[m] := qr.rem;
    }
    assert ns[0..] == ns;
  }

  /**
   * `bmm_unhc(ij, ndim, nper)`: the cell index of the index vector `ij`. The
   * accumulator is of the unsigned type, so it wraps modulo `max + 1`.
   */
  method Unhc(t: IntType, ij: array<int>, ndim: nat, nper: int) returns (i: int)
    requires t.Unsigned() && t.Contains(nper) && ndim <= ij.Length
    requires forall k :: 0 <= k < ndim ==> t.Contains(ij[k])
    ensures i == Horner(ij[..ndim], Uniform(ndim, nper)) % (t.max + 1)
    ensures t.Contains(i)
  {
    ghost var ns := Uniform(ndim, nper);
    var m := t.max + 1;
    i := 0;
    for idim := 0 to ndim
      invariant i == Horner(ij[..idim], ns[..idim]) % m
    {
      assert ij[..idim + 1][..idim] == ij[..idim];
      assert ns[..idim + 1][..idim] == ns[..idim];
      ModStep(Horner(ij[..idim], ns[..idim]), nper, ij[idim], m);
      i := (i * nper) % m;
      i := (i + ij[idim]) % m;
    }
    assert ns[..ndim] == ns;
  }

  /**
   * `bmm_hcd(pij, i, ndim, nper)`: writes the mixed-radix digits of `i` into
   * `pij[0..ndim]`, with `nper[ndim - 1]` the fastest-varying radix.
   */
  method Hcd(t: IntType, pij: array<int>, i: int, ndim: nat, nper: array<int>)
    requires t.Unsigned() && t.Contains(i) && pij != nper
    requires ndim <= pij.Length && ndim <= nper.Length
    requires forall k :: 0 <= k < ndim ==> t.Contains(nper[k]) && nper[k] > 0
    modifies pij
    ensures Radices(nper[..ndim])
    ensures pij[..ndim] == Digits(i, nper[..ndim])
    ensures pij[ndim..] == old(pij[ndim..])
  {
    ghost var ns := nper[..ndim];
    assert Radices(ns);
    var q := i;
    for idim := 0 to ndim
      invariant 0 <= q <= i
      invariant q == i / Prod(ns[ndim - idim..])
      invariant forall k :: ndim - idim <= k < ndim ==> pij[k] == Digits(i, ns)[k]
      invariant forall k :: 0 <= k < ndim - idim ==> pij[k] == old(pij[k])
      invariant pij[ndim..] == old(pij[ndim..])
    {
      var m := ndim - 1 - idim;
      var qr := Quot(t, q, nper[m]);
      HcStep(i, ns, m, q);
      DivAtMost(i, Prod(ns[m..]));
      q := qr.quot;
      pij[m] := qr.rem;
    }
    assert ns[0..] == ns;
  }

  /**
   * `bmm_unhcd(ij, ndim, nper)`: the cell index of `ij` in the hypercuboid
   * with side lengths `nper`, wrapping modulo `max + 1` like the C type.
   */
  method Unhcd(t: IntType, ij: array<int>, ndim: nat, nper: array<int>) returns (i: int)
    requires t.Unsigned() && ndim <= ij.Length && ndim <= nper.Length
    requires forall k :: 0 <= k < ndim ==> t.Contains(ij[k]) && t.Contains(nper[k])
    ensures i == Horner(ij[..ndim], nper[..ndim]) % (t.max + 1)
    ensures t.Contains(i)
  {
    var m := t.max + 1;
    i := 0;
    for idim := 0 to ndim
      invariant i == Horner(ij[..idim], nper[..idim]) % m
    {
      var n, d := nper[idim], ij[idim];
      ghost var h := Horner(ij[..idim], nper[..idim]);
      assert ij[..idim + 1][..idim] == ij[..idim] && ij[..idim + 1][idim] == d;
      assert nper[..idim + 1][..idim] == nper[..idim] && nper[..idim + 1][idim] == n;
      assert Horner(ij[..idim + 1], nper[..idim + 1]) == h * n + d;
      ModStep(h, n, d, m);
      i := (i * n) % m;
      i := (i + d) % m;
    }
  }

  /** When the hypercuboid fits the type, `bmm_unhcd` does not wrap. */
  lemma {:induction false} UnhcdExact(t: IntType, ds: seq<int>, ns: seq<int>)
    requires t.Unsigned() && DigitsFit(ds, ns) && Prod(ns) <= t.max + 1
    ensures Horner(ds, ns) % (t.max + 1) == Horner(ds, ns)
  {
    HornerBound(ds, ns);
    DivModUnique(Horner(ds, ns), t.max + 1, 0, Horner(ds, ns));
  }
}
