/** IEEE 754 binary floating point as far as the number codec needs it: exact
    values, rounding to nearest-even, and Rust's saturating casts to integers. */
module Doubles {

  /** 2 to an integer power. */
  function Pow2(e: int): (r: real)
    ensures r > 0.0
    decreases if e < 0 then -e else e, 1
  {
    FromNeighbour(e)
  }

  /** A power from the one next to it, nearer to zero. */
  function FromNeighbour(e: int): (r: real)
    ensures r > 0.0
    decreases if e < 0 then -e else e, 0
  {
    if e == 0 then 1.0 else if e > 0 then 2.0 * Pow2(e - 1) else Pow2(e + 1) / 2.0
  }

  lemma {:induction false} Pow2Succ(e: int)
    ensures Pow2(e + 1) == 2.0 * Pow2(e)
  {
  }

  lemma {:induction false} DoubleFactor(x: real, y: real)
    ensures x * (2.0 * y) == 2.0 * (x * y)
  {
  }

  /** The powers `n` and `a + n`, built up together. */
  lemma {:induction false} Pow2AddTo(x: real, a: int, n: nat) returns (y: real, z: real)
    requires x == Pow2(a)
    ensures y == Pow2(n) && z == Pow2(a + n) && z == x * y
    decreases n
  {
    if n > 0 {
      var v, w := Pow2AddTo(x, a, n - 1);
      y, z := 2.0 * v, 2.0 * w;
      Pow2Succ(n - 1);
      Pow2Succ(a + n - 1);
      DoubleFactor(x, v);
    } else {
      y, z := 1.0, x;
    }
  }

  lemma {:induction false} Pow2Add(a: int, n: nat)
    ensures Pow2(a + n) == Pow2(a) * Pow2(n)
  {
    var y, z := Pow2AddTo(Pow2(a), a, n);
  }

  lemma {:induction false} Pow2Monotone(a: int, b: int)
    requires a <= b
    ensures Pow2(a) <= Pow2(b)
    decreases b - a
  {
    if a < b {
      Pow2Monotone(a, b - 1);
      Pow2Succ(b - 1);
    }
  }

  /** A non-negative power of two is an integer, even from the first power on. */
  lemma {:induction false} Pow2Int(n: nat) returns (p: int)
    ensures p > 0 && p as real == Pow2(n)
    ensures n > 0 ==> p % 2 == 0
  {
    if n == 0 {
      p := 1;
    } else {
      var q := Pow2Int(n - 1);
      p := 2 * q;
    }
  }

  /** A binary format: digits of precision and the range of the last digit's exponent. */
  datatype Format = Format(precision: nat, minExp: int, maxExp: int)

  const BINARY64 := Format(53, -1074, 971)
  const BINARY32 := Format(24, -149, 104)

  function Dyadic(m: int, e: int): real { m as real * Pow2(e) }

  ghost predicate Fits(f: Format, m: int, e: int) {
    -Pow2(f.precision) < m as real < Pow2(f.precision) && f.minExp <= e <= f.maxExp
  }

  /** Whether `r` is exactly a finite number of the format. */
  ghost predicate Representable(f: Format, r: real) {
    exists m, e :: Fits(f, m, e) && r == Dyadic(m, e)
  }

  datatype Float = NaN | Infinite(negative: bool) | NegZero | Finite(value: real) {
    predicate IsFinite() { NegZero? || Finite? }

    /** The real number a finite float denotes. */
    function Real(): real
      requires IsFinite()
    {
      if NegZero? then 0.0 else value
    }

    /** Rust's `fract() == 0.0` on a finite float. */
    predicate IsIntegral() { IsFinite() && Real() == Real().Floor as real }
  }

  ghost predicate InFormat(f: Format, d: Float) { d.Finite? ==> Representable(f, d.value) }

  lemma {:induction false} ZeroRepresentable(f: Format)
    requires f.minExp <= f.maxExp
    ensures Representable(f, 0.0)
  {
    assert Fits(f, 0, f.minExp) && 0.0 == Dyadic(0, f.minExp);
  }

  /** A Rust `f64`. */
  type F64 = d: Float | InFormat(BINARY64, d) witness NaN

  /** A Rust `f32`. */
  type F32 = d: Float | InFormat(BINARY32, d) witness NaN

  /** IEEE equality: NaN differs from itself and the two zeros are equal. */
  predicate FloatEq(a: Float, b: Float) {
    && !a.NaN? && !b.NaN?
    && (a.Infinite? || b.Infinite? ==> a == b)
    && (a.IsFinite() && b.IsFinite() ==> a.Real() == b.Real())
  }

  /** IEEE `<=`. */
  predicate FloatLe(a: Float, b: Float) {
    && !a.NaN? && !b.NaN?
    && (a == Infinite(true) || b == Infinite(false)
        || (a.IsFinite() && b.IsFinite() && a.Real() <= b.Real()))
  }

  // --- rounding ---------------------------------------------------------------

  /** The nearest integer to `q`, ties to even. */
  function HalfEven(q: real): int {
    var n := q.Floor;
    var rest := q - n as real;
    if rest < 0.5 || (rest == 0.5 && n % 2 == 0) then n else n + 1
  }

  /** The exponent of the last digit for a magnitude `a`, searched upwards from `e`;
      one past the format's range when `a` is too large for it. */
  function LastDigit(f: Format, a: real, e: int): (r: int)
    requires e <= f.maxExp + 1
    ensures e <= r <= f.maxExp + 1
    ensures r <= f.maxExp ==> a < Pow2(f.precision + r)
    ensures r > e ==> a >= Pow2(f.precision + r - 1)
    decreases f.maxExp + 1 - e
  {
    if e == f.maxExp + 1 || a < Pow2(f.precision + e) then e else LastDigit(f, a, e + 1)
  }

  function Negate(d: Float): Float {
    match d
    case NaN => NaN
    case Infinite(n) => Infinite(!n)
    case NegZero => Finite(0.0)
    case Finite(v) => if v == 0.0 then NegZero else Finite(-v)
  }

  /** Round a non-negative real to the format (section 4.3.1 of IEEE 754-2019). */
  function RoundMagnitude(f: Format, a: real): Float
    requires f.minExp <= f.maxExp
  {
    var e := LastDigit(f, a, f.minExp);
    if e > f.maxExp then Infinite(false)
    else
      var r := Dyadic(HalfEven(a / Pow2(e)), e);
      if r >= Pow2(f.precision + f.maxExp) then Infinite(false) else Finite(r)
  }

  function Round(f: Format, r: real): Float
    requires f.minExp <= f.maxExp
  {
    if r < 0.0 then Negate(RoundMagnitude(f, -r)) else RoundMagnitude(f, r)
  }

  lemma {:induction false} DivBounds(a: real, p: real, u: real)
    requires u > 0.0 && 0.0 <= a < p * u
    ensures 0.0 <= a / u < p
  {
    assert (a / u) * u == a;
  }

  lemma {:induction false} DyadicNegate(m: int, e: int)
    ensures Dyadic(-m, e) == -Dyadic(m, e)
    ensures m > 0 <==> Dyadic(m, e) > 0.0
    ensures m < 0 <==> Dyadic(m, e) < 0.0
  {
    if m > 0 { assert m as real * Pow2(e) > 0.0; } else if m < 0 { assert -m as real * Pow2(e) > 0.0; }
  }

  lemma {:induction false} DyadicShift(m: int, e: int)
    ensures Dyadic(2 * m, e) == Dyadic(m, e + 1)
  {
    Pow2Succ(e);
    assert (2 * m) as real == 2.0 * m as real;
  }

  /** A rounded quotient times its unit is in the format, or is the overflow bound. */
  lemma {:induction false} QuotientInFormat(f: Format, n: int, e: int)
    requires f.precision > 0 && f.minExp <= e <= f.maxExp && 0 <= n
    requires n as real <= Pow2(f.precision)
    requires Dyadic(n, e) < Pow2(f.precision + f.maxExp)
    ensures Representable(f, Dyadic(n, e))
  {
    var h := Pow2Int(f.precision - 1);
    Pow2Succ(f.precision - 1);
    if n < 2 * h {
      assert Fits(f, n, e);
    } else {
      // the carry moves the last digit up by one exponent
      DyadicShift(h, e);
      if e == f.maxExp {
        Pow2Add(e, f.precision);
        assert false;
      }
      assert Fits(f, h, e + 1);
    }
  }

  lemma {:induction false} RepresentableNegate(f: Format, r: real)
    requires Representable(f, r)
    ensures Representable(f, -r)
  {
    var m, e :| Fits(f, m, e) && r == Dyadic(m, e);
    DyadicNegate(m, e);
    assert Fits(f, -m, e);
  }

  lemma {:induction false} HalfEvenBounds(q: real, p: int)
    requires 0.0 <= q < p as real
    ensures 0 <= HalfEven(q) <= p
  {
  }

  lemma {:induction false} QuotientBelow(f: Format, a: real, e: int)
    requires 0.0 <= a < Pow2(f.precision + e)
    ensures 0.0 <= a / Pow2(e) < Pow2(f.precision)
  {
    Pow2Add(e, f.precision);
    DivBounds(a, Pow2(f.precision), Pow2(e));
  }

  lemma {:induction false} MagnitudeInFormat(f: Format, a: real)
    requires f.minExp <= f.maxExp && f.precision > 0 && a >= 0.0
    ensures InFormat(f, RoundMagnitude(f, a))
  {
    var e := LastDigit(f, a, f.minExp);
    if e <= f.maxExp {
      var p := Pow2Int(f.precision);
      QuotientBelow(f, a, e);
      var q := a / Pow2(e);
      HalfEvenBounds(q, p);
      if Dyadic(HalfEven(q), e) < Pow2(f.precision + f.maxExp) {
        QuotientInFormat(f, HalfEven(q), e);
      }
    }
  }

  /** Rounding lands in the format, whatever the operand. */
  lemma {:induction false} RoundInFormat(f: Format, r: real)
    requires f.minExp <= f.maxExp && f.precision > 0
    ensures InFormat(f, Round(f, r))
  {
    MagnitudeInFormat(f, if r < 0.0 then -r else r);
    var d := RoundMagnitude(f, if r < 0.0 then -r else r);
    if r < 0.0 && d.Finite? {
      RepresentableNegate(f, d.value);
      ZeroRepresentable(f);
    }
  }

  lemma {:induction false} MulLess(a: real, b: real, x: real)
    requires a < b && x > 0.0
    ensures a * x < b * x
  {
    assert (b - a) * x > 0.0;
  }

  lemma {:induction false} BelowTop(f: Format, m: int, k: int)
    requires Fits(f, m, k)
    ensures Dyadic(m, k) < Pow2(f.precision + k)
  {
    Pow2Add(k, f.precision);
    MulLess(m as real, Pow2(f.precision), Pow2(k));
  }

  lemma {:induction false} LastDigitAtMost(f: Format, m: int, k: int)
    requires f.minExp <= f.maxExp && 0 <= m && Fits(f, m, k)
    ensures LastDigit(f, Dyadic(m, k), f.minExp) <= k
    ensures Dyadic(m, k) < Pow2(f.precision + f.maxExp)
  {
    var a := Dyadic(m, k);
    BelowTop(f, m, k);
    var e := LastDigit(f, a, f.minExp);
    if e > k {
      Pow2Monotone(f.precision + k, f.precision + e - 1);
    }
    Pow2Monotone(f.precision + k, f.precision + f.maxExp);
  }

  lemma {:induction false} HalfEvenInt(n: int)
    ensures HalfEven(n as real) == n
  {
  }

  lemma {:induction false} ScaledQuotient(a: real, m: int, s: int, pk: real, pe: real) returns (n: int)
    requires pe > 0.0 && pk == pe * s as real && a == m as real * pk
    ensures a / pe == n as real && n as real * pe == a
  {
    n := m * s;
    assert n as real == m as real * s as real;
    assert m as real * (pe * s as real) == (m as real * s as real) * pe;
    assert ((m as real * s as real) * pe) / pe == m as real * s as real;
  }

  lemma {:induction false} UnitMultiple(k: int, e: int) returns (s: int)
    requires e <= k
    ensures Pow2(k) == Pow2(e) * s as real
  {
    s := Pow2Int(k - e);
    Pow2Add(e, k - e);
  }

  /** Changing the unit of a dyadic to a finer one keeps it an integer multiple. */
  lemma {:induction false} FinerUnit(m: int, k: int, e: int) returns (n: int)
    requires e <= k
    ensures Dyadic(m, k) / Pow2(e) == n as real && Dyadic(n, e) == Dyadic(m, k)
  {
    var s := UnitMultiple(k, e);
    n := ScaledQuotient(Dyadic(m, k), m, s, Pow2(k), Pow2(e));
  }

  lemma {:induction false} MagnitudeExact(f: Format, m: int, k: int)
    requires f.minExp <= f.maxExp && 0 <= m && Fits(f, m, k)
    ensures RoundMagnitude(f, Dyadic(m, k)) == Finite(Dyadic(m, k))
  {
    LastDigitAtMost(f, m, k);
    var e := LastDigit(f, Dyadic(m, k), f.minExp);
    var n := FinerUnit(m, k, e);
    HalfEvenInt(n);
  }

  /** Rounding a number that is already in the format does nothing. */
  lemma {:induction false} RoundExact(f: Format, r: real)
    requires f.minExp <= f.maxExp && Representable(f, r)
    ensures Round(f, r) == Finite(r)
  {
    var m, k :| Fits(f, m, k) && r == Dyadic(m, k);
    DyadicNegate(m, k);
    MagnitudeExact(f, if m < 0 then -m else m, k);
  }

  // --- the rounding rule ------------------------------------------------------

  function Distance(x: real, y: real): real { if x < y then y - x else x - y }

  function Magnitude(r: real): real { if r < 0.0 then -r else r }

  /** No integer is nearer, and one as near leaves an even result. */
  lemma {:induction false} HalfEvenNearest(q: real, n: int)
    ensures Distance(HalfEven(q) as real, q) <= Distance(n as real, q)
    ensures Distance(HalfEven(q) as real, q) == Distance(n as real, q) && n != HalfEven(q) ==> HalfEven(q) % 2 == 0
  {
  }

  lemma {:induction false} ProductOrder(x: real, y: real, u: real, xu: real, yu: real)
    requires u > 0.0 && xu == x * u && yu == y * u
    ensures xu < yu <==> x < y
    ensures xu == yu <==> x == y
  {
    if x < y { MulLess(x, y, u); } else if y < x { MulLess(y, x, u); }
  }

  lemma {:induction false} DistanceScales(x: real, y: real, u: real, xu: real, yu: real)
    requires u > 0.0 && xu == x * u && yu == y * u
    ensures Distance(xu, yu) == Distance(x, y) * u
  {
    ProductOrder(x, y, u, xu, yu);
    assert (x - y) * u == xu - yu;
    assert (y - x) * u == yu - xu;
  }

  lemma {:induction false} DistancesScale(x: real, y: real, q: real, u: real, xu: real, yu: real, qu: real)
    requires u > 0.0 && xu == x * u && yu == y * u && qu == q * u
    ensures Distance(xu, qu) < Distance(yu, qu) <==> Distance(x, q) < Distance(y, q)
    ensures Distance(xu, qu) == Distance(yu, qu) <==> Distance(x, q) == Distance(y, q)
  {
    DistanceScales(x, q, u, xu, qu);
    DistanceScales(y, q, u, yu, qu);
    ProductOrder(Distance(x, q), Distance(y, q), u, Distance(xu, qu), Distance(yu, qu));
  }

  lemma {:induction false} QuotientTimes(a: real, u: real)
    requires u > 0.0
    ensures (a / u) * u == a
  {
  }

  lemma {:induction false} NearestTimes(a: real, q: real, u: real, n: int, x: real, y: real)
    requires u > 0.0 && q * u == a && x == HalfEven(q) as real * u && y == n as real * u
    ensures Distance(x, a) <= Distance(y, a)
    ensures Distance(x, a) == Distance(y, a) && x != y ==> HalfEven(q) % 2 == 0
  {
    HalfEvenNearest(q, n);
    DistancesScale(HalfEven(q) as real, n as real, q, u, x, y, a);
  }

  /** The nearest number with last digit `e`, and the tie rule. */
  lemma {:induction false} NearestDyadic(a: real, e: int, n: int)
    ensures var h := HalfEven(a / Pow2(e));
            && Distance(Dyadic(h, e), a) <= Distance(Dyadic(n, e), a)
            && (Distance(Dyadic(h, e), a) == Distance(Dyadic(n, e), a) && Dyadic(h, e) != Dyadic(n, e) ==> h % 2 == 0)
  {
    QuotientTimes(a, Pow2(e));
    NearestTimes(a, a / Pow2(e), Pow2(e), n, Dyadic(HalfEven(a / Pow2(e)), e), Dyadic(n, e));
  }

  lemma {:induction false} DyadicPow2(n: nat, e: int) returns (h: int)
    ensures h > 0 && h as real == Pow2(n) && Dyadic(h, e) == Pow2(e + n)
    ensures n > 0 ==> h % 2 == 0
  {
    h := Pow2Int(n);
    Pow2Add(e, n);
  }

  lemma {:induction false} BelowIsFurther(x: real, bottom: real, y: real, a: real)
    requires Distance(x, a) <= Distance(bottom, a) && y < bottom <= a
    ensures Distance(x, a) < Distance(y, a)
  {
  }

  /** A number with a finer last digit than the result's lies further off, below the
      least number with as many digits. */
  lemma {:induction false} FinerIsFurther(f: Format, a: real, m: int, k: int, e: int)
    requires f.precision > 0 && Fits(f, m, k) && k < e && a >= Pow2(f.precision + e - 1)
    ensures Distance(Dyadic(HalfEven(a / Pow2(e)), e), a) < Distance(Dyadic(m, k), a)
  {
    var h := DyadicPow2(f.precision - 1, e);
    BelowTop(f, m, k);
    Pow2Monotone(f.precision + k, f.precision + e - 1);
    NearestDyadic(a, e, h);
    BelowIsFurther(Dyadic(HalfEven(a / Pow2(e)), e), Dyadic(h, e), Dyadic(m, k), a);
  }

  /** The last digit of `x` at exponent `e` is even. */
  ghost predicate EvenAt(x: real, e: int) { exists n :: n % 2 == 0 && x == Dyadic(n, e) }

  /** What the rounding rule of section 4.3.1 asks of a finite result `x` for `r`: no
      number `y` of the format is nearer, and one as near leaves an even last digit. */
  ghost predicate IsNearest(f: Format, x: real, r: real, y: real)
    requires f.minExp <= f.maxExp
  {
    && Distance(x, r) <= Distance(y, r)
    && (Distance(x, r) == Distance(y, r) && x != y ==> EvenAt(x, LastDigit(f, Magnitude(r), f.minExp)))
  }

  lemma {:induction false} CoarserNotNearer(a: real, m: int, k: int, e: int)
    requires e <= k
    ensures var x := Dyadic(HalfEven(a / Pow2(e)), e);
            && Distance(x, a) <= Distance(Dyadic(m, k), a)
            && (Distance(x, a) == Distance(Dyadic(m, k), a) && x != Dyadic(m, k) ==> EvenAt(x, e))
  {
    var n := FinerUnit(m, k, e);
    NearestDyadic(a, e, n);
  }

  lemma {:induction false} MagnitudeNearest(f: Format, a: real, m: int, k: int)
    requires f.minExp <= f.maxExp && f.precision > 0 && a >= 0.0 && Fits(f, m, k)
    requires RoundMagnitude(f, a).Finite?
    ensures IsNearest(f, RoundMagnitude(f, a).value, a, Dyadic(m, k))
  {
    var e := LastDigit(f, a, f.minExp);
    if k < e { FinerIsFurther(f, a, m, k, e); } else { CoarserNotNearer(a, m, k, e); }
  }

  lemma {:induction false} NegatedNearest(f: Format, x: real, r: real, y: real)
    requires f.minExp <= f.maxExp && IsNearest(f, x, r, y)
    ensures IsNearest(f, -x, -r, -y)
  {
    var e := LastDigit(f, Magnitude(r), f.minExp);
    if EvenAt(x, e) {
      var n :| n % 2 == 0 && x == Dyadic(n, e);
      DyadicNegate(n, e);
      assert (-n) % 2 == 0;
    }
  }

  /** Rounding is to nearest, ties to even. */
  lemma {:induction false} RoundNearest(f: Format, r: real, y: real)
    requires f.minExp <= f.maxExp && f.precision > 0 && Round(f, r).IsFinite() && Representable(f, y)
    ensures Representable(f, Round(f, r).Real()) && IsNearest(f, Round(f, r).Real(), r, y)
  {
    RoundInFormat(f, r);
    ZeroRepresentable(f);
    var m, k :| Fits(f, m, k) && y == Dyadic(m, k);
    if r < 0.0 {
      DyadicNegate(m, k);
      MagnitudeNearest(f, -r, -m, k);
      NegatedNearest(f, RoundMagnitude(f, -r).value, -r, -y);
    } else {
      MagnitudeNearest(f, r, m, k);
    }
  }

  /** The least number too large for the format, less half a unit of the last digit. */
  function OverflowBound(f: Format): real { Pow2(f.precision + f.maxExp) - Pow2(f.maxExp - 1) }

  lemma {:induction false} TopQuotient(q: real, p: int)
    requires 0.0 <= q < p as real && p % 2 == 0
    ensures HalfEven(q) >= p <==> q >= p as real - 0.5
  {
  }

  /** At the top exponent: half a unit from the top carries over it. */
  lemma {:induction false} TopTimes(a: real, q: real, u: real, p: int, x: real, top: real)
    requires u > 0.0 && q * u == a && 0.0 <= q < p as real && p % 2 == 0
    requires x == HalfEven(q) as real * u && top == p as real * u
    ensures x >= top <==> a >= top - u / 2.0
  {
    TopQuotient(q, p);
    ProductOrder(HalfEven(q) as real, p as real, u, x, top);
    ProductOrder(q, p as real - 0.5, u, a, top - u / 2.0);
  }

  lemma {:induction false} BoundBetween(f: Format)
    requires f.precision > 0
    ensures Pow2(f.precision + f.maxExp - 1) <= OverflowBound(f) < Pow2(f.precision + f.maxExp)
  {
    Pow2Succ(f.precision + f.maxExp - 1);
    Pow2Monotone(f.maxExp - 1, f.precision + f.maxExp - 1);
  }

  lemma {:induction false} DyadicOrder(m: int, n: int, e: int)
    requires m <= n
    ensures Dyadic(m, e) <= Dyadic(n, e)
  {
    if m < n { MulLess(m as real, n as real, Pow2(e)); }
  }

  /** Below the top exponent: no rounded magnitude reaches the top. */
  lemma {:induction false} BelowOverflow(f: Format, a: real, e: int, h: int)
    requires f.precision > 0 && e < f.maxExp && a < Pow2(f.precision + e) && h as real <= Pow2(f.precision)
    ensures a < OverflowBound(f) && Dyadic(h, e) < Pow2(f.precision + f.maxExp)
  {
    BoundBetween(f);
    Pow2Monotone(f.precision + e, f.precision + f.maxExp - 1);
    var n := DyadicPow2(f.precision, e);
    DyadicOrder(h, n, e);
  }

  lemma {:induction false} MagnitudeOverflows(f: Format, a: real)
    requires f.minExp <= f.maxExp && f.precision > 0 && a >= 0.0
    ensures RoundMagnitude(f, a).Infinite? <==> a >= OverflowBound(f)
  {
    var e := LastDigit(f, a, f.minExp);
    if e > f.maxExp {
      BoundBetween(f);
    } else if e == f.maxExp {
      MagnitudeAtTop(f, a);
    } else {
      UnderTopExponent(f, a, e);
    }
  }

  lemma {:induction false} AtTopExponent(f: Format, a: real, q: real)
    requires f.precision > 0 && q * Pow2(f.maxExp) == a && 0.0 <= q < Pow2(f.precision)
    ensures Dyadic(HalfEven(q), f.maxExp) >= Pow2(f.precision + f.maxExp) <==> a >= OverflowBound(f)
  {
    var p := DyadicPow2(f.precision, f.maxExp);
    TopDyadic(a, q, p, f.maxExp);
    Pow2Succ(f.maxExp - 1);
  }

  lemma {:induction false} MagnitudeAtTop(f: Format, a: real)
    requires f.precision > 0 && 0.0 <= a < Pow2(f.precision + f.maxExp)
    ensures Dyadic(HalfEven(a / Pow2(f.maxExp)), f.maxExp) >= Pow2(f.precision + f.maxExp) <==> a >= OverflowBound(f)
  {
    QuotientBelow(f, a, f.maxExp);
    QuotientTimes(a, Pow2(f.maxExp));
    AtTopExponent(f, a, a / Pow2(f.maxExp));
  }

  lemma {:induction false} TopDyadic(a: real, q: real, p: int, e: int)
    requires q * Pow2(e) == a && 0.0 <= q < p as real && p % 2 == 0
    ensures Dyadic(HalfEven(q), e) >= Dyadic(p, e) <==> a >= Dyadic(p, e) - Pow2(e) / 2.0
  {
    TopTimes(a, q, Pow2(e), p, Dyadic(HalfEven(q), e), Dyadic(p, e));
  }

  lemma {:induction false} UnderTopExponent(f: Format, a: real, e: int)
    requires f.precision > 0 && e < f.maxExp && 0.0 <= a < Pow2(f.precision + e)
    ensures a < OverflowBound(f) && Dyadic(HalfEven(a / Pow2(e)), e) < Pow2(f.precision + f.maxExp)
  {
    var p := Pow2Int(f.precision);
    QuotientBelow(f, a, e);
    HalfEvenBounds(a / Pow2(e), p);
    BelowOverflow(f, a, e, HalfEven(a / Pow2(e)));
  }

  /** And a result is infinite exactly from half a unit past the greatest number on. */
  lemma {:induction false} RoundOverflows(f: Format, r: real)
    requires f.minExp <= f.maxExp && f.precision > 0
    ensures Round(f, r).Infinite? <==> Magnitude(r) >= OverflowBound(f)
    ensures !Round(f, r).NaN? && (Round(f, r).Infinite? ==> (Round(f, r).negative <==> r < 0.0))
  {
    MagnitudeOverflows(f, Magnitude(r));
  }

  // --- casts ------------------------------------------------------------------

  /** Truncation toward zero. */
  function Trunc(r: real): int { if r < 0.0 then -(-r).Floor else r.Floor }

  function Clamp(n: int, lo: int, hi: int): int { if n < lo then lo else if n > hi then hi else n }

  /** Rust's `as` from a float to an integer type with bounds `lo` and `hi`. */
  function CastToInt(d: Float, lo: int, hi: int): int {
    match d
    case NaN => 0
    case Infinite(n) => if n then lo else hi
    case _ => Clamp(Trunc(d.Real()), lo, hi)
  }

  /** What the cast means: a finite float within the bounds goes to the integer next to it
      toward zero, one beyond them to the nearer bound, and NaN to zero. */
  lemma {:induction false} CastTruncates(d: Float, lo: int, hi: int)
    requires lo <= 0 <= hi
    ensures lo <= CastToInt(d, lo, hi) <= hi
    ensures d.IsFinite() && lo as real - 1.0 < d.Real() < hi as real + 1.0 ==>
              var n := CastToInt(d, lo, hi) as real;
              if d.Real() < 0.0 then n - 1.0 < d.Real() <= n <= 0.0 else 0.0 <= n <= d.Real() < n + 1.0
    ensures d == Infinite(true) || (d.IsFinite() && d.Real() <= lo as real) ==> CastToInt(d, lo, hi) == lo
    ensures d == Infinite(false) || (d.IsFinite() && d.Real() >= hi as real) ==> CastToInt(d, lo, hi) == hi
    ensures d.NaN? ==> CastToInt(d, lo, hi) == 0
  {
  }

  /** Rust's `as f64` from an integer. */
  function IntToF64(n: int): (d: F64) {
    RoundInFormat(BINARY64, n as real);
    Round(BINARY64, n as real)
  }

  /** Rust's `as f32` from an `f64`. */
  function Narrow(d: F64): F32 {
    if d.Finite? then
      RoundInFormat(BINARY32, d.value);
      Round(BINARY32, d.value)
    else d
  }

  /** Every `f32` is an `f64`. */
  lemma {:induction false} WidenExact(r: real)
    requires Representable(BINARY32, r)
    ensures Representable(BINARY64, r)
  {
    var m, e :| Fits(BINARY32, m, e) && r == Dyadic(m, e);
    Pow2Monotone(24, 53);
    assert Fits(BINARY64, m, e);
  }

  function Widen(d: F32): F64 {
    if d.Finite? then WidenExact(d.value); d else d
  }

  lemma {:induction false} DyadicBound(m: int, e: int, b: real)
    requires e <= 0 && m as real < b && b > 0.0
    ensures Dyadic(m, e) < b
  {
    Pow2Monotone(e, 0);
    if m > 0 { assert m as real * Pow2(e) <= m as real * 1.0; } else { DyadicNegate(m, e); }
  }

  lemma {:induction false} EvenProduct(n: int, m: int, p: int)
    requires p % 2 == 0 && n as real == m as real * p as real
    ensures n % 2 == 0
  {
    assert m as real * p as real == (m * p) as real;
    assert m * p == 2 * (m * (p / 2));
  }

  /** A representable integer of at least 2^precision is even, so a larger odd
      integer is not in the format. */
  lemma {:induction false} OddTooWide(f: Format, n: int)
    requires n % 2 == 1 && n as real >= Pow2(f.precision)
    ensures !Representable(f, n as real)
  {
    if Representable(f, n as real) {
      var m, e :| Fits(f, m, e) && n as real == Dyadic(m, e);
      if e <= 0 {
        DyadicBound(m, e, Pow2(f.precision));
      } else {
        var p := Pow2Int(e);
        EvenProduct(n, m, p);
      }
    }
  }

  const TWO63 := 0x8000_0000_0000_0000
  const TWO127 := 0x8000_0000_0000_0000_0000_0000_0000_0000

  lemma {:induction false} Pow2Product(a: int, b: nat, x: int, y: int)
    requires Pow2(a) == x as real && Pow2(b) == y as real
    ensures Pow2(a + b) == (x * y) as real
  {
    Pow2Add(a, b);
  }

  lemma {:induction false} Pow2Values()
    ensures Pow2(10) == 1024.0
    ensures Pow2(53) == 0x20_0000_0000_0000 as real
    ensures Pow2(62) == 0x4000_0000_0000_0000 as real
    ensures Pow2(63) == TWO63 as real
    ensures Pow2(127) == TWO127 as real
  {
    Pow2Product(1, 1, 2, 2);
    Pow2Product(2, 1, 4, 2);
    Pow2Product(3, 2, 8, 4);
    Pow2Product(5, 5, 32, 32);
    Pow2Product(10, 10, 0x400, 0x400);
    Pow2Product(20, 20, 0x10_0000, 0x10_0000);
    Pow2Product(40, 10, 0x100_0000_0000, 0x400);
    Pow2Product(50, 3, 0x4_0000_0000_0000, 8);
    Pow2Product(50, 10, 0x4_0000_0000_0000, 0x400);
    Pow2Product(60, 2, 0x1000_0000_0000_0000, 4);
    Pow2Product(62, 1, 0x4000_0000_0000_0000, 2);
    Pow2Product(63, 63, TWO63, TWO63);
    Pow2Product(126, 1, TWO63 * TWO63, 2);
  }

  lemma {:induction false} LastDigitIs(f: Format, a: real, from: int, e: int)
    requires from <= e <= f.maxExp
    requires a < Pow2(f.precision + e)
    requires from < e ==> a >= Pow2(f.precision + e - 1)
    ensures LastDigit(f, a, from) == e
    decreases e - from
  {
    if from < e {
      Pow2Monotone(f.precision + from, f.precision + e - 1);
      LastDigitIs(f, a, from + 1, e);
    }
  }

  /** `i64::MAX as f64` is 2^63: the tie-free round up that undoes the saturating
      cast of 2^63 to `i64::MAX`. */
  lemma {:induction false} MaxRoundsUp()
    ensures IntToF64(TWO63 - 1) == Finite(TWO63 as real)
  {
    Pow2Values();
    var a := (TWO63 - 1) as real;
    LastDigitIs(BINARY64, a, BINARY64.minExp, 10);
    var q := a / Pow2(10);
    assert q == 9007199254740992.0 - 0.0009765625;
    assert HalfEven(q) == 9007199254740992;
    Pow2Monotone(64, 53 + 971);
    Pow2Succ(63);
  }

  /** Small integers, and powers of two, convert exactly. */
  lemma {:induction false} IntExact(n: int)
    requires Representable(BINARY64, n as real)
    ensures IntToF64(n) == Finite(n as real)
  {
    RoundExact(BINARY64, n as real);
  }

  lemma {:induction false} MinExact()
    ensures IntToF64(-TWO63) == Finite(-TWO63 as real)
    ensures Representable(BINARY64, TWO63 as real)
  {
    Pow2Values();
    Pow2Monotone(0, 53);
    assert Fits(BINARY64, -1, 63) && Fits(BINARY64, 1, 63) by { Pow2Monotone(1, 53); }
    assert Dyadic(-1, 63) == (-TWO63) as real && Dyadic(1, 63) == TWO63 as real;
    IntExact(-TWO63);
  }
}
