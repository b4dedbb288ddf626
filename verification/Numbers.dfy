/** The three-case `Number` of terraform-value and its wire forms. */
module Numbers {
  import opened Doubles
  import opened Wrappers

  const I64_MIN := -0x8000_0000_0000_0000
  const I64_MAX := 0x7FFF_FFFF_FFFF_FFFF
  const U64_MAX := 0xFFFF_FFFF_FFFF_FFFF
  const I128_MIN := -0x8000_0000_0000_0000_0000_0000_0000_0000
  const I128_MAX := 0x7FFF_FFFF_FFFF_FFFF_FFFF_FFFF_FFFF_FFFF

  type i64 = n: int | I64_MIN <= n <= I64_MAX
  type u64 = n: int | 0 <= n <= U64_MAX

  /** An integer a msgpack int or uint can carry. */
  type wireint = n: int | I64_MIN <= n <= U64_MAX

  datatype Number = I64(i: i64) | U64(u: u64) | F64(f: F64) {

    predicate IsNaN() { F64? && f.NaN? }

    /** The exact integer when the number is integral and within `i128`; the cast
        from a float saturates. */
    function AsIntegral(): Option<int> {
      match this
      case I64(n) => Some(n)
      case U64(n) => Some(n)
      case F64(d) =>
        if d.IsIntegral() && I128_MIN as real <= d.Real() <= TWO127 as real
        then Some(CastToInt(d, I128_MIN, I128_MAX)) else None
    }

    function ToF64(): F64 {
      match this
      case I64(n) => IntToF64(n)
      case U64(n) => IntToF64(n)
      case F64(d) => d
    }

    /** Saturating for floats, wrapping for `u64`. */
    function ToI64(): i64 {
      match this
      case I64(n) => n
      case U64(n) => Wrap(n, true, 64)
      case F64(d) => CastToInt(d, I64_MIN, I64_MAX)
    }

    /** Saturating for floats, wrapping for `i64`. */
    function ToU64(): u64 {
      match this
      case I64(n) => Wrap(n, false, 64)
      case U64(n) => n
      case F64(d) => CastToInt(d, 0, U64_MAX)
    }
  }

  /** The integer widths a model may use; pointer-sized integers are 64-bit. */
  datatype Width = W8 | W16 | W32 | W64 {
    function Modulus(): int {
      match this
      case W8 => 0x100
      case W16 => 0x1_0000
      case W32 => 0x1_0000_0000
      case W64 => 0x1_0000_0000_0000_0000
    }
  }

  predicate InRange(n: int, signed: bool, w: Width) {
    if signed then -(w.Modulus() / 2) <= n < w.Modulus() / 2 else 0 <= n < w.Modulus()
  }

  /** Rust's wrapping `as` between integer types. */
  function WrapTo(n: int, signed: bool, w: Width): (r: int)
    ensures InRange(r, signed, w)
    ensures InRange(n, signed, w) ==> r == n
  {
    var m := n % w.Modulus();
    if signed && m >= w.Modulus() / 2 then m - w.Modulus() else m
  }

  function Wrap(n: int, signed: bool, bits: nat): (r: int)
    requires bits == 64
    ensures InRange(r, signed, W64)
    ensures InRange(n, signed, W64) ==> r == n
  {
    WrapTo(n, signed, W64)
  }

  /** `PartialEq for Number`. */
  predicate NumberEq(a: Number, b: Number) {
    match (a.AsIntegral(), b.AsIntegral())
    case (Some(x), Some(y)) => x == y
    case _ => FloatEq(a.ToF64(), b.ToF64())
  }

  /** The mathematical value of a number that is not NaN. */
  datatype Extended = NegInf | Exact(r: real) | PosInf

  function MathValue(n: Number): Extended
    requires !n.IsNaN()
  {
    match n
    case I64(i) => Exact(i as real)
    case U64(u) => Exact(u as real)
    case F64(d) => if d.Infinite? then (if d.negative then NegInf else PosInf) else Exact(d.Real())
  }

  lemma {:induction false} NotRepresentableMax128()
    ensures !Representable(BINARY64, I128_MAX as real)
  {
    Pow2Values();
    OddTooWide(BINARY64, I128_MAX);
  }

  /** The integer view is the mathematical value, except that 2^127 saturates. */
  lemma {:induction false} AsIntegralValue(n: Number)
    requires n.AsIntegral().Some?
    ensures !n.IsNaN() && MathValue(n).Exact?
    ensures var x := n.AsIntegral().value;
            if MathValue(n) == Exact(TWO127 as real) then x == I128_MAX else MathValue(n) == Exact(x as real)
  {
    if n.F64? {
      var r := n.f.Real();
      var k := r.Floor;
      assert r == k as real;
      assert Trunc(r) == k;
      assert I128_MIN <= k <= TWO127;
    }
  }

  lemma {:induction false} NoIntegralView(a: Number, b: Number)
    requires !a.IsNaN() && !b.IsNaN() && a.AsIntegral().None? && b.AsIntegral().Some?
    ensures MathValue(a) != MathValue(b)
  {
    AsIntegralValue(b);
    if b.I64? || b.U64? {
      assert MathValue(b).r == MathValue(b).r.Floor as real;
    }
  }

  lemma {:induction false} FitsExactly(a: nat)
    requires a as real < Pow2(53)
    ensures Representable(BINARY64, a as real)
  {
    assert Fits(BINARY64, a, 0) && a as real == Dyadic(a, 0);
  }

  lemma {:induction false} LastDigitRange(a: nat)
    requires a <= U64_MAX && a as real >= Pow2(53)
    ensures 1 <= LastDigit(BINARY64, a as real, BINARY64.minExp) <= 11
  {
    var e := LastDigit(BINARY64, a as real, BINARY64.minExp);
    if e <= 0 { Pow2Monotone(53 + e, 53); }
    if e > 11 {
      Pow2Values();
      Pow2Succ(63);
      Pow2Monotone(64, 53 + e - 1);
    }
  }

  lemma {:induction false} IntegerProduct(n: int, p: int)
    ensures n as real * p as real == (n as real * p as real).Floor as real
  {
    assert n as real * p as real == (n * p) as real;
  }

  lemma {:induction false} RoundedIs(f: Format, a: real, e: int, n: int)
    requires f.minExp <= f.maxExp && e == LastDigit(f, a, f.minExp) && e <= f.maxExp
    requires n == HalfEven(a / Pow2(e)) && Dyadic(n, e) < Pow2(f.precision + f.maxExp)
    ensures RoundMagnitude(f, a) == Finite(Dyadic(n, e))
  {
  }

  lemma {:induction false} WideQuotient(f: Format, a: nat, e: int) returns (n: int)
    requires f.precision > 0 && a as real < Pow2(f.precision + e)
    ensures n == HalfEven(a as real / Pow2(e)) && 0 <= n && n as real <= Pow2(f.precision)
  {
    var p := Pow2Int(f.precision);
    QuotientBelow(f, a as real, e);
    HalfEvenBounds(a as real / Pow2(e), p);
    n := HalfEven(a as real / Pow2(e));
  }

  lemma {:induction false} WideBounds(p: nat, n: int, e: nat)
    requires e <= 11 && 0 <= n && n as real <= Pow2(p)
    ensures 0.0 <= Dyadic(n, e) <= Pow2(p + 11)
  {
    var top := DyadicPow2(p, e);
    DyadicOrder(0, n, e);
    DyadicOrder(n, top, e);
    Pow2Monotone(e + p, p + 11);
  }

  lemma {:induction false} DyadicInteger(n: int, e: nat)
    ensures Dyadic(n, e) == Dyadic(n, e).Floor as real
  {
    var u := Pow2Int(e);
    IntegerProduct(n, u);
    assert Dyadic(n, e) == n as real * u as real;
  }

  /** The wide case: the last digit is worth at least two, and the result stays far
      below overflow. */
  lemma {:induction false} RoundWideInteger(f: Format, a: nat) returns (r: real)
    requires f == BINARY64 && a <= U64_MAX && a as real >= Pow2(f.precision)
    ensures RoundMagnitude(f, a as real) == Finite(r) && 0.0 <= r <= Pow2(64) && r == r.Floor as real
  {
    LastDigitRange(a);
    var e := LastDigit(f, a as real, f.minExp);
    var n := WideQuotient(f, a, e);
    r := Dyadic(n, e);
    WideBounds(f.precision, n, e);
    DyadicInteger(n, e);
    BelowOverflow(f, r);
    RoundedIs(f, a as real, e, n);
  }

  lemma {:induction false} BelowOverflow(f: Format, r: real)
    requires f.precision + f.maxExp > 64 && r <= Pow2(64)
    ensures r < Pow2(f.precision + f.maxExp)
  {
    Pow2Succ(64);
    Pow2Monotone(65, f.precision + f.maxExp);
  }

  lemma {:induction false} RoundMagnitudeInteger(f: Format, a: nat) returns (r: real)
    requires f == BINARY64 && a <= U64_MAX
    ensures RoundMagnitude(f, a as real) == Finite(r) && 0.0 <= r <= TWO127 as real && r == r.Floor as real
  {
    Pow2Values();
    Pow2Monotone(64, 127);
    if a as real < Pow2(53) {
      FitsExactly(a);
      RoundExact(f, a as real);
      r := a as real;
    } else {
      r := RoundWideInteger(f, a);
    }
  }

  lemma {:induction false} NegateIntegral(r: real)
    requires r == r.Floor as real
    ensures Negate(Finite(r)).IsIntegral() && Negate(Finite(r)).Real() == -r
  {
    var k := r.Floor;
    assert -r == (-k) as real;
    assert ((-k) as real).Floor == -k;
  }

  lemma {:induction false} IntToF64Is(n: int, r: real)
    requires RoundMagnitude(BINARY64, (if n < 0 then -n else n) as real) == Finite(r)
    ensures IntToF64(n) == if n < 0 then Negate(Finite(r)) else Finite(r)
  {
  }

  /** Converting an integer case to `f64` lands on an integer, so comparing through
      `f64` never equates it with a number that has no integer view. */
  lemma {:induction false} IntToF64Integral(n: int)
    requires I64_MIN <= n <= U64_MAX
    ensures IntToF64(n).IsIntegral()
    ensures I128_MIN as real <= IntToF64(n).Real() <= TWO127 as real
  {
    var r := RoundMagnitudeInteger(BINARY64, if n < 0 then -n else n);
    IntToF64Is(n, r);
    NegateIntegral(r);
  }


  /** Equality is by mathematical value across the three cases. */
  lemma {:induction false} EqIsMathEquality(a: Number, b: Number)
    requires !a.IsNaN() && !b.IsNaN()
    ensures NumberEq(a, b) <==> MathValue(a) == MathValue(b)
  {
    NotRepresentableMax128();
    match (a.AsIntegral(), b.AsIntegral())
    case (Some(_), Some(_)) =>
      AsIntegralValue(a);
      AsIntegralValue(b);
      Saturated(a);
      Saturated(b);
    case (None, Some(_)) =>
      NoIntegralView(a, b);
      IntegralThroughF64(b);
    case (Some(_), None) =>
      NoIntegralView(b, a);
      IntegralThroughF64(a);
    case (None, None) =>
  }

  /** Only 2^127 itself saturates to `i128::MAX`. */
  lemma {:induction false} Saturated(n: Number)
    ensures n.AsIntegral() == Some(I128_MAX) ==> MathValue(n) == Exact(TWO127 as real)
  {
    if n.AsIntegral() == Some(I128_MAX) {
      AsIntegralValue(n);
      if MathValue(n) != Exact(TWO127 as real) {
        assert n.f.Real() == I128_MAX as real;
        NotRepresentableMax128();
      }
    }
  }

  lemma {:induction false} IntegralThroughF64(n: Number)
    requires n.AsIntegral().Some?
    ensures n.ToF64().IsIntegral() && I128_MIN as real <= n.ToF64().Real() <= TWO127 as real
  {
    if n.I64? { IntToF64Integral(n.i); } else if n.U64? { IntToF64Integral(n.u); }
  }

  /** NaN equals nothing, itself included. */
  lemma {:induction false} NaNEqualsNothing(a: Number, b: Number)
    requires a.IsNaN() || b.IsNaN()
    ensures !NumberEq(a, b)
  {
  }

  // --- the msgpack form -------------------------------------------------------

  datatype WireNumber = WireInt(n: wireint) | WireFloat(f: F64)

  /** `number_to_mp`: integers exactly, and an integral float within `i64` as an
      integer through a saturating cast. */
  function NumberToWire(n: Number): WireNumber {
    match n
    case I64(i) => WireInt(i)
    case U64(u) => WireInt(u)
    case F64(d) =>
      if d.IsIntegral() && FloatLe(IntToF64(I64_MIN), d) && FloatLe(d, IntToF64(I64_MAX))
      then WireInt(CastToInt(d, I64_MIN, I64_MAX)) else WireFloat(d)
  }

  /** `number_from_mp` on the two numeric forms. */
  function NumberFromWire(w: WireNumber): Number {
    match w
    case WireInt(n) => if n <= I64_MAX then I64(n) else U64(n)
    case WireFloat(d) => F64(d)
  }

  /** What a number becomes after one trip over the wire. */
  function WireTrip(n: Number): Number { NumberFromWire(NumberToWire(n)) }

  const TWO63_F64 := Float.Finite(TWO63 as real)

  predicate GoesAsInt(d: Float) {
    d.IsIntegral() && I64_MIN as real <= d.Real() <= TWO63 as real
  }

  /** The float guard of `number_to_mp`, with its two bounds evaluated. */
  lemma {:induction false} WireGuard(d: F64)
    ensures NumberToWire(F64(d)) == if GoesAsInt(d) then WireInt(CastToInt(d, I64_MIN, I64_MAX)) else WireFloat(d)
  {
    MaxRoundsUp();
    MinExact();
  }

  /** The integer an integral float is sent as; 2^63 saturates. */
  lemma {:induction false} SentInt(d: F64)
    requires GoesAsInt(d)
    ensures var n := CastToInt(d, I64_MIN, I64_MAX);
            if d.Real() == TWO63 as real then n == I64_MAX else n as real == d.Real()
  {
    CastValue(d.Real());
  }

  /** The trip keeps every number but one: NaN is never equal to itself, and 2^63
      held as a float is the only other number that comes back different. */
  lemma {:induction false} WireTripKeeps(n: Number)
    ensures NumberEq(WireTrip(n), n) <==> !n.IsNaN() && !(n.F64? && n.f == TWO63_F64)
  {
    if n.F64? { WireGuard(n.f); }
    if n.IsNaN() {
      NaNEqualsNothing(WireTrip(n), n);
    } else {
      if n.F64? && GoesAsInt(n.f) { SentInt(n.f); }
      EqIsMathEquality(WireTrip(n), n);
    }
  }

  lemma {:induction false} CastValue(r: real)
    requires r == r.Floor as real
    ensures Trunc(r) as real == r
  {
    if r < 0.0 {
      assert -r == (-r.Floor) as real;
      assert ((-r.Floor) as real).Floor == -r.Floor;
    }
  }

  /** One trip is enough: the wire form of what came back is the wire form sent. */
  lemma {:induction false} WireTripStable(n: Number)
    ensures NumberToWire(WireTrip(n)) == NumberToWire(n)
  {
  }

  // --- typed scalars ----------------------------------------------------------

  /** A 64-bit float field survives, 2^63 included: the wire integer saturates to
      `i64::MAX` and rounding restores it. */
  lemma {:induction false} FloatFieldTrip(d: F64)
    requires !d.NaN?
    ensures FloatEq(WireTrip(F64(d)).ToF64(), d)
  {
    WireGuard(d);
    if GoesAsInt(d) {
      SentInt(d);
      if d.Real() == TWO63 as real {
        MaxRoundsUp();
      } else {
        ZeroRepresentable(BINARY64);
        IntExact(CastToInt(d, I64_MIN, I64_MAX));
      }
    }
  }

  /** A 32-bit float field survives the widening, the trip and the narrowing. */
  lemma {:induction false} SingleFieldTrip(d: F32)
    requires !d.NaN?
    ensures FloatEq(Narrow(WireTrip(F64(Widen(d))).ToF64()), d)
  {
    FloatFieldTrip(Widen(d));
    var back := WireTrip(F64(Widen(d))).ToF64();
    if d.Finite? {
      if back.Finite? {
        RoundExact(BINARY32, d.value);
      }
    } else if d.NegZero? {
      if back.Finite? {
        ZeroRepresentable(BINARY32);
        RoundExact(BINARY32, 0.0);
      }
    }
  }

  /** The `Number` an integer field of the given width is reflected into. */
  function FromInt(n: int, signed: bool, w: Width): Number
    requires InRange(n, signed, w)
  {
    if signed || !w.W64? then I64(n) else U64(n)
  }

  /** The integer a field of the given width reads out of a number. */
  function ToInt(n: Number, signed: bool, w: Width): (r: int)
    ensures InRange(r, signed, w)
  {
    WrapTo(if signed then n.ToI64() else n.ToU64(), signed, w)
  }

  /** Every integer field of every width survives exactly. */
  lemma {:induction false} IntFieldTrip(n: int, signed: bool, w: Width)
    requires InRange(n, signed, w)
    ensures ToInt(WireTrip(FromInt(n, signed, w)), signed, w) == n
  {
  }

  /** Wrapping moves an integer by whole rounds of the width. */
  lemma {:induction false} WrapRounds(n: int, signed: bool, w: Width) returns (k: int)
    ensures WrapTo(n, signed, w) == n + k * w.Modulus()
  {
    k := -(n / w.Modulus());
    if signed && n % w.Modulus() >= w.Modulus() / 2 { k := k - 1; }
    match w
    case W8 =>
    case W16 =>
    case W32 =>
    case W64 =>
  }

  lemma {:induction false} WidthDivides(w: Width) returns (c: int)
    ensures W64.Modulus() == c * w.Modulus()
  {
    match w
    case W8 => c := 0x100_0000_0000_0000;
    case W16 => c := 0x1_0000_0000_0000;
    case W32 => c := 0x1_0000_0000;
    case W64 => c := 1;
  }

  lemma {:induction false} RoundsAdd(i: int, a: int, c: int, b: int, m: int)
    ensures i + a * (c * m) + b * m == i + (a * c + b) * m
  {
  }

  /** An integer held in either case reads out as itself, moved by whole rounds of the
      field's width into the field's range. */
  lemma {:induction false} IntFieldWraps(n: Number, signed: bool, w: Width) returns (k: int)
    requires !n.F64?
    ensures InRange(ToInt(n, signed, w), signed, w)
    ensures ToInt(n, signed, w) == (if n.I64? then n.i else n.u) + k * w.Modulus()
  {
    var i: int := if n.I64? then n.i else n.u;
    var a := WrapRounds(i, signed, W64);
    var wide := WrapTo(i, signed, W64);
    assert (if signed then n.ToI64() else n.ToU64()) == wide;
    var b := WrapRounds(wide, signed, w);
    var c := WidthDivides(w);
    RoundsAdd(i, a, c, b, w.Modulus());
    k := a * c + b;
  }
}
