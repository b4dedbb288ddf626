/** When equal value trees decode to equal Rust values, and for which shapes they need not:
    what a quotient type's proxy makes of a value. */
module ProxyLaws {
  import opened Wrappers
  import opened Doubles
  import opened Numbers
  import opened Text
  import opened Types
  import opened Values
  import opened Decode
  import opened Typed
  import opened TypedLaws

  /** No integer anywhere in the shape. */
  predicate IntegerFree(shape: Shape) {
    match shape
    case SInt(_, _) => false
    case SOption(s) => IntegerFree(s)
    case STfValue(s) => IntegerFree(s)
    case SList(e) => IntegerFree(e)
    case SSet(e) => IntegerFree(e)
    case SMap(e) => IntegerFree(e)
    case SStruct(fs) => forall i | 0 <= i < |fs| :: IntegerFree(fs[i].shape)
    case _ => true
  }

  /** No number anywhere in the shape. */
  predicate NumberFree(shape: Shape) {
    match shape
    case SInt(_, _) => false
    case SF64 => false
    case SF32 => false
    case SOption(s) => NumberFree(s)
    case STfValue(s) => NumberFree(s)
    case SList(e) => NumberFree(e)
    case SSet(e) => NumberFree(e)
    case SMap(e) => NumberFree(e)
    case SStruct(fs) => forall i | 0 <= i < |fs| :: NumberFree(fs[i].shape)
    case _ => true
  }

  predicate Present(v: Value) { !v.Null? && !v.Unknown? }

  // --- parts of equal values --------------------------------------------------

  lemma {:induction false} SequenceEq(a: Value, b: Value)
    requires ValueEq(a, b)
    ensures |Sequence(a)| == |Sequence(b)|
    ensures forall i | 0 <= i < |Sequence(a)| :: ValueEq(Sequence(a)[i], Sequence(b)[i])
  {
  }

  lemma {:induction false} MappingEq(a: Value, b: Value)
    requires ValueEq(a, b)
    ensures Mapping(a).Some? <==> Mapping(b).Some?
    ensures Mapping(a).Some? ==>
              && Mapping(a).value.Keys == Mapping(b).value.Keys
              && forall k | k in Mapping(a).value :: ValueEq(Mapping(a).value[k], Mapping(b).value[k])
  {
  }

  lemma {:induction false} FieldEq(a: Value, b: Value, key: string)
    requires ValueEq(a, b)
    ensures ValueEq(FieldOf(a, key), FieldOf(b, key))
  {
    MappingEq(a, b);
  }

  // --- shapes without numbers -------------------------------------------------

  /** Without numbers, equal values decode to the very same Rust value. */
  lemma {:induction false} SameDecoded(a: Value, b: Value, shape: Shape)
    requires ValueEq(a, b) && NumberFree(shape)
    ensures FromValue(a, shape) == FromValue(b, shape)
    decreases shape, 1
  {
    match shape
    case SOption(s) => SameDecoded(a, b, s);
    case STfValue(s) => SameDecoded(a, b, s);
    case SList(e) => SameItems(a, b, e);
    case SSet(e) => SameItems(a, b, e);
    case SMap(e) => SameEntries(a, b, e);
    case SStruct(fs) => SameStructs(a, b, fs);
    case _ =>
  }

  lemma {:induction false} SameEntries(a: Value, b: Value, e: Shape)
    requires ValueEq(a, b) && NumberFree(e)
    ensures FromValue(a, SMap(e)) == FromValue(b, SMap(e))
    decreases e, 2
  {
    MappingEq(a, b);
    var m := EntriesDecoded(a, e);
    var n := EntriesDecoded(b, e);
    if Mapping(a).Some? {
      forall k | k in m ensures m[k] == n[k] { SameDecoded(Mapping(a).value[k], Mapping(b).value[k], e); }
    }
    assert m == n;
  }

  lemma {:induction false} EntriesDecoded(v: Value, e: Shape) returns (m: map<string, Rust>)
    ensures FromValue(v, SMap(e)) == RMap(m)
    ensures m.Keys == if Mapping(v).Some? then Mapping(v).value.Keys else {}
    ensures Mapping(v).Some? ==> forall k | k in m :: m[k] == FromValue(Mapping(v).value[k], e)
  {
    m := FromValue(v, SMap(e)).entries;
  }

  lemma {:induction false} SameStructs(a: Value, b: Value, fs: seq<Field>)
    requires ValueEq(a, b) && NumberFree(SStruct(fs))
    ensures FromValue(a, SStruct(fs)) == FromValue(b, SStruct(fs))
    decreases SStruct(fs), 0
  {
    var xs, ys := FromValue(a, SStruct(fs)).values, FromValue(b, SStruct(fs)).values;
    forall i | 0 <= i < |fs| ensures xs[i] == ys[i] {
      FieldEq(a, b, fs[i].Key());
      SameDecoded(FieldOf(a, fs[i].Key()), FieldOf(b, fs[i].Key()), fs[i].shape);
    }
    assert xs == ys;
  }

  lemma {:induction false} SameItems(a: Value, b: Value, e: Shape)
    requires ValueEq(a, b) && NumberFree(e)
    ensures FromValue(a, SList(e)) == FromValue(b, SList(e)) && FromValue(a, SSet(e)) == FromValue(b, SSet(e))
    decreases e, 2
  {
    SequenceEq(a, b);
    var xs := ItemsDecoded(a, e);
    var ys := ItemsDecoded(b, e);
    forall i | 0 <= i < |xs| ensures xs[i] == ys[i] { SameDecoded(Sequence(a)[i], Sequence(b)[i], e); }
    assert xs == ys;
  }

  /** The elements of a value, decoded. */
  lemma {:induction false} ItemsDecoded(v: Value, e: Shape) returns (xs: seq<Rust>)
    ensures |xs| == |Sequence(v)| && forall i | 0 <= i < |xs| :: xs[i] == FromValue(Sequence(v)[i], e)
    ensures FromValue(v, SList(e)) == RList(xs) && FromValue(v, SSet(e)) == RSet(Inserted(xs))
  {
    xs := FromValue(v, SList(e)).items;
    SetItemsDecoded(v, e, xs);
  }

  lemma {:induction false} SetItemsDecoded(v: Value, e: Shape, xs: seq<Rust>)
    requires |xs| == |Sequence(v)| && forall i | 0 <= i < |xs| :: xs[i] == FromValue(Sequence(v)[i], e)
    ensures FromValue(v, SSet(e)) == RSet(Inserted(xs))
  {
    DecodedSet(v, e);
    DecodedAt(v, e);
    assert xs == Decoded(v, e);
  }

  function Decoded(v: Value, e: Shape): seq<Rust> {
    seq(|Sequence(v)|, i requires 0 <= i < |Sequence(v)| => FromValue(Sequence(v)[i], e))
  }

  lemma {:induction false} DecodedAt(v: Value, e: Shape)
    ensures |Decoded(v, e)| == |Sequence(v)|
    ensures forall i | 0 <= i < |Sequence(v)| :: Decoded(v, e)[i] == FromValue(Sequence(v)[i], e)
  {
  }

  lemma {:induction false} DecodedSet(v: Value, e: Shape)
    ensures FromValue(v, SSet(e)) == RSet(Inserted(Decoded(v, e)))
  {
  }

  /** Nor is there a number in what such a shape encodes. */
  lemma {:induction false} NoNumbers(x: Rust, shape: Shape)
    requires WellTyped(x, shape) && NumberFree(shape)
    ensures AllNumbers(ToValue(x, shape), NOT_NAN)
    decreases x
  {
    match shape
    case SOption(s) => if x.RSome? { NoNumbers(x.inner, s); }
    case STfValue(s) => if x.RKnown? { NoNumbers(x.inner, s); }
    case SList(e) => forall i | 0 <= i < |x.items| { NoNumbers(x.items[i], e); }
    case SSet(e) => forall i | 0 <= i < |x.items| { NoNumbers(x.items[i], e); }
    case SMap(e) => forall k | k in x.entries { NoNumbers(x.entries[k], e); }
    case SStruct(fs) =>
      var ks, vs := FieldKeys(fs), FieldValues(x, fs);
      forall i | 0 <= i < |vs| ensures AllNumbers(vs[i], NOT_NAN) {
        assert vs[i] == ToValue(x.values[i], fs[i].shape);
        NoNumbers(x.values[i], fs[i].shape);
      }
      BuiltNumbers(ks, vs);
    case _ =>
  }

  /** Lists, sets and tuples decode alike. */
  lemma {:induction false} SequencesAlike(vs: seq<Value>, e: Shape)
    ensures FromValue(List(vs), SList(e)) == FromValue(Set(vs), SList(e)) == FromValue(Tuple(vs), SList(e))
    ensures FromValue(List(vs), SSet(e)) == FromValue(Set(vs), SSet(e)) == FromValue(Tuple(vs), SSet(e))
  {
    var a := ItemsDecoded(List(vs), e);
    var b := ItemsDecoded(Set(vs), e);
    var c := ItemsDecoded(Tuple(vs), e);
    assert a == b == c;
  }

  // --- shapes without integers ------------------------------------------------

  /** Equal numbers read as equal floats. */
  lemma {:induction false} EqualFloats(a: Number, b: Number)
    requires NumberEq(a, b)
    ensures FloatEq(a.ToF64(), b.ToF64()) && FloatEq(Narrow(a.ToF64()), Narrow(b.ToF64()))
  {
    if a.IsNaN() || b.IsNaN() { NaNEqualsNothing(a, b); }
    EqIsMathEquality(a, b);
    IntegerAsFloat(a, b);
    IntegerAsFloat(b, a);
    NarrowedEqual(a.ToF64(), b.ToF64());
  }

  /** An integer that equals a float converts to it exactly. */
  lemma {:induction false} IntegerAsFloat(a: Number, b: Number)
    requires !a.IsNaN() && !b.IsNaN() && MathValue(a) == MathValue(b)
    ensures !a.F64? && b.F64? ==> a.ToF64() == Finite(MathValue(b).r)
  {
    if !a.F64? && b.F64? {
      var n: int := if a.I64? then a.i else a.u;
      assert b.f.IsFinite() && b.f.Real() == n as real;
      if b.f.NegZero? { ZeroRepresentable(BINARY64); }
      IntExact(n);
    }
  }

  lemma {:induction false} NarrowedEqual(a: F64, b: F64)
    requires FloatEq(a, b)
    ensures FloatEq(Narrow(a), Narrow(b))
  {
    ZeroRepresentable(BINARY32);
    RoundExact(BINARY32, 0.0);
    if a.Finite? { RoundOverflows(BINARY32, a.value); }
    if b.Finite? { RoundOverflows(BINARY32, b.value); }
  }

  lemma {:induction false} InsertedEqual(xs: seq<Rust>, ys: seq<Rust>)
    requires |xs| == |ys| && forall i | 0 <= i < |xs| :: RustEq(xs[i], ys[i])
    ensures |Inserted(xs)| == |Inserted(ys)|
    ensures forall i | 0 <= i < |Inserted(xs)| :: RustEq(Inserted(xs)[i], Inserted(ys)[i])
  {
    if xs != [] {
      var n := |xs| - 1;
      InsertedEqual(xs[..n], ys[..n]);
      SameMember(xs[n], ys[n], Inserted(xs[..n]), Inserted(ys[..n]));
    }
  }

  lemma {:induction false} SameMember(x: Rust, y: Rust, xs: seq<Rust>, ys: seq<Rust>)
    requires RustEq(x, y) && |xs| == |ys| && forall i | 0 <= i < |xs| :: RustEq(xs[i], ys[i])
    ensures Member(x, xs) <==> Member(y, ys)
  {
    RustEqTransitive(x, y, x);
    forall i | 0 <= i < |xs| ensures RustEq(ys[i], xs[i]) { RustEqTransitive(xs[i], ys[i], xs[i]); }
    MemberMoves(x, y, xs, ys);
    MemberMoves(y, x, ys, xs);
  }

  lemma {:induction false} MemberMoves(x: Rust, y: Rust, xs: seq<Rust>, ys: seq<Rust>)
    requires RustEq(x, y) && |xs| == |ys| && forall i | 0 <= i < |xs| :: RustEq(ys[i], xs[i])
    ensures Member(x, xs) ==> Member(y, ys)
  {
    if i :| 0 <= i < |xs| && RustEq(xs[i], x) {
      RustEqTransitive(xs[i], x, y);
      RustEqTransitive(ys[i], xs[i], y);
    }
  }

  /** Without integers, equal values decode to equal Rust values; and under any shape a
      value that equals itself decodes to one that does. */
  lemma {:induction false} EqualDecoded(a: Value, b: Value, shape: Shape)
    requires ValueEq(a, b) && (IntegerFree(shape) || a == b)
    ensures RustEq(FromValue(a, shape), FromValue(b, shape))
    decreases shape, 1
  {
    match shape
    case SF64 => EqualFloatFields(a, b);
    case SF32 => EqualFloatFields(a, b);
    case SOption(s) => EqualOption(a, b, s);
    case STfValue(s) => EqualTfValue(a, b, s);
    case SList(e) => EqualItems(a, b, e);
    case SSet(e) => EqualItems(a, b, e);
    case SMap(e) => EqualEntries(a, b, e);
    case SStruct(fs) => EqualStructs(a, b, fs);
    case _ =>
  }

  lemma {:induction false} EqualEntries(a: Value, b: Value, e: Shape)
    requires ValueEq(a, b) && (IntegerFree(e) || a == b)
    ensures RustEq(FromValue(a, SMap(e)), FromValue(b, SMap(e)))
    decreases e, 2
  {
    MappingEq(a, b);
    var m := EntriesDecoded(a, e);
    var n := EntriesDecoded(b, e);
    if Mapping(a).Some? {
      forall k | k in m ensures RustEq(m[k], n[k]) { EqualDecoded(Mapping(a).value[k], Mapping(b).value[k], e); }
    }
  }

  lemma {:induction false} EqualStructs(a: Value, b: Value, fs: seq<Field>)
    requires ValueEq(a, b) && (IntegerFree(SStruct(fs)) || a == b)
    ensures RustEq(FromValue(a, SStruct(fs)), FromValue(b, SStruct(fs)))
    decreases SStruct(fs), 0
  {
    var x, y := FromValue(a, SStruct(fs)), FromValue(b, SStruct(fs));
    forall i | 0 <= i < |fs| ensures RustEq(x.values[i], y.values[i]) {
      FieldEq(a, b, fs[i].Key());
      EqualDecoded(FieldOf(a, fs[i].Key()), FieldOf(b, fs[i].Key()), fs[i].shape);
    }
  }

  lemma {:induction false} EqualOption(a: Value, b: Value, s: Shape)
    requires ValueEq(a, b) && (IntegerFree(s) || a == b)
    ensures RustEq(FromValue(a, SOption(s)), FromValue(b, SOption(s)))
    decreases s, 2
  {
    if Present(a) {
      EqualDecoded(a, b, s);
      PresentDecoded(a, s);
      PresentDecoded(b, s);
    } else {
      AbsentDecoded(a, s);
      AbsentDecoded(b, s);
    }
  }

  lemma {:induction false} EqualTfValue(a: Value, b: Value, s: Shape)
    requires ValueEq(a, b) && (IntegerFree(s) || a == b)
    ensures RustEq(FromValue(a, STfValue(s)), FromValue(b, STfValue(s)))
    decreases s, 2
  {
    if Present(a) {
      EqualDecoded(a, b, s);
      PresentDecoded(a, s);
      PresentDecoded(b, s);
      KnownEqual(FromValue(a, s), FromValue(b, s));
    } else {
      AbsentDecoded(a, s);
      AbsentDecoded(b, s);
    }
  }

  lemma {:induction false} KnownEqual(x: Rust, y: Rust)
    requires RustEq(x, y)
    ensures RustEq(RKnown(x), RKnown(y))
  {
  }

  lemma {:induction false} PresentDecoded(a: Value, s: Shape)
    requires Present(a)
    ensures FromValue(a, SOption(s)) == RSome(FromValue(a, s)) && FromValue(a, STfValue(s)) == RKnown(FromValue(a, s))
  {
  }

  lemma {:induction false} AbsentDecoded(a: Value, s: Shape)
    requires !Present(a)
    ensures FromValue(a, SOption(s)) == RNone
    ensures FromValue(a, STfValue(s)) == if a.Unknown? then RTfUnknown else RTfNull
  {
  }

  lemma {:induction false} EqualFloatFields(a: Value, b: Value)
    requires ValueEq(a, b)
    ensures RustEq(FromValue(a, SF64), FromValue(b, SF64)) && RustEq(FromValue(a, SF32), FromValue(b, SF32))
  {
    NumbersRead(a, b);
    EqualFloats(AsNumber(a), AsNumber(b));
    FloatsRead(a);
    FloatsRead(b);
  }

  lemma {:induction false} NumbersRead(a: Value, b: Value)
    requires ValueEq(a, b)
    ensures NumberEq(AsNumber(a), AsNumber(b))
  {
    if !a.Num? { EqIsMathEquality(I64(0), I64(0)); }
  }

  lemma {:induction false} FloatsRead(v: Value)
    ensures FromValue(v, SF64) == RF64(AsNumber(v).ToF64())
    ensures FromValue(v, SF32) == RF32(Narrow(AsNumber(v).ToF64()))
  {
  }

  lemma {:induction false} EqualItems(a: Value, b: Value, e: Shape)
    requires ValueEq(a, b) && (IntegerFree(e) || a == b)
    ensures RustEq(FromValue(a, SList(e)), FromValue(b, SList(e)))
    ensures RustEq(FromValue(a, SSet(e)), FromValue(b, SSet(e)))
    decreases e, 2
  {
    SequenceEq(a, b);
    var xs := ItemsDecoded(a, e);
    var ys := ItemsDecoded(b, e);
    forall i | 0 <= i < |xs| ensures RustEq(xs[i], ys[i]) { EqualDecoded(Sequence(a)[i], Sequence(b)[i], e); }
    EqualCollections(xs, ys);
  }

  lemma {:induction false} EqualCollections(xs: seq<Rust>, ys: seq<Rust>)
    requires |xs| == |ys| && forall i | 0 <= i < |xs| :: RustEq(xs[i], ys[i])
    ensures RustEq(RList(xs), RList(ys)) && RustEq(RSet(Inserted(xs)), RSet(Inserted(ys)))
  {
    InsertedEqual(xs, ys);
    SameInOrder(Inserted(xs), Inserted(ys));
  }

  // --- and no others ----------------------------------------------------------

  /** Two Rust values told apart: by `==`, or more finely by what they are. */
  predicate ToldApart(x: Rust, y: Rust, byEq: bool) { if byEq then !RustEq(x, y) else x != y }

  /** Shapes with something in them that tells equal values apart. */
  predicate TellsApart(shape: Shape, byEq: bool) { if byEq then !IntegerFree(shape) else !NumberFree(shape) }

  /** Equal values, both present, that decode apart. */
  ghost predicate DecodedApart(a: Value, b: Value, shape: Shape, byEq: bool) {
    ValueEq(a, b) && Present(a) && Present(b) && ToldApart(FromValue(a, shape), FromValue(b, shape), byEq)
  }

  /** The kinds of value the witnesses below are, none of them like `Other`. */
  predicate UnlikeOther(b: Value, shape: Shape) {
    match shape
    case SInt(signed, w) => b.Num? && !NumberEq(FromInt(0, signed, w), b.n)
    case SF64 => b == Num(I64(0))
    case SF32 => b == Num(I64(0))
    case SOption(_) => Present(b)
    case STfValue(_) => Present(b)
    case SMap(_) => b.Object?
    case SStruct(_) => b.Map?
    case _ => b.Tuple?
  }

  /** Some value of the type, never one that the witnesses below decode to. */
  function Other(shape: Shape): Rust {
    match shape
    case SF64 => OneRepresentable(BINARY64); RF64(Finite(1.0))
    case SF32 => OneRepresentable(BINARY32); RF32(Finite(1.0))
    case _ => Zero(shape)
  }

  predicate OtherTyped(shape: Shape) { WellTyped(Other(shape), shape) }

  lemma {:induction false} OneRepresentable(f: Format)
    requires f == BINARY64 || f == BINARY32
    ensures Representable(f, 1.0) && Representable(f, -1.0)
  {
    Pow2Monotone(1, f.precision);
    assert Fits(f, -1, 0) && Fits(f, 1, 0) && Dyadic(-1, 0) == -1.0 && Dyadic(1, 0) == 1.0;
  }

  lemma {:induction false} ZeroTyped(shape: Shape)
    ensures WellTyped(Zero(shape), shape) && AllNumbers(ToValue(Zero(shape), shape), NOT_NAN)
  {
    match shape
    case SStruct(fs) =>
      forall i | 0 <= i < |fs| { ZeroTyped(fs[i].shape); }
      ZeroStructValue(fs);
    case _ =>
  }

  lemma {:induction false} ZeroStructValue(fs: seq<Field>)
    requires WellTyped(Zero(SStruct(fs)), SStruct(fs))
    requires forall i | 0 <= i < |fs| ::
               WellTyped(Zero(fs[i].shape), fs[i].shape) && AllNumbers(ToValue(Zero(fs[i].shape), fs[i].shape), NOT_NAN)
    ensures AllNumbers(ToValue(Zero(SStruct(fs)), SStruct(fs)), NOT_NAN)
  {
    var x := Zero(SStruct(fs));
    var ks, vs := FieldKeys(fs), FieldValues(x, fs);
    forall i | 0 <= i < |vs| ensures AllNumbers(vs[i], NOT_NAN) { assert vs[i] == ToValue(x.values[i], fs[i].shape); }
    BuiltNumbers(ks, vs);
  }

  lemma {:induction false} BuiltNumbers(ks: seq<string>, vs: seq<Value>)
    requires |ks| == |vs| && forall i | 0 <= i < |vs| :: AllNumbers(vs[i], NOT_NAN)
    ensures forall k | k in BuildMap(ks, vs) :: AllNumbers(BuildMap(ks, vs)[k], NOT_NAN)
  {
    if ks != [] { BuiltNumbers(ks[..|ks| - 1], vs[..|vs| - 1]); }
  }

  lemma {:induction false} OtherEqual(shape: Shape)
    ensures OtherTyped(shape) && ValueEq(ToValue(Other(shape), shape), ToValue(Other(shape), shape))
  {
    ZeroTyped(shape);
    EqReflexive(ToValue(Other(shape), shape));
  }

  lemma {:induction false} OtherUnlike(b: Value, shape: Shape)
    requires UnlikeOther(b, shape)
    ensures OtherTyped(shape) && !ValueEq(ToValue(Other(shape), shape), b)
  {
    ZeroTyped(shape);
    if shape.SF64? || shape.SF32? { OneUnlikeZero(shape); } else { ZeroKind(shape); }
  }

  lemma {:induction false} OneUnlikeZero(shape: Shape)
    requires shape.SF64? || shape.SF32?
    ensures OtherTyped(shape) && !ValueEq(ToValue(Other(shape), shape), Num(I64(0)))
  {
    OneRepresentable(BINARY64);
    OneRepresentable(BINARY32);
    EqIsMathEquality(F64(Finite(1.0)), I64(0));
  }

  /** The kind of value that zero encodes to. */
  lemma {:induction false} ZeroKind(shape: Shape)
    requires !shape.SF64? && !shape.SF32? && WellTyped(Zero(shape), shape)
    ensures var v := ToValue(Zero(shape), shape);
            match shape
            case SInt(signed, w) => v == Num(FromInt(0, signed, w))
            case SOption(_) => v.Null?
            case STfValue(_) => v.Null?
            case SMap(_) => v.Map?
            case SStruct(_) => v.Object?
            case _ => v.Bool? || v.Str? || v.List? || v.Set?
  {
  }

  /** A float cast saturates where an integer cast wraps. */
  lemma {:induction false} IntegersApart(signed: bool, w: Width) returns (a: Number, b: Number)
    ensures NumberEq(a, b) && ToInt(a, signed, w) != ToInt(b, signed, w) && !NumberEq(FromInt(0, signed, w), b)
  {
    if signed { a, b := SignedApart(w); } else { a, b := UnsignedApart(w); }
  }

  lemma {:induction false} SignedApart(w: Width) returns (a: Number, b: Number)
    ensures NumberEq(a, b) && ToInt(a, true, w) != ToInt(b, true, w) && !NumberEq(I64(0), b)
  {
    MinExact();
    a, b := F64(Finite(TWO63 as real)), U64(TWO63);
    EqIsMathEquality(a, b);
    EqIsMathEquality(I64(0), b);
    assert a.ToI64() == I64_MAX && b.ToI64() == I64_MIN;
    WrapsApart(w);
  }

  lemma {:induction false} WrapsApart(w: Width)
    ensures WrapTo(I64_MAX, true, w) != WrapTo(I64_MIN, true, w)
  {
  }

  lemma {:induction false} UnsignedApart(w: Width) returns (a: Number, b: Number)
    ensures NumberEq(a, b) && ToInt(a, false, w) != ToInt(b, false, w)
    ensures !NumberEq(I64(0), b) && !NumberEq(U64(0), b)
  {
    OneRepresentable(BINARY64);
    a, b := F64(Finite(-1.0)), I64(-1);
    EqIsMathEquality(a, b);
    assert a.ToU64() == 0 && b.ToU64() == U64_MAX;
  }

  /** The two zeros are equal. */
  lemma {:induction false} ZerosApart() returns (a: Number, b: Number)
    ensures a == F64(NegZero) && b == I64(0) && NumberEq(a, b) && a.ToF64() == NegZero && b.ToF64() == Finite(0.0)
    ensures Narrow(a.ToF64()) == NegZero && Narrow(b.ToF64()) == Finite(0.0)
  {
    a, b := F64(NegZero), I64(0);
    EqIsMathEquality(a, b);
    ZeroFloat();
  }

  lemma {:induction false} FloatsApart(shape: Shape) returns (a: Value, b: Value)
    requires shape.SF64? || shape.SF32?
    ensures DecodedApart(a, b, shape, false) && UnlikeOther(b, shape)
  {
    var x, y := ZerosApart();
    a, b := Num(x), Num(y);
  }

  lemma {:induction false} IntegerFieldsApart(signed: bool, w: Width, byEq: bool) returns (a: Value, b: Value)
    ensures DecodedApart(a, b, SInt(signed, w), byEq) && UnlikeOther(b, SInt(signed, w))
  {
    var x, y := IntegersApart(signed, w);
    a, b := Num(x), Num(y);
  }

  /** Every shape with a number in it has such values. */
  lemma {:induction false} ShapeApart(shape: Shape, byEq: bool) returns (a: Value, b: Value)
    requires TellsApart(shape, byEq)
    ensures DecodedApart(a, b, shape, byEq) && UnlikeOther(b, shape)
    decreases shape
  {
    match shape
    case SInt(signed, w) => a, b := IntegerFieldsApart(signed, w, byEq);
    case SF64 => a, b := FloatsApart(shape);
    case SF32 => a, b := FloatsApart(shape);
    case SOption(s) =>
      a, b := ShapeApart(s, byEq);
      WrapperApart(a, b, s, byEq);
    case STfValue(s) =>
      a, b := ShapeApart(s, byEq);
      WrapperApart(a, b, s, byEq);
    case SList(e) =>
      var x, y := ShapeApart(e, byEq);
      a, b := Tuple([x]), Tuple([y]);
      ItemApart(x, y, e, byEq);
    case SSet(e) =>
      var x, y := ShapeApart(e, byEq);
      a, b := Tuple([x]), Tuple([y]);
      ItemApart(x, y, e, byEq);
    case SMap(e) =>
      var x, y := ShapeApart(e, byEq);
      a, b := Object(map["k" := x]), Object(map["k" := y]);
      EntryApart(x, y, e, byEq);
    case SStruct(fs) =>
      var i :| 0 <= i < |fs| && TellsApart(fs[i].shape, byEq);
      var x, y := ShapeApart(fs[i].shape, byEq);
      a, b := Map(map[fs[i].Key() := x]), Map(map[fs[i].Key() := y]);
      FieldApart(x, y, fs, i, byEq);
  }

  /** Whatever holds values apart is itself apart. */
  lemma {:induction false} HoldersApart(p: Rust, q: Rust, byEq: bool)
    requires ToldApart(p, q, byEq)
    ensures ToldApart(RSome(p), RSome(q), byEq) && ToldApart(RKnown(p), RKnown(q), byEq)
    ensures ToldApart(RMap(map["k" := p]), RMap(map["k" := q]), byEq)
  {
    assert map["k" := p]["k"] == p && map["k" := q]["k"] == q;
  }

  lemma {:induction false} CollectionsApart(p: Rust, q: Rust, byEq: bool)
    requires ToldApart(p, q, byEq)
    ensures ToldApart(RList([p]), RList([q]), byEq) && ToldApart(RSet([p]), RSet([q]), byEq)
  {
    assert [p][0] == p && [q][0] == q;
    OneAmong(p, q);
  }

  lemma {:induction false} OneAmong(p: Rust, q: Rust)
    ensures RustEq(RSet([p]), RSet([q])) ==> RustEq(p, q)
  {
    var a, b := RSet([p]), RSet([q]);
    if RustEq(a, b) {
      assert SameMembers(a, b);
      assert Among(a.items[0], b.items);
      var j :| 0 <= j < |b.items| && RustEq(a.items[0], b.items[j]);
    }
  }

  lemma {:induction false} HoldersEqual(x: Value, y: Value, k: string)
    requires ValueEq(x, y)
    ensures ValueEq(Tuple([x]), Tuple([y])) && ValueEq(Object(map[k := x]), Object(map[k := y]))
    ensures ValueEq(Map(map[k := x]), Map(map[k := y]))
  {
  }

  lemma {:induction false} WrapperApart(a: Value, b: Value, s: Shape, byEq: bool)
    requires DecodedApart(a, b, s, byEq)
    ensures DecodedApart(a, b, SOption(s), byEq) && DecodedApart(a, b, STfValue(s), byEq)
  {
    HoldersApart(FromValue(a, s), FromValue(b, s), byEq);
    PresentDecoded(a, s);
    PresentDecoded(b, s);
  }

  lemma {:induction false} ItemApart(x: Value, y: Value, e: Shape, byEq: bool)
    requires DecodedApart(x, y, e, byEq)
    ensures DecodedApart(Tuple([x]), Tuple([y]), SList(e), byEq) && DecodedApart(Tuple([x]), Tuple([y]), SSet(e), byEq)
  {
    HoldersEqual(x, y, "k");
    CollectionsApart(FromValue(x, e), FromValue(y, e), byEq);
    OneDecoded(x, e);
    OneDecoded(y, e);
  }

  lemma {:induction false} OneDecoded(x: Value, e: Shape)
    ensures FromValue(Tuple([x]), SList(e)) == RList([FromValue(x, e)])
    ensures FromValue(Tuple([x]), SSet(e)) == RSet([FromValue(x, e)])
  {
    var xs := ItemsDecoded(Tuple([x]), e);
    assert xs == [FromValue(x, e)];
    OneInserted(FromValue(x, e));
  }

  lemma {:induction false} OneInserted(p: Rust)
    ensures Inserted([p]) == [p]
  {
    assert Inserted([]) == [];
    assert [p][..0] == [];
  }

  lemma {:induction false} EntryApart(x: Value, y: Value, e: Shape, byEq: bool)
    requires DecodedApart(x, y, e, byEq)
    ensures DecodedApart(Object(map["k" := x]), Object(map["k" := y]), SMap(e), byEq)
  {
    HoldersEqual(x, y, "k");
    HoldersApart(FromValue(x, e), FromValue(y, e), byEq);
    EntryDecoded(x, e);
    EntryDecoded(y, e);
  }

  lemma {:induction false} EntryDecoded(x: Value, e: Shape)
    ensures FromValue(Object(map["k" := x]), SMap(e)) == RMap(map["k" := FromValue(x, e)])
  {
    var m := EntriesDecoded(Object(map["k" := x]), e);
    assert m == map["k" := FromValue(x, e)];
  }

  lemma {:induction false} FieldApart(x: Value, y: Value, fs: seq<Field>, i: nat, byEq: bool)
    requires i < |fs| && DecodedApart(x, y, fs[i].shape, byEq)
    ensures var k := fs[i].Key(); DecodedApart(Map(map[k := x]), Map(map[k := y]), SStruct(fs), byEq)
  {
    HoldersEqual(x, y, fs[i].Key());
    var p := FieldDecoded(x, fs, i);
    var q := FieldDecoded(y, fs, i);
    StructsApart(p, q, i, byEq);
  }

  lemma {:induction false} FieldDecoded(x: Value, fs: seq<Field>, i: nat) returns (p: seq<Rust>)
    requires i < |fs|
    ensures FromValue(Map(map[fs[i].Key() := x]), SStruct(fs)) == RStruct(p) && |p| == |fs|
            && p[i] == FromValue(x, fs[i].shape)
  {
    p := FromValue(Map(map[fs[i].Key() := x]), SStruct(fs)).values;
  }

  lemma {:induction false} StructsApart(p: seq<Rust>, q: seq<Rust>, i: nat, byEq: bool)
    requires i < |p| == |q| && ToldApart(p[i], q[i], byEq)
    ensures ToldApart(RStruct(p), RStruct(q), byEq)
  {
  }
}
