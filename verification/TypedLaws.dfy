/** A Rust value survives the value tree, and the whole way over the wire, exactly when
    its wrappers are sharp and its floats are numbers. */
module TypedLaws {
  import opened Wrappers
  import opened Doubles
  import opened Numbers
  import opened Text
  import opened Types
  import opened Values
  import opened Encode
  import opened Decode
  import opened RoundTrip
  import opened Typed

  /** What a wrapper holds when it holds nothing known. */
  predicate Absent(x: Rust) { x.RNone? || x.RTfUnknown? || x.RTfNull? }

  /** No present wrapper directly around an absent one, at any depth. */
  predicate Sharp(x: Rust) {
    match x
    case RSome(y) => !Absent(y) && Sharp(y)
    case RKnown(y) => !Absent(y) && Sharp(y)
    case RList(xs) => forall i | 0 <= i < |xs| :: Sharp(xs[i])
    case RSet(xs) => forall i | 0 <= i < |xs| :: Sharp(xs[i])
    case RStruct(xs) => forall i | 0 <= i < |xs| :: Sharp(xs[i])
    case RMap(m) => forall k | k in m :: Sharp(m[k])
    case _ => true
  }

  predicate NaNFree(x: Rust) {
    match x
    case RF64(d) => !d.NaN?
    case RF32(d) => !d.NaN?
    case RSome(y) => NaNFree(y)
    case RKnown(y) => NaNFree(y)
    case RList(xs) => forall i | 0 <= i < |xs| :: NaNFree(xs[i])
    case RSet(xs) => forall i | 0 <= i < |xs| :: NaNFree(xs[i])
    case RStruct(xs) => forall i | 0 <= i < |xs| :: NaNFree(xs[i])
    case RMap(m) => forall k | k in m :: NaNFree(m[k])
    case _ => true
  }

  /** The keys of every struct are distinct, renames included. */
  predicate DistinctKeys(shape: Shape) {
    match shape
    case SOption(s) => DistinctKeys(s)
    case STfValue(s) => DistinctKeys(s)
    case SList(e) => DistinctKeys(e)
    case SSet(e) => DistinctKeys(e)
    case SMap(e) => DistinctKeys(e)
    case SStruct(fs) => Distinct(FieldKeys(fs)) && forall i | 0 <= i < |fs| :: DistinctKeys(fs[i].shape)
    case _ => true
  }

  // --- equality ---------------------------------------------------------------

  lemma {:induction false} RustEqTransitive(a: Rust, b: Rust, c: Rust)
    requires RustEq(a, b)
    ensures RustEq(b, a) && (RustEq(b, c) ==> RustEq(a, c))
    decreases a, 1
  {
    match a
    case RSome(x) => RustEqTransitive(x, b.inner, if c.RSome? then c.inner else c);
    case RKnown(x) => RustEqTransitive(x, b.inner, if c.RKnown? then c.inner else c);
    case RList(xs) => ItemsTransitive(a, xs, b.items, if c.RList? then c.items else []);
    case RStruct(xs) => ItemsTransitive(a, xs, b.values, if c.RStruct? then c.values else []);
    case RMap(m) => MapsTransitive(a, m, b.entries, if c.RMap? then c.entries else map[]);
    case RSet(_) => MembersTransitive(a, b, if c.RSet? then c else b);
    case _ =>
  }

  lemma {:induction false} MapsTransitive(
    context: Rust, m: map<string, Rust>, n: map<string, Rust>, o: map<string, Rust>)
    requires forall k | k in m :: m[k] < context
    requires m.Keys == n.Keys && forall k | k in m :: RustEq(m[k], n[k])
    ensures forall k | k in n :: RustEq(n[k], m[k])
    ensures n.Keys == o.Keys && (forall k | k in n :: RustEq(n[k], o[k])) ==> forall k | k in m :: RustEq(m[k], o[k])
    decreases context, 0
  {
    forall k | k in m
      ensures RustEq(n[k], m[k])
      ensures k in o && RustEq(n[k], o[k]) ==> RustEq(m[k], o[k])
    {
      RustEqTransitive(m[k], n[k], if k in o then o[k] else m[k]);
    }
  }

  lemma {:induction false} ItemsTransitive(context: Rust, xs: seq<Rust>, ys: seq<Rust>, zs: seq<Rust>)
    requires forall i | 0 <= i < |xs| :: xs[i] < context
    requires |xs| == |ys| && forall i | 0 <= i < |xs| :: RustEq(xs[i], ys[i])
    ensures forall i | 0 <= i < |xs| :: RustEq(ys[i], xs[i])
    ensures |ys| == |zs| && (forall i | 0 <= i < |ys| :: RustEq(ys[i], zs[i])) ==>
              forall i | 0 <= i < |xs| :: RustEq(xs[i], zs[i])
    decreases context, 0
  {
    forall i | 0 <= i < |xs|
      ensures RustEq(ys[i], xs[i])
      ensures i < |zs| && RustEq(ys[i], zs[i]) ==> RustEq(xs[i], zs[i])
    {
      RustEqTransitive(xs[i], ys[i], if i < |zs| then zs[i] else xs[i]);
    }
  }

  lemma {:induction false} MembersTransitive(a: Rust, b: Rust, c: Rust)
    requires a.RSet? && b.RSet? && c.RSet? && SameMembers(a, b)
    ensures SameMembers(b, a) && (SameMembers(b, c) ==> SameMembers(a, c))
    decreases a, 0, 2
  {
    forall i | 0 <= i < |a.items| { AmongTransitive(a, i, b, c); }
    forall j | 0 <= j < |b.items| { HoldsSymmetric(a, b, j); }
    if SameMembers(b, c) {
      forall k | 0 <= k < |c.items| ensures Holds(a, c.items[k]) { HoldsTransitive(a, b, c, k); }
    }
  }

  lemma {:induction false} AmongTransitive(a: Rust, i: nat, b: Rust, c: Rust)
    requires a.RSet? && b.RSet? && c.RSet? && i < |a.items| && Among(a.items[i], b.items)
    ensures Holds(b, a.items[i])
    ensures SameMembers(b, c) ==> Among(a.items[i], c.items)
    decreases a, 0, 1
  {
    var j :| 0 <= j < |b.items| && RustEq(a.items[i], b.items[j]);
    RustEqTransitive(a.items[i], b.items[j], b.items[j]);
    if SameMembers(b, c) {
      assert Among(b.items[j], c.items);
      var k :| 0 <= k < |c.items| && RustEq(b.items[j], c.items[k]);
      RustEqTransitive(a.items[i], b.items[j], c.items[k]);
    }
  }

  lemma {:induction false} HoldsSymmetric(a: Rust, b: Rust, j: nat)
    requires a.RSet? && b.RSet? && j < |b.items| && Holds(a, b.items[j])
    ensures Among(b.items[j], a.items)
    decreases a, 0, 0
  {
    var i :| 0 <= i < |a.items| && RustEq(a.items[i], b.items[j]);
    RustEqTransitive(a.items[i], b.items[j], b.items[j]);
  }

  /** The element of `a` that equals `y`. */
  lemma {:induction false} HolderOf(a: Rust, y: Rust) returns (i: nat)
    requires a.RSet? && Holds(a, y)
    ensures i < |a.items| && RustEq(a.items[i], y)
  {
    i :| 0 <= i < |a.items| && RustEq(a.items[i], y);
  }

  lemma {:induction false} HoldsTransitive(a: Rust, b: Rust, c: Rust, k: nat)
    requires a.RSet? && b.RSet? && c.RSet? && SameMembers(a, b) && k < |c.items| && Holds(b, c.items[k])
    ensures Holds(a, c.items[k])
    decreases a, 0, 0
  {
    var j := HolderOf(b, c.items[k]);
    var i := HolderOf(a, b.items[j]);
    RustEqTransitive(a.items[i], b.items[j], c.items[k]);
  }

  /** Whatever equals something holds no NaN, and equality keeps sharpness. */
  lemma {:induction false} EqualMeans(a: Rust, b: Rust)
    requires RustEq(a, b)
    ensures NaNFree(b) && (Sharp(a) ==> Sharp(b)) && (Absent(a) <==> Absent(b))
    decreases a, 1
  {
    match a
    case RSome(x) => EqualMeans(x, b.inner);
    case RKnown(x) => EqualMeans(x, b.inner);
    case RList(xs) => forall i | 0 <= i < |xs| { EqualMeans(xs[i], b.items[i]); }
    case RStruct(xs) => forall i | 0 <= i < |xs| { EqualMeans(xs[i], b.values[i]); }
    case RMap(m) => forall k | k in m { EqualMeans(m[k], b.entries[k]); }
    case RSet(_) => forall j | 0 <= j < |b.items| { EqualMemberMeans(a, b, j); }
    case _ =>
  }

  lemma {:induction false} EqualMemberMeans(a: Rust, b: Rust, j: nat)
    requires a.RSet? && b.RSet? && SameMembers(a, b) && j < |b.items|
    ensures NaNFree(b.items[j]) && (Sharp(a) ==> Sharp(b.items[j]))
    decreases a, 0
  {
    var i := HolderOf(a, b.items[j]);
    EqualMeans(a.items[i], b.items[j]);
  }

  // --- number carriers --------------------------------------------------------

  /** Every number of the tree replaced by `f`. */
  function MapNumbers(v: Value, f: Number -> Number): Value {
    match v
    case Num(n) => Num(f(n))
    case List(xs) => List(seq(|xs|, i requires 0 <= i < |xs| => MapNumbers(xs[i], f)))
    case Set(xs) => Set(seq(|xs|, i requires 0 <= i < |xs| => MapNumbers(xs[i], f)))
    case Tuple(xs) => Tuple(seq(|xs|, i requires 0 <= i < |xs| => MapNumbers(xs[i], f)))
    case Map(m) => Map(map k | k in m :: MapNumbers(m[k], f))
    case Object(m) => Object(map k | k in m :: MapNumbers(m[k], f))
    case _ => v
  }

  /** A carrier that every typed scalar survives. */
  ghost predicate KeepsScalars(f: Number -> Number) {
    && (forall n, signed, w | InRange(n, signed, w) :: ToInt(f(FromInt(n, signed, w)), signed, w) == n)
    && (forall d: F64 | !d.NaN? :: FloatEq(f(F64(d)).ToF64(), d))
    && (forall d: F32 | !d.NaN? :: FloatEq(Narrow(f(F64(Widen(d))).ToF64()), d))
  }

  const CARRIED: Number -> Number := (n: Number) => WireTrip(n)
  const UNCHANGED: Number -> Number := (n: Number) => n

  lemma {:induction false} WireKeepsScalars()
    ensures KeepsScalars(CARRIED)
  {
    forall n, signed, w | InRange(n, signed, w) ensures ToInt(CARRIED(FromInt(n, signed, w)), signed, w) == n {
      IntFieldTrip(n, signed, w);
    }
    forall d: F64 | !d.NaN? ensures FloatEq(CARRIED(F64(d)).ToF64(), d) { FloatFieldTrip(d); }
    forall d: F32 | !d.NaN? ensures FloatEq(Narrow(CARRIED(F64(Widen(d))).ToF64()), d) { SingleFieldTrip(d); }
  }

  lemma {:induction false} UnchangedKeepsScalars()
    ensures KeepsScalars(UNCHANGED)
  {
    forall d: F32 | !d.NaN? ensures FloatEq(Narrow(UNCHANGED(F64(Widen(d))).ToF64()), d) {
      if d.Finite? { RoundExact(BINARY32, d.value); }
    }
  }

  // --- the trip ---------------------------------------------------------------

  /** A sharp value that is not absent is neither null nor unknown. */
  lemma {:induction false} PresentValue(x: Rust, shape: Shape, f: Number -> Number)
    requires WellTyped(x, shape) && Sharp(x)
    ensures var v := MapNumbers(ToValue(x, shape), f); (v.Null? || v.Unknown?) <==> Absent(x)
    ensures ToValue(x, shape).Unknown? <==> x.RTfUnknown?
  {
    match shape
    case SOption(s) => if x.RSome? { PresentValue(x.inner, s, f); }
    case STfValue(s) => if x.RKnown? { PresentValue(x.inner, s, f); }
    case _ =>
  }

  lemma {:induction false} InsertedDistinct(xs: seq<Rust>)
    requires PairwiseDifferent(xs)
    ensures Inserted(xs) == xs
  {
    if xs != [] {
      var n := |xs| - 1;
      InsertedDistinct(xs[..n]);
      assert !Member(xs[n], xs[..n]);
    }
  }

  /** A sharp value without NaN comes back equal, through any carrier that keeps typed
      scalars. */
  lemma {:induction false} TypedTrip(x: Rust, shape: Shape, f: Number -> Number)
    requires WellTyped(x, shape) && DistinctKeys(shape) && KeepsScalars(f) && Sharp(x) && NaNFree(x)
    ensures RustEq(FromValue(MapNumbers(ToValue(x, shape), f), shape), x)
    decreases x, 1
  {
    match shape
    case SOption(s) => WrapperTrip(x, shape, f);
    case STfValue(s) => WrapperTrip(x, shape, f);
    case SList(e) => ListTrip(x, e, f);
    case SSet(e) => SetTrip(x, e, f);
    case SMap(e) => MapTrip(x, e, f);
    case SStruct(fs) => StructTrip(x, fs, f);
    case _ => ScalarTrip(x, shape, f);
  }

  lemma {:induction false} ScalarTrip(x: Rust, shape: Shape, f: Number -> Number)
    requires WellTyped(x, shape) && KeepsScalars(f) && NaNFree(x)
    requires shape.SBool? || shape.SString? || shape.SInt? || shape.SF64? || shape.SF32?
    ensures RustEq(FromValue(MapNumbers(ToValue(x, shape), f), shape), x)
  {
  }

  lemma {:induction false} WrapperTrip(x: Rust, shape: Shape, f: Number -> Number)
    requires WellTyped(x, shape) && DistinctKeys(shape) && KeepsScalars(f) && Sharp(x) && NaNFree(x)
    requires shape.SOption? || shape.STfValue?
    ensures RustEq(FromValue(MapNumbers(ToValue(x, shape), f), shape), x)
    decreases x, 0
  {
    PresentValue(x, shape, f);
    if x.RSome? || x.RKnown? { TypedTrip(x.inner, shape.inner, f); }
  }

  /** The elements of a list or a set, each brought back. */
  lemma {:induction false} ItemsTrip(x: Rust, shape: Shape, e: Shape, f: Number -> Number) returns (backs: seq<Rust>)
    requires WellTyped(x, shape) && (shape == SList(e) || shape == SSet(e))
    requires DistinctKeys(e) && KeepsScalars(f) && Sharp(x) && NaNFree(x)
    ensures |backs| == |x.items| && forall i | 0 <= i < |backs| :: RustEq(backs[i], x.items[i])
    ensures FromValue(MapNumbers(ToValue(x, shape), f), shape) ==
            if shape.SList? then RList(backs) else RSet(Inserted(backs))
    decreases x, 0, 0
  {
    backs := ItemsBuilt(x, shape, e, f);
    forall i | 0 <= i < |backs| ensures RustEq(backs[i], x.items[i]) { TypedTrip(x.items[i], e, f); }
  }

  lemma {:induction false} ItemsBuilt(x: Rust, shape: Shape, e: Shape, f: Number -> Number) returns (backs: seq<Rust>)
    requires WellTyped(x, shape) && (shape == SList(e) || shape == SSet(e))
    ensures |backs| == |x.items|
    ensures forall i | 0 <= i < |backs| :: backs[i] == FromValue(MapNumbers(ToValue(x.items[i], e), f), e)
    ensures FromValue(MapNumbers(ToValue(x, shape), f), shape) ==
            if shape.SList? then RList(backs) else RSet(Inserted(backs))
  {
    var v := MapNumbers(ToValue(x, shape), f);
    backs := seq(|Sequence(v)|, i requires 0 <= i < |Sequence(v)| => FromValue(Sequence(v)[i], e));
  }

  lemma {:induction false} ListTrip(x: Rust, e: Shape, f: Number -> Number)
    requires WellTyped(x, SList(e)) && DistinctKeys(e) && KeepsScalars(f) && Sharp(x) && NaNFree(x)
    ensures RustEq(FromValue(MapNumbers(ToValue(x, SList(e)), f), SList(e)), x)
    decreases x, 0, 1
  {
    var backs := ItemsTrip(x, SList(e), e, f);
  }

  lemma {:induction false} SetTrip(x: Rust, e: Shape, f: Number -> Number)
    requires WellTyped(x, SSet(e)) && DistinctKeys(e) && KeepsScalars(f) && Sharp(x) && NaNFree(x)
    ensures RustEq(FromValue(MapNumbers(ToValue(x, SSet(e)), f), SSet(e)), x)
    decreases x, 0, 1
  {
    var backs := ItemsTrip(x, SSet(e), e, f);
    DistinctBacks(backs, x.items);
    InsertedDistinct(backs);
    SameInOrder(backs, x.items);
  }

  predicate PairwiseDifferent(xs: seq<Rust>) {
    forall i, j | 0 <= i < |xs| && 0 <= j < |xs| && i != j :: !RustEq(xs[i], xs[j])
  }

  lemma {:induction false} DistinctBacks(backs: seq<Rust>, xs: seq<Rust>)
    requires |backs| == |xs| && (forall i | 0 <= i < |xs| :: RustEq(backs[i], xs[i])) && PairwiseDifferent(xs)
    ensures PairwiseDifferent(backs)
  {
    forall i, j | 0 <= i < |backs| && 0 <= j < |backs| && i != j ensures !RustEq(backs[i], backs[j]) {
      RustEqTransitive(backs[i], xs[i], xs[i]);
      RustEqTransitive(xs[i], backs[i], backs[j]);
      if RustEq(backs[i], backs[j]) { RustEqTransitive(xs[i], backs[j], xs[j]); }
    }
  }

  /** Sets listed in the same order, element by element equal, are equal. */
  lemma {:induction false} SameInOrder(xs: seq<Rust>, ys: seq<Rust>)
    requires |xs| == |ys| && forall i | 0 <= i < |xs| :: RustEq(xs[i], ys[i])
    ensures RustEq(RSet(xs), RSet(ys))
  {
    forall i | 0 <= i < |xs| ensures Among(xs[i], ys) && Holds(RSet(xs), ys[i]) { assert RustEq(xs[i], ys[i]); }
    assert SameMembers(RSet(xs), RSet(ys));
  }

  lemma {:induction false} MapTrip(x: Rust, e: Shape, f: Number -> Number)
    requires WellTyped(x, SMap(e)) && DistinctKeys(e) && KeepsScalars(f) && Sharp(x) && NaNFree(x)
    ensures RustEq(FromValue(MapNumbers(ToValue(x, SMap(e)), f), SMap(e)), x)
    decreases x, 0
  {
    var got, backs := SentMap(x, e, f);
    forall k | k in x.entries ensures RustEq(backs[k], x.entries[k]) { TypedTrip(x.entries[k], e, f); }
  }

  /** The entries of a map's value, and what is built from each. */
  lemma {:induction false} SentMap(x: Rust, e: Shape, f: Number -> Number)
    returns (got: map<string, Value>, backs: map<string, Rust>)
    requires WellTyped(x, SMap(e))
    ensures got.Keys == backs.Keys == x.entries.Keys
    ensures forall k | k in x.entries ::
              got[k] == MapNumbers(ToValue(x.entries[k], e), f) && backs[k] == FromValue(got[k], e)
    ensures FromValue(MapNumbers(ToValue(x, SMap(e)), f), SMap(e)) == RMap(backs)
  {
    var sent := ToValue(x, SMap(e)).entries;
    assert ToValue(x, SMap(e)) == Map(sent);
    got := NumbersOfMap(sent, f);
    backs := BuiltMap(got, e);
  }

  lemma {:induction false} NumbersOfMap(m: map<string, Value>, f: Number -> Number) returns (got: map<string, Value>)
    ensures MapNumbers(Map(m), f) == Map(got) && got.Keys == m.Keys
    ensures forall k | k in m :: got[k] == MapNumbers(m[k], f)
  {
    got := MapNumbers(Map(m), f).entries;
  }

  lemma {:induction false} BuiltMap(m: map<string, Value>, e: Shape) returns (backs: map<string, Rust>)
    ensures FromValue(Map(m), SMap(e)) == RMap(backs) && backs.Keys == m.Keys
    ensures forall k | k in m :: backs[k] == FromValue(m[k], e)
  {
    backs := FromValue(Map(m), SMap(e)).entries;
  }

  /** One field of a struct's value. */
  lemma {:induction false} SentField(x: Rust, fs: seq<Field>, f: Number -> Number, i: nat)
    requires WellTyped(x, SStruct(fs)) && Distinct(FieldKeys(fs)) && i < |fs|
    ensures FieldOf(MapNumbers(ToValue(x, SStruct(fs)), f), fs[i].Key())
            == MapNumbers(ToValue(x.values[i], fs[i].shape), f)
  {
    var ks, vs := FieldKeys(fs), FieldValues(x, fs);
    BuildMapAt(ks, vs, i);
    assert ks[i] == fs[i].Key() && vs[i] == ToValue(x.values[i], fs[i].shape);
    assert ks[i] in BuildMap(ks, vs);
    NumbersOfField(BuildMap(ks, vs), f, ks[i]);
  }

  lemma {:induction false} NumbersOfField(m: map<string, Value>, f: Number -> Number, k: string)
    requires k in m
    ensures FieldOf(MapNumbers(Object(m), f), k) == MapNumbers(m[k], f)
  {
  }

  lemma {:induction false} StructTrip(x: Rust, fs: seq<Field>, f: Number -> Number)
    requires WellTyped(x, SStruct(fs)) && DistinctKeys(SStruct(fs)) && KeepsScalars(f) && Sharp(x) && NaNFree(x)
    ensures RustEq(FromValue(MapNumbers(ToValue(x, SStruct(fs)), f), SStruct(fs)), x)
    decreases x, 0
  {
    var back := FromValue(MapNumbers(ToValue(x, SStruct(fs)), f), SStruct(fs));
    forall i | 0 <= i < |fs| ensures RustEq(back.values[i], x.values[i]) {
      SentField(x, fs, f, i);
      TypedTrip(x.values[i], fs[i].shape, f);
    }
  }

  // --- null and unknown -------------------------------------------------------

  /** The value of a type with nothing known in it: absent wrappers, zero scalars, empty
      collections, structs of such. */
  function Zero(shape: Shape): Rust {
    match shape
    case SBool => RBool(false)
    case SString => RString("")
    case SInt(_, _) => RInt(0)
    case SF64 => ZeroRepresentable(BINARY64); RF64(Finite(0.0))
    case SF32 => ZeroRepresentable(BINARY32); RF32(Finite(0.0))
    case SOption(_) => RNone
    case STfValue(_) => RTfNull
    case SList(_) => RList([])
    case SSet(_) => RSet([])
    case SMap(_) => RMap(map[])
    case SStruct(fs) => RStruct(seq(|fs|, i requires 0 <= i < |fs| => Zero(fs[i].shape)))
  }

  /** Null decodes to zero under every shape, and so does unknown, except that a wrapper
      made for it tells the two apart. */
  lemma {:induction false} NothingIsZero(shape: Shape)
    ensures FromValue(Null, shape) == Zero(shape)
    ensures FromValue(Unknown, shape) == if shape.STfValue? then RTfUnknown else Zero(shape)
    decreases shape, 1
  {
    match shape
    case SInt(signed, width) => ZeroInt(signed, width);
    case SF64 => ZeroFloat();
    case SF32 => ZeroFloat();
    case SList(_) => EmptyCollection(shape);
    case SSet(_) => EmptyCollection(shape);
    case SMap(_) => EmptyCollection(shape);
    case SStruct(fs) =>
      NothingInStruct(fs, Null);
      NothingInStruct(fs, Unknown);
    case _ =>
  }

  lemma {:induction false} EmptyCollection(shape: Shape)
    requires shape.SList? || shape.SSet? || shape.SMap?
    ensures FromValue(Null, shape) == Zero(shape) == FromValue(Unknown, shape)
  {
  }

  lemma {:induction false} ZeroInt(signed: bool, width: Width)
    ensures ToInt(I64(0), signed, width) == 0
  {
  }

  lemma {:induction false} NothingInStruct(fs: seq<Field>, v: Value)
    requires v.Null? || v.Unknown?
    ensures FromValue(v, SStruct(fs)) == Zero(SStruct(fs))
    decreases SStruct(fs), 0
  {
    forall i | 0 <= i < |fs| { NothingIsZero(fs[i].shape); }
    assert FromValue(v, SStruct(fs)).values == Zero(SStruct(fs)).values;
  }

  lemma {:induction false} ZeroFloat()
    ensures I64(0).ToF64() == Finite(0.0) && Narrow(I64(0).ToF64()) == Finite(0.0)
  {
    ZeroRepresentable(BINARY64);
    ZeroRepresentable(BINARY32);
    RoundExact(BINARY64, 0.0);
    RoundExact(BINARY32, 0.0);
  }

  /** The kind of value a shape other than a wrapper decodes. */
  predicate OfKind(v: Value, shape: Shape) {
    match shape
    case SBool => v.Bool?
    case SString => v.Str?
    case SInt(_, _) => v.Num?
    case SF64 => v.Num?
    case SF32 => v.Num?
    case SList(_) => v.List? || v.Set? || v.Tuple?
    case SSet(_) => v.List? || v.Set? || v.Tuple?
    case SMap(_) => v.Map? || v.Object?
    case SStruct(_) => v.Map? || v.Object?
    case _ => true
  }

  /** A value of another kind decodes to zero as well. */
  lemma {:induction false} OtherKindIsZero(v: Value, shape: Shape)
    requires !OfKind(v, shape)
    ensures FromValue(v, shape) == Zero(shape)
  {
    match shape
    case SInt(signed, width) => ZeroInt(signed, width);
    case SF64 => ZeroFloat();
    case SF32 => ZeroFloat();
    case SStruct(fs) => UnmappedStruct(fs, v);
    case _ =>
  }

  lemma {:induction false} UnmappedStruct(fs: seq<Field>, v: Value)
    requires Mapping(v).None?
    ensures FromValue(v, SStruct(fs)) == Zero(SStruct(fs))
  {
    forall i | 0 <= i < |fs| { NothingIsZero(fs[i].shape); }
    assert FromValue(v, SStruct(fs)).values == Zero(SStruct(fs)).values;
  }

  /** A field that is not there decodes to zero, `TfValue` to null. */
  lemma {:induction false} AbsentFieldIsZero(m: map<string, Value>, fs: seq<Field>, i: nat)
    requires i < |fs| && fs[i].Key() !in m
    ensures FromValue(Object(m), SStruct(fs)).RStruct? && |FromValue(Object(m), SStruct(fs)).values| == |fs|
    ensures FromValue(Object(m), SStruct(fs)).values[i] == Zero(fs[i].shape)
  {
    NothingIsZero(fs[i].shape);
    assert FieldOf(Object(m), fs[i].Key()) == Null;
  }

  /** Maps and objects decode alike. */
  lemma {:induction false} MappingsAlike(m: map<string, Value>, e: Shape, fs: seq<Field>)
    ensures FromValue(Map(m), SMap(e)) == FromValue(Object(m), SMap(e))
    ensures FromValue(Map(m), SStruct(fs)) == FromValue(Object(m), SStruct(fs))
  {
    assert FromValue(Map(m), SMap(e)).entries == FromValue(Object(m), SMap(e)).entries;
    assert FromValue(Map(m), SStruct(fs)).values == FromValue(Object(m), SStruct(fs)).values;
  }

  // --- and only those ---------------------------------------------------------

  lemma {:induction false} InsertedSharp(xs: seq<Rust>)
    requires forall i | 0 <= i < |xs| :: Sharp(xs[i])
    ensures Sharp(RSet(Inserted(xs)))
  {
    if xs != [] { InsertedSharp(xs[..|xs| - 1]); }
  }

  /** Whatever the tree, what is built from it is sharp. */
  lemma {:induction false} BuiltSetSharp(v: Value, e: Shape)
    ensures Sharp(FromValue(v, SSet(e)))
    decreases e, 1
  {
    forall i | 0 <= i < |Sequence(v)| { BuiltSharp(Sequence(v)[i], e); }
    InsertedSharp(seq(|Sequence(v)|, i requires 0 <= i < |Sequence(v)| => FromValue(Sequence(v)[i], e)));
  }

  lemma {:induction false} BuiltSharp(v: Value, shape: Shape)
    ensures Sharp(FromValue(v, shape))
    ensures !v.Null? && !v.Unknown? ==> !Absent(FromValue(v, shape))
    decreases shape, 0
  {
    match shape
    case SOption(s) => BuiltSharp(v, s);
    case STfValue(s) => BuiltSharp(v, s);
    case SList(e) => forall i | 0 <= i < |Sequence(v)| { BuiltSharp(Sequence(v)[i], e); }
    case SSet(e) => BuiltSetSharp(v, e);
    case SMap(e) => if Mapping(v).Some? { forall k | k in Mapping(v).value { BuiltSharp(Mapping(v).value[k], e); } }
    case SStruct(fs) => forall i | 0 <= i < |fs| { BuiltSharp(FieldOf(v, fs[i].Key()), fs[i].shape); }
    case _ =>
  }

  /** Through any such carrier a value comes back equal exactly when it is sharp and
      holds no NaN. */
  lemma {:induction false} TypedIff(x: Rust, shape: Shape, f: Number -> Number)
    requires WellTyped(x, shape) && DistinctKeys(shape) && KeepsScalars(f)
    ensures RustEq(FromValue(MapNumbers(ToValue(x, shape), f), shape), x) <==> Sharp(x) && NaNFree(x)
  {
    var v := MapNumbers(ToValue(x, shape), f);
    if Sharp(x) && NaNFree(x) { TypedTrip(x, shape, f); }
    if RustEq(FromValue(v, shape), x) { BuiltMeans(v, shape, x); }
  }

  lemma {:induction false} BuiltMeans(v: Value, shape: Shape, x: Rust)
    requires RustEq(FromValue(v, shape), x)
    ensures Sharp(x) && NaNFree(x)
  {
    BuiltSharp(v, shape);
    EqualMeans(FromValue(v, shape), x);
  }

  lemma {:induction false} MapUnchanged(v: Value)
    ensures MapNumbers(v, UNCHANGED) == v
  {
    match v
    case List(xs) => forall i | 0 <= i < |xs| { MapUnchanged(xs[i]); } assert MapNumbers(v, UNCHANGED).items == xs;
    case Set(xs) => forall i | 0 <= i < |xs| { MapUnchanged(xs[i]); } assert MapNumbers(v, UNCHANGED).items == xs;
    case Tuple(xs) => forall i | 0 <= i < |xs| { MapUnchanged(xs[i]); } assert MapNumbers(v, UNCHANGED).items == xs;
    case Map(m) => forall k | k in m { MapUnchanged(m[k]); }
    case Object(m) => forall k | k in m { MapUnchanged(m[k]); }
    case _ =>
  }

  /** `from_value(to_value(x)) == x`, exactly then. */
  lemma {:induction false} ValueRoundTrip(x: Rust, shape: Shape)
    requires WellTyped(x, shape) && DistinctKeys(shape)
    ensures RustEq(FromValue(ToValue(x, shape), shape), x) <==> Sharp(x) && NaNFree(x)
  {
    UnchangedKeepsScalars();
    MapUnchanged(ToValue(x, shape));
    TypedIff(x, shape, UNCHANGED);
  }

  /** `MapNumbers` with the wire's carrier is the wire's. */
  lemma {:induction false} MapCarried(v: Value)
    ensures MapNumbers(v, CARRIED) == WireNumbers(v)
    decreases v, 1
  {
    match v
    case List(_) => ItemsCarried(v);
    case Set(_) => ItemsCarried(v);
    case Tuple(_) => ItemsCarried(v);
    case Map(m) => EntriesCarried(v, m);
    case Object(m) => EntriesCarried(v, m);
    case _ =>
  }

  lemma {:induction false} ItemsCarried(v: Value)
    requires IsSequence(v)
    ensures MapNumbers(v, CARRIED) == WireNumbers(v)
    decreases v, 0
  {
    forall i | 0 <= i < |v.items| { MapCarried(v.items[i]); }
    assert MapNumbers(v, CARRIED).items == WireNumbers(v).items;
  }

  lemma {:induction false} EntriesCarried(v: Value, m: map<string, Value>)
    requires (v.Map? && v.entries == m) || (v.Object? && v.fields == m)
    ensures MapNumbers(v, CARRIED) == WireNumbers(v)
    decreases v, 0
  {
    forall k | k in m { MapCarried(m[k]); }
  }
}
