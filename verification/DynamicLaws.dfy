/** What a dynamic slot carries: which values it accepts, told from the values alone, and
    the pair that is sent. */
module DynamicLaws {
  import opened Wrappers
  import opened Doubles
  import opened Numbers
  import opened Text
  import opened Types
  import opened Values
  import opened Encode
  import opened RoundTrip

  // --- the values accepted ----------------------------------------------------

  /** A value a dynamic slot can carry: null, unknown and every scalar; a list, set or map
      whose elements all have the type its first one fixes, first in key order for a map;
      a tuple or object whose parts can all be carried. */
  predicate Carriable(v: Value)
    decreases v, 0
  {
    match v
    case List(xs) => forall i | 0 <= i < |xs| :: FixedBy(xs[i], xs[0])
    case Set(xs) => forall i | 0 <= i < |xs| :: FixedBy(xs[i], xs[0])
    case Map(m) => forall k | k in m :: FixedBy(m[k], m[Least(m.Keys)])
    case Tuple(xs) => forall i | 0 <= i < |xs| :: Carriable(xs[i])
    case Object(m) => forall k | k in m :: Carriable(m[k])
    case _ => true
  }

  /** `x` has the type `first` fixes: null and unknown have every type, and fix none, so
      that anything carriable goes with them; an empty collection fixes nothing of its
      elements; and an object fixes the keys it has and no others. */
  predicate FixedBy(x: Value, first: Value)
    decreases x, 1
  {
    x.Null? || x.Unknown?
    || match first
       case Null => Carriable(x)
       case Unknown => Carriable(x)
       case Bool(_) => x.Bool?
       case Num(_) => x.Num?
       case Str(_) => x.Str?
       case List(ys) => x.List? && forall i | 0 <= i < |x.items| :: ElementFixed(x.items[i], ys)
       case Set(ys) => x.Set? && forall i | 0 <= i < |x.items| :: ElementFixed(x.items[i], ys)
       case Map(m) =>
         x.Map? && forall k | k in x.entries ::
           if m == map[] then Carriable(x.entries[k]) else FixedBy(x.entries[k], m[Least(m.Keys)])
       case Tuple(ys) => x.Tuple? && |x.items| == |ys| && forall i | 0 <= i < |ys| :: FixedBy(x.items[i], ys[i])
       case Object(m) => x.Object? && forall k | k in m && k in x.fields :: FixedBy(x.fields[k], m[k])
  }

  predicate ElementFixed(x: Value, ys: seq<Value>)
    decreases x, 2
  {
    if ys == [] then Carriable(x) else FixedBy(x, ys[0])
  }

  /** Conforming to the type inferred from a value is having the type it fixes. */
  lemma {:induction false} FixedIsInferred(x: Value, first: Value)
    ensures Conforms(x, InferType(first)) <==> FixedBy(x, first)
    decreases x, 3
  {
    if !x.Null? && !x.Unknown? {
      match first
      case Null => CarriableIsDynamic(x);
      case Unknown => CarriableIsDynamic(x);
      case List(ys) => if x.List? { forall i | 0 <= i < |x.items| { ElementInferred(x.items[i], ys); } }
      case Set(ys) => if x.Set? { forall i | 0 <= i < |x.items| { ElementInferred(x.items[i], ys); } }
      case Map(m) => if x.Map? { EntriesInferred(x, m); }
      case Tuple(ys) => if x.Tuple? && |x.items| == |ys| { PartsInferred(x, ys); }
      case Object(m) => if x.Object? { FieldsInferred(x, m); }
      case _ =>
    }
  }

  lemma {:induction false} ElementInferred(x: Value, ys: seq<Value>)
    ensures Conforms(x, if ys == [] then TDynamic else InferType(ys[0])) <==> ElementFixed(x, ys)
    decreases x, 4
  {
    if ys == [] { CarriableIsDynamic(x); } else { FixedIsInferred(x, ys[0]); }
  }

  lemma {:induction false} EntriesInferred(x: Value, m: map<string, Value>)
    requires x.Map?
    ensures Conforms(x, InferType(Map(m))) <==> FixedBy(x, Map(m))
    decreases x, 0
  {
    forall k | k in x.entries
      ensures Conforms(x.entries[k], InferType(Map(m)).elem) <==>
              if m == map[] then Carriable(x.entries[k]) else FixedBy(x.entries[k], m[Least(m.Keys)])
    {
      if m == map[] { CarriableIsDynamic(x.entries[k]); } else { FixedIsInferred(x.entries[k], m[Least(m.Keys)]); }
    }
  }

  lemma {:induction false} PartsInferred(x: Value, ys: seq<Value>)
    requires x.Tuple? && |x.items| == |ys|
    ensures Conforms(x, InferType(Tuple(ys))) <==> FixedBy(x, Tuple(ys))
    decreases x, 0
  {
    var es := InferType(Tuple(ys)).elems;
    forall i | 0 <= i < |ys|
      ensures es[i] == InferType(ys[i]) && (Conforms(x.items[i], es[i]) <==> FixedBy(x.items[i], ys[i]))
    {
      FixedIsInferred(x.items[i], ys[i]);
    }
  }

  lemma {:induction false} FieldsInferred(x: Value, m: map<string, Value>)
    requires x.Object?
    ensures Conforms(x, InferType(Object(m))) <==> FixedBy(x, Object(m))
    decreases x, 0
  {
    var ks, attrs := InferredAttrs(m);
    forall i | 0 <= i < |ks| && ks[i] in x.fields
      ensures Conforms(x.fields[ks[i]], attrs[i].ty) <==> FixedBy(x.fields[ks[i]], m[ks[i]])
    {
      FixedIsInferred(x.fields[ks[i]], m[ks[i]]);
    }
    if FixedBy(x, Object(m)) {
      forall i | 0 <= i < |attrs| && attrs[i].name in x.fields ensures Conforms(x.fields[attrs[i].name], attrs[i].ty) {
        assert attrs[i].name == ks[i];
      }
    }
    if Conforms(x, TObject(attrs)) {
      forall k | k in m && k in x.fields ensures FixedBy(x.fields[k], m[k]) {
        assert k in ks;
        var i :| 0 <= i < |ks| && ks[i] == k;
        assert attrs[i].name == k;
      }
    }
  }

  lemma {:induction false} CarriableIsDynamic(v: Value)
    ensures Conforms(v, TDynamic) <==> Carriable(v)
    decreases v, 2
  {
    if !v.Null? && !v.Unknown? {
      InferDynamic(v);
      SelfFixed(v);
    }
  }

  lemma {:induction false} SelfFixed(v: Value)
    requires !v.Null? && !v.Unknown?
    ensures Conforms(v, InferType(v)) <==> Carriable(v)
    decreases v, 1
  {
    match v
    case List(xs) => forall i | 0 <= i < |xs| { FixedIsInferred(xs[i], xs[0]); }
    case Set(xs) => forall i | 0 <= i < |xs| { FixedIsInferred(xs[i], xs[0]); }
    case Map(m) => forall k | k in m { FixedIsInferred(m[k], m[Least(m.Keys)]); }
    case Tuple(xs) =>
      PartsInferred(v, xs);
      forall i | 0 <= i < |xs| ensures FixedBy(xs[i], xs[i]) <==> Carriable(xs[i]) { OwnType(xs[i]); }
    case Object(m) =>
      FieldsInferred(v, m);
      forall k | k in m ensures FixedBy(m[k], m[k]) <==> Carriable(m[k]) { OwnType(m[k]); }
    case _ =>
  }

  /** A value has the type it fixes exactly when it can be carried. */
  lemma {:induction false} OwnType(v: Value)
    ensures FixedBy(v, v) <==> Carriable(v)
    decreases v, 4
  {
    FixedIsInferred(v, v);
    if !v.Null? && !v.Unknown? { SelfFixed(v); }
  }

  /** A dynamic slot accepts exactly the carriable values. */
  lemma {:induction false} DynamicEncodes(v: Value)
    ensures ToMp(v, TDynamic).Ok? <==> Carriable(v)
  {
    EncodesIffConforms(v, TDynamic);
    CarriableIsDynamic(v);
  }

  // --- what is sent -----------------------------------------------------------

  /** The type document that goes with a value. */
  function Document(v: Value): Json {
    match v
    case Bool(_) => JString("bool")
    case Num(_) => JString("number")
    case Str(_) => JString("string")
    case List(xs) => JArray([JString("list"), if xs == [] then JString("dynamic") else Document(xs[0])])
    case Set(xs) => JArray([JString("set"), if xs == [] then JString("dynamic") else Document(xs[0])])
    case Map(m) => JArray([JString("map"), if m == map[] then JString("dynamic") else Document(m[Least(m.Keys)])])
    case Tuple(xs) => JArray([JString("tuple"), JArray(seq(|xs|, i requires 0 <= i < |xs| => Document(xs[i])))])
    case Object(m) =>
      var ks := Sorted(m.Keys);
      JArray([JString("object"), JObject(Pairs(ks, seq(|ks|, i requires 0 <= i < |ks| => Document(m[ks[i]]))))])
    case _ => JString("dynamic")
  }

  lemma {:induction false} DocumentIsInferred(v: Value)
    ensures ToCty(InferType(v)) == Document(v)
    decreases v, 1
  {
    match v
    case List(xs) => if xs != [] { DocumentIsInferred(xs[0]); }
    case Set(xs) => if xs != [] { DocumentIsInferred(xs[0]); }
    case Map(m) => if m != map[] { DocumentIsInferred(m[Least(m.Keys)]); }
    case Tuple(xs) => TupleDocument(v, xs);
    case Object(m) => ObjectDocumented(v, m);
    case _ =>
  }

  lemma {:induction false} TupleDocument(v: Value, xs: seq<Value>)
    requires v == Tuple(xs)
    ensures ToCty(InferType(v)) == Document(v)
    decreases v, 0
  {
    var es := InferType(v).elems;
    var a := seq(|es|, i requires 0 <= i < |es| => ToCty(es[i]));
    var b := seq(|xs|, i requires 0 <= i < |xs| => Document(xs[i]));
    forall i | 0 <= i < |xs| ensures a[i] == b[i] { DocumentIsInferred(xs[i]); }
    assert a == b;
    assert ToCty(TTuple(es)) == JArray([JString("tuple"), JArray(a)]);
  }

  lemma {:induction false} ObjectDocumented(v: Value, m: map<string, Value>)
    requires v == Object(m)
    ensures ToCty(InferType(v)) == Document(v)
    decreases v, 0
  {
    var ks, attrs := InferredAttrs(m);
    var a := seq(|attrs|, i requires 0 <= i < |attrs| => ToCty(attrs[i].ty));
    var b := seq(|ks|, i requires 0 <= i < |ks| => Document(m[ks[i]]));
    forall i | 0 <= i < |ks| ensures a[i] == b[i] { DocumentIsInferred(m[ks[i]]); }
    assert a == b;
    InsertAllDistinct(Pairs(Names(attrs), a));
    NoOptionals(attrs);
    ObjectDocuments(attrs, a);
  }

  lemma {:induction false} ObjectDocuments(attrs: seq<ObjectAttr>, docs: seq<Json>)
    requires |docs| == |attrs| && forall i | 0 <= i < |attrs| :: docs[i] == ToCty(attrs[i].ty)
    ensures ToCty(TObject(attrs)) == ObjectDocument(InsertAll(Pairs(Names(attrs), docs)), Optionals(attrs))
  {
    assert docs == seq(|attrs|, i requires 0 <= i < |attrs| => ToCty(attrs[i].ty));
  }

  lemma {:induction false} NoOptionals(attrs: seq<ObjectAttr>)
    requires forall i | 0 <= i < |attrs| :: !attrs[i].optional
    ensures Optionals(attrs) == []
  {
    if attrs != [] { NoOptionals(attrs[..|attrs| - 1]); }
  }

  /** A carriable value is sent with its type document in front; null and unknown are sent
      bare, under this and every other type. */
  lemma {:induction false} DynamicSends(v: Value)
    requires Carriable(v)
    ensures match v
            case Null => ToMp(v, TDynamic) == Ok(MNil)
            case Unknown => ToMp(v, TDynamic) == Ok(MExt(0, [0]))
            case Bool(b) => ToMp(v, TDynamic) == Ok(MArray([MBin(Some(JString("bool"))), MBool(b)]))
            case Str(s) => ToMp(v, TDynamic) == Ok(MArray([MBin(Some(JString("string"))), MStr(s)]))
            case Num(n) =>
              ToMp(v, TDynamic) == Ok(MArray([MBin(Some(JString("number"))), WireToMp(NumberToWire(n))]))
            case _ =>
              && ToMp(v, InferType(v)).Ok?
              && ToMp(v, TDynamic) == Ok(MArray([MBin(Some(Document(v))), ToMp(v, InferType(v)).value]))
  {
    DynamicEncodes(v);
    DocumentIsInferred(v);
    if !v.Null? && !v.Unknown? { InferDynamic(v); }
  }

  lemma {:induction false} AbsentSent(ty: Type)
    ensures ToMp(Null, ty) == Ok(MNil) && ToMp(Unknown, ty) == Ok(MExt(0, [0]))
  {
  }

  /** So every boolean, number and string can be carried, and a list of two of them only
      when they are of one kind. */
  lemma {:induction false} ScalarsCarried(a: Value, b: Value)
    requires (a.Bool? || a.Num? || a.Str?) && (b.Bool? || b.Num? || b.Str?)
    ensures ToMp(a, TDynamic).Ok? && ToMp(Tuple([a, b]), TDynamic).Ok?
    ensures ToMp(List([a, b]), TDynamic).Ok? <==> a.Bool? == b.Bool? && a.Num? == b.Num? && a.Str? == b.Str?
  {
    DynamicEncodes(a);
    DynamicEncodes(Tuple([a, b]));
    DynamicEncodes(List([a, b]));
    assert [a, b][0] == a && [a, b][1] == b;
  }

  /** A map is sent with its keys in ascending order. */
  lemma {:induction false} MapKeysAscend(m: map<string, Value>, e: Type) returns (ks: seq<string>, ms: seq<Mp>)
    requires ToMp(Map(m), TMap(e)).Ok?
    ensures |ms| == |ks| && ToMp(Map(m), TMap(e)) == Ok(MMap(StringPairs(ks, ms)))
    ensures Ascending(ks) && forall k :: k in ks <==> k in m
  {
    ks, ms := EncodedMap(Map(m), e);
    SortedAscending(m.Keys);
  }
}
