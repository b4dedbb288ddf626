/** Type-directed encoding of values to msgpack trees. */
module Encode {
  import opened Wrappers
  import opened Doubles
  import opened Numbers
  import opened Text
  import opened Types
  import opened Values

  /** A msgpack tree. A binary holds a type constraint's JSON bytes, seen here as the
      document they spell, or as nothing when they spell none. */
  datatype Mp =
    | MNil
    | MBool(b: bool)
    | MInt(n: wireint)
    | MF32(single: F32)
    | MF64(double: F64)
    | MStr(s: string)
    | MBin(doc: Option<Json>)
    | MArray(items: seq<Mp>)
    | MMap(pairs: seq<(Mp, Mp)>)
    | MExt(tag: int, data: seq<int>)

  datatype CodecError = TypeMismatch | BadMapKey | BadDynamic | BadBytes

  type Encoded = Result<Mp, CodecError>

  /** go-cty's plain unknown: a one-byte extension of type 0. */
  const UNKNOWN_MARKER := MExt(0, [0])

  function WireToMp(w: WireNumber): Mp {
    match w
    case WireInt(n) => MInt(n)
    case WireFloat(d) => MF64(d)
  }

  /** A stable insertion of one attribute into a list sorted by name. */
  function InsertByName(a: ObjectAttr, sorted: seq<ObjectAttr>): (r: seq<ObjectAttr>)
    ensures multiset(r) == multiset(sorted) + multiset{a}
    ensures |r| == |sorted| + 1
  {
    if sorted == [] then [a]
    else if Less(sorted[0].name, a.name) then
      assert sorted == [sorted[0]] + sorted[1..];
      [sorted[0]] + InsertByName(a, sorted[1..])
    else [a] + sorted
  }

  /** The attributes in name order, equal names in declaration order. */
  function SortByName(attrs: seq<ObjectAttr>): (r: seq<ObjectAttr>)
    ensures multiset(r) == multiset(attrs)
    ensures |r| == |attrs|
  {
    if attrs == [] then []
    else
      assert attrs == [attrs[0]] + attrs[1..];
      InsertByName(attrs[0], SortByName(attrs[1..]))
  }

  function StringPairs(ks: seq<string>, ms: seq<Mp>): (ps: seq<(Mp, Mp)>)
    requires |ks| == |ms|
    ensures |ps| == |ks| && forall i | 0 <= i < |ks| :: ps[i] == (MStr(ks[i]), ms[i])
  {
    seq(|ks|, i requires 0 <= i < |ks| => (MStr(ks[i]), ms[i]))
  }

  predicate IsSequence(v: Value) { v.List? || v.Set? || v.Tuple? }

  /** The type of the `i`-th element under a sequence type. */
  function ElemType(ty: Type, i: nat): Type {
    match ty
    case TList(e) => e
    case TSet(e) => e
    case TTuple(es) => if i < |es| then es[i] else TDynamic
    case _ => TDynamic
  }

  /** `encode_each`, and the zip of `encode_tuple`: all elements, or the first error. */
  function EncodeEach(v: Value, ty: Type): Result<seq<Mp>, CodecError>
    requires IsSequence(v)
    decreases v, 0
  {
    CollectAll(seq(|v.items|, i requires 0 <= i < |v.items| => ToMp(v.items[i], ElemType(ty, i))))
  }

  function EntryToMp(v: Value, k: string, e: Type): Encoded
    requires v.Map? && k in v.entries
    decreases v, 0, 0
  {
    ToMp(v.entries[k], e)
  }

  /** The values of `encode_map`, for the map's keys in order. */
  function EncodeEntries(v: Value, ks: seq<string>, e: Type): (r: Result<seq<Mp>, CodecError>)
    requires v.Map? && forall i | 0 <= i < |ks| :: ks[i] in v.entries
    ensures r.Ok? ==> |r.value| == |ks|
    decreases v, 0, 1
  {
    CollectAll(seq(|ks|, i requires 0 <= i < |ks| => EntryToMp(v, ks[i], e)))
  }

  /** One field of `encode_object`: a missing attribute encodes as null. */
  function FieldToMp(v: Value, a: ObjectAttr): Encoded
    requires v.Object?
    decreases v, 0, 0
  {
    if a.name in v.fields then ToMp(v.fields[a.name], a.ty) else Ok(MNil)
  }

  function EncodeFields(v: Value, attrs: seq<ObjectAttr>): (r: Result<seq<Mp>, CodecError>)
    requires v.Object?
    ensures r.Ok? ==> |r.value| == |attrs|
    decreases v, 0, 1
  {
    CollectAll(seq(|attrs|, i requires 0 <= i < |attrs| => FieldToMp(v, attrs[i])))
  }

  /** `to_mp`. Null and unknown encode the same under every type; a dynamic slot infers
      a type and encodes the same value again under it. */
  function ToMp(v: Value, ty: Type): Encoded
    decreases v, if ty.TDynamic? then 2 else 1
  {
    if v.Null? then Ok(MNil)
    else if v.Unknown? then Ok(UNKNOWN_MARKER)
    else
      match ty
      case TBool => if v.Bool? then Ok(MBool(v.b)) else Err(TypeMismatch)
      case TNumber => if v.Num? then Ok(WireToMp(NumberToWire(v.n))) else Err(TypeMismatch)
      case TString => if v.Str? then Ok(MStr(v.s)) else Err(TypeMismatch)
      case TList(_) => if !v.List? then Err(TypeMismatch) else var ms :- EncodeEach(v, ty); Ok(MArray(ms))
      case TSet(_) => if !v.Set? then Err(TypeMismatch) else var ms :- EncodeEach(v, ty); Ok(MArray(ms))
      case TTuple(es) =>
        if !v.Tuple? || |v.items| != |es| then Err(TypeMismatch) else var ms :- EncodeEach(v, ty); Ok(MArray(ms))
      case TMap(e) =>
        if !v.Map? then Err(TypeMismatch)
        else
          var ks := Sorted(v.entries.Keys);
          var ms :- EncodeEntries(v, ks, e);
          Ok(MMap(StringPairs(ks, ms)))
      case TObject(attrs) =>
        if !v.Object? then Err(TypeMismatch)
        else
          var sorted := SortByName(attrs);
          var ms :- EncodeFields(v, sorted);
          Ok(MMap(StringPairs(Names(sorted), ms)))
      case TDynamic =>
        InferDynamic(v);
        var inner :- ToMp(v, InferType(v));
        Ok(MArray([MBin(Some(ToCty(InferType(v)))), inner]))
  }

  /** A value conforms to a type: null and unknown always, containers element by
      element, objects attribute by attribute with absence allowed and anything
      undeclared ignored, and a dynamic slot when the value conforms to the type
      inferred from it. */
  predicate Conforms(v: Value, ty: Type)
    decreases v, if ty.TDynamic? then 1 else 0
  {
    v.Null? || v.Unknown?
    || match ty
       case TBool => v.Bool?
       case TNumber => v.Num?
       case TString => v.Str?
       case TList(e) => v.List? && forall i | 0 <= i < |v.items| :: Conforms(v.items[i], e)
       case TSet(e) => v.Set? && forall i | 0 <= i < |v.items| :: Conforms(v.items[i], e)
       case TTuple(es) => v.Tuple? && |v.items| == |es| && forall i | 0 <= i < |es| :: Conforms(v.items[i], es[i])
       case TMap(e) => v.Map? && forall k | k in v.entries :: Conforms(v.entries[k], e)
       case TObject(attrs) =>
         v.Object? && forall i | 0 <= i < |attrs| && attrs[i].name in v.fields ::
             Conforms(v.fields[attrs[i].name], attrs[i].ty)
       case TDynamic => InferDynamic(v); Conforms(v, InferType(v))
  }

  lemma {:induction false} SortedMember(attrs: seq<ObjectAttr>, a: ObjectAttr)
    ensures a in SortByName(attrs) <==> a in attrs
  {
    assert a in multiset(SortByName(attrs)) <==> a in multiset(attrs);
  }

  lemma {:induction false} EncodeEachSpec(v: Value, ty: Type)
    requires IsSequence(v)
    ensures EncodeEach(v, ty).Ok? <==> forall i | 0 <= i < |v.items| :: ToMp(v.items[i], ElemType(ty, i)).Ok?
    ensures EncodeEach(v, ty).Ok? ==>
              && |EncodeEach(v, ty).value| == |v.items|
              && forall i | 0 <= i < |v.items| :: ToMp(v.items[i], ElemType(ty, i)) == Ok(EncodeEach(v, ty).value[i])
  {
    var rs := seq(|v.items|, i requires 0 <= i < |v.items| => ToMp(v.items[i], ElemType(ty, i)));
    assert EncodeEach(v, ty) == CollectAll(rs);
    assert forall i | 0 <= i < |rs| :: rs[i] == ToMp(v.items[i], ElemType(ty, i));
    CollectSpec(rs);
  }

  lemma {:induction false} EncodeEntriesSpec(v: Value, ks: seq<string>, e: Type)
    requires v.Map? && forall i | 0 <= i < |ks| :: ks[i] in v.entries
    ensures EncodeEntries(v, ks, e).Ok? <==> forall i | 0 <= i < |ks| :: ToMp(v.entries[ks[i]], e).Ok?
    ensures EncodeEntries(v, ks, e).Ok? ==>
              forall i | 0 <= i < |ks| :: ToMp(v.entries[ks[i]], e) == Ok(EncodeEntries(v, ks, e).value[i])
  {
    var rs := seq(|ks|, i requires 0 <= i < |ks| => EntryToMp(v, ks[i], e));
    assert EncodeEntries(v, ks, e) == CollectAll(rs);
    assert forall i | 0 <= i < |rs| :: rs[i] == EntryToMp(v, ks[i], e) == ToMp(v.entries[ks[i]], e);
    CollectSpec(rs);
  }

  lemma {:induction false} EncodeFieldsSpec(v: Value, attrs: seq<ObjectAttr>)
    requires v.Object?
    ensures EncodeFields(v, attrs).Ok? <==> forall i | 0 <= i < |attrs| :: FieldToMp(v, attrs[i]).Ok?
    ensures EncodeFields(v, attrs).Ok? ==>
              forall i | 0 <= i < |attrs| :: FieldToMp(v, attrs[i]) == Ok(EncodeFields(v, attrs).value[i])
  {
    var rs := seq(|attrs|, i requires 0 <= i < |attrs| => FieldToMp(v, attrs[i]));
    assert EncodeFields(v, attrs) == CollectAll(rs);
    assert forall i | 0 <= i < |rs| :: rs[i] == FieldToMp(v, attrs[i]);
    CollectSpec(rs);
  }

  /** Encoding succeeds exactly on the values that conform. */
  lemma {:induction false} EncodesIffConforms(v: Value, ty: Type)
    ensures ToMp(v, ty).Ok? <==> Conforms(v, ty)
    decreases v, if ty.TDynamic? then 2 else 1
  {
    if !v.Null? && !v.Unknown? {
      match ty
      case TList(_) => if v.List? { SequenceEncodes(v, ty); }
      case TSet(_) => if v.Set? { SequenceEncodes(v, ty); }
      case TTuple(_) => if v.Tuple? { SequenceEncodes(v, ty); }
      case TMap(e) => if v.Map? { MapEncodes(v, e); }
      case TObject(attrs) => if v.Object? { ObjectEncodes(v, attrs); }
      case TDynamic => InferDynamic(v); EncodesIffConforms(v, InferType(v));
      case _ =>
    }
  }

  lemma {:induction false} SequenceEncodes(v: Value, ty: Type)
    requires IsSequence(v)
    ensures EncodeEach(v, ty).Ok? <==> forall i | 0 <= i < |v.items| :: Conforms(v.items[i], ElemType(ty, i))
    decreases v, 0
  {
    EncodeEachSpec(v, ty);
    forall i | 0 <= i < |v.items| { EncodesIffConforms(v.items[i], ElemType(ty, i)); }
  }

  lemma {:induction false} MapEncodes(v: Value, e: Type)
    requires v.Map?
    ensures ToMp(v, TMap(e)).Ok? <==> Conforms(v, TMap(e))
    decreases v, 0
  {
    forall k | k in v.entries { EncodesIffConforms(v.entries[k], e); }
    var ks := Sorted(v.entries.Keys);
    EncodeEntriesSpec(v, ks, e);
    assert forall k | k in v.entries :: k in ks;
  }

  lemma {:induction false} FieldEncodes(v: Value, a: ObjectAttr)
    requires v.Object?
    ensures FieldToMp(v, a).Ok? <==> (a.name in v.fields ==> Conforms(v.fields[a.name], a.ty))
    decreases v, 0, 0
  {
    if a.name in v.fields { EncodesIffConforms(v.fields[a.name], a.ty); }
  }

  /** Whether every attribute of a list encodes. */
  predicate EachEncodes(v: Value, attrs: seq<ObjectAttr>)
    requires v.Object?
  {
    forall i | 0 <= i < |attrs| :: FieldToMp(v, attrs[i]).Ok?
  }

  /** Sorting the attributes does not change that. */
  lemma {:induction false} SortedEncodes(v: Value, attrs: seq<ObjectAttr>)
    requires v.Object?
    ensures EachEncodes(v, SortByName(attrs)) <==> EachEncodes(v, attrs)
  {
    var sorted := SortByName(attrs);
    forall a ensures a in sorted <==> a in attrs { SortedMember(attrs, a); }
    if EachEncodes(v, sorted) {
      forall i | 0 <= i < |attrs| ensures FieldToMp(v, attrs[i]).Ok? { assert attrs[i] in sorted; }
    }
    if EachEncodes(v, attrs) {
      forall i | 0 <= i < |sorted| ensures FieldToMp(v, sorted[i]).Ok? { assert sorted[i] in attrs; }
    }
  }

  lemma {:induction false} ObjectEncodes(v: Value, attrs: seq<ObjectAttr>)
    requires v.Object?
    ensures ToMp(v, TObject(attrs)).Ok? <==> Conforms(v, TObject(attrs))
    decreases v, 0, 2
  {
    EncodeFieldsSpec(v, SortByName(attrs));
    SortedEncodes(v, attrs);
    EachConforms(v, attrs);
  }

  lemma {:induction false} EachConforms(v: Value, attrs: seq<ObjectAttr>)
    requires v.Object?
    ensures EachEncodes(v, attrs) <==> Conforms(v, TObject(attrs))
    decreases v, 0, 1
  {
    forall i | 0 <= i < |attrs| { FieldEncodes(v, attrs[i]); }
  }
}
