/** What the two decoders accept: under a type without dynamic slots, values of exactly
    that type, which encode again; with one, not always. */
module AcceptedLaws {
  import opened Wrappers
  import opened Text
  import opened Types
  import opened Values
  import opened Encode
  import opened Decode
  import opened RoundTrip
  import opened JsonCodec
  import opened JsonLaws

  /** The value conforms, and cutting it to the type leaves it as it is. */
  predicate Fitted(v: Value, ty: Type) { Conforms(v, ty) && Project(v, ty) == v }

  lemma {:induction false} FittedItems(vs: seq<Value>, ty: Type)
    requires ty.TList? || ty.TSet? || (ty.TTuple? && |vs| == |ty.elems|)
    requires forall i | 0 <= i < |vs| :: Fitted(vs[i], ElemType(ty, i))
    ensures ty.TList? ==> Fitted(List(vs), ty)
    ensures ty.TSet? ==> Fitted(Set(vs), ty)
    ensures ty.TTuple? ==> Fitted(Tuple(vs), ty)
  {
    match ty
    case TList(_) => assert Project(List(vs), ty).items == vs;
    case TSet(_) => assert Project(Set(vs), ty).items == vs;
    case TTuple(_) => assert Project(Tuple(vs), ty).items == vs;
  }

  lemma {:induction false} FittedEntries(m: map<string, Value>, e: Type)
    requires forall k | k in m :: Fitted(m[k], e)
    ensures Fitted(Map(m), TMap(e))
  {
    assert Project(Map(m), TMap(e)).entries == m;
  }

  lemma {:induction false} FittedFields(attrs: seq<ObjectAttr>, vs: seq<Value>)
    requires Distinct(Names(attrs)) && |vs| == |attrs| && forall i | 0 <= i < |attrs| :: Fitted(vs[i], attrs[i].ty)
    ensures Fitted(Object(BuildMap(Names(attrs), vs)), TObject(attrs))
  {
    var ks := Names(attrs);
    var m := BuildMap(ks, vs);
    forall i | 0 <= i < |ks| ensures ks[i] in m && m[ks[i]] == vs[i] { BuildMapAt(ks, vs, i); }
    FieldsConform(m, attrs);
    var p := ProjectedKeys(Object(m), attrs);
    forall i | 0 <= i < |ks| ensures p[ks[i]] == m[ks[i]] {
      assert ks[i] == attrs[i].name;
      ProjectedAt(Object(m), attrs, i);
    }
    EqualMaps(p, m, ks);
  }

  lemma {:induction false} FieldsConform(m: map<string, Value>, attrs: seq<ObjectAttr>)
    requires forall i | 0 <= i < |attrs| :: Names(attrs)[i] in m && Conforms(m[Names(attrs)[i]], attrs[i].ty)
    ensures Conforms(Object(m), TObject(attrs))
  {
    forall i | 0 <= i < |attrs| ensures attrs[i].name in m && Conforms(m[attrs[i].name], attrs[i].ty) {
      assert Names(attrs)[i] == attrs[i].name;
    }
  }

  // --- msgpack ----------------------------------------------------------------

  lemma {:induction false} BuildMapFrom(ks: seq<string>, vs: seq<Value>, k: string) returns (i: nat)
    requires |ks| == |vs| && k in BuildMap(ks, vs)
    ensures i < |ks| && ks[i] == k && BuildMap(ks, vs)[k] == vs[i]
  {
    i := |ks| - 1;
    if ks[i] != k { i := BuildMapFrom(ks[..i], vs[..i], k); }
  }

  /** Msgpack trees that a type accepts decode to values of exactly that type. */
  lemma {:induction false} AcceptedMp(host: Parsers, mp: Mp, ty: Type)
    requires DistinctNames(ty) && DynamicFree(ty) && FromMp(host, mp, ty).Ok?
    ensures Fitted(FromMp(host, mp, ty).value, ty)
    decreases mp, 1
  {
    if !mp.MNil? && !mp.MExt? {
      match ty
      case TList(_) => AcceptedMpItems(host, mp, ty);
      case TSet(_) => AcceptedMpItems(host, mp, ty);
      case TTuple(_) => AcceptedMpItems(host, mp, ty);
      case TMap(e) => AcceptedMpMap(host, mp, e);
      case TObject(attrs) => AcceptedMpObject(host, mp, attrs);
      case _ =>
    }
  }

  lemma {:induction false} AcceptedMpItems(host: Parsers, mp: Mp, ty: Type)
    requires mp.MArray? && (ty.TList? || ty.TSet? || ty.TTuple?)
    requires DistinctNames(ty) && DynamicFree(ty) && FromMp(host, mp, ty).Ok?
    ensures Fitted(FromMp(host, mp, ty).value, ty)
    decreases mp, 0
  {
    DecodeEachSpec(host, mp, ty);
    var vs := DecodeEach(host, mp, ty).value;
    forall i | 0 <= i < |vs| ensures Fitted(vs[i], ElemType(ty, i)) { AcceptedMp(host, mp.items[i], ElemType(ty, i)); }
    FittedItems(vs, ty);
  }

  lemma {:induction false} AcceptedMpMap(host: Parsers, mp: Mp, e: Type)
    requires DistinctNames(e) && DynamicFree(e) && MapFromMp(host, mp, e).Ok?
    ensures Fitted(MapFromMp(host, mp, e).value, TMap(e))
    decreases mp, 0
  {
    var rs := PairResults(host, mp, e);
    PairResultsSpec(host, mp, e);
    CollectSpec(rs);
    var vs := CollectAll(rs).value;
    var m := MapFromMp(host, mp, e).value.entries;
    forall k | k in m ensures Fitted(m[k], e) {
      var i := BuildMapFrom(KeyTexts(mp.pairs), vs, k);
      assert PairFromMp(host, mp, i, e) == Ok(vs[i]);
      AcceptedMp(host, mp.pairs[i].1, e);
    }
    FittedEntries(m, e);
  }

  lemma {:induction false} AcceptedMpObject(host: Parsers, mp: Mp, attrs: seq<ObjectAttr>)
    requires DistinctNames(TObject(attrs)) && DynamicFree(TObject(attrs)) && ObjectFromMp(host, mp, attrs).Ok?
    ensures Fitted(ObjectFromMp(host, mp, attrs).value, TObject(attrs))
    decreases mp, 0
  {
    var rs := FieldResults(host, mp, attrs);
    FieldResultsSpec(host, mp, attrs);
    CollectSpec(rs);
    var vs := CollectAll(rs).value;
    forall i | 0 <= i < |attrs| ensures Fitted(vs[i], attrs[i].ty) {
      var j := KeyIndex(mp.pairs, attrs[i].name);
      assert FieldFromMp(host, mp, attrs[i]) == Ok(vs[i]);
      if j < |mp.pairs| { AcceptedMp(host, mp.pairs[j].1, attrs[i].ty); }
    }
    FittedFields(attrs, vs);
  }

  // --- JSON -------------------------------------------------------------------

  /** And so do JSON documents. */
  lemma {:induction false} AcceptedJson(host: Parsers, lib: JsonLibrary, json: Json, ty: Type)
    requires DistinctNames(ty) && DynamicFree(ty) && DecodeJson(host, lib, json, ty).Ok?
    ensures Fitted(DecodeJson(host, lib, json, ty).value, ty)
    decreases json, 1
  {
    if !json.JNull? {
      match ty
      case TList(_) => AcceptedJsonItems(host, lib, json, ty);
      case TSet(_) => AcceptedJsonItems(host, lib, json, ty);
      case TTuple(_) => AcceptedJsonItems(host, lib, json, ty);
      case TMap(e) => AcceptedJsonMap(host, lib, json, e);
      case TObject(attrs) => AcceptedJsonObject(host, lib, json, attrs);
      case _ =>
    }
  }

  lemma {:induction false} AcceptedJsonItems(host: Parsers, lib: JsonLibrary, json: Json, ty: Type)
    requires json.JArray? && (ty.TList? || ty.TSet? || ty.TTuple?)
    requires DistinctNames(ty) && DynamicFree(ty) && DecodeJson(host, lib, json, ty).Ok?
    ensures Fitted(DecodeJson(host, lib, json, ty).value, ty)
    decreases json, 0
  {
    var vs := JsonItems(host, lib, json, ty);
    forall i | 0 <= i < |vs| ensures Fitted(vs[i], ElemType(ty, i)) {
      AcceptedJson(host, lib, json.items[i], ElemType(ty, i));
    }
    FittedItems(vs, ty);
  }

  lemma {:induction false} JsonItems(host: Parsers, lib: JsonLibrary, json: Json, ty: Type) returns (vs: seq<Value>)
    requires json.JArray? && DecodeJsonEach(host, lib, json, ty).Ok?
    ensures DecodeJsonEach(host, lib, json, ty) == Ok(vs) && |vs| == |json.items|
    ensures forall i | 0 <= i < |vs| :: DecodeJson(host, lib, json.items[i], ElemType(ty, i)) == Ok(vs[i])
  {
    var rs :=
      seq(|json.items|, i requires 0 <= i < |json.items| => DecodeJson(host, lib, json.items[i], ElemType(ty, i)));
    assert DecodeJsonEach(host, lib, json, ty) == CollectAll(rs);
    CollectSpec(rs);
    vs := CollectAll(rs).value;
  }

  lemma {:induction false} AcceptedJsonMap(host: Parsers, lib: JsonLibrary, json: Json, e: Type)
    requires DistinctNames(e) && DynamicFree(e) && MapFromJson(host, lib, json, e).Ok?
    ensures Fitted(MapFromJson(host, lib, json, e).value, TMap(e))
    decreases json, 0
  {
    var rs := MemberResults(host, lib, json, e);
    CollectSpec(rs);
    var vs := CollectAll(rs).value;
    var m := MapFromJson(host, lib, json, e).value.entries;
    forall k | k in m ensures Fitted(m[k], e) {
      var i := BuildMapFrom(Keys(json.members), vs, k);
      assert rs[i] == DecodeJson(host, lib, json.members[i].1, e);
      AcceptedJson(host, lib, json.members[i].1, e);
    }
    FittedEntries(m, e);
  }

  lemma {:induction false} AcceptedJsonObject(host: Parsers, lib: JsonLibrary, json: Json, attrs: seq<ObjectAttr>)
    requires DistinctNames(TObject(attrs)) && DynamicFree(TObject(attrs)) && ObjectFromJson(host, lib, json, attrs).Ok?
    ensures Fitted(ObjectFromJson(host, lib, json, attrs).value, TObject(attrs))
    decreases json, 0
  {
    var rs := FieldJsonResults(host, lib, json, attrs);
    CollectSpec(rs);
    var vs := CollectAll(rs).value;
    forall i | 0 <= i < |attrs| ensures Fitted(vs[i], attrs[i].ty) {
      var j := MemberIndex(json.members, attrs[i].name);
      assert rs[i] == FieldFromJson(host, lib, json, attrs[i]);
      if j < |json.members| { AcceptedJson(host, lib, json.members[j].1, attrs[i].ty); }
    }
    FittedFields(attrs, vs);
  }

  // --- what encodes again -----------------------------------------------------

  /** So without dynamic slots whatever the decoder accepts conforms and encodes again. */
  lemma {:induction false} DecodedConforms(host: Parsers, mp: Mp, ty: Type)
    requires DistinctNames(ty) && DynamicFree(ty) && FromMp(host, mp, ty).Ok?
    ensures Conforms(FromMp(host, mp, ty).value, ty) && ToMp(FromMp(host, mp, ty).value, ty).Ok?
  {
    AcceptedMp(host, mp, ty);
    EncodesIffConforms(FromMp(host, mp, ty).value, ty);
  }

  /** With a dynamic slot this fails: a list of mixed elements under a declared
      element type of dynamic decodes, but its inferred type fits only the first. */
  lemma {:induction false} DynamicDecodeNeedNotEncode(host: Parsers) returns (mp: Mp)
    ensures FromMp(host, mp, TDynamic) == Ok(List([Bool(true), Str("a")]))
    ensures !Conforms(List([Bool(true), Str("a")]), TDynamic) && ToMp(List([Bool(true), Str("a")]), TDynamic).Err?
  {
    var yes, text := MBool(true), MStr("a");
    var one := MArray([MBin(Some(ToCty(TBool))), yes]);
    var two := MArray([MBin(Some(ToCty(TString))), text]);
    mp := MArray([MBin(Some(ToCty(TList(TDynamic)))), MArray([one, two])]);
    DynamicDecodes(host, TBool, yes);
    DynamicDecodes(host, TString, text);
    DynamicDecodes(host, TList(TDynamic), MArray([one, two]));
    var inner := MArray([one, two]);
    DecodeEachSpec(host, inner, TList(TDynamic));
    assert inner.items[0] == one && inner.items[1] == two;
    var v := List([Bool(true), Str("a")]);
    assert DecodeEach(host, inner, TList(TDynamic)).value == v.items;
    assert InferType(v) == TList(TBool);
    assert !Conforms(v.items[1], TBool);
    EncodesIffConforms(v, TDynamic);
  }

  /** A tree a type accepts whose value does not fit the type. */
  ghost predicate Misfit(host: Parsers, mp: Mp, ty: Type, v: Value) {
    FromMp(host, mp, ty) == Ok(v) && !Conforms(v, ty)
  }

  lemma {:induction false} SequenceMisfit(host: Parsers, mp: Mp, w: Value, e: Type, ty: Type)
    requires Misfit(host, mp, e, w) && (ty == TList(e) || ty == TSet(e))
    ensures Misfit(host, MArray([mp]), ty, if ty.TList? then List([w]) else Set([w]))
  {
    DecodeEachSpec(host, MArray([mp]), ty);
    assert DecodeEach(host, MArray([mp]), ty).value == [w];
    assert !Conforms([w][0], e);
  }

  lemma {:induction false} TupleMisfit(host: Parsers, mp: Mp, w: Value, es: seq<Type>, i: nat)
    requires i < |es| && Misfit(host, mp, es[i], w)
    ensures Misfit(host, MArray(seq(|es|, j => if j == i then mp else MNil)), TTuple(es),
              Tuple(seq(|es|, j => if j == i then w else Null)))
  {
    var ms := MArray(seq(|es|, j => if j == i then mp else MNil));
    var vs := seq(|es|, j => if j == i then w else Null);
    DecodeEachSpec(host, ms, TTuple(es));
    assert DecodeEach(host, ms, TTuple(es)).value == vs;
    assert !Conforms(vs[i], es[i]);
  }

  lemma {:induction false} MapMisfit(host: Parsers, mp: Mp, w: Value, e: Type)
    requires Misfit(host, mp, e, w)
    ensures Misfit(host, MMap(StringPairs(["k"], [mp])), TMap(e), Map(map["k" := w]))
  {
    MapDecodes(host, ["k"], [mp], e, map["k" := w]);
    EntryMisfit(w, e);
  }

  lemma {:induction false} EntryMisfit(w: Value, e: Type)
    requires !Conforms(w, e)
    ensures !Conforms(Map(map["k" := w]), TMap(e))
  {
    assert map["k" := w]["k"] == w;
  }

  function OneField(attrs: seq<ObjectAttr>, name: string, w: Value): map<string, Value> {
    map n | n in Names(attrs) :: if n == name then w else Null
  }

  /** Of an object with one pair, the named field reads it and the others are null. */
  lemma {:induction false} OneFieldRead(host: Parsers, mp: Mp, w: Value, attrs: seq<ObjectAttr>, i: nat, j: nat)
    requires Distinct(Names(attrs)) && i < |attrs| && j < |attrs| && FromMp(host, mp, attrs[i].ty) == Ok(w)
    ensures FieldFromMp(host, MMap(StringPairs([attrs[i].name], [mp])), attrs[j]) == Ok(if j == i then w else Null)
  {
    var pairs := StringPairs([attrs[i].name], [mp]);
    assert Names(attrs)[i] == attrs[i].name && Names(attrs)[j] == attrs[j].name;
    assert pairs[0] == (MStr(attrs[i].name), mp);
    assert KeyIndex(pairs, attrs[j].name) == if j == i then 0 else 1;
  }

  lemma {:induction false} ObjectMisfit(host: Parsers, mp: Mp, w: Value, attrs: seq<ObjectAttr>, i: nat)
    requires Distinct(Names(attrs)) && i < |attrs| && Misfit(host, mp, attrs[i].ty, w)
    ensures Misfit(host, MMap(StringPairs([attrs[i].name], [mp])), TObject(attrs),
              Object(OneField(attrs, attrs[i].name, w)))
  {
    var name := attrs[i].name;
    var tree, out := MMap(StringPairs([name], [mp])), OneField(attrs, name, w);
    forall j | 0 <= j < |attrs| ensures FieldFromMp(host, tree, attrs[j]) == Ok(out[Names(attrs)[j]]) {
      OneFieldRead(host, mp, w, attrs, i, j);
      assert Names(attrs)[j] == name <==> j == i by { assert Names(attrs)[i] == name; }
    }
    FieldsAssemble(host, tree, attrs, Names(attrs), out);
    MapMeansObject(host, tree, attrs);
    FieldMisfit(out, attrs, i);
  }

  lemma {:induction false} FieldMisfit(out: map<string, Value>, attrs: seq<ObjectAttr>, i: nat)
    requires i < |attrs| && attrs[i].name in out && !Conforms(out[attrs[i].name], attrs[i].ty)
    ensures !Conforms(Object(out), TObject(attrs))
  {
  }

  /** Every type with a dynamic slot anywhere accepts a tree whose value does not fit. */
  lemma {:induction false} DynamicMisfit(host: Parsers, ty: Type) returns (mp: Mp, v: Value)
    requires DistinctNames(ty) && !DynamicFree(ty)
    ensures Misfit(host, mp, ty, v)
  {
    match ty
    case TDynamic =>
      mp := DynamicDecodeNeedNotEncode(host);
      v := List([Bool(true), Str("a")]);
    case TList(e) =>
      var m, w := DynamicMisfit(host, e);
      SequenceMisfit(host, m, w, e, ty);
      mp, v := MArray([m]), List([w]);
    case TSet(e) =>
      var m, w := DynamicMisfit(host, e);
      SequenceMisfit(host, m, w, e, ty);
      mp, v := MArray([m]), Set([w]);
    case TMap(e) =>
      var m, w := DynamicMisfit(host, e);
      MapMisfit(host, m, w, e);
      mp, v := MMap(StringPairs(["k"], [m])), Map(map["k" := w]);
    case TTuple(es) =>
      var i :| 0 <= i < |es| && !DynamicFree(es[i]);
      var m, w := DynamicMisfit(host, es[i]);
      TupleMisfit(host, m, w, es, i);
      mp := MArray(seq(|es|, j => if j == i then m else MNil));
      v := Tuple(seq(|es|, j => if j == i then w else Null));
    case TObject(attrs) =>
      var i :| 0 <= i < |attrs| && !DynamicFree(attrs[i].ty);
      var m, w := DynamicMisfit(host, attrs[i].ty);
      ObjectMisfit(host, m, w, attrs, i);
      mp := MMap(StringPairs([attrs[i].name], [m]));
      v := Object(OneField(attrs, attrs[i].name, w));
  }

  /** Whatever the decoder accepts encodes again: true of exactly the types without
      dynamic slots. */
  ghost predicate AcceptedEncodes(host: Parsers, ty: Type) {
    forall mp | FromMp(host, mp, ty).Ok? :: ToMp(FromMp(host, mp, ty).value, ty).Ok?
  }

  lemma {:induction false} AcceptedEncodesIffDynamicFree(host: Parsers, ty: Type)
    requires DistinctNames(ty)
    ensures AcceptedEncodes(host, ty) <==> DynamicFree(ty)
  {
    if DynamicFree(ty) {
      forall mp | FromMp(host, mp, ty).Ok?
        ensures ToMp(FromMp(host, mp, ty).value, ty).Ok?
      {
        DecodedConforms(host, mp, ty);
      }
    } else {
      var mp, v := DynamicMisfit(host, ty);
      EncodesIffConforms(v, ty);
      assert FromMp(host, mp, ty).Ok? && ToMp(FromMp(host, mp, ty).value, ty).Err?;
    }
  }
}
