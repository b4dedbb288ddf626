/** What the JSON path gives back, with a type and without one. */
module JsonLaws {
  import opened Wrappers
  import opened Numbers
  import opened Text
  import opened Types
  import opened Values
  import opened Encode
  import opened Decode
  import opened RoundTrip
  import opened JsonCodec

  /** What JSON alone can tell apart: unknown is null, every sequence is a tuple, every
      keyed container an object. */
  function Collapse(v: Value): Value {
    match v
    case Unknown => Null
    case List(xs) => Tuple(seq(|xs|, i requires 0 <= i < |xs| => Collapse(xs[i])))
    case Set(xs) => Tuple(seq(|xs|, i requires 0 <= i < |xs| => Collapse(xs[i])))
    case Tuple(xs) => Tuple(seq(|xs|, i requires 0 <= i < |xs| => Collapse(xs[i])))
    case Map(m) => Object(map k | k in m :: Collapse(m[k]))
    case Object(m) => Object(map k | k in m :: Collapse(m[k]))
    case _ => v
  }

  /** Unknowns replaced by null, and nothing else. */
  function Known(v: Value): Value {
    match v
    case Unknown => Null
    case List(xs) => List(seq(|xs|, i requires 0 <= i < |xs| => Known(xs[i])))
    case Set(xs) => Set(seq(|xs|, i requires 0 <= i < |xs| => Known(xs[i])))
    case Tuple(xs) => Tuple(seq(|xs|, i requires 0 <= i < |xs| => Known(xs[i])))
    case Map(m) => Map(map k | k in m :: Known(m[k]))
    case Object(m) => Object(map k | k in m :: Known(m[k]))
    case _ => v
  }

  /** The value cut to its type, unknown as null, and dynamic slots collapsed. */
  function JsonImage(v: Value, ty: Type): Value {
    if v.Null? || v.Unknown? then Null
    else
      match ty
      case TList(e) =>
        if v.List? then List(seq(|v.items|, i requires 0 <= i < |v.items| => JsonImage(v.items[i], e))) else v
      case TSet(e) =>
        if v.Set? then Set(seq(|v.items|, i requires 0 <= i < |v.items| => JsonImage(v.items[i], e))) else v
      case TTuple(es) =>
        if v.Tuple? && |v.items| == |es|
        then Tuple(seq(|v.items|, i requires 0 <= i < |v.items| => JsonImage(v.items[i], es[i]))) else v
      case TMap(e) => if v.Map? then Map(map k | k in v.entries :: JsonImage(v.entries[k], e)) else v
      case TObject(attrs) =>
        if v.Object? then
          Object(map n | n in Names(attrs) ::
                   if n in v.fields then JsonImage(v.fields[n], attrs[AttrIndex(attrs, n)].ty) else Null)
        else v
      case TDynamic => Collapse(v)
      case _ => v
  }

  // --- without a schema -------------------------------------------------------

  /** The members of an encoded keyed container, decoded one by one. */
  lemma {:induction false} EncodedObject(lib: JsonLibrary, v: Value, m: map<string, Value>)
    returns (ks: seq<string>, docs: seq<Json>)
    requires (v.Map? && v.entries == m) || (v.Object? && v.fields == m)
    ensures ks == Sorted(m.Keys) && |docs| == |ks| && EncodeJson(lib, v) == JObject(Pairs(ks, docs))
    ensures forall i | 0 <= i < |ks| :: docs[i] == EncodeJson(lib, m[ks[i]])
  {
    ks := Sorted(m.Keys);
    docs := Documents(lib, v, m, ks);
    forall i | 0 <= i < |ks| ensures docs[i] == EncodeJson(lib, m[ks[i]]) { DocumentAt(lib, v, m, ks, i); }
  }

  lemma {:induction false} DocumentAt(lib: JsonLibrary, v: Value, m: map<string, Value>, ks: seq<string>, i: nat)
    requires (v.Map? && v.entries == m) || (v.Object? && v.fields == m)
    requires i < |ks| && forall j | 0 <= j < |ks| :: ks[j] in m
    ensures Documents(lib, v, m, ks)[i] == EncodeJson(lib, m[ks[i]])
  {
  }

  /** Values equal entry by entry make equal maps. */
  lemma {:induction false} BuiltEq(ks: seq<string>, vs: seq<Value>, out: map<string, Value>)
    requires |ks| == |vs| && Distinct(ks) && forall k :: k in out <==> k in ks
    requires forall i | 0 <= i < |ks| :: ValueEq(vs[i], out[ks[i]])
    ensures BuildMap(ks, vs).Keys == out.Keys
    ensures forall k | k in out :: ValueEq(BuildMap(ks, vs)[k], out[k])
  {
    forall k | k in out ensures ValueEq(BuildMap(ks, vs)[k], out[k]) {
      var i :| 0 <= i < |ks| && ks[i] == k;
      BuildMapAt(ks, vs, i);
    }
  }

  lemma {:induction false} CollapsedSequence(lib: JsonLibrary, v: Value)
    requires Lossless(lib) && IsSequence(v) && AllNumbers(v, FINITE_NUMBER)
    ensures ValueEq(DynamicJson(lib, EncodeJson(lib, v)), Collapse(v))
    decreases v, 0
  {
    forall i | 0 <= i < |v.items| { CollapseRoundTrip(lib, v.items[i]); }
  }

  lemma {:induction false} CollapsedEntries(v: Value, m: map<string, Value>) returns (out: map<string, Value>)
    requires (v.Map? && v.entries == m) || (v.Object? && v.fields == m)
    ensures Collapse(v) == Object(out) && out.Keys == m.Keys && forall k | k in m :: out[k] == Collapse(m[k])
  {
    out := Collapse(v).fields;
  }

  lemma {:induction false} CollapsedMember(lib: JsonLibrary, v: Value, m: map<string, Value>, k: string)
    requires Lossless(lib) && AllNumbers(v, FINITE_NUMBER) && k in m
    requires (v.Map? && v.entries == m) || (v.Object? && v.fields == m)
    ensures ValueEq(DynamicJson(lib, EncodeJson(lib, m[k])), Collapse(m[k]))
    decreases v, 0, 0
  {
    CollapseRoundTrip(lib, m[k]);
  }

  lemma {:induction false} CollapsedObject(lib: JsonLibrary, v: Value, m: map<string, Value>)
    requires Lossless(lib) && AllNumbers(v, FINITE_NUMBER)
    requires (v.Map? && v.entries == m) || (v.Object? && v.fields == m)
    ensures ValueEq(DynamicJson(lib, EncodeJson(lib, v)), Collapse(v))
    decreases v, 0
  {
    var ks, docs := EncodedObject(lib, v, m);
    var out := CollapsedEntries(v, m);
    forall i | 0 <= i < |ks|
      ensures ValueEq(DynamicJson(lib, docs[i]), out[ks[i]])
    {
      CollapsedMember(lib, v, m, ks[i]);
    }
    MembersBack(lib, ks, docs, out);
  }

  lemma {:induction false} MembersBack(lib: JsonLibrary, ks: seq<string>, docs: seq<Json>, out: map<string, Value>)
    requires |ks| == |docs| && Distinct(ks) && forall k :: k in out <==> k in ks
    requires forall i | 0 <= i < |ks| :: ValueEq(DynamicJson(lib, docs[i]), out[ks[i]])
    ensures ValueEq(DynamicJson(lib, JObject(Pairs(ks, docs))), Object(out))
  {
    var vs := DynamicMembers(lib, ks, docs);
    BuiltEq(ks, vs, out);
  }

  lemma {:induction false} DynamicMembers(lib: JsonLibrary, ks: seq<string>, docs: seq<Json>) returns (vs: seq<Value>)
    requires |ks| == |docs|
    ensures |vs| == |ks| && forall i | 0 <= i < |ks| :: vs[i] == DynamicJson(lib, docs[i])
    ensures DynamicJson(lib, JObject(Pairs(ks, docs))) == Object(BuildMap(ks, vs))
  {
    var ms := Pairs(ks, docs);
    vs := seq(|ms|, i requires 0 <= i < |ms| => DynamicJson(lib, ms[i].1));
  }

  /** Read back without a schema, a value is collapsed and otherwise the same. */
  lemma {:induction false} CollapseRoundTrip(lib: JsonLibrary, v: Value)
    requires Lossless(lib) && AllNumbers(v, FINITE_NUMBER)
    ensures ValueEq(DynamicJson(lib, EncodeJson(lib, v)), Collapse(v))
    decreases v, 1
  {
    match v
    case Num(n) => JsonNumberKeeps(lib, n);
    case List(_) => CollapsedSequence(lib, v);
    case Set(_) => CollapsedSequence(lib, v);
    case Tuple(_) => CollapsedSequence(lib, v);
    case Map(m) => CollapsedObject(lib, v, m);
    case Object(m) => CollapsedObject(lib, v, m);
    case _ =>
  }

  /** The collapse is a fixed point: a second trip loses nothing more. */
  lemma {:induction false} CollapseIdempotent(v: Value)
    ensures Collapse(Collapse(v)) == Collapse(v)
  {
    match v
    case List(xs) => forall i | 0 <= i < |xs| { CollapseIdempotent(xs[i]); }
    case Set(xs) => forall i | 0 <= i < |xs| { CollapseIdempotent(xs[i]); }
    case Tuple(xs) => forall i | 0 <= i < |xs| { CollapseIdempotent(xs[i]); }
    case Map(m) => forall k | k in m { CollapseIdempotent(m[k]); }
    case Object(m) => forall k | k in m { CollapseIdempotent(m[k]); }
    case _ =>
  }

  lemma {:induction false} CollapseFinite(v: Value)
    ensures AllNumbers(Collapse(v), FINITE_NUMBER) <==> AllNumbers(v, FINITE_NUMBER)
    decreases v, 1
  {
    match v
    case List(_) => CollapseFiniteItems(v);
    case Set(_) => CollapseFiniteItems(v);
    case Tuple(_) => CollapseFiniteItems(v);
    case Map(m) => CollapseFiniteEntries(v, m);
    case Object(m) => CollapseFiniteEntries(v, m);
    case _ =>
  }

  lemma {:induction false} CollapseFiniteEntries(v: Value, m: map<string, Value>)
    requires (v.Map? && v.entries == m) || (v.Object? && v.fields == m)
    ensures AllNumbers(Collapse(v), FINITE_NUMBER) <==> AllNumbers(v, FINITE_NUMBER)
    decreases v, 0
  {
    var out := Collapse(v).fields;
    forall k | k in m
      ensures AllNumbers(out[k], FINITE_NUMBER) <==> AllNumbers(m[k], FINITE_NUMBER)
    {
      CollapseFinite(m[k]);
    }
  }

  lemma {:induction false} CollapseFiniteItems(v: Value)
    requires IsSequence(v)
    ensures AllNumbers(Collapse(v), FINITE_NUMBER) <==> AllNumbers(v, FINITE_NUMBER)
    decreases v, 0
  {
    var items := Collapse(v).items;
    forall i | 0 <= i < |v.items|
      ensures AllNumbers(items[i], FINITE_NUMBER) <==> AllNumbers(v.items[i], FINITE_NUMBER)
    {
      CollapseFinite(v.items[i]);
    }
  }

  /** Nothing is lost without a schema exactly when the value is already collapsed. */
  predicate Collapsed(v: Value) {
    match v
    case Unknown => false
    case List(_) => false
    case Set(_) => false
    case Map(_) => false
    case Tuple(xs) => forall i | 0 <= i < |xs| :: Collapsed(xs[i])
    case Object(m) => forall k | k in m :: Collapsed(m[k])
    case _ => true
  }

  lemma {:induction false} CollapseKeeps(v: Value)
    requires AllNumbers(v, FINITE_NUMBER)
    ensures ValueEq(Collapse(v), v) <==> Collapsed(v)
  {
    match v
    case Num(n) => EqIsMathEquality(n, n);
    case Tuple(xs) => forall i | 0 <= i < |xs| { CollapseKeeps(xs[i]); }
    case Object(m) => forall k | k in m { CollapseKeeps(m[k]); }
    case _ =>
  }

  /** The schema-less law: a trip gives the value back exactly when it holds no
      unknown, list, set or map. */
  lemma {:induction false} SchemalessRoundTrip(lib: JsonLibrary, v: Value)
    requires Lossless(lib) && AllNumbers(v, FINITE_NUMBER)
    ensures ValueEq(DynamicJson(lib, EncodeJson(lib, v)), v) <==> Collapsed(v)
  {
    var back := DynamicJson(lib, EncodeJson(lib, v));
    CollapseRoundTrip(lib, v);
    CollapseKeeps(v);
    EqSymmetricTransitive(back, Collapse(v), v);
    EqSymmetricTransitive(Collapse(v), back, v);
  }

  // --- with a schema ----------------------------------------------------------

  lemma {:induction false} EncodedNull(lib: JsonLibrary, v: Value)
    requires Lossless(lib) && (v.Num? ==> FINITE_NUMBER(v.n))
    ensures EncodeJson(lib, v).JNull? <==> v.Null? || v.Unknown?
  {
    if v.Num? { JsonNumberKeeps(lib, v.n); }
  }

  /** For every type and every value that fits it, decoding the JSON encoding gives the
      value cut to the type with unknown as null, and dynamic slots collapsed. */
  lemma {:induction false} JsonRoundTrip(host: Parsers, lib: JsonLibrary, v: Value, ty: Type)
    requires Lossless(lib) && DistinctNames(ty) && Conforms(v, ty) && AllNumbers(JsonImage(v, ty), FINITE_NUMBER)
    ensures var back := DecodeJson(host, lib, EncodeJson(lib, v), ty); back.Ok? && ValueEq(back.value, JsonImage(v, ty))
    decreases v, 2
  {
    if !v.Null? && !v.Unknown? {
      match ty
      case TBool =>
      case TString =>
      case TNumber => NumberJson(host, lib, v.n);
      case TList(_) => SequenceJson(host, lib, v, ty);
      case TSet(_) => SequenceJson(host, lib, v, ty);
      case TTuple(_) => SequenceJson(host, lib, v, ty);
      case TMap(e) => MapJson(host, lib, v, e);
      case TObject(attrs) => ObjectJson(host, lib, v, attrs);
      case TDynamic =>
        CollapseFinite(v);
        EncodedNull(lib, v);
        CollapseRoundTrip(lib, v);
    }
  }

  lemma {:induction false} NumberJson(host: Parsers, lib: JsonLibrary, n: Number)
    requires Lossless(lib) && FINITE_NUMBER(n)
    ensures var back := DecodeJson(host, lib, EncodeJson(lib, Num(n)), TNumber); back.Ok? && ValueEq(back.value, Num(n))
  {
    JsonNumberKeeps(lib, n);
  }

  lemma {:induction false} DecodeJsonEachSpec(host: Parsers, lib: JsonLibrary, json: Json, ty: Type)
    requires json.JArray?
    ensures DecodeJsonEach(host, lib, json, ty).Ok? <==>
            forall i | 0 <= i < |json.items| :: DecodeJson(host, lib, json.items[i], ElemType(ty, i)).Ok?
    ensures DecodeJsonEach(host, lib, json, ty).Ok? ==>
              && |DecodeJsonEach(host, lib, json, ty).value| == |json.items|
              && forall i | 0 <= i < |json.items| ::
                   DecodeJson(host, lib, json.items[i], ElemType(ty, i))
                     == Ok(DecodeJsonEach(host, lib, json, ty).value[i])
  {
    var rs :=
      seq(|json.items|, i requires 0 <= i < |json.items| => DecodeJson(host, lib, json.items[i], ElemType(ty, i)));
    assert DecodeJsonEach(host, lib, json, ty) == CollectAll(rs);
    assert forall i | 0 <= i < |rs| :: rs[i] == DecodeJson(host, lib, json.items[i], ElemType(ty, i));
    CollectSpec(rs);
  }

  lemma {:induction false} SequenceJson(host: Parsers, lib: JsonLibrary, v: Value, ty: Type)
    requires Lossless(lib) && IsSequence(v) && !ty.TDynamic? && DistinctNames(ty) && Conforms(v, ty)
    requires AllNumbers(JsonImage(v, ty), FINITE_NUMBER)
    ensures var back := DecodeJson(host, lib, EncodeJson(lib, v), ty); back.Ok? && ValueEq(back.value, JsonImage(v, ty))
    decreases v, 0
  {
    var json := EncodeJson(lib, v);
    var image := JsonImage(v, ty);
    DecodeJsonEachSpec(host, lib, json, ty);
    forall i | 0 <= i < |v.items|
      ensures var back := DecodeJson(host, lib, json.items[i], ElemType(ty, i));
              back.Ok? && ValueEq(back.value, image.items[i])
    {
      assert image.items[i] == JsonImage(v.items[i], ElemType(ty, i));
      JsonRoundTrip(host, lib, v.items[i], ElemType(ty, i));
    }
  }

  lemma {:induction false} MapImage(v: Value, e: Type) returns (out: map<string, Value>)
    requires v.Map?
    ensures JsonImage(v, TMap(e)) == Map(out) && out.Keys == v.entries.Keys
    ensures forall k | k in out :: out[k] == JsonImage(v.entries[k], e)
  {
    out := JsonImage(v, TMap(e)).entries;
  }

  lemma {:induction false} MapJson(host: Parsers, lib: JsonLibrary, v: Value, e: Type)
    requires Lossless(lib) && v.Map? && DistinctNames(e) && Conforms(v, TMap(e))
             && AllNumbers(JsonImage(v, TMap(e)), FINITE_NUMBER)
    ensures var back := DecodeJson(host, lib, EncodeJson(lib, v), TMap(e));
            back.Ok? && ValueEq(back.value, JsonImage(v, TMap(e)))
    decreases v, 0
  {
    var ks, docs := EncodedObject(lib, v, v.entries);
    var out := MapImage(v, e);
    var rs := MembersDecoded(host, lib, ks, docs, e);
    forall i | 0 <= i < |ks| ensures rs[i].Ok? && ValueEq(rs[i].value, out[ks[i]]) {
      EntryJson(host, lib, v, e, ks[i]);
    }
    AssembleEq(ks, rs, out);
  }

  lemma {:induction false} EntryJson(host: Parsers, lib: JsonLibrary, v: Value, e: Type, k: string)
    requires Lossless(lib) && v.Map? && DistinctNames(e) && Conforms(v, TMap(e))
             && AllNumbers(JsonImage(v, TMap(e)), FINITE_NUMBER)
    requires k in v.entries
    ensures var back := DecodeJson(host, lib, EncodeJson(lib, v.entries[k]), e);
            back.Ok? && ValueEq(back.value, JsonImage(v.entries[k], e))
    decreases v, 0, 0
  {
    var out := MapImage(v, e);
    assert AllNumbers(out[k], FINITE_NUMBER);
    JsonRoundTrip(host, lib, v.entries[k], e);
  }

  lemma {:induction false} MembersDecoded(host: Parsers, lib: JsonLibrary, ks: seq<string>, docs: seq<Json>, e: Type)
    returns (rs: seq<Decoded>)
    requires |ks| == |docs|
    ensures |rs| == |ks| && forall i | 0 <= i < |ks| :: rs[i] == DecodeJson(host, lib, docs[i], e)
    ensures DecodeJson(host, lib, JObject(Pairs(ks, docs)), TMap(e)) ==
            if CollectAll(rs).Ok? then Ok(Map(BuildMap(ks, CollectAll(rs).value))) else Err(CollectAll(rs).error)
  {
    rs := MemberResults(host, lib, JObject(Pairs(ks, docs)), e);
  }

  lemma {:induction false} AssembleEq(ks: seq<string>, rs: seq<Decoded>, out: map<string, Value>)
    requires |rs| == |ks| && Distinct(ks) && forall k :: k in out <==> k in ks
    requires forall i | 0 <= i < |rs| :: rs[i].Ok? && ValueEq(rs[i].value, out[ks[i]])
    ensures CollectAll(rs).Ok? && BuildMap(ks, CollectAll(rs).value).Keys == out.Keys
    ensures forall k | k in out :: ValueEq(BuildMap(ks, CollectAll(rs).value)[k], out[k])
  {
    CollectSpec(rs);
    BuiltEq(ks, CollectAll(rs).value, out);
  }

  lemma {:induction false} ObjectImage(v: Value, attrs: seq<ObjectAttr>, i: nat) returns (out: map<string, Value>)
    requires v.Object? && Distinct(Names(attrs)) && i < |attrs|
    ensures JsonImage(v, TObject(attrs)) == Object(out) && forall k :: k in out <==> k in Names(attrs)
    ensures attrs[i].name in out
    ensures out[attrs[i].name] ==
            if attrs[i].name in v.fields then JsonImage(v.fields[attrs[i].name], attrs[i].ty) else Null
  {
    out := JsonImage(v, TObject(attrs)).fields;
    AttrIndexAt(attrs, i);
    assert Names(attrs)[i] == attrs[i].name;
  }

  lemma {:induction false} MemberIndexAt(members: seq<(string, Json)>, ks: seq<string>, docs: seq<Json>, i: nat)
    requires |ks| == |docs| && members == Pairs(ks, docs) && Distinct(ks) && i < |ks|
    ensures MemberIndex(members, ks[i]) == i
  {
    var j := MemberIndex(members, ks[i]);
    assert members[i].0 == ks[i];
    assert j <= i;
    assert members[j].0 == ks[j];
  }

  lemma {:induction false} MissingMember(members: seq<(string, Json)>, ks: seq<string>, n: string)
    requires Keys(members) == ks
    ensures MemberIndex(members, n) == |members| <==> n !in ks
  {
    if n in ks {
      var i :| 0 <= i < |ks| && ks[i] == n;
      assert members[i].0 == n;
    }
  }

  lemma {:induction false} FieldJson(host: Parsers, lib: JsonLibrary, v: Value, attrs: seq<ObjectAttr>, i: nat)
    requires Lossless(lib) && v.Object? && DistinctNames(TObject(attrs)) && Conforms(v, TObject(attrs)) && i < |attrs|
    requires AllNumbers(JsonImage(v, TObject(attrs)), FINITE_NUMBER)
    ensures EncodeJson(lib, v).JObject? && JsonImage(v, TObject(attrs)).Object?
            && attrs[i].name in JsonImage(v, TObject(attrs)).fields
    ensures var r := FieldFromJson(host, lib, EncodeJson(lib, v), attrs[i]);
            r.Ok? && ValueEq(r.value, JsonImage(v, TObject(attrs)).fields[attrs[i].name])
    decreases v, 0
  {
    var n := attrs[i].name;
    var ks, docs := EncodedObject(lib, v, v.fields);
    var out := ObjectImage(v, attrs, i);
    if n in v.fields {
      assert n in ks;
      var j :| 0 <= j < |ks| && ks[j] == n;
      PresentMember(host, lib, ks, docs, attrs[i], j);
      JsonRoundTrip(host, lib, v.fields[n], attrs[i].ty);
    } else {
      AbsentMember(host, lib, ks, docs, attrs[i]);
    }
  }

  lemma {:induction false} PresentMember(
    host: Parsers, lib: JsonLibrary, ks: seq<string>, docs: seq<Json>, a: ObjectAttr, j: nat)
    requires |ks| == |docs| && Distinct(ks) && j < |ks| && ks[j] == a.name
    ensures FieldFromJson(host, lib, JObject(Pairs(ks, docs)), a) == DecodeJson(host, lib, docs[j], a.ty)
  {
    MemberIndexAt(Pairs(ks, docs), ks, docs, j);
  }

  lemma {:induction false} AbsentMember(
    host: Parsers, lib: JsonLibrary, ks: seq<string>, docs: seq<Json>, a: ObjectAttr)
    requires |ks| == |docs| && a.name !in ks
    ensures FieldFromJson(host, lib, JObject(Pairs(ks, docs)), a) == Ok(Null)
  {
    MissingMember(Pairs(ks, docs), ks, a.name);
  }

  lemma {:induction false} ObjectJson(host: Parsers, lib: JsonLibrary, v: Value, attrs: seq<ObjectAttr>)
    requires Lossless(lib) && v.Object? && DistinctNames(TObject(attrs)) && Conforms(v, TObject(attrs))
    requires AllNumbers(JsonImage(v, TObject(attrs)), FINITE_NUMBER)
    ensures var back := DecodeJson(host, lib, EncodeJson(lib, v), TObject(attrs));
            back.Ok? && ValueEq(back.value, JsonImage(v, TObject(attrs)))
    decreases v, 1
  {
    var out := JsonImage(v, TObject(attrs)).fields;
    var json := EncodeJson(lib, v);
    var rs := FieldJsonResults(host, lib, json, attrs);
    forall i | 0 <= i < |attrs| ensures rs[i].Ok? && ValueEq(rs[i].value, out[Names(attrs)[i]]) {
      FieldJson(host, lib, v, attrs, i);
    }
    AssembleEq(Names(attrs), rs, out);
  }

  /** Without dynamic slots that is the projection with unknown replaced by null. */
  lemma {:induction false} ImageIsKnown(v: Value, ty: Type)
    requires DynamicFree(ty) && Conforms(v, ty)
    ensures JsonImage(v, ty) == Known(Project(v, ty))
    decreases v, 1
  {
    if !v.Null? && !v.Unknown? {
      match ty
      case TList(_) => ItemsImageIsKnown(v, ty);
      case TSet(_) => ItemsImageIsKnown(v, ty);
      case TTuple(_) => ItemsImageIsKnown(v, ty);
      case TMap(e) => MapImageIsKnown(v, e);
      case TObject(attrs) => ObjectImageIsKnown(v, attrs);
      case _ =>
    }
  }

  lemma {:induction false} KnownProjectedField(v: Value, attrs: seq<ObjectAttr>, n: string)
    requires v.Object? && n in Names(attrs)
    ensures Known(Project(v, TObject(attrs))).Object? && n in Known(Project(v, TObject(attrs))).fields
    ensures Known(Project(v, TObject(attrs))).fields[n]
            == if n in v.fields then Known(Project(v.fields[n], attrs[AttrIndex(attrs, n)].ty)) else Null
  {
    var p := Project(v, TObject(attrs));
    assert p.fields[n] == if n in v.fields then Project(v.fields[n], attrs[AttrIndex(attrs, n)].ty) else Null;
  }

  lemma {:induction false} ItemsImageIsKnown(v: Value, ty: Type)
    requires (v.List? && ty.TList?) || (v.Set? && ty.TSet?) || (v.Tuple? && ty.TTuple?)
    requires DynamicFree(ty) && Conforms(v, ty)
    ensures JsonImage(v, ty) == Known(Project(v, ty))
    decreases v, 0
  {
    forall i | 0 <= i < |v.items|
      ensures JsonImage(v.items[i], ElemType(ty, i)) == Known(Project(v.items[i], ElemType(ty, i)))
    {
      ImageIsKnown(v.items[i], ElemType(ty, i));
    }
    assert JsonImage(v, ty).items == Known(Project(v, ty)).items;
  }

  lemma {:induction false} MapImageIsKnown(v: Value, e: Type)
    requires v.Map? && DynamicFree(e) && Conforms(v, TMap(e))
    ensures JsonImage(v, TMap(e)) == Known(Project(v, TMap(e)))
    decreases v, 0
  {
    forall k | k in v.entries { ImageIsKnown(v.entries[k], e); }
    assert JsonImage(v, TMap(e)).entries == Known(Project(v, TMap(e))).entries;
  }

  lemma {:induction false} ObjectImageIsKnown(v: Value, attrs: seq<ObjectAttr>)
    requires v.Object? && DynamicFree(TObject(attrs)) && Conforms(v, TObject(attrs))
    ensures JsonImage(v, TObject(attrs)) == Known(Project(v, TObject(attrs)))
    decreases v, 0
  {
    var a, b := JsonImage(v, TObject(attrs)).fields, Known(Project(v, TObject(attrs))).fields;
    forall n | n in Names(attrs) ensures a[n] == b[n] {
      KnownProjectedField(v, attrs, n);
      if n in v.fields { ImageIsKnown(v.fields[n], attrs[AttrIndex(attrs, n)].ty); }
    }
  }

  /** The typed JSON law. */
  lemma {:induction false} JsonFaithful(host: Parsers, lib: JsonLibrary, v: Value, ty: Type)
    requires Lossless(lib) && DistinctNames(ty) && DynamicFree(ty) && Conforms(v, ty)
    requires AllNumbers(Known(Project(v, ty)), FINITE_NUMBER)
    ensures var back := DecodeJson(host, lib, EncodeJson(lib, v), ty);
            back.Ok? && ValueEq(back.value, Known(Project(v, ty)))
  {
    ImageIsKnown(v, ty);
    JsonRoundTrip(host, lib, v, ty);
  }
}
