/** The JSON path of the codec: schema-less encoding, and decoding with or without a type. */
module JsonCodec {
  import opened Wrappers
  import opened Doubles
  import opened Numbers
  import opened Text
  import opened Types
  import opened Values
  import opened Encode
  import opened Decode
  import opened RoundTrip

  /** The number layer of the JSON library: building a number from a float, and its
      three views of a number. */
  datatype JsonLibrary = JsonLibrary(
    fromF64: F64 -> Json,
    asI64: Json -> Option<i64>,
    asU64: Json -> Option<u64>,
    asF64: Json -> F64)

  predicate IsNumber(json: Json) { json.JInt? || json.JUint? || json.JFloat? }

  /** The number a JSON number spells. */
  function Spelled(json: Json): Number
    requires IsNumber(json)
  {
    match json
    case JInt(i) => I64(i)
    case JUint(u) => U64(u)
    case JFloat(f) => F64(f)
  }

  /** A library that never changes a number: a finite float stays itself, an integer
      view answers only with the exact value, and every integer has one. */
  ghost predicate Lossless(lib: JsonLibrary) {
    && (forall d: F64 | d.IsFinite() :: lib.fromF64(d) == JFloat(d))
    && forall j | IsNumber(j) ::
         && (lib.asI64(j).Some? ==> NumberEq(I64(lib.asI64(j).value), Spelled(j)))
         && (lib.asU64(j).Some? ==> NumberEq(U64(lib.asU64(j).value), Spelled(j)))
         && (lib.asI64(j).None? && lib.asU64(j).None? ==> j.JFloat? && lib.asF64(j) == j.f)
  }

  /** Such a library exists: answer from the case the number is held in. */
  lemma {:induction false} LosslessLibraryExists() returns (lib: JsonLibrary)
    ensures Lossless(lib)
  {
    lib := JsonLibrary(
      (d: F64) => JFloat(d),
      (j: Json) => if j.JInt? then Some(j.i) else None,
      (j: Json) => if j.JUint? then Some(j.u) else None,
      (j: Json) => if j.JFloat? then j.f else Float.NaN);
    forall j | IsNumber(j)
      ensures lib.asI64(j).Some? ==> NumberEq(I64(lib.asI64(j).value), Spelled(j))
      ensures lib.asU64(j).Some? ==> NumberEq(U64(lib.asU64(j).value), Spelled(j))
    {
      if !j.JFloat? { EqIsMathEquality(Spelled(j), Spelled(j)); }
    }
  }

  /** `number_to_json`. */
  function NumberToJson(lib: JsonLibrary, n: Number): Json {
    match n
    case I64(i) => JInt(i)
    case U64(u) => JUint(u)
    case F64(f) => lib.fromF64(f)
  }

  /** `json_number`: the signed view, else the unsigned, else the float. */
  function JsonNumber(lib: JsonLibrary, json: Json): Number {
    match (lib.asI64(json), lib.asU64(json))
    case (Some(i), _) => I64(i)
    case (None, Some(u)) => U64(u)
    case (None, None) => F64(lib.asF64(json))
  }

  const FINITE_NUMBER: Number -> bool := (n: Number) => n.F64? ==> n.f.IsFinite()

  lemma {:induction false} JsonNumberKeeps(lib: JsonLibrary, n: Number)
    requires Lossless(lib) && FINITE_NUMBER(n)
    ensures IsNumber(NumberToJson(lib, n)) && NumberEq(JsonNumber(lib, NumberToJson(lib, n)), n)
  {
    var j := NumberToJson(lib, n);
    assert IsNumber(j) && Spelled(j) == n;
    if lib.asI64(j).None? && lib.asU64(j).None? { EqIsMathEquality(n, n); }
  }

  // --- encoding ---------------------------------------------------------------

  function Documents(lib: JsonLibrary, v: Value, m: map<string, Value>, ks: seq<string>): (docs: seq<Json>)
    requires v.Map? || v.Object?
    requires m == (if v.Map? then v.entries else v.fields) && forall i | 0 <= i < |ks| :: ks[i] in m
    ensures |docs| == |ks|
    decreases v, 0
  {
    seq(|ks|, i requires 0 <= i < |ks| => EncodeJson(lib, m[ks[i]]))
  }

  /** `encode_json`: keys in order, sequences of every kind as arrays, unknown as null. */
  function EncodeJson(lib: JsonLibrary, v: Value): Json
    decreases v, 1
  {
    match v
    case Null => JNull
    case Unknown => JNull
    case Bool(b) => JBool(b)
    case Num(n) => NumberToJson(lib, n)
    case Str(s) => JString(s)
    case List(xs) => JArray(seq(|xs|, i requires 0 <= i < |xs| => EncodeJson(lib, xs[i])))
    case Set(xs) => JArray(seq(|xs|, i requires 0 <= i < |xs| => EncodeJson(lib, xs[i])))
    case Tuple(xs) => JArray(seq(|xs|, i requires 0 <= i < |xs| => EncodeJson(lib, xs[i])))
    case Map(m) => JObject(Pairs(Sorted(m.Keys), Documents(lib, v, m, Sorted(m.Keys))))
    case Object(m) => JObject(Pairs(Sorted(m.Keys), Documents(lib, v, m, Sorted(m.Keys))))
  }

  /** The source's form: push every item, insert every entry in key order. */
  method EncodeJsonTree(lib: JsonLibrary, v: Value) returns (json: Json)
    ensures json == EncodeJson(lib, v)
    decreases v, 1
  {
    match v
    case Null => json := JNull;
    case Unknown => json := JNull;
    case Bool(b) => json := JBool(b);
    case Num(n) => json := NumberToJson(lib, n);
    case Str(s) => json := JString(s);
    case List(_) => json := EncodeItems(lib, v);
    case Set(_) => json := EncodeItems(lib, v);
    case Tuple(_) => json := EncodeItems(lib, v);
    case Map(m) => json := EncodeMembers(lib, v, m);
    case Object(m) => json := EncodeMembers(lib, v, m);
  }

  method EncodeItems(lib: JsonLibrary, v: Value) returns (json: Json)
    requires IsSequence(v)
    ensures json == EncodeJson(lib, v)
    decreases v, 0
  {
    var items: seq<Json> := [];
    for i := 0 to |v.items|
      invariant |items| == i && forall j | 0 <= j < i :: items[j] == EncodeJson(lib, v.items[j])
    {
      var item := EncodeJsonTree(lib, v.items[i]);
      items := items + [item];
    }
    json := JArray(items);
    assert items == EncodeJson(lib, v).items;
  }

  method EncodeMembers(lib: JsonLibrary, v: Value, m: map<string, Value>) returns (json: Json)
    requires v.Map? || v.Object?
    requires m == if v.Map? then v.entries else v.fields
    ensures json == EncodeJson(lib, v)
    decreases v, 0
  {
    var ks := Sorted(m.Keys);
    var members: seq<(string, Json)> := [];
    ghost var docs := Documents(lib, v, m, ks);
    for i := 0 to |ks|
      invariant members == Pairs(ks, docs)[..i]
    {
      var child := EncodeJsonTree(lib, m[ks[i]]);
      InsertNext(ks, docs, i);
      members := Insert(members, ks[i], child);
    }
    assert Pairs(ks, docs)[..|ks|] == Pairs(ks, docs);
    json := JObject(members);
  }

  lemma {:induction false} InsertNext(ks: seq<string>, docs: seq<Json>, i: nat)
    requires |ks| == |docs| && i < |ks| && Distinct(ks)
    ensures Insert(Pairs(ks, docs)[..i], ks[i], docs[i]) == Pairs(ks, docs)[..i + 1]
  {
    var front := Pairs(ks, docs)[..i];
    assert forall j | 0 <= j < i :: Keys(front)[j] == ks[j];
    InsertFresh(front, ks[i], docs[i]);
  }

  // --- decoding without a schema ----------------------------------------------

  /** `decode_json_dynamic`: arrays become tuples and objects become objects. */
  function DynamicJson(lib: JsonLibrary, json: Json): Value {
    match json
    case JNull => Null
    case JBool(b) => Bool(b)
    case JString(s) => Str(s)
    case JArray(items) => Tuple(seq(|items|, i requires 0 <= i < |items| => DynamicJson(lib, items[i])))
    case JObject(ms) =>
      Object(BuildMap(Keys(ms), seq(|ms|, i requires 0 <= i < |ms| => DynamicJson(lib, ms[i].1))))
    case _ => Num(JsonNumber(lib, json))
  }

  /** The object case as the source writes it. */
  method DecodeDynamicObject(lib: JsonLibrary, members: seq<(string, Json)>) returns (v: Value)
    ensures v == DynamicJson(lib, JObject(members))
  {
    var fields: map<string, Value> := map[];
    ghost var ks := Keys(members);
    ghost var vs := seq(|members|, i requires 0 <= i < |members| => DynamicJson(lib, members[i].1));
    for i := 0 to |members|
      invariant fields == BuildMap(ks[..i], vs[..i])
    {
      assert vs[..i + 1] == vs[..i] + [vs[i]];
      BuildMapAppend(ks, vs[..i], i, vs[i]);
      fields := fields[members[i].0 := DynamicJson(lib, members[i].1)];
    }
    assert ks[..|ks|] == ks && vs[..|vs|] == vs;
    v := Object(fields);
  }

  // --- decoding under a type --------------------------------------------------

  /** The position of the first member under `key`, or the length. */
  function MemberIndex(members: seq<(string, Json)>, key: string): (i: nat)
    ensures i <= |members|
    ensures i < |members| ==> members[i].0 == key
    ensures forall j | 0 <= j < i :: members[j].0 != key
  {
    if members == [] || members[0].0 == key then 0 else 1 + MemberIndex(members[1..], key)
  }

  function DecodeJsonEach(host: Parsers, lib: JsonLibrary, json: Json, ty: Type): Result<seq<Value>, CodecError>
    requires json.JArray?
    decreases json, 0
  {
    CollectAll(seq(|json.items|,
        i requires 0 <= i < |json.items| => DecodeJson(host, lib, json.items[i], ElemType(ty, i))))
  }

  function MemberResults(host: Parsers, lib: JsonLibrary, json: Json, e: Type): (rs: seq<Decoded>)
    requires json.JObject?
    ensures |rs| == |json.members|
    decreases json, 0
  {
    seq(|json.members|, i requires 0 <= i < |json.members| => DecodeJson(host, lib, json.members[i].1, e))
  }

  function FieldFromJson(host: Parsers, lib: JsonLibrary, json: Json, a: ObjectAttr): Decoded
    requires json.JObject?
    decreases json, 0
  {
    var i := MemberIndex(json.members, a.name);
    if i < |json.members| then DecodeJson(host, lib, json.members[i].1, a.ty) else Ok(Null)
  }

  function FieldJsonResults(host: Parsers, lib: JsonLibrary, json: Json, attrs: seq<ObjectAttr>): (rs: seq<Decoded>)
    requires json.JObject?
    ensures |rs| == |attrs|
    decreases json, 1
  {
    seq(|attrs|, i requires 0 <= i < |attrs| => FieldFromJson(host, lib, json, attrs[i]))
  }

  function MapFromJson(host: Parsers, lib: JsonLibrary, json: Json, e: Type): Decoded
    decreases json, 2
  {
    if !json.JObject? then Err(TypeMismatch)
    else
      var vs :- CollectAll(MemberResults(host, lib, json, e));
      Ok(Map(BuildMap(Keys(json.members), vs)))
  }

  function ObjectFromJson(host: Parsers, lib: JsonLibrary, json: Json, attrs: seq<ObjectAttr>): Decoded
    decreases json, 2
  {
    if !json.JObject? then Err(TypeMismatch)
    else
      var vs :- CollectAll(FieldJsonResults(host, lib, json, attrs));
      Ok(Object(BuildMap(Names(attrs), vs)))
  }

  /** `decode_json`. */
  function DecodeJson(host: Parsers, lib: JsonLibrary, json: Json, ty: Type): Decoded
    decreases json, 3
  {
    if json.JNull? then Ok(Null)
    else
      match ty
      case TBool => if json.JBool? then Ok(Bool(json.b)) else Err(TypeMismatch)
      case TNumber =>
        if IsNumber(json) then Ok(Num(JsonNumber(lib, json)))
        else if json.JString? && host.number(json.s).Some? then Ok(Num(host.number(json.s).value))
        else Err(TypeMismatch)
      case TString => if json.JString? then Ok(Str(json.s)) else Err(TypeMismatch)
      case TList(_) =>
        if !json.JArray? then Err(TypeMismatch) else var vs :- DecodeJsonEach(host, lib, json, ty); Ok(List(vs))
      case TSet(_) =>
        if !json.JArray? then Err(TypeMismatch) else var vs :- DecodeJsonEach(host, lib, json, ty); Ok(Set(vs))
      case TTuple(es) =>
        if !json.JArray? || |json.items| != |es| then Err(TypeMismatch)
        else var vs :- DecodeJsonEach(host, lib, json, ty); Ok(Tuple(vs))
      case TMap(e) => MapFromJson(host, lib, json, e)
      case TObject(attrs) => ObjectFromJson(host, lib, json, attrs)
      case TDynamic => Ok(DynamicJson(lib, json))
  }

  /** The map case: insert every member, stop at the first bad one. */
  method DecodeJsonMap(host: Parsers, lib: JsonLibrary, json: Json, e: Type) returns (r: Decoded)
    ensures r == MapFromJson(host, lib, json, e)
  {
    if !json.JObject? { return Err(TypeMismatch); }
    var entries: map<string, Value> := map[];
    ghost var vs: seq<Value> := [];
    ghost var ks, rs := Keys(json.members), MemberResults(host, lib, json, e);
    for i := 0 to |json.members|
      invariant |vs| == i && forall j | 0 <= j < i :: rs[j] == Ok(vs[j])
      invariant entries == BuildMap(ks[..i], vs)
    {
      var v := DecodeJson(host, lib, json.members[i].1, e);
      assert rs[i] == v;
      if v.Err? {
        CollectErr(rs, i);
        return v;
      }
      BuildMapAppend(ks, vs, i, v.value);
      entries := entries[json.members[i].0 := v.value];
      vs := vs + [v.value];
    }
    CollectOk(rs, vs);
    assert ks[..|ks|] == ks;
    r := Ok(Map(entries));
  }

  /** The object case: look each declared attribute up, missing ones are null. */
  method DecodeJsonObject(host: Parsers, lib: JsonLibrary, json: Json, attrs: seq<ObjectAttr>) returns (r: Decoded)
    ensures r == ObjectFromJson(host, lib, json, attrs)
  {
    if !json.JObject? { return Err(TypeMismatch); }
    var fields: map<string, Value> := map[];
    ghost var vs: seq<Value> := [];
    ghost var ns, rs := Names(attrs), FieldJsonResults(host, lib, json, attrs);
    for i := 0 to |attrs|
      invariant |vs| == i && forall j | 0 <= j < i :: rs[j] == Ok(vs[j])
      invariant fields == BuildMap(ns[..i], vs)
    {
      var found := MemberIndex(json.members, attrs[i].name);
      var value := Null;
      assert rs[i] == FieldFromJson(host, lib, json, attrs[i]);
      if found < |json.members| {
        var v := DecodeJson(host, lib, json.members[found].1, attrs[i].ty);
        if v.Err? {
          CollectErr(rs, i);
          return v;
        }
        value := v.value;
      }
      BuildMapAppend(ns, vs, i, value);
      fields := fields[attrs[i].name := value];
      vs := vs + [value];
    }
    CollectOk(rs, vs);
    assert ns[..|ns|] == ns;
    r := Ok(Object(fields));
  }
}
