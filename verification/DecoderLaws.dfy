/** What the decoders make of trees that the encoder never writes: other hosts spell
    numbers, keys and type documents in more than one way. */
module DecoderLaws {
  import opened Wrappers
  import opened Doubles
  import opened Numbers
  import opened Text
  import opened Types
  import opened Values
  import opened Encode
  import opened Decode
  import opened RoundTrip
  import opened AcceptedLaws
  import opened JsonCodec
  import opened JsonLaws
  import opened Schema
  import opened Service

  // --- numbers ----------------------------------------------------------------

  /** A number is accepted as an integer, a double, a single, or a text the host parses,
      and keeps its mathematical value; nothing else is one. */
  lemma {:induction false} NumberForms(host: Parsers, mp: Mp)
    requires !mp.MNil? && !mp.MExt?
    ensures var r := FromMp(host, mp, TNumber);
            match mp
            case MInt(n) => r.Ok? && r.value.Num? && !r.value.n.IsNaN() && MathValue(r.value.n) == Exact(n as real)
            case MF64(d) => r == Ok(Num(F64(d)))
            case MF32(d) => r.Ok? && r.value.Num? && r.value.n.F64? && r.value.n.f == d
            case MStr(s) => r == if host.number(s).Some? then Ok(Num(host.number(s).value)) else Err(TypeMismatch)
            case _ => r == Err(TypeMismatch)
  {
  }

  /** JSON text parses as the same number. */
  lemma {:induction false} JsonNumberText(host: Parsers, lib: JsonLibrary, s: string)
    ensures DecodeJson(host, lib, JString(s), TNumber) == FromMp(host, MStr(s), TNumber)
  {
  }

  // --- repeated keys ----------------------------------------------------------

  lemma {:induction false} BuildMapLast<V>(ks: seq<string>, vs: seq<V>, i: nat)
    requires |ks| == |vs| && i < |ks| && forall j | i < j < |ks| :: ks[j] != ks[i]
    ensures ks[i] in BuildMap(ks, vs) && BuildMap(ks, vs)[ks[i]] == vs[i]
  {
    var n := |ks| - 1;
    if i < n { BuildMapLast(ks[..n], vs[..n], i); }
  }

  /** A map with repeated keys reads the last pair of each. */
  lemma {:induction false} MapReadsLast(host: Parsers, pairs: seq<(Mp, Mp)>, e: Type, i: nat)
    requires FromMp(host, MMap(pairs), TMap(e)).Ok? && i < |pairs|
    requires forall j | i < j < |pairs| :: pairs[j].0 != pairs[i].0
    ensures pairs[i].0.MStr? && FromMp(host, MMap(pairs), TMap(e)).value.Map?
    ensures var m := FromMp(host, MMap(pairs), TMap(e)).value.entries;
            pairs[i].0.s in m && FromMp(host, pairs[i].1, e) == Ok(m[pairs[i].0.s])
  {
    var vs := PairsRead(host, pairs, e);
    KeyIsLast(pairs, i);
    BuildMapLast(KeyTexts(pairs), vs, i);
  }

  lemma {:induction false} KeyIsLast(pairs: seq<(Mp, Mp)>, i: nat)
    requires i < |pairs| && forall j | 0 <= j < |pairs| :: pairs[j].0.MStr?
    requires forall j | i < j < |pairs| :: pairs[j].0 != pairs[i].0
    ensures KeyTexts(pairs)[i] == pairs[i].0.s
    ensures forall j | i < j < |pairs| :: KeyTexts(pairs)[j] != KeyTexts(pairs)[i]
  {
  }

  /** Every pair of an accepted map is keyed by a string and decodes. */
  lemma {:induction false} PairsRead(host: Parsers, pairs: seq<(Mp, Mp)>, e: Type) returns (vs: seq<Value>)
    requires FromMp(host, MMap(pairs), TMap(e)).Ok?
    ensures |vs| == |pairs|
    ensures forall j | 0 <= j < |pairs| :: pairs[j].0.MStr? && FromMp(host, pairs[j].1, e) == Ok(vs[j])
    ensures FromMp(host, MMap(pairs), TMap(e)) == Ok(Map(BuildMap(KeyTexts(pairs), vs)))
  {
    var rs := PairResults(host, MMap(pairs), e);
    PairResultsSpec(host, MMap(pairs), e);
    CollectSpec(rs);
    vs := CollectAll(rs).value;
    forall j | 0 <= j < |pairs| ensures pairs[j].0.MStr? && FromMp(host, pairs[j].1, e) == Ok(vs[j]) {
      assert PairFromMp(host, MMap(pairs), j, e) == Ok(vs[j]);
    }
  }

  /** An object reads the first pair of each declared attribute, whatever else is there. */
  lemma {:induction false} ObjectReadsFirst(host: Parsers, pairs: seq<(Mp, Mp)>, attrs: seq<ObjectAttr>, a: nat, i: nat)
    requires FromMp(host, MMap(pairs), TObject(attrs)).Ok? && Distinct(Names(attrs)) && a < |attrs| && i <= |pairs|
    requires forall j | 0 <= j < i :: pairs[j].0 != MStr(attrs[a].name)
    requires i < |pairs| ==> pairs[i].0 == MStr(attrs[a].name)
    ensures FromMp(host, MMap(pairs), TObject(attrs)).value.Object?
    ensures var m := FromMp(host, MMap(pairs), TObject(attrs)).value.fields;
            && attrs[a].name in m && (forall k | k in m :: k in Names(attrs))
            && if i == |pairs| then m[attrs[a].name] == Null
               else FromMp(host, pairs[i].1, attrs[a].ty) == Ok(m[attrs[a].name])
  {
    var mp := MMap(pairs);
    MapMeansObject(host, mp, attrs);
    var rs := FieldResults(host, mp, attrs);
    FieldResultsSpec(host, mp, attrs);
    CollectSpec(rs);
    var vs := CollectAll(rs).value;
    assert KeyIndex(pairs, attrs[a].name) == i;
    assert FieldFromMp(host, mp, attrs[a]) == Ok(vs[a]);
    BuildMapAt(Names(attrs), vs, a);
    assert Names(attrs)[a] == attrs[a].name;
  }

  // --- other forms ------------------------------------------------------------

  /** Nil is null and every extension is unknown, under every type. */
  lemma {:induction false} AbsentRead(host: Parsers, tag: int, data: seq<int>, ty: Type)
    ensures FromMp(host, MNil, ty) == Ok(Null) && FromMp(host, MExt(tag, data), ty) == Ok(Unknown)
  {
  }

  /** A type document may come as bytes or as text. */
  lemma {:induction false} TextDocument(host: Parsers, s: string, mp: Mp)
    ensures FromMp(host, MArray([MStr(s), mp]), TDynamic) == FromMp(host, MArray([MBin(host.json(s)), mp]), TDynamic)
  {
  }

  /** A dynamic value is read from its msgpack form when it has one and else from its JSON
      form; what spells nothing fails, and nothing at all is null. */
  lemma {:induction false} DynamicValueForms(codec: Codec, mp: Mp, json: Json, other: Payload<Json>, ty: Type)
    ensures DecodeDynamic(codec, Some(DynamicValue(Holds(mp), other)), ty) == FromMp(codec.host, mp, ty)
    ensures DecodeDynamic(codec, Some(DynamicValue(Empty, Holds(json))), ty)
            == DecodeJson(codec.host, codec.lib, json, ty)
    ensures DecodeDynamic(codec, Some(DynamicValue(Malformed, other)), ty).Err?
    ensures DecodeDynamic(codec, Some(DynamicValue(Empty, Malformed)), ty).Err?
    ensures DecodeDynamic(codec, Some(DynamicValue(Empty, Empty)), ty) == Ok(Null) == DecodeDynamic(codec, None, ty)
  {
  }

  /** So a value sent either way is read as the wire makes it: with its numbers in wire form
      over msgpack, and with unknown as null over JSON. */
  lemma {:induction false} SentEitherWay(codec: Codec, v: Value, ty: Type)
    requires DistinctNames(ty) && Conforms(v, ty) && Lossless(codec.lib)
    ensures ToMp(v, ty).Ok?
    ensures DecodeDynamic(codec, Some(DynamicValue(Holds(ToMp(v, ty).value), Empty)), ty) == Ok(Received(v, ty))
    ensures AllNumbers(JsonImage(v, ty), FINITE_NUMBER) ==>
              var back := DecodeDynamic(codec, Some(DynamicValue(Empty, Holds(EncodeJson(codec.lib, v)))), ty);
              back.Ok? && ValueEq(back.value, JsonImage(v, ty))
  {
    EncodesIffConforms(v, ty);
    MsgpackRoundTrip(codec.host, v, ty);
    if AllNumbers(JsonImage(v, ty), FINITE_NUMBER) { JsonRoundTrip(codec.host, codec.lib, v, ty); }
  }
}
