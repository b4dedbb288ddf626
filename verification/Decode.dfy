/** Type-directed decoding of msgpack trees to values. */
module Decode {
  import opened Wrappers
  import opened Doubles
  import opened Numbers
  import opened Text
  import opened Types
  import opened Values
  import opened Encode

  /** The library parsers the decoder calls on text: Rust's number parsing and the JSON
      reader. Nothing is assumed about either. */
  datatype Parsers = Parsers(number: string -> Option<Number>, json: string -> Option<Json>)

  type Decoded = Result<Value, CodecError>

  /** The position of the first pair keyed by the string `name`, or the length. */
  function KeyIndex(pairs: seq<(Mp, Mp)>, name: string): (i: nat)
    ensures i <= |pairs|
    ensures i < |pairs| ==> pairs[i].0 == MStr(name)
    ensures forall j | 0 <= j < i :: pairs[j].0 != MStr(name)
  {
    if pairs == [] || pairs[0].0 == MStr(name) then 0 else 1 + KeyIndex(pairs[1..], name)
  }

  /** Inserting the pairs in order: a later value replaces an earlier one. */
  function BuildMap<V>(ks: seq<string>, vs: seq<V>): (m: map<string, V>)
    requires |ks| == |vs|
    ensures forall k :: k in m <==> k in ks
  {
    if ks == [] then map[]
    else
      var n := |ks| - 1;
      assert ks == ks[..n] + [ks[n]];
      BuildMap(ks[..n], vs[..n])[ks[n] := vs[n]]
  }

  lemma {:induction false} BuildMapAppend<V>(ks: seq<string>, vs: seq<V>, i: nat, v: V)
    requires |vs| == i < |ks|
    ensures BuildMap(ks[..i + 1], vs + [v]) == BuildMap(ks[..i], vs)[ks[i] := v]
  {
    assert ks[..i + 1][..i] == ks[..i] && (vs + [v])[..i] == vs;
  }

  lemma {:induction false} BuildMapAt<V>(ks: seq<string>, vs: seq<V>, i: nat)
    requires |ks| == |vs| && i < |ks| && Distinct(ks)
    ensures BuildMap(ks, vs)[ks[i]] == vs[i]
  {
    var n := |ks| - 1;
    if i < n {
      var front := ks[..n];
      assert Distinct(front) by { assert forall j | 0 <= j < n :: front[j] == ks[j]; }
      BuildMapAt(front, vs[..n], i);
      assert front[i] == ks[i] != ks[n];
    }
  }

  function NumberFromMp(host: Parsers, mp: Mp): Option<Number> {
    match mp
    case MInt(n) => Some(NumberFromWire(WireInt(n)))
    case MF64(d) => Some(F64(d))
    case MF32(d) => Some(F64(Widen(d)))
    case MStr(s) => host.number(s)
    case _ => None
  }

  /** `decode_each`, and the zip of `decode_tuple`. */
  function DecodeEach(host: Parsers, mp: Mp, ty: Type): (r: Result<seq<Value>, CodecError>)
    requires mp.MArray?
    decreases mp, 0
  {
    CollectAll(seq(|mp.items|, i requires 0 <= i < |mp.items| => FromMp(host, mp.items[i], ElemType(ty, i))))
  }

  function PairFromMp(host: Parsers, mp: Mp, i: nat, e: Type): Decoded
    requires mp.MMap? && i < |mp.pairs|
    decreases mp, 0, 0
  {
    if mp.pairs[i].0.MStr? then FromMp(host, mp.pairs[i].1, e) else Err(BadMapKey)
  }

  function PairResults(host: Parsers, mp: Mp, e: Type): seq<Decoded>
    requires mp.MMap?
    decreases mp, 0, 1
  {
    seq(|mp.pairs|, i requires 0 <= i < |mp.pairs| => PairFromMp(host, mp, i, e))
  }

  /** The text of a string key; a key of another kind has none. */
  function KeyText(mp: Mp): string { if mp.MStr? then mp.s else "" }

  function KeyTexts(pairs: seq<(Mp, Mp)>): (ks: seq<string>)
    ensures |ks| == |pairs| && forall i | 0 <= i < |pairs| :: ks[i] == KeyText(pairs[i].0)
  {
    seq(|pairs|, i requires 0 <= i < |pairs| => KeyText(pairs[i].0))
  }

  /** `decode_map`. */
  function MapFromMp(host: Parsers, mp: Mp, e: Type): Decoded
    decreases mp, 0, 2
  {
    if !mp.MMap? then Err(TypeMismatch)
    else
      var rs := PairResults(host, mp, e);
      assert |rs| == |mp.pairs|;
      var vs :- CollectAll(rs);
      Ok(Map(BuildMap(KeyTexts(mp.pairs), vs)))
  }

  /** One attribute of `decode_object`: an absent key decodes to null. */
  function FieldFromMp(host: Parsers, mp: Mp, a: ObjectAttr): Decoded
    requires mp.MMap?
    decreases mp, 0, 0
  {
    var i := KeyIndex(mp.pairs, a.name);
    if i < |mp.pairs| then FromMp(host, mp.pairs[i].1, a.ty) else Ok(Null)
  }

  function FieldResults(host: Parsers, mp: Mp, attrs: seq<ObjectAttr>): seq<Decoded>
    requires mp.MMap?
    decreases mp, 0, 1
  {
    seq(|attrs|, i requires 0 <= i < |attrs| => FieldFromMp(host, mp, attrs[i]))
  }

  /** `decode_object`. */
  function ObjectFromMp(host: Parsers, mp: Mp, attrs: seq<ObjectAttr>): Decoded
    decreases mp, 0, 2
  {
    if !mp.MMap? then Err(TypeMismatch)
    else
      var rs := FieldResults(host, mp, attrs);
      assert |rs| == |attrs|;
      var vs :- CollectAll(rs);
      Ok(Object(BuildMap(Names(attrs), vs)))
  }

  /** The type document of a dynamic slot: bytes, or the bytes of a string. */
  function TypeDocument(host: Parsers, mp: Mp): Option<Json> {
    match mp
    case MBin(doc) => doc
    case MStr(s) => host.json(s)
    case _ => None
  }

  /** `decode_dynamic`: a pair of a type document and a value under that type. */
  function DynamicFromMp(host: Parsers, mp: Mp): Decoded
    decreases mp, 0, 0
  {
    if !mp.MArray? then Err(TypeMismatch)
    else if |mp.items| != 2 then Err(BadDynamic)
    else
      match TypeDocument(host, mp.items[0])
      case None => Err(BadDynamic)
      case Some(doc) =>
        match FromCty(doc)
        case Err(_) => Err(BadDynamic)
        case Ok(ty) => FromMp(host, mp.items[1], ty)
  }

  /** `from_mp`. Nil and every extension are recognised before the type is consulted. */
  function FromMp(host: Parsers, mp: Mp, ty: Type): Decoded
    decreases mp, 1
  {
    if mp.MNil? then Ok(Null)
    else if mp.MExt? then Ok(Unknown)
    else
      match ty
      case TBool => if mp.MBool? then Ok(Bool(mp.b)) else Err(TypeMismatch)
      case TNumber =>
        (match NumberFromMp(host, mp)
         case Some(n) => Ok(Num(n))
         case None => Err(TypeMismatch))
      case TString => if mp.MStr? then Ok(Str(mp.s)) else Err(TypeMismatch)
      case TList(_) => if !mp.MArray? then Err(TypeMismatch) else var vs :- DecodeEach(host, mp, ty); Ok(List(vs))
      case TSet(_) => if !mp.MArray? then Err(TypeMismatch) else var vs :- DecodeEach(host, mp, ty); Ok(Set(vs))
      case TTuple(es) =>
        if !mp.MArray? || |mp.items| != |es| then Err(TypeMismatch)
        else var vs :- DecodeEach(host, mp, ty); Ok(Tuple(vs))
      case TMap(e) => MapFromMp(host, mp, e)
      case TObject(attrs) => ObjectFromMp(host, mp, attrs)
      case TDynamic => DynamicFromMp(host, mp)
  }

  lemma {:induction false} DecodeEachSpec(host: Parsers, mp: Mp, ty: Type)
    requires mp.MArray?
    ensures DecodeEach(host, mp, ty).Ok?
            <==> forall i | 0 <= i < |mp.items| :: FromMp(host, mp.items[i], ElemType(ty, i)).Ok?
    ensures DecodeEach(host, mp, ty).Ok? ==>
              && |DecodeEach(host, mp, ty).value| == |mp.items|
              && forall i | 0 <= i < |mp.items| ::
                  FromMp(host, mp.items[i], ElemType(ty, i)) == Ok(DecodeEach(host, mp, ty).value[i])
  {
    var rs := seq(|mp.items|, i requires 0 <= i < |mp.items| => FromMp(host, mp.items[i], ElemType(ty, i)));
    assert DecodeEach(host, mp, ty) == CollectAll(rs);
    assert forall i | 0 <= i < |rs| :: rs[i] == FromMp(host, mp.items[i], ElemType(ty, i));
    CollectSpec(rs);
  }

  lemma {:induction false} PairResultsSpec(host: Parsers, mp: Mp, e: Type)
    requires mp.MMap?
    ensures var rs := PairResults(host, mp, e);
            |rs| == |mp.pairs| && forall i | 0 <= i < |rs| :: rs[i] == PairFromMp(host, mp, i, e)
  {
  }

  lemma {:induction false} FieldResultsSpec(host: Parsers, mp: Mp, attrs: seq<ObjectAttr>)
    requires mp.MMap?
    ensures var rs := FieldResults(host, mp, attrs);
            |rs| == |attrs| && forall i | 0 <= i < |rs| :: rs[i] == FieldFromMp(host, mp, attrs[i])
  {
  }

  // --- the loops of the source ------------------------------------------------

  /** The pairs so far have decoded to `vs`. */
  ghost predicate PairsGive(host: Parsers, mp: Mp, e: Type, vs: seq<Value>)
    requires mp.MMap?
  {
    |vs| <= |mp.pairs| && forall i | 0 <= i < |vs| :: PairFromMp(host, mp, i, e) == Ok(vs[i])
  }

  lemma {:induction false} PairsGiveMore(host: Parsers, mp: Mp, e: Type, vs: seq<Value>, v: Value)
    requires mp.MMap? && PairsGive(host, mp, e, vs) && |vs| < |mp.pairs| && PairFromMp(host, mp, |vs|, e) == Ok(v)
    ensures PairsGive(host, mp, e, vs + [v])
  {
  }

  lemma {:induction false} MapFromPairs(host: Parsers, mp: Mp, e: Type, vs: seq<Value>)
    requires mp.MMap? && |vs| == |mp.pairs| && PairsGive(host, mp, e, vs)
    ensures MapFromMp(host, mp, e) == Ok(Map(BuildMap(KeyTexts(mp.pairs), vs)))
  {
    PairResultsSpec(host, mp, e);
    CollectOk(PairResults(host, mp, e), vs);
  }

  lemma {:induction false} MapFromBadPair(host: Parsers, mp: Mp, e: Type, vs: seq<Value>)
    requires mp.MMap? && PairsGive(host, mp, e, vs) && |vs| < |mp.pairs| && PairFromMp(host, mp, |vs|, e).Err?
    ensures MapFromMp(host, mp, e) == Err(PairFromMp(host, mp, |vs|, e).error)
  {
    PairResultsSpec(host, mp, e);
    CollectErr(PairResults(host, mp, e), |vs|);
  }

  lemma {:induction false} ObjectFromFields(host: Parsers, mp: Mp, attrs: seq<ObjectAttr>, vs: seq<Value>)
    requires mp.MMap? && |vs| == |attrs| && forall i | 0 <= i < |vs| :: FieldFromMp(host, mp, attrs[i]) == Ok(vs[i])
    ensures ObjectFromMp(host, mp, attrs) == Ok(Object(BuildMap(Names(attrs), vs)))
  {
    FieldResultsSpec(host, mp, attrs);
    CollectOk(FieldResults(host, mp, attrs), vs);
  }

  lemma {:induction false} ObjectFromBadField(host: Parsers, mp: Mp, attrs: seq<ObjectAttr>, i: nat)
    requires mp.MMap? && i < |attrs| && FieldFromMp(host, mp, attrs[i]).Err?
    requires forall j | 0 <= j < i :: FieldFromMp(host, mp, attrs[j]).Ok?
    ensures ObjectFromMp(host, mp, attrs) == Err(FieldFromMp(host, mp, attrs[i]).error)
  {
    FieldResultsSpec(host, mp, attrs);
    CollectErr(FieldResults(host, mp, attrs), i);
  }

  /** `decode_map` fills a tree map pair by pair and stops at the first bad one. */
  method DecodeMap(host: Parsers, mp: Mp, e: Type) returns (r: Decoded)
    ensures r == MapFromMp(host, mp, e)
  {
    if !mp.MMap? { return Err(TypeMismatch); }
    var entries: map<string, Value> := map[];
    ghost var vs: seq<Value> := [];
    ghost var ks := KeyTexts(mp.pairs);
    for i := 0 to |mp.pairs|
      invariant |vs| == i && PairsGive(host, mp, e, vs)
      invariant entries == BuildMap(ks[..i], vs)
    {
      if !mp.pairs[i].0.MStr? {
        MapFromBadPair(host, mp, e, vs);
        return Err(BadMapKey);
      }
      var v := FromMp(host, mp.pairs[i].1, e);
      if v.Err? {
        MapFromBadPair(host, mp, e, vs);
        return v;
      }
      PairsGiveMore(host, mp, e, vs, v.value);
      BuildMapAppend(ks, vs, i, v.value);
      entries := entries[mp.pairs[i].0.s := v.value];
      vs := vs + [v.value];
    }
    MapFromPairs(host, mp, e, vs);
    assert ks[..|ks|] == ks;
    r := Ok(Map(entries));
  }

  /** `decode_object` looks each declared attribute up and inserts it in turn. */
  method DecodeObject(host: Parsers, mp: Mp, attrs: seq<ObjectAttr>) returns (r: Decoded)
    ensures r == ObjectFromMp(host, mp, attrs)
  {
    if !mp.MMap? { return Err(TypeMismatch); }
    var fields: map<string, Value> := map[];
    ghost var vs: seq<Value> := [];
    ghost var ns := Names(attrs);
    for i := 0 to |attrs|
      invariant |vs| == i && forall j | 0 <= j < i :: FieldFromMp(host, mp, attrs[j]) == Ok(vs[j])
      invariant fields == BuildMap(ns[..i], vs)
    {
      var found := KeyIndex(mp.pairs, attrs[i].name);
      var value := Null;
      if found < |mp.pairs| {
        var v := FromMp(host, mp.pairs[found].1, attrs[i].ty);
        if v.Err? {
          ObjectFromBadField(host, mp, attrs, i);
          return v;
        }
        value := v.value;
      }
      BuildMapAppend(ns, vs, i, value);
      fields := fields[attrs[i].name := value];
      vs := vs + [value];
    }
    assert ns[..|ns|] == ns;
    ObjectFromFields(host, mp, attrs, vs);
    r := Ok(Object(fields));
  }
}
