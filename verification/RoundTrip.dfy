/** Encoding to msgpack and decoding back, for every type and every value that encodes. */
module RoundTrip {
  import opened Wrappers
  import opened Doubles
  import opened Numbers
  import opened Text
  import opened Types
  import opened Values
  import opened Encode
  import opened Decode

  function AttrIndex(attrs: seq<ObjectAttr>, name: string): (i: nat)
    ensures i <= |attrs|
    ensures i < |attrs| ==> attrs[i].name == name
    ensures i == |attrs| <==> name !in Names(attrs)
  {
    if attrs == [] then 0
    else
      assert Names(attrs) == [attrs[0].name] + Names(attrs[1..]);
      if attrs[0].name == name then 0 else 1 + AttrIndex(attrs[1..], name)
  }

  lemma {:induction false} AttrIndexAt(attrs: seq<ObjectAttr>, i: nat)
    requires Distinct(Names(attrs)) && i < |attrs|
    ensures AttrIndex(attrs, attrs[i].name) == i
  {
    var j := AttrIndex(attrs, attrs[i].name);
    assert Names(attrs)[i] == attrs[i].name;
    assert j < |attrs| ==> Names(attrs)[j] == Names(attrs)[i];
  }

  /** A value cut to what its type declares: undeclared attributes go, missing ones
      become null. */
  function Project(v: Value, ty: Type): Value
    decreases v, if ty.TDynamic? then 1 else 0
  {
    if v.Null? || v.Unknown? then v
    else
      match ty
      case TList(e) =>
        if v.List? then List(seq(|v.items|, i requires 0 <= i < |v.items| => Project(v.items[i], e))) else v
      case TSet(e) => if v.Set? then Set(seq(|v.items|, i requires 0 <= i < |v.items| => Project(v.items[i], e))) else v
      case TTuple(es) =>
        if v.Tuple? && |v.items| == |es|
        then Tuple(seq(|v.items|, i requires 0 <= i < |v.items| => Project(v.items[i], es[i]))) else v
      case TMap(e) => if v.Map? then Map(map k | k in v.entries :: Project(v.entries[k], e)) else v
      case TObject(attrs) =>
        if v.Object? then
          Object(map n | n in Names(attrs) ::
                   if n in v.fields then Project(v.fields[n], attrs[AttrIndex(attrs, n)].ty) else Null)
        else v
      case TDynamic => InferDynamic(v); Project(v, InferType(v))
      case _ => v
  }

  /** One attribute of a projected object. */
  lemma {:induction false} ProjectedAt(v: Value, attrs: seq<ObjectAttr>, i: nat)
    requires v.Object? && Distinct(Names(attrs)) && i < |attrs| && attrs[i].name in v.fields
    ensures Project(v, TObject(attrs)).Object? && attrs[i].name in Project(v, TObject(attrs)).fields
    ensures Project(v, TObject(attrs)).fields[attrs[i].name] == Project(v.fields[attrs[i].name], attrs[i].ty)
  {
    AttrIndexAt(attrs, i);
    assert Names(attrs)[i] == attrs[i].name;
  }

  lemma {:induction false} ProjectedKeys(v: Value, attrs: seq<ObjectAttr>) returns (p: map<string, Value>)
    requires v.Object?
    ensures Project(v, TObject(attrs)) == Object(p) && forall k :: k in p <==> k in Names(attrs)
  {
    p := Project(v, TObject(attrs)).fields;
  }

  lemma {:induction false} EqualMaps(p: map<string, Value>, m: map<string, Value>, ks: seq<string>)
    requires (forall k :: k in p <==> k in ks) && forall k :: k in m <==> k in ks
    requires forall i | 0 <= i < |ks| :: p[ks[i]] == m[ks[i]]
    ensures p == m
  {
    forall k | k in p ensures p[k] == m[k] { var i :| 0 <= i < |ks| && ks[i] == k; }
  }

  /** Every number replaced by what one trip over the wire makes of it. */
  function WireNumbers(v: Value): Value {
    match v
    case Num(n) => Num(WireTrip(n))
    case List(xs) => List(seq(|xs|, i requires 0 <= i < |xs| => WireNumbers(xs[i])))
    case Set(xs) => Set(seq(|xs|, i requires 0 <= i < |xs| => WireNumbers(xs[i])))
    case Tuple(xs) => Tuple(seq(|xs|, i requires 0 <= i < |xs| => WireNumbers(xs[i])))
    case Map(m) => Map(map k | k in m :: WireNumbers(m[k]))
    case Object(m) => Object(map k | k in m :: WireNumbers(m[k]))
    case _ => v
  }

  /** What comes back from the wire. */
  function Received(v: Value, ty: Type): Value { WireNumbers(Project(v, ty)) }

  /** The wire gives back the value cut to its type, with its numbers in wire form. */
  lemma {:induction false} MsgpackRoundTrip(host: Parsers, v: Value, ty: Type)
    requires DistinctNames(ty) && ToMp(v, ty).Ok?
    ensures FromMp(host, ToMp(v, ty).value, ty) == Ok(Received(v, ty))
    decreases v, if ty.TDynamic? then 5 else 3
  {
    if !v.Null? && !v.Unknown? {
      match ty
      case TList(_) => SequenceTrip(host, v, ty);
      case TSet(_) => SequenceTrip(host, v, ty);
      case TTuple(_) => SequenceTrip(host, v, ty);
      case TMap(e) => MapTrip(host, v, e);
      case TObject(attrs) => ObjectTrip(host, v, attrs);
      case TDynamic => DynamicTrip(host, v);
      case _ =>
    }
  }

  lemma {:induction false} SequenceTrip(host: Parsers, v: Value, ty: Type)
    requires IsSequence(v) && !ty.TDynamic? && DistinctNames(ty) && ToMp(v, ty).Ok?
    ensures FromMp(host, ToMp(v, ty).value, ty) == Ok(Received(v, ty))
    decreases v, 0
  {
    var mp := ToMp(v, ty).value;
    EncodeEachSpec(v, ty);
    DecodeEachSpec(host, mp, ty);
    forall i | 0 <= i < |v.items|
      ensures FromMp(host, mp.items[i], ElemType(ty, i)) == Ok(Received(v.items[i], ElemType(ty, i)))
    {
      MsgpackRoundTrip(host, v.items[i], ElemType(ty, i));
    }
    var vs := DecodeEach(host, mp, ty).value;
    assert vs == Received(v, ty).items;
  }

  /** An encoded map, taken apart. */
  lemma {:induction false} EncodedMap(v: Value, e: Type) returns (ks: seq<string>, ms: seq<Mp>)
    requires v.Map? && ToMp(v, TMap(e)).Ok?
    ensures ks == Sorted(v.entries.Keys) && |ms| == |ks| && ToMp(v, TMap(e)) == Ok(MMap(StringPairs(ks, ms)))
    ensures forall i | 0 <= i < |ks| :: ToMp(v.entries[ks[i]], e) == Ok(ms[i])
  {
    ks := Sorted(v.entries.Keys);
    ms := EncodeEntries(v, ks, e).value;
    EncodeEntriesSpec(v, ks, e);
  }

  lemma {:induction false} ReceivedMap(v: Value, e: Type) returns (out: map<string, Value>)
    requires v.Map?
    ensures Received(v, TMap(e)) == Map(out) && out.Keys == v.entries.Keys
    ensures forall k | k in v.entries :: out[k] == Received(v.entries[k], e)
  {
    var p := Project(v, TMap(e));
    assert forall k | k in v.entries :: p.entries[k] == Project(v.entries[k], e);
    out := Received(v, TMap(e)).entries;
  }

  lemma {:induction false} EntriesTrip(host: Parsers, v: Value, e: Type, ks: seq<string>, ms: seq<Mp>)
    requires v.Map? && DistinctNames(e) && |ms| == |ks| && forall i | 0 <= i < |ks| :: ks[i] in v.entries
    requires forall i | 0 <= i < |ks| :: ToMp(v.entries[ks[i]], e) == Ok(ms[i])
    ensures forall i | 0 <= i < |ks| :: FromMp(host, ms[i], e) == Ok(Received(v.entries[ks[i]], e))
    decreases v, 0
  {
    forall i | 0 <= i < |ks| ensures FromMp(host, ms[i], e) == Ok(Received(v.entries[ks[i]], e)) {
      MsgpackRoundTrip(host, v.entries[ks[i]], e);
    }
  }

  lemma {:induction false} MapTrip(host: Parsers, v: Value, e: Type)
    requires v.Map? && DistinctNames(e) && ToMp(v, TMap(e)).Ok?
    ensures FromMp(host, ToMp(v, TMap(e)).value, TMap(e)) == Ok(Received(v, TMap(e)))
    decreases v, 1
  {
    var ks, ms := EncodedMap(v, e);
    var out := ReceivedMap(v, e);
    EntriesTrip(host, v, e, ks, ms);
    MapDecodes(host, ks, ms, e, out);
  }

  /** Pairs in any order of distinct keys decode to the map of their decoded values. */
  lemma {:induction false} MapDecodes(host: Parsers, ks: seq<string>, ms: seq<Mp>, e: Type, out: map<string, Value>)
    requires |ks| == |ms| && Distinct(ks) && forall k :: k in out <==> k in ks
    requires forall i | 0 <= i < |ks| :: FromMp(host, ms[i], e) == Ok(out[ks[i]])
    ensures FromMp(host, MMap(StringPairs(ks, ms)), TMap(e)) == Ok(Map(out))
  {
    var rs := PairsDecoded(host, ks, ms, e);
    ResultsAssemble(ks, rs, out);
  }

  /** The results of a list of string-keyed pairs, and the map they make. */
  lemma {:induction false} PairsDecoded(host: Parsers, ks: seq<string>, ms: seq<Mp>, e: Type) returns (rs: seq<Decoded>)
    requires |ks| == |ms|
    ensures |rs| == |ks| && forall i | 0 <= i < |ks| :: rs[i] == FromMp(host, ms[i], e)
    ensures CollectAll(rs).Ok? ==>
              FromMp(host, MMap(StringPairs(ks, ms)), TMap(e)) == Ok(Map(BuildMap(ks, CollectAll(rs).value)))
  {
    var mp := MMap(StringPairs(ks, ms));
    rs := PairResults(host, mp, e);
    PairResultsSpec(host, mp, e);
    assert KeyTexts(mp.pairs) == ks;
    assert FromMp(host, mp, TMap(e)) == MapFromMp(host, mp, e);
  }

  lemma {:induction false} MapOf(ks: seq<string>, vs: seq<Value>, m: map<string, Value>)
    requires |ks| == |vs| && Distinct(ks)
    requires forall k :: k in m <==> k in ks
    requires forall i | 0 <= i < |ks| :: m[ks[i]] == vs[i]
    ensures BuildMap(ks, vs) == m
  {
    forall k | k in m ensures BuildMap(ks, vs)[k] == m[k] {
      var i :| 0 <= i < |ks| && ks[i] == k;
      BuildMapAt(ks, vs, i);
    }
  }

  /** In a list of string-keyed pairs with distinct keys, each key is found in its place. */
  lemma {:induction false} KeyIndexAt(pairs: seq<(Mp, Mp)>, ks: seq<string>, ms: seq<Mp>, i: nat)
    requires |ks| == |ms| && pairs == StringPairs(ks, ms) && Distinct(ks) && i < |ks|
    ensures KeyIndex(pairs, ks[i]) == i
  {
    var j := KeyIndex(pairs, ks[i]);
    assert pairs[i].0 == MStr(ks[i]);
    assert j <= i;
    assert pairs[j].0 == MStr(ks[j]);
  }

  lemma {:induction false} SortedDistinct(attrs: seq<ObjectAttr>)
    requires Distinct(Names(attrs))
    ensures Distinct(Names(SortByName(attrs)))
  {
    if attrs != [] {
      DistinctTail(Names(attrs));
      assert Names(attrs[1..]) == Names(attrs)[1..];
      SortedDistinct(attrs[1..]);
      var rest := SortByName(attrs[1..]);
      forall i | 0 <= i < |rest| ensures rest[i].name != attrs[0].name {
        SortedMember(attrs[1..], rest[i]);
        var j :| 0 <= j < |attrs[1..]| && attrs[1..][j] == rest[i];
        assert Names(attrs)[j + 1] == rest[i].name;
      }
      InsertedDistinct(attrs[0], rest);
    }
  }

  lemma {:induction false} InsertedDistinct(a: ObjectAttr, sorted: seq<ObjectAttr>)
    requires Distinct(Names(sorted)) && forall i | 0 <= i < |sorted| :: sorted[i].name != a.name
    ensures Distinct(Names(InsertByName(a, sorted)))
  {
    if sorted != [] && Less(sorted[0].name, a.name) {
      var rest := sorted[1..];
      assert Names(rest) == Names(sorted)[1..];
      InsertedDistinct(a, rest);
      var r := InsertByName(a, rest);
      forall i | 0 <= i < |r| ensures r[i].name != sorted[0].name {
        assert r[i] in multiset(r);
        if r[i] != a {
          var j :| 0 <= j < |rest| && rest[j] == r[i];
          assert Names(sorted)[j + 1] == r[i].name && Names(sorted)[0] == sorted[0].name;
        }
      }
      ConsDistinct(sorted[0], r);
    } else {
      ConsDistinct(a, sorted);
    }
  }

  lemma {:induction false} ConsDistinct(a: ObjectAttr, rest: seq<ObjectAttr>)
    requires Distinct(Names(rest)) && forall i | 0 <= i < |rest| :: rest[i].name != a.name
    ensures Distinct(Names([a] + rest))
  {
    assert Names([a] + rest) == [a.name] + Names(rest);
  }

  /** An encoded object, taken apart. */
  lemma {:induction false} EncodedObject(v: Value, attrs: seq<ObjectAttr>)
    returns (sorted: seq<ObjectAttr>, ms: seq<Mp>)
    requires v.Object? && ToMp(v, TObject(attrs)).Ok?
    ensures sorted == SortByName(attrs) && |ms| == |sorted|
    ensures ToMp(v, TObject(attrs)) == Ok(MMap(StringPairs(Names(sorted), ms)))
    ensures forall j | 0 <= j < |sorted| :: FieldToMp(v, sorted[j]) == Ok(ms[j])
  {
    sorted := SortByName(attrs);
    ObjectMeansFields(v, attrs, sorted);
    EncodeFieldsSpec(v, sorted);
    ms := EncodeFields(v, sorted).value;
  }

  lemma {:induction false} ObjectMeansFields(v: Value, attrs: seq<ObjectAttr>, sorted: seq<ObjectAttr>)
    requires v.Object? && sorted == SortByName(attrs)
    ensures ToMp(v, TObject(attrs)) ==
            match EncodeFields(v, sorted)
            case Ok(ms) => Ok(MMap(StringPairs(Names(sorted), ms)))
            case Err(e) => Err(e)
  {
  }

  lemma {:induction false} ObjectTrip(host: Parsers, v: Value, attrs: seq<ObjectAttr>)
    requires v.Object? && DistinctNames(TObject(attrs)) && ToMp(v, TObject(attrs)).Ok?
    ensures FromMp(host, ToMp(v, TObject(attrs)).value, TObject(attrs)) == Ok(Received(v, TObject(attrs)))
    decreases v, 2
  {
    var sorted, ms := EncodedObject(v, attrs);
    var mp := MMap(StringPairs(Names(sorted), ms));
    var ks, out := ReceivedObject(v, attrs);
    forall i | 0 <= i < |attrs| ensures FieldFromMp(host, mp, attrs[i]) == Ok(out[ks[i]]) {
      FieldRead(host, v, attrs, ms, i);
    }
    FieldsAssemble(host, mp, attrs, ks, out);
    MapMeansObject(host, mp, attrs);
  }

  lemma {:induction false} MapMeansObject(host: Parsers, mp: Mp, attrs: seq<ObjectAttr>)
    requires mp.MMap?
    ensures FromMp(host, mp, TObject(attrs)) == ObjectFromMp(host, mp, attrs)
  {
  }

  lemma {:induction false} ReceivedObject(v: Value, attrs: seq<ObjectAttr>)
    returns (ks: seq<string>, out: map<string, Value>)
    requires v.Object?
    ensures ks == Names(attrs) && Received(v, TObject(attrs)) == Object(out)
    ensures forall k :: k in out <==> k in ks
  {
    ks := Names(attrs);
    out := Received(v, TObject(attrs)).fields;
  }

  lemma {:induction false} FieldRead(host: Parsers, v: Value, attrs: seq<ObjectAttr>, ms: seq<Mp>, i: nat)
    requires v.Object? && DistinctNames(TObject(attrs)) && i < |attrs| && |ms| == |attrs|
    requires forall j | 0 <= j < |ms| :: FieldToMp(v, SortByName(attrs)[j]) == Ok(ms[j])
    ensures attrs[i].name in Received(v, TObject(attrs)).fields
    ensures FieldFromMp(host, MMap(StringPairs(Names(SortByName(attrs)), ms)), attrs[i])
            == Ok(Received(v, TObject(attrs)).fields[attrs[i].name])
    decreases v, 1
  {
    var sorted := SortByName(attrs);
    SortedMember(attrs, attrs[i]);
    SortedDistinct(attrs);
    var j :| 0 <= j < |sorted| && sorted[j] == attrs[i];
    FieldFound(host, sorted, ms, j);
    FieldTrip(host, v, attrs, i, ms[j]);
  }

  /** Each attribute is read from the pair encoded for it. */
  lemma {:induction false} FieldFound(host: Parsers, sorted: seq<ObjectAttr>, ms: seq<Mp>, j: nat)
    requires Distinct(Names(sorted)) && |sorted| == |ms| && j < |sorted|
    ensures FieldFromMp(host, MMap(StringPairs(Names(sorted), ms)), sorted[j]) == FromMp(host, ms[j], sorted[j].ty)
  {
    KeyIndexAt(StringPairs(Names(sorted), ms), Names(sorted), ms, j);
  }

  lemma {:induction false} FieldsAssemble(
    host: Parsers, mp: Mp, attrs: seq<ObjectAttr>, ks: seq<string>, out: map<string, Value>)
    requires mp.MMap? && ks == Names(attrs) && Distinct(ks) && forall k :: k in out <==> k in ks
    requires forall i | 0 <= i < |attrs| :: FieldFromMp(host, mp, attrs[i]) == Ok(out[ks[i]])
    ensures ObjectFromMp(host, mp, attrs) == Ok(Object(out))
  {
    var rs := FieldResults(host, mp, attrs);
    FieldResultsSpec(host, mp, attrs);
    ResultsAssemble(ks, rs, out);
  }

  lemma {:induction false} ResultsAssemble(ks: seq<string>, rs: seq<Decoded>, out: map<string, Value>)
    requires |rs| == |ks| && Distinct(ks) && forall k :: k in out <==> k in ks
    requires forall i | 0 <= i < |rs| :: rs[i] == Ok(out[ks[i]])
    ensures CollectAll(rs).Ok? && BuildMap(ks, CollectAll(rs).value) == out
  {
    var vs := seq(|ks|, i requires 0 <= i < |ks| => out[ks[i]]);
    CollectOk(rs, vs);
    MapOf(ks, vs, out);
  }

  lemma {:induction false} FieldTrip(host: Parsers, v: Value, attrs: seq<ObjectAttr>, i: nat, m: Mp)
    requires v.Object? && DistinctNames(TObject(attrs)) && i < |attrs| && FieldToMp(v, attrs[i]) == Ok(m)
    ensures attrs[i].name in Received(v, TObject(attrs)).fields
    ensures FromMp(host, m, attrs[i].ty) == Ok(Received(v, TObject(attrs)).fields[attrs[i].name])
    decreases v, 0
  {
    ProjectField(v, attrs, i);
    if attrs[i].name in v.fields { MsgpackRoundTrip(host, v.fields[attrs[i].name], attrs[i].ty); }
  }

  lemma {:induction false} ProjectField(v: Value, attrs: seq<ObjectAttr>, i: nat)
    requires v.Object? && Distinct(Names(attrs)) && i < |attrs|
    ensures Received(v, TObject(attrs)).Object? && attrs[i].name in Received(v, TObject(attrs)).fields
    ensures Received(v, TObject(attrs)).fields[attrs[i].name]
            == if attrs[i].name in v.fields then Received(v.fields[attrs[i].name], attrs[i].ty) else Null
  {
    var n := attrs[i].name;
    AttrIndexAt(attrs, i);
    assert Names(attrs)[i] == n;
    var p := Project(v, TObject(attrs));
    assert p.fields[n] == if n in v.fields then Project(v.fields[n], attrs[i].ty) else Null;
    assert WireNumbers(p).fields[n] == WireNumbers(p.fields[n]);
  }

  lemma {:induction false} DynamicTrip(host: Parsers, v: Value)
    requires !v.Null? && !v.Unknown? && ToMp(v, TDynamic).Ok?
    ensures FromMp(host, ToMp(v, TDynamic).value, TDynamic) == Ok(Received(v, TDynamic))
    decreases v, 4
  {
    var ty := InferType(v);
    InferDynamic(v);
    InferredNamesDistinct(v);
    MsgpackRoundTrip(host, v, ty);
    DynamicDecodes(host, ty, ToMp(v, ty).value);
  }

  /** A type document and a value under it decode to the value under that type. */
  lemma {:induction false} DynamicDecodes(host: Parsers, ty: Type, inner: Mp)
    requires DistinctNames(ty)
    ensures FromMp(host, MArray([MBin(Some(ToCty(ty))), inner]), TDynamic) == FromMp(host, inner, ty)
  {
    CtyRoundTrip(ty);
    var mp := MArray([MBin(Some(ToCty(ty))), inner]);
    assert mp.items[0] == MBin(Some(ToCty(ty))) && mp.items[1] == inner;
    assert TypeDocument(host, mp.items[0]) == Some(ToCty(ty));
  }

  /** The numbers that survive the wire. */
  const SURVIVES: Number -> bool := (n: Number) => !n.IsNaN() && !(n.F64? && n.f == TWO63_F64)

  /** The numbers sent are the numbers received exactly when there is no NaN and no
      2^63 held as a float among them. */
  lemma {:induction false} WireNumbersKeep(v: Value)
    ensures ValueEq(WireNumbers(v), v) <==> AllNumbers(v, SURVIVES)
  {
    match v
    case Num(n) => WireTripKeeps(n);
    case List(xs) => forall i | 0 <= i < |xs| { WireNumbersKeep(xs[i]); }
    case Set(xs) => forall i | 0 <= i < |xs| { WireNumbersKeep(xs[i]); }
    case Tuple(xs) => forall i | 0 <= i < |xs| { WireNumbersKeep(xs[i]); }
    case Map(m) => forall k | k in m { WireNumbersKeep(m[k]); }
    case Object(m) => forall k | k in m { WireNumbersKeep(m[k]); }
    case _ =>
  }

  /** The main law: a value that encodes comes back equal to its projection onto the
      type exactly when every number the type keeps survives. */
  lemma {:induction false} MsgpackFaithful(host: Parsers, v: Value, ty: Type)
    requires DistinctNames(ty) && ToMp(v, ty).Ok?
    ensures var back := FromMp(host, ToMp(v, ty).value, ty);
            back.Ok? && (ValueEq(back.value, Project(v, ty)) <==> AllNumbers(Project(v, ty), SURVIVES))
  {
    MsgpackRoundTrip(host, v, ty);
    WireNumbersKeep(Project(v, ty));
  }

  // --- a second trip ----------------------------------------------------------

  /** What comes back has the type that was inferred from what was sent. */
  lemma {:induction false} InferReceived(v: Value)
    ensures InferType(Received(v, InferType(v))) == InferType(v)
  {
    match v
    case List(xs) => if xs != [] { InferReceived(xs[0]); }
    case Set(xs) => if xs != [] { InferReceived(xs[0]); }
    case Tuple(xs) =>
      forall i | 0 <= i < |xs| { InferReceived(xs[i]); }
      assert InferType(Received(v, InferType(v))).elems == InferType(v).elems;
    case Map(m) =>
      if m != map[] {
        var out := ReceivedMap(v, InferType(v).elem);
        InferReceived(m[Least(m.Keys)]);
        assert out != map[] by { assert Least(m.Keys) in out; }
      }
    case Object(m) => InferReceivedObject(v);
    case _ =>
  }

  lemma {:induction false} InferReceivedObject(v: Value)
    requires v.Object?
    ensures InferType(Received(v, InferType(v))) == InferType(v)
    decreases v, 0
  {
    var ks, attrs := InferredAttrs(v.fields);
    InferredNamesDistinct(v);
    var names, out := ReceivedObject(v, attrs);
    forall i | 0 <= i < |ks| ensures ks[i] in out && InferType(out[ks[i]]) == InferType(v.fields[ks[i]]) {
      ProjectField(v, attrs, i);
      InferReceived(v.fields[ks[i]]);
    }
    SameInferred(v.fields, out, ks);
  }

  /** The inferred attributes of an object, in key order. */
  lemma {:induction false} InferredAttrs(m: map<string, Value>) returns (ks: seq<string>, attrs: seq<ObjectAttr>)
    ensures ks == Sorted(m.Keys) && InferType(Object(m)) == TObject(attrs) && |attrs| == |ks| && Names(attrs) == ks
    ensures forall i | 0 <= i < |ks| :: attrs[i] == ObjectAttr(ks[i], InferType(m[ks[i]]), false)
  {
    ks, attrs := Sorted(m.Keys), InferType(Object(m)).attrs;
  }

  lemma {:induction false} SameInferred(m: map<string, Value>, w: map<string, Value>, ks: seq<string>)
    requires ks == Sorted(m.Keys) && w.Keys == m.Keys
    requires forall i | 0 <= i < |ks| :: InferType(w[ks[i]]) == InferType(m[ks[i]])
    ensures InferType(Object(w)) == InferType(Object(m))
  {
    var ms, xs := InferredAttrs(m);
    var ns, ys := InferredAttrs(w);
    assert xs == ys;
  }

  lemma {:induction false} EncodeEachSame(v: Value, w: Value, ty: Type)
    requires IsSequence(v) && IsSequence(w) && |v.items| == |w.items|
    requires forall i | 0 <= i < |v.items| :: ToMp(w.items[i], ElemType(ty, i)) == ToMp(v.items[i], ElemType(ty, i))
    ensures EncodeEach(w, ty) == EncodeEach(v, ty)
  {
    var rs := seq(|v.items|, i requires 0 <= i < |v.items| => ToMp(v.items[i], ElemType(ty, i)));
    var qs := seq(|w.items|, i requires 0 <= i < |w.items| => ToMp(w.items[i], ElemType(ty, i)));
    assert EncodeEach(v, ty) == CollectAll(rs) && EncodeEach(w, ty) == CollectAll(qs);
    assert rs == qs;
  }

  lemma {:induction false} EncodeFieldsSame(v: Value, w: Value, attrs: seq<ObjectAttr>)
    requires v.Object? && w.Object?
    requires forall i | 0 <= i < |attrs| :: FieldToMp(w, attrs[i]) == FieldToMp(v, attrs[i])
    ensures EncodeFields(w, attrs) == EncodeFields(v, attrs)
  {
    var rs := seq(|attrs|, i requires 0 <= i < |attrs| => FieldToMp(v, attrs[i]));
    var qs := seq(|attrs|, i requires 0 <= i < |attrs| => FieldToMp(w, attrs[i]));
    assert EncodeFields(v, attrs) == CollectAll(rs) && EncodeFields(w, attrs) == CollectAll(qs);
    assert rs == qs;
  }

  lemma {:induction false} EncodeEntriesSame(v: Value, w: Value, ks: seq<string>, e: Type)
    requires v.Map? && w.Map? && forall i | 0 <= i < |ks| :: ks[i] in v.entries && ks[i] in w.entries
    requires forall i | 0 <= i < |ks| :: ToMp(w.entries[ks[i]], e) == ToMp(v.entries[ks[i]], e)
    ensures EncodeEntries(w, ks, e) == EncodeEntries(v, ks, e)
  {
    var rs := seq(|ks|, i requires 0 <= i < |ks| => EntryToMp(v, ks[i], e));
    var qs := seq(|ks|, i requires 0 <= i < |ks| => EntryToMp(w, ks[i], e));
    assert EncodeEntries(v, ks, e) == CollectAll(rs) && EncodeEntries(w, ks, e) == CollectAll(qs);
    assert rs == qs;
  }

  /** Decoding and encoding again reproduces the very same msgpack tree. */
  lemma {:induction false} Reencodes(v: Value, ty: Type)
    requires DistinctNames(ty) && Conforms(v, ty)
    ensures ToMp(Received(v, ty), ty) == ToMp(v, ty)
    decreases v, if ty.TDynamic? then 3 else 1
  {
    if !v.Null? && !v.Unknown? {
      match ty
      case TNumber => WireTripStable(v.n);
      case TList(_) => ReencodesEach(v, ty);
      case TSet(_) => ReencodesEach(v, ty);
      case TTuple(_) => ReencodesEach(v, ty);
      case TMap(e) => ReencodesMap(v, e);
      case TObject(attrs) => ReencodesObject(v, attrs);
      case TDynamic => ReencodesDynamic(v);
      case _ =>
    }
  }

  lemma {:induction false} ReencodesMap(v: Value, e: Type)
    requires v.Map? && DistinctNames(e) && Conforms(v, TMap(e))
    ensures ToMp(Received(v, TMap(e)), TMap(e)) == ToMp(v, TMap(e))
    decreases v, 0
  {
    var out := ReceivedMap(v, e);
    var ks := Sorted(v.entries.Keys);
    forall i | 0 <= i < |ks| ensures ToMp(Map(out).entries[ks[i]], e) == ToMp(v.entries[ks[i]], e) {
      Reencodes(v.entries[ks[i]], e);
    }
    EncodeEntriesSame(v, Map(out), ks, e);
    SameMapEncoding(v.entries, out, e);
  }

  /** A map's encoding is that of its entries in key order. */
  lemma {:induction false} SameMapEncoding(m: map<string, Value>, w: map<string, Value>, e: Type)
    requires w.Keys == m.Keys
    requires EncodeEntries(Map(w), Sorted(m.Keys), e) == EncodeEntries(Map(m), Sorted(m.Keys), e)
    ensures ToMp(Map(w), TMap(e)) == ToMp(Map(m), TMap(e))
  {
  }

  lemma {:induction false} ReencodesDynamic(v: Value)
    requires !v.Null? && !v.Unknown? && Conforms(v, TDynamic)
    ensures ToMp(Received(v, TDynamic), TDynamic) == ToMp(v, TDynamic)
    decreases v, 2
  {
    InferDynamic(v);
    InferredNamesDistinct(v);
    InferReceived(v);
    Reencodes(v, InferType(v));
  }

  lemma {:induction false} ReencodesEach(v: Value, ty: Type)
    requires IsSequence(v) && !ty.TDynamic? && DistinctNames(ty) && Conforms(v, ty)
    ensures ToMp(Received(v, ty), ty) == ToMp(v, ty)
    decreases v, 0
  {
    var w := Received(v, ty);
    assert |w.items| == |v.items|;
    forall i | 0 <= i < |v.items|
      ensures ToMp(w.items[i], ElemType(ty, i)) == ToMp(v.items[i], ElemType(ty, i))
    {
      assert w.items[i] == Received(v.items[i], ElemType(ty, i));
      Reencodes(v.items[i], ElemType(ty, i));
    }
    EncodeEachSame(v, w, ty);
  }

  lemma {:induction false} ReencodesObject(v: Value, attrs: seq<ObjectAttr>)
    requires v.Object? && DistinctNames(TObject(attrs)) && Conforms(v, TObject(attrs))
    ensures ToMp(Received(v, TObject(attrs)), TObject(attrs)) == ToMp(v, TObject(attrs))
    decreases v, 0
  {
    var w := Received(v, TObject(attrs));
    var sorted := SortByName(attrs);
    forall j | 0 <= j < |sorted| ensures FieldToMp(w, sorted[j]) == FieldToMp(v, sorted[j]) {
      SortedMember(attrs, sorted[j]);
      var i :| 0 <= i < |attrs| && attrs[i] == sorted[j];
      ProjectField(v, attrs, i);
      if attrs[i].name in v.fields { Reencodes(v.fields[attrs[i].name], attrs[i].ty); }
    }
    EncodeFieldsSame(v, w, sorted);
  }

  /** A second trip changes nothing more. */
  lemma {:induction false} SecondTrip(host: Parsers, v: Value, ty: Type)
    requires DistinctNames(ty) && ToMp(v, ty).Ok?
    ensures Conforms(Received(v, ty), ty) && Received(Received(v, ty), ty) == Received(v, ty)
  {
    EncodesIffConforms(v, ty);
    Reencodes(v, ty);
    EncodesIffConforms(Received(v, ty), ty);
    MsgpackRoundTrip(host, v, ty);
    MsgpackRoundTrip(host, Received(v, ty), ty);
  }

  // --- types without dynamic slots --------------------------------------------

  predicate DynamicFree(ty: Type) {
    match ty
    case TDynamic => false
    case TList(e) => DynamicFree(e)
    case TSet(e) => DynamicFree(e)
    case TMap(e) => DynamicFree(e)
    case TObject(attrs) => forall i | 0 <= i < |attrs| :: DynamicFree(attrs[i].ty)
    case TTuple(es) => forall i | 0 <= i < |es| :: DynamicFree(es[i])
    case _ => true
  }
}
