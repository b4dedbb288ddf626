/** The cty type system and its JSON type-constraint encoding. */
module Types {
  import opened Wrappers
  import opened Numbers
  import opened Doubles
  import opened Text

  datatype Type =
    | TBool
    | TNumber
    | TString
    | TDynamic
    | TList(elem: Type)
    | TSet(elem: Type)
    | TMap(elem: Type)
    | TObject(attrs: seq<ObjectAttr>)
    | TTuple(elems: seq<Type>)

  datatype ObjectAttr = ObjectAttr(name: string, ty: Type, optional: bool)

  /** A JSON document. Numbers keep their integer and float cases apart; an object
      keeps the order its keys were first inserted in. */
  datatype Json =
    | JNull
    | JBool(b: bool)
    | JInt(i: i64)
    | JUint(u: u64)
    | JFloat(f: F64)
    | JString(s: string)
    | JArray(items: seq<Json>)
    | JObject(members: seq<(string, Json)>)

  function Names(attrs: seq<ObjectAttr>): (ns: seq<string>)
    ensures |ns| == |attrs| && forall i | 0 <= i < |attrs| :: ns[i] == attrs[i].name
  {
    seq(|attrs|, i requires 0 <= i < |attrs| => attrs[i].name)
  }

  /** Attribute names are distinct in every object at every depth. */
  predicate DistinctNames(ty: Type) {
    match ty
    case TList(e) => DistinctNames(e)
    case TSet(e) => DistinctNames(e)
    case TMap(e) => DistinctNames(e)
    case TObject(attrs) => Distinct(Names(attrs)) && forall i | 0 <= i < |attrs| :: DistinctNames(attrs[i].ty)
    case TTuple(elems) => forall i | 0 <= i < |elems| :: DistinctNames(elems[i])
    case _ => true
  }

  // --- JSON objects -----------------------------------------------------------

  function Keys<V>(members: seq<(string, V)>): (ks: seq<string>)
    ensures |ks| == |members| && forall i | 0 <= i < |members| :: ks[i] == members[i].0
  {
    seq(|members|, i requires 0 <= i < |members| => members[i].0)
  }

  /** The first member under `key`. */
  function Lookup<V>(members: seq<(string, V)>, key: string): Option<V> {
    if members == [] then None
    else if members[0].0 == key then Some(members[0].1)
    else Lookup(members[1..], key)
  }

  /** Insertion: an existing key keeps its place and takes the new value. */
  function Insert<V>(members: seq<(string, V)>, key: string, v: V): (r: seq<(string, V)>)
    ensures |members| <= |r| <= |members| + 1
  {
    if members == [] then [(key, v)]
    else if members[0].0 == key then [(key, v)] + members[1..]
    else [members[0]] + Insert(members[1..], key, v)
  }

  /** Inserting the pairs one after the other into an empty object. */
  function InsertAll<V>(ps: seq<(string, V)>): (r: seq<(string, V)>)
    ensures |r| <= |ps|
  {
    if ps == [] then [] else Insert(InsertAll(ps[..|ps| - 1]), ps[|ps| - 1].0, ps[|ps| - 1].1)
  }

  lemma {:induction false} LookupSpec<V>(members: seq<(string, V)>, key: string)
    ensures Lookup(members, key).None? <==> key !in Keys(members)
    ensures Distinct(Keys(members)) ==>
              forall i | 0 <= i < |members| && members[i].0 == key :: Lookup(members, key) == Some(members[i].1)
  {
    if members != [] {
      var rest := members[1..];
      assert Keys(members) == [members[0].0] + Keys(rest);
      LookupSpec(rest, key);
      if Distinct(Keys(members)) {
        DistinctTail(Keys(members));
        forall i | 0 <= i < |members| && members[i].0 == key ensures Lookup(members, key) == Some(members[i].1) {
          if i > 0 {
            assert Keys(members)[0] != Keys(members)[i];
            assert rest[i - 1] == members[i];
          }
        }
      }
    }
  }

  lemma {:induction false} KeysCons<V>(members: seq<(string, V)>)
    requires members != []
    ensures Keys(members) == [members[0].0] + Keys(members[1..])
  {
  }

  lemma {:induction false} KeysAppend<V>(front: seq<(string, V)>, last: (string, V))
    ensures Keys(front + [last]) == Keys(front) + [last.0]
  {
  }

  lemma {:induction false} InsertFresh<V>(members: seq<(string, V)>, key: string, v: V)
    requires key !in Keys(members)
    ensures Insert(members, key, v) == members + [(key, v)]
  {
    if members != [] {
      KeysCons(members);
      InsertFresh(members[1..], key, v);
    }
  }

  lemma {:induction false} InsertExisting<V>(members: seq<(string, V)>, key: string, v: V)
    requires key in Keys(members)
    ensures Keys(Insert(members, key, v)) == Keys(members)
  {
    KeysCons(members);
    KeysCons(Insert(members, key, v));
    if members[0].0 != key {
      InsertExisting(members[1..], key, v);
    }
  }

  lemma {:induction false} InsertKeys<V>(members: seq<(string, V)>, key: string, v: V)
    ensures Keys(Insert(members, key, v)) == if key in Keys(members) then Keys(members) else Keys(members) + [key]
  {
    if key in Keys(members) {
      InsertExisting(members, key, v);
    } else {
      InsertFresh(members, key, v);
      KeysAppend(members, (key, v));
    }
  }

  lemma {:induction false} DistinctAppend(front: seq<string>, k: string)
    ensures Distinct(front + [k]) <==> Distinct(front) && k !in front
  {
    var all := front + [k];
    if Distinct(all) {
      forall i, j | 0 <= i < j < |front| ensures front[i] != front[j] { assert all[i] != all[j]; }
      forall i | 0 <= i < |front| ensures front[i] != k { assert all[i] != all[|front|]; }
    }
  }

  /** Distinct keys all stay, in order; a repeated key shortens the object. */
  lemma {:induction false} InsertAllDistinct<V>(ps: seq<(string, V)>)
    ensures |InsertAll(ps)| == |ps| <==> Distinct(Keys(ps))
    ensures Distinct(Keys(ps)) ==> InsertAll(ps) == ps
    ensures forall k :: k in Keys(InsertAll(ps)) <==> k in Keys(ps)
  {
    if ps != [] {
      var n := |ps| - 1;
      var front, last := ps[..n], ps[n];
      assert ps == front + [last];
      InsertAllDistinct(front);
      KeysAppend(front, last);
      DistinctAppend(Keys(front), last.0);
      InsertKeys(InsertAll(front), last.0, last.1);
      if last.0 !in Keys(front) { InsertFresh(InsertAll(front), last.0, last.1); }
    }
  }

  // --- the cty encoding -------------------------------------------------------

  function Pairs<V>(ks: seq<string>, vs: seq<V>): (ps: seq<(string, V)>)
    requires |ks| == |vs|
    ensures |ps| == |ks| && Keys(ps) == ks
    ensures forall i | 0 <= i < |ps| :: ps[i] == (ks[i], vs[i])
  {
    seq(|ks|, i requires 0 <= i < |ks| => (ks[i], vs[i]))
  }

  function Optionals(attrs: seq<ObjectAttr>): seq<string> {
    if attrs == [] then []
    else Optionals(attrs[..|attrs| - 1])
         + if attrs[|attrs| - 1].optional then [attrs[|attrs| - 1].name] else []
  }

  function Strings(ss: seq<string>): (js: seq<Json>)
    ensures |js| == |ss| && forall i | 0 <= i < |ss| :: js[i] == JString(ss[i])
  {
    seq(|ss|, i requires 0 <= i < |ss| => JString(ss[i]))
  }

  function ObjectDocument(fields: seq<(string, Json)>, optionals: seq<string>): Json {
    if optionals == [] then JArray([JString("object"), JObject(fields)])
    else JArray([JString("object"), JObject(fields), JArray(Strings(optionals))])
  }

  lemma {:induction false} InsertStep<V>(ps: seq<(string, V)>, i: nat)
    requires i < |ps|
    ensures InsertAll(ps[..i + 1]) == Insert(InsertAll(ps[..i]), ps[i].0, ps[i].1)
  {
    assert ps[..i + 1][..i] == ps[..i];
  }

  lemma {:induction false} OptionalsStep(attrs: seq<ObjectAttr>, i: nat)
    requires i < |attrs|
    ensures Optionals(attrs[..i + 1]) == Optionals(attrs[..i]) + if attrs[i].optional then [attrs[i].name] else []
  {
    assert attrs[..i + 1][..i] == attrs[..i];
  }

  /** `Type::to_cty_json`. */
  function ToCty(ty: Type): Json {
    match ty
    case TBool => JString("bool")
    case TNumber => JString("number")
    case TString => JString("string")
    case TDynamic => JString("dynamic")
    case TList(e) => JArray([JString("list"), ToCty(e)])
    case TSet(e) => JArray([JString("set"), ToCty(e)])
    case TMap(e) => JArray([JString("map"), ToCty(e)])
    case TTuple(elems) =>
      JArray([JString("tuple"), JArray(seq(|elems|, i requires 0 <= i < |elems| => ToCty(elems[i])))])
    case TObject(attrs) =>
      var docs := seq(|attrs|, i requires 0 <= i < |attrs| => ToCty(attrs[i].ty));
      ObjectDocument(InsertAll(Pairs(Names(attrs), docs)), Optionals(attrs))
  }

  /** The object case as the source writes it: one pass filling the field object and
      the list of optional names. */
  method ObjectToCty(attrs: seq<ObjectAttr>) returns (json: Json)
    ensures json == ToCty(TObject(attrs))
  {
    var fields: seq<(string, Json)> := [];
    var optionals: seq<string> := [];
    ghost var docs := seq(|attrs|, i requires 0 <= i < |attrs| => ToCty(attrs[i].ty));
    ghost var ps := Pairs(Names(attrs), docs);
    for i := 0 to |attrs|
      invariant fields == InsertAll(ps[..i])
      invariant optionals == Optionals(attrs[..i])
    {
      InsertStep(ps, i);
      OptionalsStep(attrs, i);
      fields := Insert(fields, attrs[i].name, ToCty(attrs[i].ty));
      if attrs[i].optional {
        optionals := optionals + [attrs[i].name];
      }
    }
    assert ps[..|attrs|] == ps && attrs[..|attrs|] == attrs;
    json := ObjectDocument(fields, optionals);
  }

  datatype CtyError =
    | UnknownPrimitive
    | MissingKind
    | UnknownKind
    | MissingElement
    | MissingElements
    | MissingFields
    | NotAType

  /** The optional names of an object document; anything but strings is skipped. */
  function OptionalNames(items: seq<Json>): set<string> {
    if |items| > 2 && items[2].JArray? then
      set j | j in items[2].items && j.JString? :: j.s
    else {}
  }

  /** `Type::from_cty_json`. */
  function FromCty(json: Json): Result<Type, CtyError> {
    match json
    case JString(s) =>
      if s == "bool" then Ok(TBool)
      else if s == "number" then Ok(TNumber)
      else if s == "string" then Ok(TString)
      else if s == "dynamic" then Ok(TDynamic)
      else Err(UnknownPrimitive)
    case JArray(items) =>
      if items == [] || !items[0].JString? then Err(MissingKind)
      else if items[0].s in {"list", "set", "map"} then
        if |items| < 2 then Err(MissingElement)
        else
          var elem :- FromCty(items[1]);
          Ok(if items[0].s == "list" then TList(elem) else if items[0].s == "set" then TSet(elem) else TMap(elem))
      else if items[0].s == "tuple" then
        if |items| < 2 || !items[1].JArray? then Err(MissingElements)
        else
          var docs := items[1].items;
          var tys :- Collect(seq(|docs|, i requires 0 <= i < |docs| => FromCty(docs[i])));
          Ok(TTuple(tys))
      else if items[0].s == "object" then
        if |items| < 2 || !items[1].JObject? then Err(MissingFields)
        else
          var fields := items[1].members;
          var optional := OptionalNames(items);
          var tys :- Collect(seq(|fields|, i requires 0 <= i < |fields| => FromCty(fields[i].1)));
          Ok(TObject(AttrsOf(fields, tys, optional)))
      else Err(UnknownKind)
    case _ => Err(NotAType)
  }

  function AttrsOf(fields: seq<(string, Json)>, tys: seq<Type>, optional: set<string>): seq<ObjectAttr> {
    seq(if |tys| <= |fields| then |tys| else |fields|,
        i requires 0 <= i < |tys| && i < |fields| => ObjectAttr(fields[i].0, tys[i], fields[i].0 in optional))
  }

  lemma {:induction false} OptionalsSpec(attrs: seq<ObjectAttr>)
    ensures forall n ::
              n in Optionals(attrs) <==> exists i | 0 <= i < |attrs| :: attrs[i].name == n && attrs[i].optional
  {
    if attrs != [] {
      var n := |attrs| - 1;
      var front := attrs[..n];
      OptionalsSpec(front);
      forall k
        ensures k in Optionals(attrs) <==> exists i | 0 <= i < |attrs| :: attrs[i].name == k && attrs[i].optional
      {
        if i :| 0 <= i < |attrs| && attrs[i].name == k && attrs[i].optional {
          if i < n { assert front[i] == attrs[i]; }
        }
        if k in Optionals(front) {
          var i :| 0 <= i < |front| && front[i].name == k && front[i].optional;
          assert attrs[i] == front[i];
        }
      }
    }
  }

  lemma {:induction false} OptionalNamesOf(fields: seq<(string, Json)>, optionals: seq<string>)
    ensures var doc := ObjectDocument(fields, optionals);
            OptionalNames(doc.items) == set n | n in optionals
  {
    var doc := ObjectDocument(fields, optionals);
    if optionals != [] {
      forall n ensures n in OptionalNames(doc.items) <==> n in optionals {
        if n in optionals {
          var i :| 0 <= i < |optionals| && optionals[i] == n;
          assert doc.items[2].items[i] == JString(n);
        }
      }
    }
  }

  /** Decoding an encoded type gives the type back exactly when its object attribute
      names are distinct at every depth: a repeated name is overwritten. */
  lemma {:induction false} CtyRoundTrip(ty: Type)
    ensures FromCty(ToCty(ty)) == Ok(ty) <==> DistinctNames(ty)
  {
    match ty
    case TList(e) => CtyRoundTrip(e);
    case TSet(e) => CtyRoundTrip(e);
    case TMap(e) => CtyRoundTrip(e);
    case TTuple(elems) => TupleRoundTrip(elems);
    case TObject(attrs) => ObjectRoundTrip(attrs);
    case _ =>
  }

  lemma {:induction false} TupleRoundTrip(elems: seq<Type>)
    ensures FromCty(ToCty(TTuple(elems))) == Ok(TTuple(elems)) <==> DistinctNames(TTuple(elems))
    decreases elems
  {
    var docs := seq(|elems|, i requires 0 <= i < |elems| => ToCty(elems[i]));
    var back := seq(|docs|, i requires 0 <= i < |docs| => FromCty(docs[i]));
    forall i | 0 <= i < |elems| ensures back[i] == Ok(elems[i]) <==> DistinctNames(elems[i]) {
      CtyRoundTrip(elems[i]);
    }
    CollectSpec(back);
    assert ToCty(TTuple(elems)).items[1].items == docs;
    if Collect(back) == Ok(elems) {
      assert forall i | 0 <= i < |elems| :: back[i] == Ok(elems[i]);
    } else if forall i | 0 <= i < |elems| :: back[i] == Ok(elems[i]) {
      CollectOk(back, elems);
    }
  }

  lemma {:induction false} OptionalFlag(attrs: seq<ObjectAttr>, i: nat)
    requires Distinct(Names(attrs)) && i < |attrs|
    ensures attrs[i].name in Optionals(attrs) <==> attrs[i].optional
  {
    OptionalsSpec(attrs);
    if j :| 0 <= j < |attrs| && attrs[j].name == attrs[i].name && attrs[j].optional {
      assert Names(attrs)[j] == Names(attrs)[i];
    }
  }

  /** With distinct names every field document is kept and decodes to its attribute. */
  lemma {:induction false} AttrsOfDistinct(
    attrs: seq<ObjectAttr>, fields: seq<(string, Json)>, tys: seq<Type>, optional: set<string>)
    requires Distinct(Names(attrs)) && |fields| == |attrs| == |tys|
    requires forall i | 0 <= i < |attrs| :: fields[i].0 == attrs[i].name
    requires optional == set n | n in Optionals(attrs)
    ensures AttrsOf(fields, tys, optional) == attrs <==> forall i | 0 <= i < |attrs| :: tys[i] == attrs[i].ty
  {
    forall i | 0 <= i < |attrs| ensures fields[i].0 in optional <==> attrs[i].optional { OptionalFlag(attrs, i); }
    var out := AttrsOf(fields, tys, optional);
    assert forall i | 0 <= i < |attrs| :: out[i] == ObjectAttr(attrs[i].name, tys[i], attrs[i].optional);
  }

  /** Decoded attribute by attribute, a list with distinct names comes back exactly when
      each of its types does. */
  lemma {:induction false} TypesBack(
    attrs: seq<ObjectAttr>, fields: seq<(string, Json)>, back: seq<Result<Type, CtyError>>)
    requires Distinct(Names(attrs)) && |fields| == |attrs| == |back|
    requires forall i | 0 <= i < |attrs| :: fields[i].0 == attrs[i].name
    ensures (Collect(back).Ok? && AttrsOf(fields, Collect(back).value, set n | n in Optionals(attrs)) == attrs)
            <==> forall i | 0 <= i < |attrs| :: back[i] == Ok(attrs[i].ty)
  {
    CollectSpec(back);
    if Collect(back).Ok? {
      AttrsOfDistinct(attrs, fields, Collect(back).value, set n | n in Optionals(attrs));
    }
  }

  lemma {:induction false} ObjectDecoded(
    attrs: seq<ObjectAttr>, fields: seq<(string, Json)>, back: seq<Result<Type, CtyError>>)
    requires fields == InsertAll(Pairs(Names(attrs), seq(|attrs|, i requires 0 <= i < |attrs| => ToCty(attrs[i].ty))))
    requires back == seq(|fields|, i requires 0 <= i < |fields| => FromCty(fields[i].1))
    ensures FromCty(ToCty(TObject(attrs))) ==
            if Collect(back).Err? then Err(Collect(back).error)
            else Ok(TObject(AttrsOf(fields, Collect(back).value, set n | n in Optionals(attrs))))
  {
    OptionalNamesOf(fields, Optionals(attrs));
    assert ToCty(TObject(attrs)) == ObjectDocument(fields, Optionals(attrs));
  }

  lemma {:induction false} ObjectRoundTrip(attrs: seq<ObjectAttr>)
    ensures FromCty(ToCty(TObject(attrs))) == Ok(TObject(attrs)) <==> DistinctNames(TObject(attrs))
    decreases attrs
  {
    var docs := seq(|attrs|, i requires 0 <= i < |attrs| => ToCty(attrs[i].ty));
    var fields := InsertAll(Pairs(Names(attrs), docs));
    var back := seq(|fields|, i requires 0 <= i < |fields| => FromCty(fields[i].1));
    ObjectDecoded(attrs, fields, back);
    InsertAllDistinct(Pairs(Names(attrs), docs));
    CollectSpec(back);
    if Distinct(Names(attrs)) {
      forall i | 0 <= i < |attrs| ensures back[i] == Ok(attrs[i].ty) <==> DistinctNames(attrs[i].ty) {
        CtyRoundTrip(attrs[i].ty);
      }
      TypesBack(attrs, fields, back);
    } else if Collect(back).Ok? {
      assert |AttrsOf(fields, Collect(back).value, set n | n in Optionals(attrs))| < |attrs|;
    }
  }
}
