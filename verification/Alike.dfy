/** Types that differ only in attribute order and optional flags mean the same on the wire. */
module Alike {
  import opened Wrappers
  import opened Text
  import opened Types
  import opened Values
  import opened Encode
  import opened Decode
  import opened RoundTrip

  function Elems(ks: seq<string>): set<string> { set k | k in ks }

  function NameSet(attrs: seq<ObjectAttr>): set<string> { Elems(Names(attrs)) }

  /** The same type but for the order of attributes and which of them are optional. */
  predicate SameType(a: Type, b: Type) {
    match (a, b)
    case (TList(x), TList(y)) => SameType(x, y)
    case (TSet(x), TSet(y)) => SameType(x, y)
    case (TMap(x), TMap(y)) => SameType(x, y)
    case (TTuple(xs), TTuple(ys)) => |xs| == |ys| && forall i | 0 <= i < |xs| :: SameType(xs[i], ys[i])
    case (TObject(xs), TObject(ys)) =>
      && Distinct(Names(xs)) && Distinct(Names(ys)) && NameSet(xs) == NameSet(ys)
      && forall i | 0 <= i < |xs| && AttrIndex(ys, xs[i].name) < |ys| ::
          SameType(xs[i].ty, ys[AttrIndex(ys, xs[i].name)].ty)
    case (TObject(_), _) => false
    case (TList(_), _) => false
    case (TSet(_), _) => false
    case (TMap(_), _) => false
    case (TTuple(_), _) => false
    case _ => a == b
  }

  /** The attribute of the same name on the other side. */
  lemma {:induction false} Counterpart(xs: seq<ObjectAttr>, ys: seq<ObjectAttr>, x: ObjectAttr, y: ObjectAttr)
    requires SameType(TObject(xs), TObject(ys)) && x in xs && y in ys && x.name == y.name
    ensures SameType(x.ty, y.ty)
  {
    var i :| 0 <= i < |xs| && xs[i] == x;
    var j :| 0 <= j < |ys| && ys[j] == y;
    AttrIndexAt(ys, j);
  }

  // --- encoding ---------------------------------------------------------------

  lemma {:induction false} InsertedAscending(a: ObjectAttr, sorted: seq<ObjectAttr>)
    requires Ascending(Names(sorted)) && forall i | 0 <= i < |sorted| :: sorted[i].name != a.name
    ensures Ascending(Names(InsertByName(a, sorted)))
  {
    var r := InsertByName(a, sorted);
    if sorted == [] {
    } else if Less(sorted[0].name, a.name) {
      var rest := sorted[1..];
      assert forall i | 0 <= i < |rest| :: Names(rest)[i] == Names(sorted)[i + 1];
      InsertedAscending(a, rest);
      var tail := InsertByName(a, rest);
      forall i | 0 <= i < |tail| ensures Less(sorted[0].name, tail[i].name) {
        assert tail[i] in multiset(tail);
        if tail[i] != a {
          var k :| 0 <= k < |rest| && rest[k] == tail[i];
          assert Less(Names(sorted)[0], Names(sorted)[k + 1]);
        }
      }
      AscendingCons(sorted[0], tail);
    } else {
      forall i | 0 <= i < |sorted| ensures Less(a.name, sorted[i].name) {
        LessTotal(a.name, sorted[0].name);
        if i > 0 {
          assert Less(Names(sorted)[0], Names(sorted)[i]);
          LessTransitive(a.name, sorted[0].name, sorted[i].name);
        }
      }
      AscendingCons(a, sorted);
    }
  }

  lemma {:induction false} AscendingCons(a: ObjectAttr, rest: seq<ObjectAttr>)
    requires Ascending(Names(rest)) && forall i | 0 <= i < |rest| :: Less(a.name, rest[i].name)
    ensures Ascending(Names([a] + rest))
  {
    assert Names([a] + rest) == [a.name] + Names(rest);
  }

  lemma {:induction false} SortAscends(attrs: seq<ObjectAttr>)
    requires Distinct(Names(attrs))
    ensures Ascending(Names(SortByName(attrs)))
  {
    if attrs != [] {
      DistinctTail(Names(attrs));
      assert Names(attrs[1..]) == Names(attrs)[1..];
      SortAscends(attrs[1..]);
      var rest := SortByName(attrs[1..]);
      forall i | 0 <= i < |rest| ensures rest[i].name != attrs[0].name {
        SortedMember(attrs[1..], rest[i]);
        var j :| 0 <= j < |attrs[1..]| && attrs[1..][j] == rest[i];
        assert Names(attrs)[j + 1] == rest[i].name;
      }
      InsertedAscending(attrs[0], rest);
    }
  }

  lemma {:induction false} SortedNameSet(attrs: seq<ObjectAttr>, k: string)
    ensures k in Names(SortByName(attrs)) <==> k in NameSet(attrs)
  {
    var sorted := SortByName(attrs);
    if i :| 0 <= i < |sorted| && Names(sorted)[i] == k {
      SortedMember(attrs, sorted[i]);
      var j :| 0 <= j < |attrs| && attrs[j] == sorted[i];
      assert Names(attrs)[j] == k;
    }
    if j :| 0 <= j < |attrs| && Names(attrs)[j] == k {
      SortedMember(attrs, attrs[j]);
      var i :| 0 <= i < |sorted| && sorted[i] == attrs[j];
      assert Names(sorted)[i] == k;
    }
  }

  /** The same names are sent in the same order. */
  lemma {:induction false} SameNames(xs: seq<ObjectAttr>, ys: seq<ObjectAttr>)
    requires Distinct(Names(xs)) && Distinct(Names(ys)) && NameSet(xs) == NameSet(ys)
    ensures Names(SortByName(xs)) == Names(SortByName(ys)) && |xs| == |ys|
  {
    SortAscends(xs);
    SortAscends(ys);
    forall k ensures k in Names(SortByName(xs)) <==> k in Names(SortByName(ys)) {
      SortedNameSet(xs, k);
      SortedNameSet(ys, k);
    }
    AscendingUnique(Names(SortByName(xs)), Names(SortByName(ys)));
    assert |xs| == |SortByName(xs)| == |Names(SortByName(xs))|;
  }

  lemma {:induction false} SameEncodeEach(v: Value, a: Type, b: Type)
    requires IsSequence(v)
    requires forall i | 0 <= i < |v.items| :: ToMp(v.items[i], ElemType(a, i)) == ToMp(v.items[i], ElemType(b, i))
    ensures EncodeEach(v, a) == EncodeEach(v, b)
  {
    var rs := seq(|v.items|, i requires 0 <= i < |v.items| => ToMp(v.items[i], ElemType(a, i)));
    var qs := seq(|v.items|, i requires 0 <= i < |v.items| => ToMp(v.items[i], ElemType(b, i)));
    assert EncodeEach(v, a) == CollectAll(rs) && EncodeEach(v, b) == CollectAll(qs);
    assert rs == qs;
  }

  lemma {:induction false} SameEncodeEntries(v: Value, ks: seq<string>, a: Type, b: Type)
    requires v.Map? && forall i | 0 <= i < |ks| :: ks[i] in v.entries
    requires forall i | 0 <= i < |ks| :: ToMp(v.entries[ks[i]], a) == ToMp(v.entries[ks[i]], b)
    ensures EncodeEntries(v, ks, a) == EncodeEntries(v, ks, b)
  {
    var rs := seq(|ks|, i requires 0 <= i < |ks| => EntryToMp(v, ks[i], a));
    var qs := seq(|ks|, i requires 0 <= i < |ks| => EntryToMp(v, ks[i], b));
    assert EncodeEntries(v, ks, a) == CollectAll(rs) && EncodeEntries(v, ks, b) == CollectAll(qs);
    assert rs == qs;
  }

  lemma {:induction false} SameEncodeFields(v: Value, xs: seq<ObjectAttr>, ys: seq<ObjectAttr>)
    requires v.Object? && |xs| == |ys| && forall i | 0 <= i < |xs| :: FieldToMp(v, xs[i]) == FieldToMp(v, ys[i])
    ensures EncodeFields(v, xs) == EncodeFields(v, ys)
  {
    var rs := seq(|xs|, i requires 0 <= i < |xs| => FieldToMp(v, xs[i]));
    var qs := seq(|ys|, i requires 0 <= i < |ys| => FieldToMp(v, ys[i]));
    assert EncodeFields(v, xs) == CollectAll(rs) && EncodeFields(v, ys) == CollectAll(qs);
    assert rs == qs;
  }

  /** Attribute order and optional flags never reach the wire: values encode alike,
      errors included. */
  lemma {:induction false} SameTypeEncodes(v: Value, a: Type, b: Type)
    requires SameType(a, b)
    ensures ToMp(v, a) == ToMp(v, b)
    decreases v, 1
  {
    if !v.Null? && !v.Unknown? {
      match a
      case TList(_) => if v.List? { SameSequence(v, a, b); }
      case TSet(_) => if v.Set? { SameSequence(v, a, b); }
      case TTuple(es) => if v.Tuple? && |v.items| == |es| { SameSequence(v, a, b); }
      case TMap(e) => if v.Map? { SameMap(v, e, b.elem); }
      case TObject(xs) => if v.Object? { SameObject(v, xs, b.attrs); }
      case _ =>
    }
  }

  lemma {:induction false} SameSequence(v: Value, a: Type, b: Type)
    requires IsSequence(v) && SameType(a, b) && (a.TList? || a.TSet? || (a.TTuple? && |a.elems| == |v.items|))
    ensures EncodeEach(v, a) == EncodeEach(v, b)
    decreases v, 0
  {
    forall i | 0 <= i < |v.items| ensures ToMp(v.items[i], ElemType(a, i)) == ToMp(v.items[i], ElemType(b, i)) {
      SameTypeEncodes(v.items[i], ElemType(a, i), ElemType(b, i));
    }
    SameEncodeEach(v, a, b);
  }

  lemma {:induction false} SameMap(v: Value, a: Type, b: Type)
    requires v.Map? && SameType(a, b)
    ensures ToMp(v, TMap(a)) == ToMp(v, TMap(b))
    decreases v, 0
  {
    forall k | k in v.entries { SameTypeEncodes(v.entries[k], a, b); }
    SameEncodeEntries(v, Sorted(v.entries.Keys), a, b);
  }

  lemma {:induction false} SameObject(v: Value, xs: seq<ObjectAttr>, ys: seq<ObjectAttr>)
    requires v.Object? && SameType(TObject(xs), TObject(ys))
    ensures ToMp(v, TObject(xs)) == ToMp(v, TObject(ys))
    decreases v, 0
  {
    var sx, sy := SortByName(xs), SortByName(ys);
    SameNames(xs, ys);
    forall i | 0 <= i < |sx| ensures FieldToMp(v, sx[i]) == FieldToMp(v, sy[i]) {
      SortedMember(xs, sx[i]);
      SortedMember(ys, sy[i]);
      assert sx[i].name == Names(sx)[i] == Names(sy)[i] == sy[i].name;
      Counterpart(xs, ys, sx[i], sy[i]);
      if sx[i].name in v.fields { SameTypeEncodes(v.fields[sx[i].name], sx[i].ty, sy[i].ty); }
    }
    SameEncodeFields(v, sx, sy);
  }

  // --- decoding ---------------------------------------------------------------

  /** Two outcomes that agree on success and on the value. */
  predicate SameValue(r: Decoded, q: Decoded) { (r.Ok? <==> q.Ok?) && (r.Ok? ==> r == q) }

  /** Decoding gives the same value; only which error comes first may differ. */
  lemma {:induction false} SameTypeDecodes(host: Parsers, mp: Mp, a: Type, b: Type)
    requires SameType(a, b)
    ensures SameValue(FromMp(host, mp, a), FromMp(host, mp, b))
    decreases mp, 1
  {
    if !mp.MNil? && !mp.MExt? {
      match a
      case TList(_) => if mp.MArray? { SameArray(host, mp, a, b); }
      case TSet(_) => if mp.MArray? { SameArray(host, mp, a, b); }
      case TTuple(es) => if mp.MArray? && |mp.items| == |es| { SameArray(host, mp, a, b); }
      case TMap(e) => if mp.MMap? { SamePairs(host, mp, e, b.elem); }
      case TObject(xs) => if mp.MMap? { SameFields(host, mp, xs, b.attrs); }
      case _ =>
    }
  }

  lemma {:induction false} SameArray(host: Parsers, mp: Mp, a: Type, b: Type)
    requires mp.MArray? && SameType(a, b) && (a.TList? || a.TSet? || (a.TTuple? && |a.elems| == |mp.items|))
    ensures var r, q := DecodeEach(host, mp, a), DecodeEach(host, mp, b); (r.Ok? <==> q.Ok?) && (r.Ok? ==> r == q)
    decreases mp, 0
  {
    DecodeEachSpec(host, mp, a);
    DecodeEachSpec(host, mp, b);
    forall i | 0 <= i < |mp.items|
      ensures SameValue(FromMp(host, mp.items[i], ElemType(a, i)), FromMp(host, mp.items[i], ElemType(b, i)))
    {
      SameTypeDecodes(host, mp.items[i], ElemType(a, i), ElemType(b, i));
    }
    var r, q := DecodeEach(host, mp, a), DecodeEach(host, mp, b);
    if r.Ok? { assert r.value == q.value; }
  }

  /** Element-wise agreement carries over to the collected results. */
  lemma {:induction false} SameCollected(rs: seq<Decoded>, qs: seq<Decoded>)
    requires |rs| == |qs| && forall i | 0 <= i < |rs| :: SameValue(rs[i], qs[i])
    ensures CollectAll(rs).Ok? <==> CollectAll(qs).Ok?
    ensures CollectAll(rs).Ok? ==> CollectAll(rs).value == CollectAll(qs).value
  {
    CollectSpec(rs);
    CollectSpec(qs);
    if CollectAll(rs).Ok? {
      assert forall i | 0 <= i < |rs| :: CollectAll(rs).value[i] == CollectAll(qs).value[i];
    }
  }

  lemma {:induction false} SamePairs(host: Parsers, mp: Mp, a: Type, b: Type)
    requires mp.MMap? && SameType(a, b)
    ensures SameValue(MapFromMp(host, mp, a), MapFromMp(host, mp, b))
    decreases mp, 0
  {
    var rs, qs := PairResults(host, mp, a), PairResults(host, mp, b);
    PairResultsSpec(host, mp, a);
    PairResultsSpec(host, mp, b);
    forall i | 0 <= i < |rs| ensures SameValue(rs[i], qs[i]) {
      if mp.pairs[i].0.MStr? { SameTypeDecodes(host, mp.pairs[i].1, a, b); }
    }
    SameCollected(rs, qs);
  }

  lemma {:induction false} SameField(host: Parsers, mp: Mp, x: ObjectAttr, y: ObjectAttr)
    requires mp.MMap? && x.name == y.name && SameType(x.ty, y.ty)
    ensures SameValue(FieldFromMp(host, mp, x), FieldFromMp(host, mp, y))
    decreases mp, 0, 0
  {
    var i := KeyIndex(mp.pairs, x.name);
    if i < |mp.pairs| { SameTypeDecodes(host, mp.pairs[i].1, x.ty, y.ty); }
  }

  lemma {:induction false} SameFields(host: Parsers, mp: Mp, xs: seq<ObjectAttr>, ys: seq<ObjectAttr>)
    requires mp.MMap? && SameType(TObject(xs), TObject(ys))
    ensures SameValue(ObjectFromMp(host, mp, xs), ObjectFromMp(host, mp, ys))
    decreases mp, 0, 1
  {
    var rs, qs := FieldResults(host, mp, xs), FieldResults(host, mp, ys);
    FieldResultsSpec(host, mp, xs);
    FieldResultsSpec(host, mp, ys);
    forall i, j | 0 <= i < |xs| && 0 <= j < |ys| && xs[i].name == ys[j].name ensures SameValue(rs[i], qs[j]) {
      Counterpart(xs, ys, xs[i], ys[j]);
      SameField(host, mp, xs[i], ys[j]);
    }
    SameByName(Names(xs), rs, Names(ys), qs);
  }

  /** Results listed in two orders of the same distinct names build the same map. */
  lemma {:induction false} SameByName(ks: seq<string>, rs: seq<Decoded>, ls: seq<string>, qs: seq<Decoded>)
    requires |ks| == |rs| && |ls| == |qs| && Distinct(ks) && Distinct(ls)
    requires Elems(ks) == Elems(ls)
    requires forall i, j | 0 <= i < |ks| && 0 <= j < |ls| && ks[i] == ls[j] :: SameValue(rs[i], qs[j])
    ensures CollectAll(rs).Ok? <==> CollectAll(qs).Ok?
    ensures CollectAll(rs).Ok? ==> BuildMap(ks, CollectAll(rs).value) == BuildMap(ls, CollectAll(qs).value)
  {
    CollectSpec(rs);
    CollectSpec(qs);
    forall i | 0 <= i < |ks| ensures exists j :: 0 <= j < |ls| && ls[j] == ks[i] { assert ks[i] in Elems(ls); }
    forall j | 0 <= j < |ls| ensures exists i :: 0 <= i < |ks| && ks[i] == ls[j] { assert ls[j] in Elems(ks); }
    if CollectAll(rs).Ok? && CollectAll(qs).Ok? {
      SameBuilt(ks, CollectAll(rs).value, ls, CollectAll(qs).value);
    }
  }

  lemma {:induction false} SameBuilt(ks: seq<string>, vs: seq<Value>, ls: seq<string>, ws: seq<Value>)
    requires |ks| == |vs| && |ls| == |ws| && Distinct(ks) && Distinct(ls)
    requires Elems(ks) == Elems(ls)
    requires forall i, j | 0 <= i < |ks| && 0 <= j < |ls| && ks[i] == ls[j] :: vs[i] == ws[j]
    ensures BuildMap(ks, vs) == BuildMap(ls, ws)
  {
    forall k ensures k in BuildMap(ks, vs) <==> k in BuildMap(ls, ws) {
      assert k in Elems(ks) <==> k in Elems(ls);
    }
    forall k | k in BuildMap(ks, vs) ensures BuildMap(ks, vs)[k] == BuildMap(ls, ws)[k] {
      var i :| 0 <= i < |ks| && ks[i] == k;
      assert k in Elems(ls);
      var j :| 0 <= j < |ls| && ls[j] == k;
      BuildMapAt(ks, vs, i);
      BuildMapAt(ls, ws, j);
    }
  }

  /** What conforms to one conforms to the other. */
  lemma {:induction false} SameTypeConforms(v: Value, a: Type, b: Type)
    requires SameType(a, b)
    ensures Conforms(v, a) <==> Conforms(v, b)
  {
    SameTypeEncodes(v, a, b);
    EncodesIffConforms(v, a);
    EncodesIffConforms(v, b);
  }
}
