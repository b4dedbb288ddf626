/** The typed layer: Rust values of a reflected shape to value trees and back. */
module Typed {
  import opened Wrappers
  import opened Doubles
  import opened Numbers
  import opened Text
  import opened Values
  import opened Decode

  /** What reflection sees of a Rust type: scalars by width, the two nullable wrappers,
      the collections and structs. Maps are keyed by strings. */
  datatype Shape =
    | SBool
    | SString
    | SInt(signed: bool, width: Width)
    | SF64
    | SF32
    | SOption(inner: Shape)
    | STfValue(inner: Shape)
    | SList(elem: Shape)
    | SSet(elem: Shape)
    | SMap(elem: Shape)
    | SStruct(fields: seq<Field>)

  /** The `terraform::` attributes of a field. */
  datatype Marks = Marks(
    block: bool, optional: bool, computed: bool, forceNew: bool, writeOnly: bool,
    dflt: Option<string>, search: Option<SearchKey>)

  /** The payload of `search_key(..)`. */
  datatype SearchKey = SearchKey(exclusive: bool, shared: bool)

  datatype Field = Field(name: string, rename: Option<string>, shape: Shape, marks: Marks) {
    function Key(): string { if rename.Some? then rename.value else name }
  }

  function FieldKeys(fields: seq<Field>): (ks: seq<string>)
    ensures |ks| == |fields| && forall i | 0 <= i < |fields| :: ks[i] == fields[i].Key()
  {
    seq(|fields|, i requires 0 <= i < |fields| => fields[i].Key())
  }

  /** A Rust value. A hash set lists its elements in the order it iterates them. */
  datatype Rust =
    | RBool(b: bool)
    | RString(s: string)
    | RInt(n: int)
    | RF64(double: F64)
    | RF32(single: F32)
    | RNone
    | RSome(inner: Rust)
    | RKnown(inner: Rust)
    | RTfUnknown
    | RTfNull
    | RList(items: seq<Rust>)
    | RSet(items: seq<Rust>)
    | RMap(entries: map<string, Rust>)
    | RStruct(values: seq<Rust>)

  /** Rust's `==`: floats by IEEE equality, sets without regard to order. */
  predicate RustEq(a: Rust, b: Rust)
    decreases a, 2
  {
    match (a, b)
    case (RBool(x), RBool(y)) => x == y
    case (RString(x), RString(y)) => x == y
    case (RInt(x), RInt(y)) => x == y
    case (RF64(x), RF64(y)) => FloatEq(x, y)
    case (RF32(x), RF32(y)) => FloatEq(x, y)
    case (RNone, RNone) => true
    case (RTfUnknown, RTfUnknown) => true
    case (RTfNull, RTfNull) => true
    case (RSome(x), RSome(y)) => RustEq(x, y)
    case (RKnown(x), RKnown(y)) => RustEq(x, y)
    case (RList(xs), RList(ys)) => |xs| == |ys| && forall i | 0 <= i < |xs| :: RustEq(xs[i], ys[i])
    case (RStruct(xs), RStruct(ys)) => |xs| == |ys| && forall i | 0 <= i < |xs| :: RustEq(xs[i], ys[i])
    case (RMap(xs), RMap(ys)) => xs.Keys == ys.Keys && forall k | k in xs :: RustEq(xs[k], ys[k])
    case (RSet(_), RSet(_)) => SameMembers(a, b)
    case _ => false
  }

  predicate SameMembers(a: Rust, b: Rust)
    requires a.RSet? && b.RSet?
    decreases a, 1
  {
    && |a.items| == |b.items|
    && (forall i | 0 <= i < |a.items| :: Among(a.items[i], b.items))
    && (forall j | 0 <= j < |b.items| :: Holds(a, b.items[j]))
  }

  predicate Among(x: Rust, ys: seq<Rust>)
    decreases x, 3
  {
    exists j | 0 <= j < |ys| :: RustEq(x, ys[j])
  }

  predicate Holds(a: Rust, y: Rust)
    requires a.RSet?
    decreases a, 0
  {
    exists i | 0 <= i < |a.items| :: RustEq(a.items[i], y)
  }

  /** The values of a Rust type; the elements of a set are pairwise different. */
  predicate WellTyped(x: Rust, shape: Shape)
    decreases shape
  {
    match shape
    case SBool => x.RBool?
    case SString => x.RString?
    case SInt(signed, width) => x.RInt? && InRange(x.n, signed, width)
    case SF64 => x.RF64?
    case SF32 => x.RF32?
    case SOption(s) => x.RNone? || (x.RSome? && WellTyped(x.inner, s))
    case STfValue(s) => x.RTfNull? || x.RTfUnknown? || (x.RKnown? && WellTyped(x.inner, s))
    case SList(e) => x.RList? && forall i | 0 <= i < |x.items| :: WellTyped(x.items[i], e)
    case SSet(e) =>
      && x.RSet? && (forall i | 0 <= i < |x.items| :: WellTyped(x.items[i], e))
      && forall i, j | 0 <= i < |x.items| && 0 <= j < |x.items| && i != j :: !RustEq(x.items[i], x.items[j])
    case SMap(e) => x.RMap? && forall k | k in x.entries :: WellTyped(x.entries[k], e)
    case SStruct(fs) =>
      x.RStruct? && |x.values| == |fs| && forall i | 0 <= i < |fs| :: WellTyped(x.values[i], fs[i].shape)
  }

  // --- Rust value to value tree -----------------------------------------------

  function FieldValues(x: Rust, fs: seq<Field>): (vs: seq<Value>)
    requires WellTyped(x, SStruct(fs))
    ensures |vs| == |fs|
    decreases x, 0
  {
    seq(|fs|, i requires 0 <= i < |fs| => ToValue(x.values[i], fs[i].shape))
  }

  /** `to_value`. */
  function ToValue(x: Rust, shape: Shape): Value
    requires WellTyped(x, shape)
    decreases x, 1
  {
    match shape
    case SBool => Bool(x.b)
    case SString => Str(x.s)
    case SInt(signed, width) => Num(FromInt(x.n, signed, width))
    case SF64 => Num(F64(x.double))
    case SF32 => Num(F64(Widen(x.single)))
    case SOption(s) => if x.RSome? then ToValue(x.inner, s) else Null
    case STfValue(s) => if x.RKnown? then ToValue(x.inner, s) else if x.RTfUnknown? then Unknown else Null
    case SList(e) => List(seq(|x.items|, i requires 0 <= i < |x.items| => ToValue(x.items[i], e)))
    case SSet(e) => Set(seq(|x.items|, i requires 0 <= i < |x.items| => ToValue(x.items[i], e)))
    case SMap(e) => Map(map k | k in x.entries :: ToValue(x.entries[k], e))
    case SStruct(fs) => Object(BuildMap(FieldKeys(fs), FieldValues(x, fs)))
  }

  /** The map case of `peek_to_value`: insert every entry, in any order. */
  method PeekMap(x: Rust, e: Shape) returns (v: Value)
    requires WellTyped(x, SMap(e))
    ensures v == ToValue(x, SMap(e))
  {
    ghost var all := ToValue(x, SMap(e)).entries;
    var entries: map<string, Value> := map[];
    var todo := x.entries.Keys;
    while todo != {}
      invariant todo <= x.entries.Keys && entries.Keys == x.entries.Keys - todo
      invariant forall k | k in entries :: entries[k] == all[k]
    {
      var k :| k in todo;
      entries := entries[k := ToValue(x.entries[k], e)];
      todo := todo - {k};
    }
    assert entries == all;
    v := Map(entries);
  }

  /** The struct case: insert every field under its key, a later one overwriting. */
  method PeekStruct(x: Rust, fs: seq<Field>) returns (v: Value)
    requires WellTyped(x, SStruct(fs))
    ensures v == ToValue(x, SStruct(fs))
  {
    var fields: map<string, Value> := map[];
    ghost var ks, vs := FieldKeys(fs), FieldValues(x, fs);
    for i := 0 to |fs|
      invariant fields == BuildMap(ks[..i], vs[..i])
    {
      assert vs[..i + 1] == vs[..i] + [vs[i]];
      BuildMapAppend(ks, vs[..i], i, vs[i]);
      fields := fields[fs[i].Key() := ToValue(x.values[i], fs[i].shape)];
    }
    assert ks[..|ks|] == ks && vs[..|vs|] == vs;
    v := Object(fields);
  }

  // --- value tree to Rust value -----------------------------------------------

  /** The elements of any sequence, none of anything else. */
  function Sequence(v: Value): seq<Value> { if v.List? || v.Set? || v.Tuple? then v.items else [] }

  /** The entries of a map or an object. */
  function Mapping(v: Value): Option<map<string, Value>> {
    match v
    case Map(m) => Some(m)
    case Object(m) => Some(m)
    case _ => None
  }

  /** A struct field's value; an absent one is null. */
  function FieldOf(v: Value, key: string): Value {
    match Mapping(v)
    case Some(m) => if key in m then m[key] else Null
    case None => Null
  }

  function AsNumber(v: Value): Number { if v.Num? then v.n else I64(0) }

  predicate Member(x: Rust, items: seq<Rust>) { exists i | 0 <= i < |items| :: RustEq(items[i], x) }

  /** Inserting the elements one after the other; an equal one is already there. */
  function Inserted(xs: seq<Rust>): (items: seq<Rust>)
    ensures |items| <= |xs|
  {
    if xs == [] then []
    else
      var before := Inserted(xs[..|xs| - 1]);
      if Member(xs[|xs| - 1], before) then before else before + [xs[|xs| - 1]]
  }

  lemma {:induction false} InsertedMore(xs: seq<Rust>, i: nat)
    requires i < |xs|
    ensures var before := Inserted(xs[..i]);
            Inserted(xs[..i + 1]) == if Member(xs[i], before) then before else before + [xs[i]]
  {
    assert xs[..i + 1][..i] == xs[..i];
  }

  /** `from_value`. Null and unknown are the wrappers' absent cases and every other
      type's zero value; a value of the wrong kind reads as zero too. */
  function FromValue(v: Value, shape: Shape): Rust
    decreases shape
  {
    match shape
    case SBool => RBool(v == Bool(true))
    case SString => RString(if v.Str? then v.s else "")
    case SInt(signed, width) => RInt(ToInt(AsNumber(v), signed, width))
    case SF64 => RF64(AsNumber(v).ToF64())
    case SF32 => RF32(Narrow(AsNumber(v).ToF64()))
    case SOption(s) => if v.Null? || v.Unknown? then RNone else RSome(FromValue(v, s))
    case STfValue(s) => if v.Unknown? then RTfUnknown else if v.Null? then RTfNull else RKnown(FromValue(v, s))
    case SList(e) => RList(seq(|Sequence(v)|, i requires 0 <= i < |Sequence(v)| => FromValue(Sequence(v)[i], e)))
    case SSet(e) =>
      RSet(Inserted(seq(|Sequence(v)|, i requires 0 <= i < |Sequence(v)| => FromValue(Sequence(v)[i], e))))
    case SMap(e) =>
      if Mapping(v).Some? then RMap(map k | k in Mapping(v).value :: FromValue(Mapping(v).value[k], e)) else RMap(map[])
    case SStruct(fs) => RStruct(seq(|fs|, i requires 0 <= i < |fs| => FromValue(FieldOf(v, fs[i].Key()), fs[i].shape)))
  }

  /** `fill`: drives the builder by the shape; collections and structs fill in loops. */
  method Fill(v: Value, shape: Shape) returns (x: Rust)
    ensures x == FromValue(v, shape)
    decreases shape, 1
  {
    match shape
    case SOption(s) =>
      if v.Null? || v.Unknown? { return RNone; }
      var inner := Fill(v, s);
      x := RSome(inner);
    case STfValue(s) =>
      if v.Unknown? { return RTfUnknown; }
      if v.Null? { return RTfNull; }
      var inner := Fill(v, s);
      x := RKnown(inner);
    case SList(_) => x := FillList(v, shape);
    case SSet(_) => x := FillSet(v, shape);
    case SMap(_) => x := FillMap(v, shape);
    case SStruct(_) => x := FillStruct(v, shape);
    case SBool => x := RBool(v == Bool(true));
    case SString => x := RString(if v.Str? then v.s else "");
    case SInt(signed, width) => x := RInt(ToInt(AsNumber(v), signed, width));
    case SF64 => x := RF64(AsNumber(v).ToF64());
    case SF32 => x := RF32(Narrow(AsNumber(v).ToF64()));
  }

  method FillList(v: Value, shape: Shape) returns (x: Rust)
    requires shape.SList?
    ensures x == FromValue(v, shape)
    decreases shape, 0
  {
    var items: seq<Rust> := [];
    for i := 0 to |Sequence(v)|
      invariant |items| == i && forall j | 0 <= j < i :: items[j] == FromValue(Sequence(v)[j], shape.elem)
    {
      var item := Fill(Sequence(v)[i], shape.elem);
      items := items + [item];
    }
    x := RList(items);
    assert items == FromValue(v, shape).items;
  }

  method FillSet(v: Value, shape: Shape) returns (x: Rust)
    requires shape.SSet?
    ensures x == FromValue(v, shape)
    decreases shape, 0
  {
    ghost var all := seq(|Sequence(v)|, i requires 0 <= i < |Sequence(v)| => FromValue(Sequence(v)[i], shape.elem));
    var items: seq<Rust> := [];
    for i := 0 to |Sequence(v)|
      invariant items == Inserted(all[..i])
    {
      var item := Fill(Sequence(v)[i], shape.elem);
      InsertedMore(all, i);
      if !Member(item, items) { items := items + [item]; }
    }
    assert all[..|all|] == all;
    x := RSet(items);
  }

  method FillMap(v: Value, shape: Shape) returns (x: Rust)
    requires shape.SMap?
    ensures x == FromValue(v, shape)
    decreases shape, 0
  {
    var entries: map<string, Rust> := map[];
    if Mapping(v).Some? {
      var source := Mapping(v).value;
      var todo := source.Keys;
      while todo != {}
        invariant todo <= source.Keys && entries.Keys == source.Keys - todo
        invariant forall k | k in entries :: entries[k] == FromValue(source[k], shape.elem)
      {
        var k :| k in todo;
        var value := Fill(source[k], shape.elem);
        entries := entries[k := value];
        todo := todo - {k};
      }
    }
    x := RMap(entries);
    assert entries == FromValue(v, shape).entries;
  }

  method FillStruct(v: Value, shape: Shape) returns (x: Rust)
    requires shape.SStruct?
    ensures x == FromValue(v, shape)
    decreases shape, 0
  {
    var values: seq<Rust> := [];
    for i := 0 to |shape.fields|
      invariant |values| == i
      invariant forall j | 0 <= j < i ::
                  values[j] == FromValue(FieldOf(v, shape.fields[j].Key()), shape.fields[j].shape)
    {
      var value := Fill(FieldOf(v, shape.fields[i].Key()), shape.fields[i].shape);
      values := values + [value];
    }
    x := RStruct(values);
    assert values == FromValue(v, shape).values;
  }
}
