/** The dynamic value tree, its equality and its inferred type. */
module Values {
  import opened Wrappers
  import opened Numbers
  import opened Text
  import opened Types

  datatype Value =
    | Null
    | Unknown
    | Bool(b: bool)
    | Num(n: Number)
    | Str(s: string)
    | List(items: seq<Value>)
    | Set(items: seq<Value>)
    | Map(entries: map<string, Value>)
    | Object(fields: map<string, Value>)
    | Tuple(items: seq<Value>)

  /** The derived `PartialEq`: structural, with numbers compared by value. */
  predicate ValueEq(a: Value, b: Value) {
    match (a, b)
    case (Null, Null) => true
    case (Unknown, Unknown) => true
    case (Bool(x), Bool(y)) => x == y
    case (Num(x), Num(y)) => NumberEq(x, y)
    case (Str(x), Str(y)) => x == y
    case (List(xs), List(ys)) => |xs| == |ys| && forall i | 0 <= i < |xs| :: ValueEq(xs[i], ys[i])
    case (Set(xs), Set(ys)) => |xs| == |ys| && forall i | 0 <= i < |xs| :: ValueEq(xs[i], ys[i])
    case (Tuple(xs), Tuple(ys)) => |xs| == |ys| && forall i | 0 <= i < |xs| :: ValueEq(xs[i], ys[i])
    case (Map(xs), Map(ys)) => xs.Keys == ys.Keys && forall k | k in xs :: ValueEq(xs[k], ys[k])
    case (Object(xs), Object(ys)) => xs.Keys == ys.Keys && forall k | k in xs :: ValueEq(xs[k], ys[k])
    case _ => false
  }

  /** Every number in the tree satisfies `p`. */
  predicate AllNumbers(v: Value, p: Number -> bool) {
    match v
    case Num(n) => p(n)
    case List(xs) => forall i | 0 <= i < |xs| :: AllNumbers(xs[i], p)
    case Set(xs) => forall i | 0 <= i < |xs| :: AllNumbers(xs[i], p)
    case Tuple(xs) => forall i | 0 <= i < |xs| :: AllNumbers(xs[i], p)
    case Map(m) => forall k | k in m :: AllNumbers(m[k], p)
    case Object(m) => forall k | k in m :: AllNumbers(m[k], p)
    case _ => true
  }

  const NOT_NAN: Number -> bool := (n: Number) => !n.IsNaN()

  /** A value equals itself exactly when it holds no NaN. */
  lemma {:induction false} EqReflexive(v: Value)
    ensures ValueEq(v, v) <==> AllNumbers(v, NOT_NAN)
  {
    match v
    case Num(n) => if n.IsNaN() { NaNEqualsNothing(n, n); } else { EqIsMathEquality(n, n); }
    case List(xs) => forall i | 0 <= i < |xs| { EqReflexive(xs[i]); }
    case Set(xs) => forall i | 0 <= i < |xs| { EqReflexive(xs[i]); }
    case Tuple(xs) => forall i | 0 <= i < |xs| { EqReflexive(xs[i]); }
    case Map(m) => forall k | k in m { EqReflexive(m[k]); }
    case Object(m) => forall k | k in m { EqReflexive(m[k]); }
    case _ =>
  }

  lemma {:induction false} NumberEqTransitive(a: Number, b: Number, c: Number)
    ensures NumberEq(a, b) ==> NumberEq(b, a)
    ensures NumberEq(a, b) && NumberEq(b, c) ==> NumberEq(a, c)
  {
    if a.IsNaN() || b.IsNaN() {
      NaNEqualsNothing(a, b);
    } else {
      EqIsMathEquality(a, b);
      EqIsMathEquality(b, a);
      if c.IsNaN() {
        NaNEqualsNothing(b, c);
      } else {
        EqIsMathEquality(b, c);
        EqIsMathEquality(a, c);
      }
    }
  }

  /** Equality is symmetric and transitive on all values, so with the law above it is
      an equivalence on the values that hold no NaN. */
  lemma {:induction false} EqSymmetricTransitive(a: Value, b: Value, c: Value)
    ensures ValueEq(a, b) ==> ValueEq(b, a)
    ensures ValueEq(a, b) && ValueEq(b, c) ==> ValueEq(a, c)
    decreases a, 1
  {
    if ValueEq(a, b) {
      match a
      case Num(n) => NumberEqTransitive(n, b.n, if c.Num? then c.n else n);
      case List(xs) => EachTransitive(a, xs, b.items, if c.List? then c.items else xs);
      case Set(xs) => EachTransitive(a, xs, b.items, if c.Set? then c.items else xs);
      case Tuple(xs) => EachTransitive(a, xs, b.items, if c.Tuple? then c.items else xs);
      case Map(m) => EntriesTransitive(a, m, b.entries, if c.Map? then c.entries else m);
      case Object(m) => EntriesTransitive(a, m, b.fields, if c.Object? then c.fields else m);
      case _ =>
    }
  }

  lemma {:induction false} EachTransitive(context: Value, xs: seq<Value>, ys: seq<Value>, zs: seq<Value>)
    requires forall i | 0 <= i < |xs| :: xs[i] < context
    requires |xs| == |ys| && forall i | 0 <= i < |xs| :: ValueEq(xs[i], ys[i])
    ensures forall i | 0 <= i < |xs| :: ValueEq(ys[i], xs[i])
    ensures |ys| == |zs| && (forall i | 0 <= i < |ys| :: ValueEq(ys[i], zs[i])) ==>
              forall i | 0 <= i < |xs| :: ValueEq(xs[i], zs[i])
    decreases context, 0
  {
    forall i | 0 <= i < |xs|
      ensures ValueEq(ys[i], xs[i])
      ensures i < |zs| && ValueEq(ys[i], zs[i]) ==> ValueEq(xs[i], zs[i])
    {
      EqSymmetricTransitive(xs[i], ys[i], if i < |zs| then zs[i] else xs[i]);
    }
  }

  lemma {:induction false} EntriesTransitive(
    context: Value, m: map<string, Value>, n: map<string, Value>, o: map<string, Value>)
    requires forall k | k in m :: m[k] < context
    requires m.Keys == n.Keys && forall k | k in m :: ValueEq(m[k], n[k])
    ensures forall k | k in n :: ValueEq(n[k], m[k])
    ensures n.Keys == o.Keys && (forall k | k in n :: ValueEq(n[k], o[k])) ==> forall k | k in m :: ValueEq(m[k], o[k])
    decreases context, 0
  {
    forall k | k in m
      ensures ValueEq(n[k], m[k])
      ensures k in o && ValueEq(n[k], o[k]) ==> ValueEq(m[k], o[k])
    {
      EqSymmetricTransitive(m[k], n[k], if k in o then o[k] else m[k]);
    }
  }

  /** `Value::infer_type`: containers look at their first element, in key order for maps. */
  function InferType(v: Value): Type {
    match v
    case Null => TDynamic
    case Unknown => TDynamic
    case Bool(_) => TBool
    case Num(_) => TNumber
    case Str(_) => TString
    case List(xs) => TList(if xs == [] then TDynamic else InferType(xs[0]))
    case Set(xs) => TSet(if xs == [] then TDynamic else InferType(xs[0]))
    case Map(m) => TMap(if m == map[] then TDynamic else InferType(m[Least(m.Keys)]))
    case Tuple(xs) => TTuple(seq(|xs|, i requires 0 <= i < |xs| => InferType(xs[i])))
    case Object(m) =>
      var ks := Sorted(m.Keys);
      TObject(seq(|ks|, i requires 0 <= i < |ks| => ObjectAttr(ks[i], InferType(m[ks[i]]), false)))
  }

  lemma {:induction false} InferredNamesDistinct(v: Value)
    ensures DistinctNames(InferType(v))
  {
    match v
    case List(xs) => if xs != [] { InferredNamesDistinct(xs[0]); }
    case Set(xs) => if xs != [] { InferredNamesDistinct(xs[0]); }
    case Map(m) => if m != map[] { InferredNamesDistinct(m[Least(m.Keys)]); }
    case Tuple(xs) => forall i | 0 <= i < |xs| { InferredNamesDistinct(xs[i]); }
    case Object(m) =>
      var ks := Sorted(m.Keys);
      assert Names(InferType(v).attrs) == ks;
      forall i | 0 <= i < |ks| ensures DistinctNames(InferType(v).attrs[i].ty) { InferredNamesDistinct(m[ks[i]]); }
    case _ =>
  }

  lemma {:induction false} InferDynamic(v: Value)
    ensures InferType(v).TDynamic? <==> v.Null? || v.Unknown?
  {
  }
}
