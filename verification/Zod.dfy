/** The TypeScript boundary: peeling a schema's wrappers, reviving JSON arrays into sets
    where the schema says so, and rendering sets as arrays on the way out. */
module Zod {
  import opened Wrappers
  import opened Text
  import opened Types
  import StateStore

  /** A schema object by its identity; schemas may share parts and may be cyclic. */
  type Ref = nat

  datatype WrapperKind = Optional | Default | Prefault | Nullable | Readonly | Catch | NonOptional

  datatype ZodDef =
    | ZWrapper(kind: WrapperKind, inner: Option<Ref>)
    | ZSet(valueType: Ref)
    | ZArray(element: Ref)
    | ZRecord(valueType: Ref)
    | ZObject(shape: seq<(string, Ref)>)
    | ZOther

  datatype Node = Node(def: ZodDef, meta: map<string, string>)

  type Schemas = map<Ref, Node>

  /** Every reference resolves, and the keys of an object shape are distinct. */
  predicate Closed(g: Schemas) {
    forall r | r in g ::
      match g[r].def
      case ZWrapper(_, inner) => inner.Some? ==> inner.value in g
      case ZSet(e) => e in g
      case ZArray(e) => e in g
      case ZRecord(e) => e in g
      case ZObject(shape) => Distinct(Keys(shape)) && forall i | 0 <= i < |shape| :: shape[i].1 in g
      case ZOther => true
  }

  // --- peeling ----------------------------------------------------------------

  datatype Peeled = Peeled(core: Ref, optional: bool, meta: map<string, string>)

  predicate Peelable(g: Schemas, r: Ref) { r in g && g[r].def.ZWrapper? && g[r].def.inner.Some? }

  function OptionalAfter(optional: bool, kind: WrapperKind): bool {
    if kind.Optional? || kind.Default? || kind.Prefault? then true
    else if kind.NonOptional? then false
    else optional
  }

  /** The loop of `peel` from one schema on: a schema seen before ends it. */
  function PeelFrom(g: Schemas, cur: Ref, seen: set<Ref>, optional: bool, meta: map<string, string>): (p: Peeled)
    requires Closed(g) && cur in g && seen <= g.Keys
    ensures p.core in g
    decreases g.Keys - seen
  {
    if cur in seen then Peeled(cur, optional, meta)
    else
      var merged := g[cur].meta + meta;
      if !Peelable(g, cur) then Peeled(cur, optional, merged)
      else PeelFrom(g, g[cur].def.inner.value, seen + {cur}, OptionalAfter(optional, g[cur].def.kind), merged)
  }

  /** `peel`. */
  method Peel(g: Schemas, t: Ref) returns (p: Peeled)
    requires Closed(g) && t in g
    ensures p == PeelFrom(g, t, {}, false, map[])
  {
    var optional := false;
    var cur := t;
    var meta: map<string, string> := map[];
    var seen: set<Ref> := {};
    while cur !in seen
      invariant cur in g && seen <= g.Keys
      invariant PeelFrom(g, cur, seen, optional, meta) == PeelFrom(g, t, {}, false, map[])
      decreases g.Keys - seen
    {
      seen := seen + {cur};
      meta := g[cur].meta + meta;
      if !Peelable(g, cur) { return Peeled(cur, optional, meta); }
      if g[cur].def.kind.Optional? || g[cur].def.kind.Default? || g[cur].def.kind.Prefault? { optional := true; }
      if g[cur].def.kind.NonOptional? { optional := false; }
      cur := g[cur].def.inner.value;
    }
    p := Peeled(cur, optional, meta);
  }

  function Core(g: Schemas, t: Ref): (r: Ref)
    requires Closed(g) && t in g
    ensures r in g
  {
    PeelFrom(g, t, {}, false, map[]).core
  }

  /** The wrappers from `t` lead, one inside the next, to `r`. */
  predicate Wraps(g: Schemas, t: Ref, r: Ref, n: nat)
    decreases n
  {
    if n == 0 then t == r else Peelable(g, t) && Wraps(g, g[t].def.inner.value, r, n - 1)
  }

  /** The chain comes round to `r` before its `n`-th step. */
  ghost predicate ComesRound(g: Schemas, t: Ref, r: Ref, n: nat) { exists m: nat :: m < n && Wraps(g, t, r, m) }

  /** No schema occurs twice among the first `n` of the chain. */
  ghost predicate AllDifferent(g: Schemas, t: Ref, n: nat) {
    forall i: nat, j: nat, r | i < j < n && Wraps(g, t, r, i) :: !Wraps(g, t, r, j)
  }

  ghost predicate NoneSeen(g: Schemas, t: Ref, seen: set<Ref>, n: nat) {
    forall i: nat, r | i < n && Wraps(g, t, r, i) :: r !in seen
  }

  /** Peeling ends at the first schema of the chain that is no wrapper or was seen before. */
  lemma {:induction false} PeelEnds(g: Schemas, cur: Ref, seen: set<Ref>, optional: bool, meta: map<string, string>)
    returns (n: nat)
    requires Closed(g) && cur in g && seen <= g.Keys
    ensures var core := PeelFrom(g, cur, seen, optional, meta).core;
            && Wraps(g, cur, core, n) && (!Peelable(g, core) || core in seen || ComesRound(g, cur, core, n))
            && AllDifferent(g, cur, n) && NoneSeen(g, cur, seen, n)
    decreases g.Keys - seen
  {
    if cur in seen || !Peelable(g, cur) {
      n := 0;
    } else {
      var next := g[cur].def.inner.value;
      var core := PeelFrom(g, cur, seen, optional, meta).core;
      var k := PeelEnds(g, next, seen + {cur}, OptionalAfter(optional, g[cur].def.kind), g[cur].meta + meta);
      n := k + 1;
      assert Wraps(g, cur, cur, 0);
      if core != cur && ComesRound(g, next, core, k) {
        var m: nat :| m < k && Wraps(g, next, core, m);
        assert Wraps(g, cur, core, m + 1);
      }
      OneMoreDifferent(g, cur, seen, k);
    }
  }

  lemma {:induction false} WrapsInside(g: Schemas, t: Ref)
    requires Peelable(g, t)
    ensures forall r, n: nat | n > 0 :: Wraps(g, t, r, n) <==> Wraps(g, g[t].def.inner.value, r, n - 1)
  {
  }

  lemma {:induction false} OneMoreDifferent(g: Schemas, cur: Ref, seen: set<Ref>, k: nat)
    requires Peelable(g, cur) && cur !in seen
    requires var next := g[cur].def.inner.value; AllDifferent(g, next, k) && NoneSeen(g, next, seen + {cur}, k)
    ensures AllDifferent(g, cur, k + 1) && NoneSeen(g, cur, seen, k + 1)
  {
    WrapsInside(g, cur);
    forall i: nat, j: nat, r | i < j < k + 1 && Wraps(g, cur, r, i) ensures !Wraps(g, cur, r, j) {
      LaterDiffers(g, cur, seen, k, i, j, r);
    }
    forall i: nat, r | i < k + 1 && Wraps(g, cur, r, i) ensures r !in seen {
      if i > 0 { assert Wraps(g, g[cur].def.inner.value, r, i - 1); }
    }
  }

  lemma {:induction false} LaterDiffers(g: Schemas, cur: Ref, seen: set<Ref>, k: nat, i: nat, j: nat, r: Ref)
    requires Peelable(g, cur) && i < j < k + 1 && Wraps(g, cur, r, i)
    requires var next := g[cur].def.inner.value; AllDifferent(g, next, k) && NoneSeen(g, next, seen + {cur}, k)
    ensures !Wraps(g, cur, r, j)
  {
    WrapsInside(g, cur);
    var next := g[cur].def.inner.value;
    assert Wraps(g, cur, r, j) <==> Wraps(g, next, r, j - 1);
    if i > 0 { assert Wraps(g, next, r, i - 1); }
  }

  /** So the core is reached over schemas that are all different, and is no wrapper or one
      of them come round again: the first repetition on the chain. */
  lemma {:induction false} CoreEnds(g: Schemas, t: Ref) returns (n: nat)
    requires Closed(g) && t in g
    ensures Wraps(g, t, Core(g, t), n) && AllDifferent(g, t, n)
    ensures !Peelable(g, Core(g, t)) || ComesRound(g, t, Core(g, t), n)
  {
    n := PeelEnds(g, t, {}, false, map[]);
  }

  /** The schema a number of wrappers in. */
  function StepAt(g: Schemas, t: Ref, i: nat): Ref
    decreases i
  {
    if i == 0 || !Peelable(g, t) then t else StepAt(g, g[t].def.inner.value, i - 1)
  }

  lemma {:induction false} StepWraps(g: Schemas, t: Ref, r: Ref, n: nat)
    requires Wraps(g, t, r, n)
    ensures StepAt(g, t, n) == r
    decreases n
  {
    if n > 0 { StepWraps(g, g[t].def.inner.value, r, n - 1); }
  }

  predicate MakesOptional(g: Schemas, r: Ref) {
    Peelable(g, r) && (g[r].def.kind.Optional? || g[r].def.kind.Default? || g[r].def.kind.Prefault?)
  }

  predicate MakesRequired(g: Schemas, r: Ref) { Peelable(g, r) && g[r].def.kind.NonOptional? }

  /** No wrapper from the `i`-th on, up to the `n`-th, makes the core required. */
  ghost predicate NoneRequires(g: Schemas, t: Ref, i: nat, n: nat) {
    forall j: nat | i <= j < n :: !MakesRequired(g, StepAt(g, t, j))
  }

  /** The core is optional when some wrapper makes it so and none further in takes that
      back. */
  ghost predicate OptionalAlong(g: Schemas, t: Ref, n: nat) {
    exists i: nat :: i < n && MakesOptional(g, StepAt(g, t, i)) && NoneRequires(g, t, i + 1, n)
  }

  lemma {:induction false} OptionalStep(g: Schemas, t: Ref, k: nat)
    requires Peelable(g, t)
    ensures var next := g[t].def.inner.value;
            && (NoneRequires(g, t, 1, k + 1) <==> NoneRequires(g, next, 0, k))
            && (NoneRequires(g, t, 0, k + 1) <==> !MakesRequired(g, t) && NoneRequires(g, next, 0, k))
            && (OptionalAlong(g, t, k + 1) <==>
                  OptionalAlong(g, next, k) || (MakesOptional(g, t) && NoneRequires(g, next, 0, k)))
  {
    var next := g[t].def.inner.value;
    ShiftSteps(g, t);
    assert StepAt(g, t, 0) == t;
    assert NoneRequires(g, t, 1, k + 1) <==> NoneRequires(g, next, 0, k) by { ShiftRequires(g, t, 0, k); }
    if i: nat :| i < k + 1 && MakesOptional(g, StepAt(g, t, i)) && NoneRequires(g, t, i + 1, k + 1) {
      if i > 0 {
        ShiftRequires(g, t, i, k);
        assert MakesOptional(g, StepAt(g, next, i - 1));
      }
    }
    if i: nat :| i < k && MakesOptional(g, StepAt(g, next, i)) && NoneRequires(g, next, i + 1, k) {
      ShiftRequires(g, t, i + 1, k);
      assert MakesOptional(g, StepAt(g, t, i + 1));
    }
    if MakesOptional(g, t) && NoneRequires(g, next, 0, k) { assert MakesOptional(g, StepAt(g, t, 0)); }
  }

  lemma {:induction false} ShiftSteps(g: Schemas, t: Ref)
    requires Peelable(g, t)
    ensures forall j: nat :: StepAt(g, t, j + 1) == StepAt(g, g[t].def.inner.value, j)
  {
  }

  lemma {:induction false} ShiftRequires(g: Schemas, t: Ref, i: nat, k: nat)
    requires Peelable(g, t)
    ensures NoneRequires(g, t, i + 1, k + 1) <==> NoneRequires(g, g[t].def.inner.value, i, k)
  {
    var next := g[t].def.inner.value;
    ShiftSteps(g, t);
    if NoneRequires(g, t, i + 1, k + 1) {
      forall j: nat | i <= j < k ensures !MakesRequired(g, StepAt(g, next, j)) {
        assert !MakesRequired(g, StepAt(g, t, j + 1));
      }
    }
    if NoneRequires(g, next, i, k) {
      forall j: nat | i + 1 <= j < k + 1 ensures !MakesRequired(g, StepAt(g, t, j)) {
        assert StepAt(g, t, (j - 1) + 1) == StepAt(g, next, j - 1);
      }
    }
  }

  /** The text under `key` in the outermost of the first `n` schemas that has one. */
  function MetaAlong(g: Schemas, t: Ref, key: string, n: nat): Option<string>
    decreases n
  {
    if n == 0 || t !in g then None
    else if key in g[t].meta then Some(g[t].meta[key])
    else if Peelable(g, t) then MetaAlong(g, g[t].def.inner.value, key, n - 1)
    else None
  }

  function Entry(meta: map<string, string>, key: string): Option<string> {
    if key in meta then Some(meta[key]) else None
  }

  /** What the loop gathers on the way to the core, over `n` wrappers: the schemas on the
      way are merged, and the core too unless it was seen before. */
  lemma {:induction false} PeelGathers(
    g: Schemas, cur: Ref, seen: set<Ref>, optional: bool, meta: map<string, string>, key: string)
    returns (n: nat)
    requires Closed(g) && cur in g && seen <= g.Keys
    ensures var p := PeelFrom(g, cur, seen, optional, meta);
            var merged := if !Peelable(g, p.core) && p.core !in seen then n + 1 else n;
            && Wraps(g, cur, p.core, n)
            && (p.optional <==> OptionalAlong(g, cur, n) || (optional && NoneRequires(g, cur, 0, n)))
            && Entry(p.meta, key) == (if key in meta then Some(meta[key]) else MetaAlong(g, cur, key, merged))
    decreases g.Keys - seen
  {
    if cur in seen || !Peelable(g, cur) {
      n := 0;
    } else {
      var next := g[cur].def.inner.value;
      n := PeelGathers(g, next, seen + {cur}, OptionalAfter(optional, g[cur].def.kind), g[cur].meta + meta, key);
      OptionalStep(g, cur, n);
      n := n + 1;
    }
  }

  /** So peeling finds the core optional exactly when some wrapper on the way makes it so
      and none further in takes that back, and under each key the outermost text. */
  lemma {:induction false} PeelFinds(g: Schemas, t: Ref, key: string) returns (n: nat)
    requires Closed(g) && t in g
    ensures var p := PeelFrom(g, t, {}, false, map[]);
            && Wraps(g, t, p.core, n) && (p.optional <==> OptionalAlong(g, t, n))
            && Entry(p.meta, key) == MetaAlong(g, t, key, if Peelable(g, p.core) then n else n + 1)
  {
    n := PeelGathers(g, t, {}, false, map[], key);
  }

  // --- values -----------------------------------------------------------------

  /** A JavaScript value; an object keeps its properties in order. */
  datatype Js =
    | JsNull
    | JsBool(b: bool)
    | JsNumber(n: real)
    | JsString(s: string)
    | JsArray(items: seq<Js>)
    | JsObject(props: seq<(string, Js)>)
    | JsSet(items: seq<Js>)

  /** What `JSON.parse` returns. */
  predicate IsJson(j: Js) {
    match j
    case JsArray(xs) => forall i | 0 <= i < |xs| :: IsJson(xs[i])
    case JsObject(ps) => forall i | 0 <= i < |ps| :: IsJson(ps[i].1)
    case JsSet(_) => false
    case _ => true
  }

  predicate Primitive(j: Js) { j.JsNull? || j.JsBool? || j.JsNumber? || j.JsString? }

  /** `new Set(items)`: a primitive already in is not added again; every parsed object
      and array is an identity of its own. */
  function SetOf(items: seq<Js>): (r: seq<Js>)
    ensures |r| <= |items|
  {
    if items == [] then []
    else
      var n := |items| - 1;
      var before := SetOf(items[..n]);
      if Primitive(items[n]) && items[n] in before then before else before + [items[n]]
  }

  /** The properties of an array spread into an object. */
  function IndexProps(items: seq<Js>): seq<(string, Js)> {
    seq(|items|, i requires 0 <= i < |items| => (StateStore.Decimal(i), items[i]))
  }

  // --- reviving ---------------------------------------------------------------

  function ReviveItems(g: Schemas, t: Ref, context: Js, items: seq<Js>): (r: seq<Js>)
    requires Closed(g) && t in g && forall i | 0 <= i < |items| :: items[i] < context
    ensures |r| == |items|
    decreases context, 0
  {
    seq(|items|, i requires 0 <= i < |items| => Revived(g, t, items[i]))
  }

  /** The schema of a property, if its object declares one. */
  function PropSchema(def: ZodDef, key: string): Option<Ref> {
    match def
    case ZRecord(e) => Some(e)
    case ZObject(shape) => Lookup(shape, key)
    case _ => None
  }

  lemma {:induction false} LookupIn(shape: seq<(string, Ref)>, key: string)
    ensures Lookup(shape, key).Some? ==> exists i | 0 <= i < |shape| :: shape[i] == (key, Lookup(shape, key).value)
  {
    if shape != [] && shape[0].0 != key {
      LookupIn(shape[1..], key);
      if Lookup(shape, key).Some? {
        var i :| 0 <= i < |shape[1..]| && shape[1..][i] == (key, Lookup(shape, key).value);
        assert shape[i + 1] == shape[1..][i];
      }
    }
  }

  lemma {:induction false} PropSchemaIn(g: Schemas, r: Ref, key: string)
    requires Closed(g) && r in g && PropSchema(g[r].def, key).Some?
    ensures PropSchema(g[r].def, key).value in g
  {
    if g[r].def.ZObject? { LookupIn(g[r].def.shape, key); }
  }

  function ReviveProp(g: Schemas, r: Ref, context: Js, prop: (string, Js)): (string, Js)
    requires Closed(g) && r in g && prop.1 < context
    decreases context, 0, 0
  {
    if PropSchema(g[r].def, prop.0).Some? then
      PropSchemaIn(g, r, prop.0);
      (prop.0, Revived(g, PropSchema(g[r].def, prop.0).value, prop.1))
    else prop
  }

  function ReviveProps(g: Schemas, r: Ref, context: Js, props: seq<(string, Js)>): (ps: seq<(string, Js)>)
    requires Closed(g) && r in g && forall i | 0 <= i < |props| :: props[i].1 < context
    ensures |ps| == |props|
    decreases context, 0, 1
  {
    seq(|props|, i requires 0 <= i < |props| => ReviveProp(g, r, context, props[i]))
  }

  /** `revive`. */
  function Revived(g: Schemas, t: Ref, j: Js): Js
    requires Closed(g) && t in g
    decreases j, 1
  {
    if j.JsNull? then j
    else
      var r := Core(g, t);
      match g[r].def
      case ZSet(e) => if j.JsArray? then JsSet(SetOf(ReviveItems(g, e, j, j.items))) else j
      case ZArray(e) => if j.JsArray? then JsArray(ReviveItems(g, e, j, j.items)) else j
      case ZRecord(_) => RevivedObject(g, r, j)
      case ZObject(_) => RevivedObject(g, r, j)
      case _ => j
  }

  /** The object and record cases; an array is an object too, and comes out as one. */
  function RevivedObject(g: Schemas, r: Ref, j: Js): Js
    requires Closed(g) && r in g
    decreases j, 0, 2
  {
    match j
    case JsObject(props) => JsObject(ReviveProps(g, r, j, props))
    case JsArray(items) => JsObject(ReviveProps(g, r, j, IndexProps(items)))
    case JsSet(_) => JsObject([])
    case _ => j
  }

  /** The record case as the source writes it: one pass over the entries. */
  method ReviveRecord(g: Schemas, r: Ref, props: seq<(string, Js)>) returns (v: Js)
    requires Closed(g) && r in g && g[r].def.ZRecord? && Distinct(Keys(props))
    ensures v == RevivedObject(g, r, JsObject(props))
  {
    var out: seq<(string, Js)> := [];
    for i := 0 to |props|
      invariant out == ReviveProps(g, r, JsObject(props), props)[..i]
    {
      var child := Revived(g, g[r].def.valueType, props[i].1);
      assert Keys(props)[i] == props[i].0;
      FreshProp(g, r, props, i);
      InsertFresh(out, props[i].0, child);
      out := Insert(out, props[i].0, child);
    }
    v := JsObject(out);
  }

  lemma {:induction false} FreshProp(g: Schemas, r: Ref, props: seq<(string, Js)>, i: nat)
    requires Closed(g) && r in g && Distinct(Keys(props)) && i < |props|
    ensures props[i].0 !in Keys(ReviveProps(g, r, JsObject(props), props)[..i])
  {
    var done := ReviveProps(g, r, JsObject(props), props)[..i];
    forall k | 0 <= k < i ensures Keys(done)[k] != props[i].0 {
      assert done[k] == ReviveProp(g, r, JsObject(props), props[k]);
      assert Keys(props)[k] != Keys(props)[i];
    }
  }

  /** The properties once the first `n` entries of the shape have been handled. */
  function RevivedUpTo(g: Schemas, shape: seq<(string, Ref)>, props: seq<(string, Js)>, n: nat): (ps: seq<(string, Js)>)
    requires Closed(g) && n <= |shape| && forall i | 0 <= i < |shape| :: shape[i].1 in g
    ensures |ps| == |props| && Keys(ps) == Keys(props)
  {
    var ps := seq(|props|, i requires 0 <= i < |props| => RevivedBy(g, shape[..n], props[i]));
    assert Keys(ps) == Keys(props);
    ps
  }

  function RevivedBy(g: Schemas, shape: seq<(string, Ref)>, prop: (string, Js)): (p: (string, Js))
    requires Closed(g) && forall i | 0 <= i < |shape| :: shape[i].1 in g
    ensures p.0 == prop.0
  {
    LookupIn(shape, prop.0);
    match Lookup(shape, prop.0)
    case Some(t) => (prop.0, Revived(g, t, prop.1))
    case None => prop
  }

  lemma {:induction false} LookupMore(shape: seq<(string, Ref)>, n: nat, key: string)
    requires n < |shape|
    ensures Lookup(shape[..n + 1], key)
            == if Lookup(shape[..n], key).Some? then Lookup(shape[..n], key)
               else if shape[n].0 == key then Some(shape[n].1) else None
  {
    if n > 0 {
      assert shape[..n + 1][1..] == shape[1..][..n] && shape[..n][1..] == shape[1..][..n - 1];
      if shape[0].0 != key { LookupMore(shape[1..], n - 1, key); }
    }
  }

  lemma {:induction false} InsertInPlace(ps: seq<(string, Js)>, i: nat, v: Js)
    requires Distinct(Keys(ps)) && i < |ps|
    ensures Insert(ps, ps[i].0, v) == ps[i := (ps[i].0, v)]
  {
    if i > 0 {
      assert Keys(ps)[0] != Keys(ps)[i];
      KeysCons(ps);
      DistinctTail(Keys(ps));
      InsertInPlace(ps[1..], i - 1, v);
      UpdateInTail(ps, i, (ps[i].0, v));
    }
  }

  lemma {:induction false} UpdateInTail<T>(xs: seq<T>, i: nat, x: T)
    requires 0 < i < |xs|
    ensures xs[i := x] == [xs[0]] + xs[1..][i - 1 := x]
  {
  }

  /** Handling one more entry of the shape revives its property in place, if present. */
  lemma {:induction false} RevivedMore(g: Schemas, shape: seq<(string, Ref)>, props: seq<(string, Js)>, n: nat)
    requires Closed(g) && n < |shape| && (forall i | 0 <= i < |shape| :: shape[i].1 in g)
    requires Distinct(Keys(shape)) && Distinct(Keys(props))
    ensures var before := RevivedUpTo(g, shape, props, n);
            RevivedUpTo(g, shape, props, n + 1)
            == match Lookup(before, shape[n].0)
               case Some(v) => Insert(before, shape[n].0, Revived(g, shape[n].1, v))
               case None => before
  {
    var before, after := RevivedUpTo(g, shape, props, n), RevivedUpTo(g, shape, props, n + 1);
    var key := shape[n].0;
    NotBefore(shape, n);
    forall i | 0 <= i < |props|
      ensures after[i] == if props[i].0 == key then (key, Revived(g, shape[n].1, props[i].1)) else before[i]
    {
      LookupMore(shape, n, props[i].0);
    }
    LookupSpec(before, key);
    if key in Keys(before) {
      var i :| 0 <= i < |props| && Keys(before)[i] == key;
      InsertInPlace(before, i, Revived(g, shape[n].1, props[i].1));
      assert Lookup(before, key) == Some(before[i].1);
      forall k | 0 <= k < |props|
        ensures props[k].0 == key <==> k == i
      {
        assert Keys(props)[k] == props[k].0 && Keys(props)[i] == props[i].0;
      }
    } else {
      forall k | 0 <= k < |props| ensures props[k].0 != key { assert Keys(before)[k] == props[k].0; }
    }
  }

  lemma {:induction false} NotBefore(shape: seq<(string, Ref)>, n: nat)
    requires Distinct(Keys(shape)) && n < |shape|
    ensures Lookup(shape[..n], shape[n].0).None?
  {
    LookupIn(shape[..n], shape[n].0);
    forall i | 0 <= i < n ensures shape[..n][i].0 != shape[n].0 { assert Keys(shape)[i] != Keys(shape)[n]; }
  }

  /** The object case as the source writes it: copy the properties, then revive each
      that the shape declares and the value has. */
  method ReviveObject(g: Schemas, r: Ref, props: seq<(string, Js)>) returns (v: Js)
    requires Closed(g) && r in g && g[r].def.ZObject? && Distinct(Keys(props))
    ensures v == RevivedObject(g, r, JsObject(props))
  {
    var shape := g[r].def.shape;
    var out := props;
    assert RevivedUpTo(g, shape, props, 0) == props;
    for i := 0 to |shape|
      invariant out == RevivedUpTo(g, shape, props, i)
    {
      RevivedMore(g, shape, props, i);
      var value := Lookup(out, shape[i].0);
      if value.Some? {
        out := Insert(out, shape[i].0, Revived(g, shape[i].1, value.value));
      }
    }
    v := JsObject(out);
    forall i | 0 <= i < |props| ensures out[i] == ReviveProp(g, r, JsObject(props), props[i]) {
      assert shape[..|shape|] == shape;
    }
    assert out == ReviveProps(g, r, JsObject(props), props);
  }

  // --- and back ---------------------------------------------------------------

  /** `JSON.stringify` with `setReplacer`: every set becomes its array. */
  function Replaced(v: Js): Js {
    match v
    case JsArray(xs) => JsArray(seq(|xs|, i requires 0 <= i < |xs| => Replaced(xs[i])))
    case JsSet(xs) => JsArray(seq(|xs|, i requires 0 <= i < |xs| => Replaced(xs[i])))
    case JsObject(ps) => JsObject(seq(|ps|, i requires 0 <= i < |ps| => (ps[i].0, Replaced(ps[i].1))))
    case _ => v
  }

  predicate PrimitivesDistinct(items: seq<Js>) {
    forall i, k | 0 <= i < k < |items| && Primitive(items[i]) :: items[i] != items[k]
  }

  /** No array stands where the schema has an object or record, and no array standing
      for a set repeats a primitive. */
  predicate Safe(g: Schemas, t: Ref, j: Js)
    requires Closed(g) && t in g
    decreases j, 1
  {
    j.JsNull?
    || var r := Core(g, t);
       match g[r].def
       case ZSet(e) =>
         j.JsArray? ==> PrimitivesDistinct(j.items) && forall i | 0 <= i < |j.items| :: Safe(g, e, j.items[i])
       case ZArray(e) => j.JsArray? ==> forall i | 0 <= i < |j.items| :: Safe(g, e, j.items[i])
       case ZRecord(_) => SafeObject(g, r, j)
       case ZObject(_) => SafeObject(g, r, j)
       case _ => true
  }

  predicate SafeObject(g: Schemas, r: Ref, j: Js)
    requires Closed(g) && r in g
    decreases j, 0, 1
  {
    !j.JsArray? && (j.JsObject? ==> forall i | 0 <= i < |j.props| :: SafeProp(g, r, j, j.props[i]))
  }

  predicate SafeProp(g: Schemas, r: Ref, context: Js, prop: (string, Js))
    requires Closed(g) && r in g && prop.1 < context
    decreases context, 0, 0
  {
    PropSchema(g[r].def, prop.0).Some? ==>
      (PropSchemaIn(g, r, prop.0); Safe(g, PropSchema(g[r].def, prop.0).value, prop.1))
  }
}
