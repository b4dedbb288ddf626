/** What the TypeScript boundary gives back, and where the sets are. */
module ZodLaws {
  import opened Wrappers
  import opened Text
  import opened Types
  import opened Zod

  /** JSON has no sets, so replacing leaves it alone. */
  lemma {:induction false} ReplacedJson(j: Js)
    requires IsJson(j)
    ensures Replaced(j) == j
  {
    match j
    case JsArray(xs) =>
      forall i | 0 <= i < |xs| { ReplacedJson(xs[i]); }
      assert Replaced(j).items == xs;
    case JsObject(ps) =>
      forall i | 0 <= i < |ps| { ReplacedJson(ps[i].1); }
      assert Replaced(j).props == ps;
    case _ =>
  }

  /** A set keeps all its items, in order, exactly when no primitive is repeated. */
  lemma {:induction false} SetOfAll(items: seq<Js>)
    ensures PrimitivesDistinct(items) <==> |SetOf(items)| == |items|
    ensures PrimitivesDistinct(items) ==> SetOf(items) == items
    ensures forall x | Primitive(x) :: x in SetOf(items) <==> x in items
  {
    if items != [] {
      var n := |items| - 1;
      SetOfAll(items[..n]);
      assert items == items[..n] + [items[n]];
      PrimitivesAppend(items[..n], items[n]);
    }
  }

  lemma {:induction false} PrimitivesAppend(front: seq<Js>, x: Js)
    ensures PrimitivesDistinct(front + [x]) <==> PrimitivesDistinct(front) && !(Primitive(x) && x in front)
  {
    var all := front + [x];
    if PrimitivesDistinct(all) {
      forall i, k | 0 <= i < k < |front| && Primitive(front[i])
        ensures front[i] != front[k]
      {
        assert all[i] != all[k];
      }
      forall i | 0 <= i < |front| && Primitive(front[i]) ensures front[i] != x { assert all[i] != all[|front|]; }
    }
  }

  /** A primitive is never changed, and nothing else becomes one. */
  lemma {:induction false} RevivedPrimitive(g: Schemas, t: Ref, j: Js)
    requires Closed(g) && t in g
    ensures Primitive(j) ==> Revived(g, t, j) == j
    ensures Primitive(Revived(g, t, j)) <==> Primitive(j)
  {
  }

  lemma {:induction false} RevivedDistinct(g: Schemas, e: Ref, context: Js, items: seq<Js>)
    requires Closed(g) && e in g && forall i | 0 <= i < |items| :: items[i] < context
    ensures PrimitivesDistinct(ReviveItems(g, e, context, items)) <==> PrimitivesDistinct(items)
  {
    var rs := ReviveItems(g, e, context, items);
    forall i, k | 0 <= i < k < |items| && Primitive(items[i]) ensures rs[i] == rs[k] <==> items[i] == items[k] {
      RevivedPrimitive(g, e, items[i]);
      RevivedPrimitive(g, e, items[k]);
    }
    forall i | 0 <= i < |items| ensures Primitive(rs[i]) <==> Primitive(items[i]) { RevivedPrimitive(g, e, items[i]); }
    if PrimitivesDistinct(items) {
      forall i, k | 0 <= i < k < |rs| && Primitive(rs[i]) ensures rs[i] != rs[k] { assert items[i] != items[k]; }
    } else {
      var i, k :| 0 <= i < k < |items| && Primitive(items[i]) && items[i] == items[k];
      assert rs[i] == rs[k];
    }
  }

  /** Rendering what was revived gives the JSON back exactly when it is safe for the
      schema. */
  lemma {:induction false} RevivedBack(g: Schemas, t: Ref, j: Js)
    requires Closed(g) && t in g && IsJson(j)
    ensures Replaced(Revived(g, t, j)) == j <==> Safe(g, t, j)
    decreases j, 2
  {
    ReplacedJson(j);
    if !j.JsNull? {
      var r := Core(g, t);
      match g[r].def
      case ZSet(e) => if j.JsArray? { SetBack(g, t, e, j); }
      case ZArray(e) => if j.JsArray? { ItemsBack(g, e, j); ArrayBack(g, e, j); }
      case ZRecord(_) => ObjectBack(g, r, j);
      case ZObject(_) => ObjectBack(g, r, j);
      case _ =>
    }
  }

  lemma {:induction false} ItemsBack(g: Schemas, e: Ref, j: Js)
    requires Closed(g) && e in g && IsJson(j) && j.JsArray?
    ensures forall i | 0 <= i < |j.items| ::
              Replaced(ReviveItems(g, e, j, j.items)[i]) == j.items[i] <==> Safe(g, e, j.items[i])
    decreases j, 0
  {
    forall i | 0 <= i < |j.items| { RevivedBack(g, e, j.items[i]); }
  }

  lemma {:induction false} ArrayBack(g: Schemas, e: Ref, j: Js)
    requires Closed(g) && e in g && j.JsArray?
    ensures Replaced(JsArray(ReviveItems(g, e, j, j.items))) == j <==>
            forall i | 0 <= i < |j.items| :: Replaced(ReviveItems(g, e, j, j.items)[i]) == j.items[i]
  {
    var rs := ReviveItems(g, e, j, j.items);
    var out := Replaced(JsArray(rs)).items;
    assert forall i | 0 <= i < |rs| :: out[i] == Replaced(rs[i]);
    if forall i | 0 <= i < |rs| :: Replaced(rs[i]) == j.items[i] { assert out == j.items; }
  }

  lemma {:induction false} SetBack(g: Schemas, t: Ref, e: Ref, j: Js)
    requires Closed(g) && t in g && e in g && IsJson(j) && j.JsArray? && g[Core(g, t)].def == ZSet(e)
    ensures Replaced(Revived(g, t, j)) == j <==> Safe(g, t, j)
    decreases j, 1
  {
    var rs := ReviveItems(g, e, j, j.items);
    ItemsBack(g, e, j);
    ArrayBack(g, e, j);
    SetOfAll(rs);
    RevivedDistinct(g, e, j, j.items);
    assert Revived(g, t, j) == JsSet(SetOf(rs));
    assert |Replaced(JsSet(SetOf(rs))).items| == |SetOf(rs)|;
    if PrimitivesDistinct(j.items) { assert Replaced(JsSet(rs)) == Replaced(JsArray(rs)); }
  }

  lemma {:induction false} PropBack(g: Schemas, r: Ref, context: Js, prop: (string, Js))
    requires Closed(g) && r in g && prop.1 < context && IsJson(prop.1)
    ensures (prop.0, Replaced(ReviveProp(g, r, context, prop).1)) == prop <==> SafeProp(g, r, context, prop)
    ensures ReviveProp(g, r, context, prop).0 == prop.0
    decreases context, 0
  {
    ReplacedJson(prop.1);
    if PropSchema(g[r].def, prop.0).Some? {
      PropSchemaIn(g, r, prop.0);
      RevivedBack(g, PropSchema(g[r].def, prop.0).value, prop.1);
    }
  }

  lemma {:induction false} ObjectBack(g: Schemas, r: Ref, j: Js)
    requires Closed(g) && r in g && IsJson(j)
    ensures Replaced(RevivedObject(g, r, j)) == j <==> SafeObject(g, r, j)
    decreases j, 1
  {
    ReplacedJson(j);
    if j.JsObject? {
      var ps := ReviveProps(g, r, j, j.props);
      var out := Replaced(JsObject(ps)).props;
      forall i | 0 <= i < |ps| ensures out[i] == j.props[i] <==> SafeProp(g, r, j, j.props[i]) {
        assert ps[i] == ReviveProp(g, r, j, j.props[i]);
        PropBack(g, r, j, j.props[i]);
      }
      if SafeObject(g, r, j) { assert out == j.props; }
    }
  }

  // --- where the sets are -----------------------------------------------------

  datatype JsStep = At(index: nat) | Prop(key: string)

  function ValueAt(v: Js, path: seq<JsStep>): Option<Js>
    decreases path
  {
    if path == [] then Some(v)
    else
      match (path[0], v)
      case (At(i), JsArray(xs)) => if i < |xs| then ValueAt(xs[i], path[1..]) else None
      case (At(i), JsSet(xs)) => if i < |xs| then ValueAt(xs[i], path[1..]) else None
      case (Prop(k), JsObject(ps)) => if Lookup(ps, k).Some? then ValueAt(Lookup(ps, k).value, path[1..]) else None
      case _ => None
  }

  /** The schema that governs a position: through arrays and sets by index, through
      objects and records by key. */
  function SchemaAt(g: Schemas, t: Ref, path: seq<JsStep>): Option<Ref>
    requires Closed(g) && t in g
    decreases path
  {
    if path == [] then Some(t)
    else
      var r := Core(g, t);
      match (path[0], g[r].def)
      case (At(_), ZSet(e)) => SchemaAt(g, e, path[1..])
      case (At(_), ZArray(e)) => SchemaAt(g, e, path[1..])
      case (Prop(k), _) =>
        if PropSchema(g[r].def, k).Some? then
          PropSchemaIn(g, r, k);
          SchemaAt(g, PropSchema(g[r].def, k).value, path[1..])
        else None
      case _ => None
  }

  predicate SetSchema(g: Schemas, t: Option<Ref>)
    requires Closed(g)
  {
    t.Some? && t.value in g && g[Core(g, t.value)].def.ZSet?
  }

  lemma {:induction false} JsonHasNoSets(j: Js, path: seq<JsStep>)
    requires IsJson(j) && ValueAt(j, path).Some?
    ensures !ValueAt(j, path).value.JsSet?
    decreases path
  {
    if path != [] {
      match (path[0], j)
      case (At(i), JsArray(xs)) => JsonHasNoSets(xs[i], path[1..]);
      case (Prop(k), JsObject(ps)) =>
        LookupAt(ps, k);
        JsonHasNoSets(Lookup(ps, k).value, path[1..]);
      case _ =>
    }
  }

  lemma {:induction false} LookupAt(ps: seq<(string, Js)>, k: string)
    ensures Lookup(ps, k).Some? ==> exists i | 0 <= i < |ps| :: ps[i] == (k, Lookup(ps, k).value)
  {
    if ps != [] && ps[0].0 != k {
      LookupAt(ps[1..], k);
      if Lookup(ps, k).Some? {
        var i :| 0 <= i < |ps[1..]| && ps[1..][i] == (k, Lookup(ps, k).value);
        assert ps[i + 1] == ps[1..][i];
      }
    }
  }

  /** Looking a key up among revived properties. */
  lemma {:induction false} LookupRevived(g: Schemas, r: Ref, context: Js, ps: seq<(string, Js)>, k: string)
    requires Closed(g) && r in g && forall i | 0 <= i < |ps| :: ps[i].1 < context
    requires Lookup(ps, k).Some?
    ensures Lookup(ps, k).value < context
    ensures Lookup(ReviveProps(g, r, context, ps), k) == Some(ReviveProp(g, r, context, (k, Lookup(ps, k).value)).1)
    decreases |ps|
  {
    var rs := ReviveProps(g, r, context, ps);
    assert rs[0] == ReviveProp(g, r, context, ps[0]);
    if ps[0].0 != k {
      assert rs[1..] == ReviveProps(g, r, context, ps[1..]);
      LookupRevived(g, r, context, ps[1..], k);
    }
  }

  /** In a safe value every position is still there, and holds a set exactly when an
      array stood there and a set schema governs it. */
  lemma {:induction false} SetsExactly(g: Schemas, t: Ref, j: Js, path: seq<JsStep>)
    requires Closed(g) && t in g && IsJson(j) && Safe(g, t, j) && ValueAt(j, path).Some?
    ensures ValueAt(Revived(g, t, j), path).Some?
    ensures ValueAt(Revived(g, t, j), path).value.JsSet?
            <==> ValueAt(j, path).value.JsArray? && SetSchema(g, SchemaAt(g, t, path))
    decreases path, 1
  {
    JsonHasNoSets(j, path);
    if path != [] && !j.JsNull? {
      var r := Core(g, t);
      match g[r].def
      case ZSet(e) => if j.JsArray? { SetsInItems(g, t, e, j, path); }
      case ZArray(e) => if j.JsArray? { SetsInItems(g, t, e, j, path); }
      case ZRecord(_) => SetsInProps(g, t, j, path);
      case ZObject(_) => SetsInProps(g, t, j, path);
      case _ =>
    }
  }

  lemma {:induction false} SetsInItems(g: Schemas, t: Ref, e: Ref, j: Js, path: seq<JsStep>)
    requires Closed(g) && t in g && e in g && IsJson(j) && Safe(g, t, j) && path != [] && ValueAt(j, path).Some?
    requires j.JsArray? && (g[Core(g, t)].def == ZSet(e) || g[Core(g, t)].def == ZArray(e))
    ensures ValueAt(Revived(g, t, j), path).Some?
    ensures ValueAt(Revived(g, t, j), path).value.JsSet?
            <==> ValueAt(j, path).value.JsArray? && SetSchema(g, SchemaAt(g, t, path))
    decreases path, 0
  {
    var rs := ReviveItems(g, e, j, j.items);
    var i := path[0].index;
    RevivedDistinct(g, e, j, j.items);
    SetOfAll(rs);
    assert Revived(g, t, j) == if g[Core(g, t)].def == ZSet(e) then JsSet(SetOf(rs)) else JsArray(rs);
    assert ValueAt(Revived(g, t, j), path) == ValueAt(rs[i], path[1..]);
    SetsExactly(g, e, j.items[i], path[1..]);
  }

  lemma {:induction false} SetsInProps(g: Schemas, t: Ref, j: Js, path: seq<JsStep>)
    requires Closed(g) && t in g && IsJson(j) && Safe(g, t, j) && path != [] && ValueAt(j, path).Some? && !j.JsNull?
    requires g[Core(g, t)].def.ZObject? || g[Core(g, t)].def.ZRecord?
    ensures ValueAt(Revived(g, t, j), path).Some?
    ensures ValueAt(Revived(g, t, j), path).value.JsSet?
            <==> ValueAt(j, path).value.JsArray? && SetSchema(g, SchemaAt(g, t, path))
    decreases path, 0
  {
    var r := Core(g, t);
    assert SafeObject(g, r, j);
    var k := path[0].key;
    LookupRevived(g, r, j, j.props, k);
    LookupAt(j.props, k);
    var child := Lookup(j.props, k).value;
    var i :| 0 <= i < |j.props| && j.props[i] == (k, child);
    assert SafeProp(g, r, j, j.props[i]);
    if PropSchema(g[r].def, k).Some? {
      PropSchemaIn(g, r, k);
      SetsExactly(g, PropSchema(g[r].def, k).value, child, path[1..]);
    } else {
      JsonHasNoSets(child, path[1..]);
    }
  }
}
