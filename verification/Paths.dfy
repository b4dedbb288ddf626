/** Attribute paths into a value tree: reading and overwriting the addressed leaf. */
module Paths {
  import opened Wrappers
  import opened Numbers
  import opened Values

  datatype PathStep = Attribute(name: string) | Index(index: i64) | Key(key: string)

  type Path = seq<PathStep>

  /** The child a step selects, when the step fits the container. */
  function Child(v: Value, step: PathStep): (c: Option<Value>)
    ensures c.Some? ==> c.value < v
  {
    match (step, v)
    case (Attribute(n), Object(fields)) => if n in fields then Some(fields[n]) else None
    case (Index(i), List(items)) => if 0 <= i < |items| then Some(items[i]) else None
    case (Index(i), Set(items)) => if 0 <= i < |items| then Some(items[i]) else None
    case (Key(k), Map(entries)) => if k in entries then Some(entries[k]) else None
    case _ => None
  }

  /** The value with the selected child replaced. */
  function WithChild(v: Value, step: PathStep, c: Value): Value
    requires Child(v, step).Some?
  {
    match v
    case Object(fields) => Object(fields[step.name := c])
    case List(items) => List(items[step.index := c])
    case Set(items) => Set(items[step.index := c])
    case Map(entries) => Map(entries[step.key := c])
  }

  /** `get_at_path`. */
  function GetAt(v: Value, path: Path): Option<Value>
    decreases path
  {
    if path == [] then Some(v)
    else
      match Child(v, path[0])
      case None => None
      case Some(c) => GetAt(c, path[1..])
  }

  /** `set_at_path`: a step that does not resolve leaves the value as it is. */
  function SetAt(v: Value, path: Path, leaf: Value): Value
    decreases path
  {
    if path == [] then leaf
    else
      match Child(v, path[0])
      case None => v
      case Some(c) => WithChild(v, path[0], SetAt(c, path[1..], leaf))
  }

  lemma {:induction false} WithChildAt(v: Value, step: PathStep, c: Value, other: PathStep)
    requires Child(v, step).Some?
    ensures Child(WithChild(v, step, c), other) == if other == step then Some(c) else Child(v, other)
  {
  }

  lemma {:induction false} WithSameChild(v: Value, step: PathStep)
    requires Child(v, step).Some?
    ensures WithChild(v, step, Child(v, step).value) == v
  {
    match v
    case List(items) => assert items[step.index := items[step.index]] == items;
    case Set(items) => assert items[step.index := items[step.index]] == items;
    case Map(m) => assert m[step.key := m[step.key]] == m;
    case Object(m) => assert m[step.name := m[step.name]] == m;
  }

  lemma {:induction false} WithChildTwice(v: Value, step: PathStep, c: Value, d: Value)
    requires Child(v, step).Some?
    ensures Child(WithChild(v, step, c), step).Some?
    ensures WithChild(WithChild(v, step, c), step, d) == WithChild(v, step, d)
  {
  }

  lemma {:induction false} WithChildrenCommute(v: Value, a: PathStep, c: Value, b: PathStep, d: Value)
    requires a != b && Child(v, a).Some? && Child(v, b).Some?
    ensures Child(WithChild(v, a, c), b).Some? && Child(WithChild(v, b, d), a).Some?
    ensures WithChild(WithChild(v, a, c), b, d) == WithChild(WithChild(v, b, d), a, c)
  {
    match v
    case List(items) => ElementsCommute(items, a.index, c, b.index, d);
    case Set(items) => ElementsCommute(items, a.index, c, b.index, d);
    case Map(m) => EntriesCommute(m, a.key, c, b.key, d);
    case Object(m) => EntriesCommute(m, a.name, c, b.name, d);
  }

  lemma {:induction false} ElementsCommute(xs: seq<Value>, i: nat, c: Value, j: nat, d: Value)
    requires i < |xs| && j < |xs| && i != j
    ensures xs[i := c][j := d] == xs[j := d][i := c]
  {
  }

  lemma {:induction false} EntriesCommute(m: map<string, Value>, k: string, c: Value, n: string, d: Value)
    requires k != n
    ensures m[k := c][n := d] == m[n := d][k := c]
  {
  }

  /** Reading back what was set. */
  lemma {:induction false} GetAfterSet(v: Value, path: Path, leaf: Value)
    requires GetAt(v, path).Some?
    ensures GetAt(SetAt(v, path, leaf), path) == Some(leaf)
  {
    if path != [] {
      var c := Child(v, path[0]).value;
      WithChildAt(v, path[0], SetAt(c, path[1..], leaf), path[0]);
      GetAfterSet(c, path[1..], leaf);
    }
  }

  /** An index reaches into lists and sets, a key into maps and a name into objects, and no
      step into anything else, tuples included. */
  lemma {:induction false} StepsReach(xs: seq<Value>, m: map<string, Value>, i: i64, k: string)
    ensures Child(List(xs), Index(i)) == Child(Set(xs), Index(i)) == if 0 <= i < |xs| then Some(xs[i]) else None
    ensures Child(Map(m), Key(k)) == Child(Object(m), Attribute(k)) == if k in m then Some(m[k]) else None
    ensures forall step :: Child(Tuple(xs), step) == None && (!step.Index? ==> Child(List(xs), step) == None)
    ensures forall step: PathStep | !step.Index? :: Child(Set(xs), step) == None
    ensures forall step: PathStep | !step.Key? :: Child(Map(m), step) == None
    ensures forall step: PathStep | !step.Attribute? :: Child(Object(m), step) == None
  {
  }

  /** Reading an object one step in. */
  lemma {:induction false} GetAtField(fields: map<string, Value>, p: Path)
    requires p != [] && p[0].Attribute?
    ensures GetAt(Object(fields), p) == if p[0].name in fields then GetAt(fields[p[0].name], p[1..]) else None
  {
  }

  /** Setting what is already there changes nothing. */
  lemma {:induction false} SetWhatIsThere(v: Value, path: Path)
    requires GetAt(v, path).Some?
    ensures SetAt(v, path, GetAt(v, path).value) == v
  {
    if path != [] {
      SetWhatIsThere(Child(v, path[0]).value, path[1..]);
      WithSameChild(v, path[0]);
    }
  }

  /** A path that does not resolve changes nothing. */
  lemma {:induction false} SetUnresolved(v: Value, path: Path, leaf: Value)
    requires GetAt(v, path).None?
    ensures SetAt(v, path, leaf) == v
  {
    match Child(v, path[0])
    case None =>
    case Some(c) =>
      SetUnresolved(c, path[1..], leaf);
      WithSameChild(v, path[0]);
  }

  /** The last write to a path wins. */
  lemma {:induction false} SetAfterSet(v: Value, path: Path, a: Value, b: Value)
    requires GetAt(v, path).Some?
    ensures SetAt(SetAt(v, path, a), path, b) == SetAt(v, path, b)
  {
    if path != [] {
      var c := Child(v, path[0]).value;
      SetAfterSet(c, path[1..], a, b);
      WithChildAt(v, path[0], SetAt(c, path[1..], a), path[0]);
      WithChildTwice(v, path[0], SetAt(c, path[1..], a), SetAt(c, path[1..], b));
    }
  }

  /** Neither path is a prefix of the other. */
  predicate Apart(p: Path, q: Path) { !(p <= q) && !(q <= p) }

  lemma {:induction false} ApartTails(p: Path, q: Path)
    requires Apart(p, q)
    ensures p != [] && q != []
    ensures p[0] == q[0] ==> Apart(p[1..], q[1..])
  {
    if p[0] == q[0] {
      assert p == [p[0]] + p[1..] && q == [q[0]] + q[1..];
    }
  }

  /** Writing at a path leaves every path apart from it alone. */
  lemma {:induction false} SetFrames(v: Value, p: Path, leaf: Value, q: Path)
    requires Apart(p, q)
    ensures GetAt(SetAt(v, p, leaf), q) == GetAt(v, q)
  {
    ApartTails(p, q);
    SetStep(v, p, leaf);
    if Child(v, p[0]).Some? {
      var c := Child(v, p[0]).value;
      WithChildAt(v, p[0], SetAt(c, p[1..], leaf), q[0]);
      if p[0] == q[0] { SetFrames(c, p[1..], leaf, q[1..]); }
    }
  }

  /** Writes at paths apart from each other commute. */
  lemma {:induction false} SetsCommute(v: Value, p: Path, a: Value, q: Path, b: Value)
    requires Apart(p, q)
    ensures SetAt(SetAt(v, p, a), q, b) == SetAt(SetAt(v, q, b), p, a)
  {
    ApartTails(p, q);
    if p[0] != q[0] {
      SetsDiverge(v, p, a, q, b);
    } else if Child(v, p[0]).None? {
      SetNowhere(v, p, a);
      SetNowhere(v, q, b);
    } else {
      SetsCommute(Child(v, p[0]).value, p[1..], a, q[1..], b);
      SetsInside(v, Child(v, p[0]).value, p, a, q, b);
    }
  }

  lemma {:induction false} SetsInside(v: Value, c: Value, p: Path, a: Value, q: Path, b: Value)
    requires p != [] && q != [] && p[0] == q[0] && Child(v, p[0]) == Some(c)
    requires SetAt(SetAt(c, p[1..], a), q[1..], b) == SetAt(SetAt(c, q[1..], b), p[1..], a)
    ensures SetAt(SetAt(v, p, a), q, b) == SetAt(SetAt(v, q, b), p, a)
  {
    SetsDescend(v, p, a, q, b);
    SetsDescend(v, q, b, p, a);
  }

  lemma {:induction false} SetNowhere(v: Value, p: Path, a: Value)
    requires p != [] && Child(v, p[0]).None?
    ensures SetAt(v, p, a) == v
  {
  }

  lemma {:induction false} SetsDescend(v: Value, p: Path, a: Value, q: Path, b: Value)
    requires p != [] && q != [] && p[0] == q[0] && Child(v, p[0]).Some?
    ensures SetAt(SetAt(v, p, a), q, b)
            == WithChild(v, p[0], SetAt(SetAt(Child(v, p[0]).value, p[1..], a), q[1..], b))
  {
    var x := SetAt(Child(v, p[0]).value, p[1..], a);
    WithChildAt(v, p[0], x, p[0]);
    WithChildTwice(v, p[0], x, SetAt(x, q[1..], b));
  }

  /** A write past another one, in a different child. */
  lemma {:induction false} SetPast(v: Value, p: Path, a: Value, q: Path, b: Value)
    requires p != [] && q != [] && p[0] != q[0]
    ensures Child(SetAt(v, p, a), q[0]) == Child(v, q[0])
    ensures Child(v, q[0]).None? ==> SetAt(SetAt(v, p, a), q, b) == SetAt(v, p, a)
    ensures Child(v, q[0]).Some? ==>
              SetAt(SetAt(v, p, a), q, b) == WithChild(SetAt(v, p, a), q[0], SetAt(Child(v, q[0]).value, q[1..], b))
  {
    var w := SetAt(v, p, a);
    SetStep(v, p, a);
    SetStep(w, q, b);
    if Child(v, p[0]).Some? { WithChildAt(v, p[0], SetAt(Child(v, p[0]).value, p[1..], a), q[0]); }
  }

  lemma {:induction false} SetStep(v: Value, p: Path, a: Value)
    requires p != []
    ensures SetAt(v, p, a) ==
            match Child(v, p[0]) case None => v case Some(c) => WithChild(v, p[0], SetAt(c, p[1..], a))
  {
  }

  lemma {:induction false} SetsDiverge(v: Value, p: Path, a: Value, q: Path, b: Value)
    requires p != [] && q != [] && p[0] != q[0]
    ensures SetAt(SetAt(v, p, a), q, b) == SetAt(SetAt(v, q, b), p, a)
  {
    SetPast(v, p, a, q, b);
    SetPast(v, q, b, p, a);
    var c, d := Child(v, p[0]), Child(v, q[0]);
    if c.Some? && d.Some? {
      WithChildrenCommute(v, p[0], SetAt(c.value, p[1..], a), q[0], SetAt(d.value, q[1..], b));
    }
  }

  /** Reading further along a path reads from what the first part addresses. */
  lemma {:induction false} GetAlong(v: Value, p: Path, q: Path)
    ensures GetAt(v, p + q) == if GetAt(v, p).Some? then GetAt(GetAt(v, p).value, q) else None
  {
    if p == [] {
      assert p + q == q;
    } else {
      assert (p + q)[1..] == p[1..] + q;
      if Child(v, p[0]).Some? { GetAlong(Child(v, p[0]).value, p[1..], q); }
    }
  }
}
