/** The algebra of stripping and merging write-only values. */
module WriteOnlyLaws {
  import opened Wrappers
  import opened Values
  import opened Schema
  import opened WriteOnly
  import opened Paths

  // --- one field at a time ----------------------------------------------------

  lemma {:induction false} StrippedAt(v: Value, block: Block, k: string)
    requires DistinctBlock(block) && v.Object? && k in v.fields
    ensures Stripped(v, block).fields[k] ==
            match SlotOf(block, k)
            case AttributeSlot(a) => if a.writeOnly then Null else v.fields[k]
            case BlockSlot(nb) => StrippedElements(v.fields[k], nb.nesting, nb.block)
            case Undeclared => v.fields[k]
  {
    SlotSpec(block, k);
    var x := if k in WriteOnlyNames(block.attributes) then Null else v.fields[k];
    assert Stripped(v, block).fields[k] == StrippedSlot(v.fields[k], block, k)
      == StrippedBy(block, Matching(block.nested, k), x);
    StrippedByFew(block, x);
  }

  lemma {:induction false} StrippedByFew(block: Block, x: Value)
    ensures StrippedBy(block, [], x) == x
    ensures forall nb | nb in block.nested :: StrippedBy(block, [nb], x) == StrippedElements(x, nb.nesting, nb.block)
  {
    forall nb | nb in block.nested ensures StrippedBy(block, [nb], x) == StrippedElements(x, nb.nesting, nb.block) {
      StrippedByAppend(block, [], nb, x);
      assert [] + [nb] == [nb];
    }
  }

  lemma {:induction false} MergedByFew(block: Block, x: Value, y: Value)
    ensures MergedBy(block, [], x, y) == x
    ensures forall nb | nb in block.nested :: MergedBy(block, [nb], x, y) == MergedElements(x, y, nb.nesting, nb.block)
  {
    forall nb | nb in block.nested ensures MergedBy(block, [nb], x, y) == MergedElements(x, y, nb.nesting, nb.block) {
      MergedByAppend(block, [], nb, x, y);
      assert [] + [nb] == [nb];
    }
  }

  lemma {:induction false} MergedAt(s: Value, c: Value, block: Block, k: string)
    requires DistinctBlock(block) && s.Object? && c.Object?
    ensures k in Merged(s, c, block).fields <==>
            k in s.fields || (k in c.fields && SlotOf(block, k).AttributeSlot? && SlotOf(block, k).attr.writeOnly)
    ensures k in Merged(s, c, block).fields ==>
              Merged(s, c, block).fields[k] ==
              match SlotOf(block, k)
              case AttributeSlot(a) => if a.writeOnly && k in c.fields then c.fields[k] else s.fields[k]
              case BlockSlot(nb) =>
                if k in c.fields then MergedElements(s.fields[k], c.fields[k], nb.nesting, nb.block) else s.fields[k]
              case Undeclared => s.fields[k]
  {
    SlotSpec(block, k);
    var base := WithSecrets(s.fields, c.fields, WriteOnlyNames(block.attributes));
    if k in base {
      assert Merged(s, c, block).fields[k] == MergedSlot(base, c.fields, block, k);
      if k in c.fields { MergedByFew(block, base[k], c.fields[k]); }
    }
  }

  lemma {:induction false} DistinctChild(block: Block, nb: NestedBlock)
    requires DistinctBlock(block) && nb in block.nested
    ensures DistinctBlock(nb.block)
  {
    var j :| 0 <= j < |block.nested| && block.nested[j] == nb;
  }

  // --- no secret is kept ------------------------------------------------------

  /** No write-only slot at any depth holds a value; `lax` lets a slot be unknown. */
  predicate Clean(v: Value, block: Block, lax: bool)
    decreases block, 1
  {
    v.Object? ==> forall k | k in v.fields ::
        match SlotOf(block, k)
        case AttributeSlot(a) => a.writeOnly ==> v.fields[k].Null? || (lax && v.fields[k].Unknown?)
        case BlockSlot(nb) => CleanElements(v.fields[k], nb.nesting, nb.block, lax)
        case Undeclared => true
  }

  predicate CleanElements(x: Value, mode: NestingMode, inner: Block, lax: bool)
    decreases inner, 2
  {
    match mode
    case NestSingle => Clean(x, inner, lax)
    case NestMap => x.Map? ==> forall k | k in x.entries :: Clean(x.entries[k], inner, lax)
    case _ => x.List? || x.Set? ==> forall i | 0 <= i < |x.items| :: Clean(x.items[i], inner, lax)
  }

  /** What `strip` returns holds no write-only value. */
  lemma {:induction false} StripCleans(v: Value, block: Block)
    requires DistinctBlock(block)
    ensures Clean(Stripped(v, block), block, false)
    decreases block, 1
  {
    if v.Object? {
      forall k | k in v.fields && SlotOf(block, k).BlockSlot?
        ensures var nb := SlotOf(block, k).nb; CleanElements(Stripped(v, block).fields[k], nb.nesting, nb.block, false)
      {
        var nb := SlotOf(block, k).nb;
        DistinctChild(block, nb);
        StripCleansElements(v.fields[k], nb.nesting, nb.block);
        StrippedAt(v, block, k);
      }
      forall k | k in v.fields { StrippedAt(v, block, k); }
    }
  }

  lemma {:induction false} StripCleansElements(x: Value, mode: NestingMode, inner: Block)
    requires DistinctBlock(inner)
    ensures CleanElements(StrippedElements(x, mode, inner), mode, inner, false)
    decreases inner, 2
  {
    if mode.NestSingle? {
      StripCleans(x, inner);
    } else if x.Map? {
      forall k | k in x.entries { StripCleans(x.entries[k], inner); }
    } else if x.List? || x.Set? {
      forall i | 0 <= i < |x.items| { StripCleans(x.items[i], inner); }
    }
  }

  /** A value with nothing in its write-only slots is left alone. */
  lemma {:induction false} StripClean(v: Value, block: Block)
    requires DistinctBlock(block) && Clean(v, block, false)
    ensures Stripped(v, block) == v
    decreases block, 1
  {
    if v.Object? {
      forall k | k in v.fields ensures Stripped(v, block).fields[k] == v.fields[k] {
        StrippedAt(v, block, k);
        if SlotOf(block, k).BlockSlot? {
          var nb := SlotOf(block, k).nb;
          DistinctChild(block, nb);
          StripCleanElements(v.fields[k], nb.nesting, nb.block);
        }
      }
    }
  }

  lemma {:induction false} StripCleanElements(x: Value, mode: NestingMode, inner: Block)
    requires DistinctBlock(inner) && CleanElements(x, mode, inner, false)
    ensures StrippedElements(x, mode, inner) == x
    decreases inner, 2
  {
    if mode.NestSingle? {
      StripClean(x, inner);
    } else if mode.NestMap? {
      if x.Map? { forall k | k in x.entries { StripClean(x.entries[k], inner); } }
    } else if x.List? || x.Set? {
      forall i | 0 <= i < |x.items| { StripClean(x.items[i], inner); }
      assert StrippedElements(x, mode, inner).items == x.items;
    }
  }

  lemma {:induction false} StripIdempotent(v: Value, block: Block)
    requires DistinctBlock(block)
    ensures Stripped(Stripped(v, block), block) == Stripped(v, block)
  {
    StripCleans(v, block);
    StripClean(Stripped(v, block), block);
  }

  // --- nothing else moves -----------------------------------------------------

  /** Whether a path ends at or below a write-only attribute of the schema. */
  predicate ThroughSecret(block: Block, p: Path)
    decreases block
  {
    p != [] && p[0].Attribute?
    && match SlotOf(block, p[0].name)
       case AttributeSlot(a) => a.writeOnly
       case BlockSlot(nb) =>
         if nb.nesting.NestSingle? then ThroughSecret(nb.block, p[1..])
         else |p| > 1 && FitsMode(p[1], nb.nesting) && ThroughSecret(nb.block, p[2..])
       case Undeclared => false
  }

  /** The step that selects one element of a nested block. */
  predicate FitsMode(step: PathStep, mode: NestingMode) {
    match mode
    case NestSingle => false
    case NestMap => step.Key?
    case _ => step.Index?
  }

  predicate Leaf(v: Value) { !(v.Object? || v.List? || v.Set? || v.Map?) }

  /** The same kind of value, with the same keys or as many elements; leaves are equal. */
  predicate SameOutline(x: Value, y: Value) {
    match (x, y)
    case (Object(a), Object(b)) => a.Keys == b.Keys
    case (Map(a), Map(b)) => a.Keys == b.Keys
    case (List(a), List(b)) => |a| == |b|
    case (Set(a), Set(b)) => |a| == |b|
    case _ => x == y
  }

  predicate SameReading(x: Option<Value>, y: Option<Value>) {
    match (x, y)
    case (None, None) => true
    case (Some(a), Some(b)) => SameOutline(a, b)
    case _ => false
  }

  /** Off the write-only attributes every path reads the same before and after: leaves
      are equal, containers keep their keys and lengths, and nothing is added. */
  lemma {:induction false} StripKeepsTheRest(v: Value, block: Block, p: Path)
    requires DistinctBlock(block) && !ThroughSecret(block, p)
    ensures SameReading(GetAt(v, p), GetAt(Stripped(v, block), p))
    decreases block, 1
  {
    if v.Object? && p != [] && p[0].Attribute? && p[0].name in v.fields {
      var k := p[0].name;
      StrippedAt(v, block, k);
      GetAtField(v.fields, p);
      GetAtField(Stripped(v, block).fields, p);
      if SlotOf(block, k).BlockSlot? {
        var nb := SlotOf(block, k).nb;
        DistinctChild(block, nb);
        assert |p| > 1 ==> p[1..][1..] == p[2..];
        StripKeepsElements(v.fields[k], nb.nesting, nb.block, p[1..]);
      } else {
        SameAsItself(GetAt(v, p));
      }
    } else if !v.Object? {
      SameAsItself(GetAt(v, p));
    }
  }

  lemma {:induction false} SameAsItself(x: Option<Value>)
    ensures SameReading(x, x)
  {
  }

  lemma {:induction false} StrippedOutline(x: Value, mode: NestingMode, inner: Block)
    ensures SameOutline(x, StrippedElements(x, mode, inner))
    ensures !mode.NestSingle? ==>
              forall step | Child(x, step).Some? :: Child(StrippedElements(x, mode, inner), step)
                == Some(if Strips(x, mode) then Stripped(Child(x, step).value, inner) else Child(x, step).value)
    ensures !mode.NestSingle? ==>
              forall step | Child(x, step).None? :: Child(StrippedElements(x, mode, inner), step).None?
  {
  }

  /** Whether the walk visits the elements of a value of this kind. */
  predicate Strips(x: Value, mode: NestingMode) {
    match mode
    case NestSingle => true
    case NestMap => x.Map?
    case _ => x.List? || x.Set?
  }

  lemma {:induction false} StripKeepsElements(x: Value, mode: NestingMode, inner: Block, p: Path)
    requires DistinctBlock(inner)
    requires if mode.NestSingle? then !ThroughSecret(inner, p)
             else p != [] && FitsMode(p[0], mode) ==> !ThroughSecret(inner, p[1..])
    ensures SameReading(GetAt(x, p), GetAt(StrippedElements(x, mode, inner), p))
    decreases inner, 2
  {
    StrippedOutline(x, mode, inner);
    if mode.NestSingle? {
      StripKeepsTheRest(x, inner, p);
    } else if p != [] && Child(x, p[0]).Some? {
      if Strips(x, mode) {
        StripKeepsTheRest(Child(x, p[0]).value, inner, p[1..]);
      } else {
        SameAsItself(GetAt(x, p));
      }
    }
  }

  // --- blocks without secrets -------------------------------------------------

  /** The skip in apply is sound: with no write-only attribute declared, both walks
      change nothing. */
  lemma {:induction false} NoSecretsNoChange(v: Value, c: Value, block: Block)
    requires !BlockHas(block)
    ensures Stripped(v, block) == v && Merged(v, c, block) == v
    decreases block, 1, 0
  {
    assert WriteOnlyNames(block.attributes) == {};
    if v.Object? {
      forall k | k in v.fields ensures StrippedSlot(v.fields[k], block, k) == v.fields[k] {
        NoSecretsBy(block, Matching(block.nested, k), v.fields[k], v.fields[k]);
      }
      if c.Object? {
        forall k | k in v.fields && k in c.fields
          ensures MergedBy(block, Matching(block.nested, k), v.fields[k], c.fields[k]) == v.fields[k]
        {
          NoSecretsBy(block, Matching(block.nested, k), v.fields[k], c.fields[k]);
        }
        assert WithSecrets(v.fields, c.fields, {}) == v.fields;
      }
    }
  }

  lemma {:induction false} NoSecretsBy(block: Block, bs: seq<NestedBlock>, x: Value, y: Value)
    requires !BlockHas(block) && forall nb | nb in bs :: nb in block.nested
    ensures StrippedBy(block, bs, x) == x && MergedBy(block, bs, x, y) == x
    decreases block, 0, |bs|
  {
    if bs != [] {
      var nb := bs[|bs| - 1];
      assert nb in bs;
      NoSecretsBy(block, bs[..|bs| - 1], x, y);
      NoSecretsElements(x, y, nb.nesting, nb.block);
    }
  }

  lemma {:induction false} NoSecretsElements(x: Value, y: Value, mode: NestingMode, inner: Block)
    requires !BlockHas(inner)
    ensures StrippedElements(x, mode, inner) == x && MergedElements(x, y, mode, inner) == x
    decreases inner, 2
  {
    match mode
    case NestSingle => NoSecretsNoChange(x, y, inner);
    case NestMap =>
      if x.Map? {
        forall k | k in x.entries {
          NoSecretsNoChange(x.entries[k], if y.Map? && k in y.entries then y.entries[k] else y, inner);
        }
      }
    case NestList =>
      NoSecretsItems(x, y, mode, inner);
      if x.List? && y.List? { assert MergedElements(x, y, mode, inner).items == x.items; }
    case NestSet =>
      NoSecretsItems(x, y, mode, inner);
  }

  lemma {:induction false} NoSecretsItems(x: Value, y: Value, mode: NestingMode, inner: Block)
    requires !BlockHas(inner) && (mode.NestList? || mode.NestSet?)
    ensures StrippedElements(x, mode, inner) == x
    ensures x.List? && y.List? ==>
              forall i | 0 <= i < |x.items| && i < |y.items| :: Merged(x.items[i], y.items[i], inner) == x.items[i]
    decreases inner, 1, 1
  {
    if x.List? || x.Set? {
      forall i | 0 <= i < |x.items|
        ensures Stripped(x.items[i], inner) == x.items[i]
        ensures y.List? && i < |y.items| ==> Merged(x.items[i], y.items[i], inner) == x.items[i]
      {
        NoSecretsNoChange(x.items[i], if y.List? && i < |y.items| then y.items[i] else y, inner);
      }
      assert StrippedElements(x, mode, inner).items == x.items;
    }
  }

  // --- strip undoes merge -----------------------------------------------------

  /** Every write-only attribute the configuration carries at an aligned place is a key
      the state already has. */
  predicate Covered(s: Value, c: Value, block: Block)
    decreases block, 1
  {
    s.Object? && c.Object? ==>
      && (forall k | k in c.fields && SecretAdded(s, c, block, k) :: k in s.fields)
      && forall k | k in s.fields :: FieldCovered(s, c, block, k)
  }

  predicate CoveredElements(x: Value, y: Value, mode: NestingMode, inner: Block)
    decreases inner, 2
  {
    match mode
    case NestSingle => Covered(x, y, inner)
    case NestList =>
      x.List? && y.List? ==> forall i | 0 <= i < |x.items| && i < |y.items| :: Covered(x.items[i], y.items[i], inner)
    case NestMap =>
      x.Map? && y.Map? ==> forall k | k in x.entries && k in y.entries :: Covered(x.entries[k], y.entries[k], inner)
    case NestSet => true
  }

  /** Stripping undoes a merge exactly when the merge added no key. */
  lemma {:induction false} StripUndoesMerge(s: Value, c: Value, block: Block)
    requires DistinctBlock(block)
    ensures Stripped(Merged(s, c, block), block) == Stripped(s, block) <==> Covered(s, c, block)
    decreases block, 1
  {
    if s.Object? && c.Object? {
      var a, b := Stripped(Merged(s, c, block), block).fields, Stripped(s, block).fields;
      forall k
        ensures k in a <==> k in s.fields || SecretAdded(s, c, block, k)
        ensures k in s.fields ==> (a[k] == b[k] <==> FieldCovered(s, c, block, k))
      {
        StripUndoesField(s, c, block, k);
      }
      if Covered(s, c, block) {
        forall k ensures k in a <==> k in b { if SecretAdded(s, c, block, k) { assert k in s.fields; } }
        forall k | k in b ensures a[k] == b[k] { assert FieldCovered(s, c, block, k); }
        assert a == b;
      } else if k :| SecretAdded(s, c, block, k) && k !in s.fields {
        assert k in a && k !in b;
      } else {
        var k :| k in s.fields && !FieldCovered(s, c, block, k);
        assert a[k] != b[k];
      }
    }
  }

  predicate SecretAdded(s: Value, c: Value, block: Block, k: string)
    requires s.Object? && c.Object?
  {
    k in c.fields && SlotOf(block, k).AttributeSlot? && SlotOf(block, k).attr.writeOnly
  }

  predicate FieldCovered(s: Value, c: Value, block: Block, k: string)
    requires s.Object? && c.Object? && k in s.fields
    decreases block, 0
  {
    k in c.fields && SlotOf(block, k).BlockSlot? ==>
      CoveredElements(s.fields[k], c.fields[k], SlotOf(block, k).nb.nesting, SlotOf(block, k).nb.block)
  }

  lemma {:induction false} StripUndoesField(s: Value, c: Value, block: Block, k: string)
    requires DistinctBlock(block) && s.Object? && c.Object?
    ensures var a, b := Stripped(Merged(s, c, block), block).fields, Stripped(s, block).fields;
            && (k in a <==> k in s.fields || SecretAdded(s, c, block, k))
            && (k in s.fields ==> (a[k] == b[k] <==> FieldCovered(s, c, block, k)))
    decreases block, 0
  {
    var m := Merged(s, c, block);
    MergedAt(s, c, block, k);
    if k in m.fields { StrippedAt(m, block, k); }
    if k in s.fields {
      StrippedAt(s, block, k);
      if k in c.fields && SlotOf(block, k).BlockSlot? {
        var nb := SlotOf(block, k).nb;
        DistinctChild(block, nb);
        StripUndoesElements(s.fields[k], c.fields[k], nb.nesting, nb.block);
      }
    }
  }

  lemma {:induction false} StripUndoesElements(x: Value, y: Value, mode: NestingMode, inner: Block)
    requires DistinctBlock(inner)
    ensures StrippedElements(MergedElements(x, y, mode, inner), mode, inner) == StrippedElements(x, mode, inner)
            <==> CoveredElements(x, y, mode, inner)
    decreases inner, 2
  {
    match mode
    case NestSingle => StripUndoesMerge(x, y, inner);
    case NestList =>
      if x.List? && y.List? {
        var a := StrippedElements(MergedElements(x, y, mode, inner), mode, inner).items;
        var b := StrippedElements(x, mode, inner).items;
        forall i | 0 <= i < |x.items|
          ensures a[i] == b[i] <==> (i < |y.items| ==> Covered(x.items[i], y.items[i], inner))
        {
          if i < |y.items| { StripUndoesMerge(x.items[i], y.items[i], inner); }
        }
        if CoveredElements(x, y, mode, inner) { assert a == b; }
      }
    case NestMap =>
      if x.Map? && y.Map? {
        var a := StrippedElements(MergedElements(x, y, mode, inner), mode, inner).entries;
        var b := StrippedElements(x, mode, inner).entries;
        forall k | k in x.entries
          ensures a[k] == b[k] <==> (k in y.entries ==> Covered(x.entries[k], y.entries[k], inner))
        {
          if k in y.entries { StripUndoesMerge(x.entries[k], y.entries[k], inner); }
        }
        if CoveredElements(x, y, mode, inner) { assert a == b; }
      }
    case NestSet =>
  }

  // --- merge delivers ---------------------------------------------------------

  /** The path leads to a write-only attribute the configuration carries, inside an
      object the state has at the aligned place: list elements by position, map
      entries by key, never through a set block. */
  predicate Aligned(s: Value, c: Value, block: Block, p: Path)
    decreases block, 1
  {
    p != [] && p[0].Attribute? && s.Object? && c.Object? && p[0].name in c.fields
    && match SlotOf(block, p[0].name)
       case AttributeSlot(a) => a.writeOnly && |p| == 1
       case BlockSlot(nb) =>
         p[0].name in s.fields
         && AlignedElements(s.fields[p[0].name], c.fields[p[0].name], nb.nesting, nb.block, p[1..])
       case Undeclared => false
  }

  predicate AlignedElements(x: Value, y: Value, mode: NestingMode, inner: Block, p: Path)
    decreases inner, 2
  {
    match mode
    case NestSingle => Aligned(x, y, inner, p)
    case NestList =>
      x.List? && y.List? && p != [] && p[0].Index?
      && 0 <= p[0].index < |x.items| && p[0].index < |y.items|
      && Aligned(x.items[p[0].index], y.items[p[0].index], inner, p[1..])
    case NestMap =>
      x.Map? && y.Map? && p != [] && p[0].Key? && p[0].key in x.entries && p[0].key in y.entries
      && Aligned(x.entries[p[0].key], y.entries[p[0].key], inner, p[1..])
    case NestSet => false
  }

  /** After a merge the handler reads, at every aligned write-only slot, exactly the
      value the configuration has there. */
  lemma {:induction false} MergeDelivers(s: Value, c: Value, block: Block, p: Path)
    requires DistinctBlock(block) && Aligned(s, c, block, p)
    ensures GetAt(c, p).Some? && GetAt(Merged(s, c, block), p) == GetAt(c, p)
    decreases block, 1
  {
    var k := p[0].name;
    MergedAt(s, c, block, k);
    GetAtField(c.fields, p);
    GetAtField(Merged(s, c, block).fields, p);
    match SlotOf(block, k)
    case AttributeSlot(a) =>
      assert p[1..] == [];
    case BlockSlot(nb) =>
      DistinctChild(block, nb);
      MergeDeliversElements(s.fields[k], c.fields[k], nb.nesting, nb.block, p[1..]);
  }

  lemma {:induction false} MergeDeliversElements(x: Value, y: Value, mode: NestingMode, inner: Block, p: Path)
    requires DistinctBlock(inner) && AlignedElements(x, y, mode, inner, p)
    ensures GetAt(y, p).Some? && GetAt(MergedElements(x, y, mode, inner), p) == GetAt(y, p)
    decreases inner, 2
  {
    if mode.NestSingle? {
      MergeDelivers(x, y, inner, p);
    } else {
      MergedChild(x, y, mode, inner, p);
      MergeDelivers(Child(x, p[0]).value, Child(y, p[0]).value, inner, p[1..]);
    }
  }

  lemma {:induction false} MergedChild(x: Value, y: Value, mode: NestingMode, inner: Block, p: Path)
    requires !mode.NestSingle? && AlignedElements(x, y, mode, inner, p)
    ensures p != [] && Child(x, p[0]).Some? && Child(y, p[0]).Some?
    ensures Aligned(Child(x, p[0]).value, Child(y, p[0]).value, inner, p[1..])
    ensures Child(MergedElements(x, y, mode, inner), p[0])
            == Some(Merged(Child(x, p[0]).value, Child(y, p[0]).value, inner))
  {
  }

  /** The path goes through, or ends at, a set block at any depth. */
  predicate ThroughSet(block: Block, p: Path)
    decreases block
  {
    p != [] && p[0].Attribute? && SlotOf(block, p[0].name).BlockSlot?
    && var nb := SlotOf(block, p[0].name).nb;
       if nb.nesting.NestSet? then true
       else if nb.nesting.NestSingle? then ThroughSet(nb.block, p[1..])
       else |p| > 1 && FitsMode(p[1], nb.nesting) && ThroughSet(nb.block, p[2..])
  }

  predicate ThroughSetElement(mode: NestingMode, inner: Block, p: Path) {
    if mode.NestSet? then true
    else if mode.NestSingle? then ThroughSet(inner, p)
    else p != [] && FitsMode(p[0], mode) && ThroughSet(inner, p[1..])
  }

  /** Set blocks, at every depth, are left exactly as they were. */
  lemma {:induction false} MergeSkipsSets(s: Value, c: Value, block: Block, p: Path)
    requires DistinctBlock(block) && ThroughSet(block, p)
    ensures GetAt(Merged(s, c, block), p) == GetAt(s, p)
    decreases block, 1
  {
    if s.Object? && c.Object? {
      var k := p[0].name;
      MergedAt(s, c, block, k);
      GetAtField(s.fields, p);
      GetAtField(Merged(s, c, block).fields, p);
      if k in s.fields && k in c.fields {
        var nb := SlotOf(block, k).nb;
        DistinctChild(block, nb);
        assert |p| > 1 ==> p[1..][1..] == p[2..];
        MergeSkipsElements(s.fields[k], c.fields[k], nb.nesting, nb.block, p[1..]);
      }
    }
  }

  lemma {:induction false} MergeSkipsElements(x: Value, y: Value, mode: NestingMode, inner: Block, p: Path)
    requires DistinctBlock(inner) && ThroughSetElement(mode, inner, p)
    ensures GetAt(MergedElements(x, y, mode, inner), p) == GetAt(x, p)
    decreases inner, 2
  {
    if mode.NestSingle? {
      MergeSkipsSets(x, y, inner, p);
    } else if !mode.NestSet? {
      MergedElementAt(x, y, mode, inner, p[0]);
      if Child(x, p[0]).Some? && Merges(x, y, mode, p[0]) {
        MergeSkipsSets(Child(x, p[0]).value, Child(y, p[0]).value, inner, p[1..]);
      }
    }
  }

  /** Whether the merge visits the element a step selects. */
  predicate Merges(x: Value, y: Value, mode: NestingMode, step: PathStep) {
    && Child(x, step).Some? && Child(y, step).Some?
    && match mode
       case NestList => x.List? && y.List?
       case NestMap => x.Map? && y.Map?
       case _ => false
  }

  lemma {:induction false} MergedElementAt(x: Value, y: Value, mode: NestingMode, inner: Block, step: PathStep)
    requires !mode.NestSingle?
    ensures Child(MergedElements(x, y, mode, inner), step) ==
            if Merges(x, y, mode, step) then Some(Merged(Child(x, step).value, Child(y, step).value, inner))
            else Child(x, step)
  {
  }

  // --- nothing else is merged -------------------------------------------------

  /** A path reads as before: a leaf is equal, and what was missing is still missing. */
  predicate SameLeaf(x: Option<Value>, y: Option<Value>) {
    (x.Some? <==> y.Some?) && (x.Some? && Leaf(x.value) ==> x == y)
  }

  /** Off the write-only attributes, at every depth, a merge changes no leaf and adds
      nothing. */
  lemma {:induction false} MergeKeepsTheRest(s: Value, c: Value, block: Block, p: Path)
    requires DistinctBlock(block) && !ThroughSecret(block, p)
    ensures SameLeaf(GetAt(s, p), GetAt(Merged(s, c, block), p))
    decreases block, 1
  {
    if s.Object? && c.Object? && p != [] && p[0].Attribute? {
      var k := p[0].name;
      MergedAt(s, c, block, k);
      GetAtField(s.fields, p);
      GetAtField(Merged(s, c, block).fields, p);
      if k in s.fields && k in c.fields && SlotOf(block, k).BlockSlot? {
        var nb := SlotOf(block, k).nb;
        DistinctChild(block, nb);
        assert |p| > 1 ==> p[1..][1..] == p[2..];
        MergeKeepsElements(s.fields[k], c.fields[k], nb.nesting, nb.block, p[1..]);
      }
    }
  }

  lemma {:induction false} MergeKeepsElements(x: Value, y: Value, mode: NestingMode, inner: Block, p: Path)
    requires DistinctBlock(inner)
    requires if mode.NestSingle? then !ThroughSecret(inner, p)
             else p != [] && FitsMode(p[0], mode) ==> !ThroughSecret(inner, p[1..])
    ensures SameLeaf(GetAt(x, p), GetAt(MergedElements(x, y, mode, inner), p))
    decreases inner, 2
  {
    if mode.NestSingle? {
      MergeKeepsTheRest(x, y, inner, p);
    } else if p != [] {
      MergedElementAt(x, y, mode, inner, p[0]);
      if Merges(x, y, mode, p[0]) { MergeKeepsTheRest(Child(x, p[0]).value, Child(y, p[0]).value, inner, p[1..]); }
    }
  }
}
