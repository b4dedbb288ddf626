/** What a plan keeps, what it settles, and why planning converges. */
module PlanLaws {
  import opened Wrappers
  import opened Text
  import opened Types
  import opened Values
  import opened Encode
  import opened Schema
  import opened WriteOnly
  import opened WriteOnlyLaws
  import opened Paths
  import opened Plan

  // --- one field at a time ----------------------------------------------------

  lemma {:induction false} MarkedAttributesAt(
    fields: map<string, Value>, attributes: seq<AttributeSchema>, replacing: bool, k: string)
    ensures (forall i | 0 <= i < |attributes| :: attributes[i].name != k) ==>
              Field(MarkedAttributes(fields, attributes, replacing), k) == Field(fields, k)
  {
    if attributes != [] { MarkedAttributesAt(fields, attributes[..|attributes| - 1], replacing, k); }
  }

  lemma {:induction false} MarkedAttributeAt(
    fields: map<string, Value>, attributes: seq<AttributeSchema>, replacing: bool, i: nat)
    requires i < |attributes|
    requires forall m | 0 <= m < |attributes| && m != i :: attributes[m].name != attributes[i].name
    ensures Field(MarkedAttributes(fields, attributes, replacing), attributes[i].name)
            == MarkedSlot(Field(fields, attributes[i].name), attributes[i], replacing)
  {
    var n := |attributes| - 1;
    if i == n {
      MarkedAttributesAt(fields, attributes[..n], replacing, attributes[i].name);
    } else {
      MarkedAttributeAt(fields, attributes[..n], replacing, i);
    }
  }

  lemma {:induction false} MarkedFieldsAt(fields: map<string, Value>, block: Block, replacing: bool, k: string)
    requires DistinctBlock(block)
    ensures Field(MarkedAttributes(fields, block.attributes, replacing), k) ==
            match SlotOf(block, k)
            case AttributeSlot(a) => MarkedSlot(Field(fields, k), a, replacing)
            case _ => Field(fields, k)
  {
    var i := FindAttribute(block.attributes, k);
    if i < |block.attributes| {
      forall m | 0 <= m < |block.attributes| && m != i ensures block.attributes[m].name != k {
        DistinctAttributes(block, m, i);
      }
      MarkedAttributeAt(fields, block.attributes, replacing, i);
    } else {
      MarkedAttributesAt(fields, block.attributes, replacing, k);
    }
  }

  lemma {:induction false} MarkedByFew(block: Block, x: Value, replacing: bool)
    ensures MarkedBy(block, [], x, replacing) == x
    ensures forall nb | nb in block.nested ::
              MarkedBy(block, [nb], x, replacing) == MarkedElements(x, nb.nesting, nb.block, replacing)
  {
    forall nb | nb in block.nested
      ensures MarkedBy(block, [nb], x, replacing) == MarkedElements(x, nb.nesting, nb.block, replacing)
    {
      MarkedByAppend(block, [], nb, x, replacing);
      assert [] + [nb] == [nb];
    }
  }

  /** The marked object, key by key. */
  lemma {:induction false} MarkedAt(v: Value, block: Block, replacing: bool, k: string)
    requires DistinctBlock(block) && v.Object?
    ensures Field(Marked(v, block, replacing).fields, k) ==
            match SlotOf(block, k)
            case AttributeSlot(a) => MarkedSlot(Field(v.fields, k), a, replacing)
            case BlockSlot(nb) =>
              if k in v.fields then Some(MarkedElements(v.fields[k], nb.nesting, nb.block, replacing)) else None
            case Undeclared => Field(v.fields, k)
  {
    SlotSpec(block, k);
    MarkedFieldsAt(v.fields, block, replacing, k);
    var fields := MarkedAttributes(v.fields, block.attributes, replacing);
    if k in fields {
      assert Marked(v, block, replacing).fields[k] == MarkedBy(block, Matching(block.nested, k), fields[k], replacing);
      MarkedByFew(block, fields[k], replacing);
    }
  }

  // --- types ------------------------------------------------------------------

  /** Every declared default conforms to its attribute's type. */
  predicate DefaultsConform(block: Block) {
    && (forall i | 0 <= i < |block.attributes| && block.attributes[i].dflt.Some? ::
          Conforms(block.attributes[i].dflt.value, block.attributes[i].ty))
    && forall j | 0 <= j < |block.nested| :: DefaultsConform(block.nested[j].block)
  }

  /** Conformance seen slot by slot. */
  predicate SlotConforms(block: Block, k: string, x: Value) {
    match SlotOf(block, k)
    case AttributeSlot(a) => Conforms(x, a.ty)
    case BlockSlot(nb) => Conforms(x, Nest(nb.nesting, CtyType(nb.block)))
    case Undeclared => true
  }

  lemma {:induction false} ConformsBySlot(v: Value, block: Block)
    requires DistinctBlock(block) && v.Object?
    ensures Conforms(v, CtyType(block)) <==> forall k | k in v.fields :: SlotConforms(block, k, v.fields[k])
  {
    ConformsToBlock(v, block);
    if forall k | k in v.fields :: SlotConforms(block, k, v.fields[k]) {
      forall i | 0 <= i < |block.attributes| && block.attributes[i].name in v.fields
        ensures Conforms(v.fields[block.attributes[i].name], block.attributes[i].ty)
      {
        SlotOfAttribute(block, i);
        assert SlotConforms(block, block.attributes[i].name, v.fields[block.attributes[i].name]);
      }
      forall j | 0 <= j < |block.nested| && block.nested[j].name in v.fields
        ensures Conforms(v.fields[block.nested[j].name], Nest(block.nested[j].nesting, CtyType(block.nested[j].block)))
      {
        SlotOfNested(block, j);
        assert SlotConforms(block, block.nested[j].name, v.fields[block.nested[j].name]);
      }
    }
    if Conforms(v, CtyType(block)) {
      forall k | k in v.fields ensures SlotConforms(block, k, v.fields[k]) {
        match SlotOf(block, k)
        case AttributeSlot(a) => var i :| 0 <= i < |block.attributes| && block.attributes[i] == a;
        case BlockSlot(nb) => var j :| 0 <= j < |block.nested| && block.nested[j] == nb;
        case Undeclared =>
      }
    }
  }

  /** Marking keeps the type of a block's value. */
  lemma {:induction false} MarkKeepsType(v: Value, block: Block, replacing: bool)
    requires DistinctBlock(block) && DefaultsConform(block) && Conforms(v, CtyType(block))
    ensures Conforms(Marked(v, block, replacing), CtyType(block))
    decreases block, 1
  {
    if v.Object? {
      var m := Marked(v, block, replacing);
      ConformsBySlot(v, block);
      forall k | k in m.fields ensures SlotConforms(block, k, m.fields[k]) {
        MarkedAt(v, block, replacing, k);
        assert Field(m.fields, k) == Some(m.fields[k]);
        assert k in v.fields ==> SlotConforms(block, k, v.fields[k]);
        match SlotOf(block, k)
        case AttributeSlot(a) => var i :| 0 <= i < |block.attributes| && block.attributes[i] == a;
        case BlockSlot(nb) =>
          var j :| 0 <= j < |block.nested| && block.nested[j] == nb;
          MarkElementsKeepType(v.fields[k], nb.nesting, nb.block, replacing);
        case Undeclared =>
      }
      ConformsBySlot(m, block);
    }
  }

  lemma {:induction false} MarkElementsKeepType(x: Value, mode: NestingMode, inner: Block, replacing: bool)
    requires DistinctBlock(inner) && DefaultsConform(inner) && Conforms(x, Nest(mode, CtyType(inner)))
    ensures Conforms(MarkedElements(x, mode, inner, replacing), Nest(mode, CtyType(inner)))
    decreases inner, 2
  {
    match mode
    case NestSingle => MarkKeepsType(x, inner, replacing);
    case NestList => if x.List? { forall i | 0 <= i < |x.items| { MarkKeepsType(x.items[i], inner, replacing); } }
    case NestSet => if x.Set? { forall i | 0 <= i < |x.items| { MarkKeepsType(x.items[i], inner, replacing); } }
    case NestMap => if x.Map? { forall k | k in x.entries { MarkKeepsType(x.entries[k], inner, replacing); } }
  }

  /** Stripping keeps the type too. */
  lemma {:induction false} StripKeepsType(v: Value, block: Block)
    requires DistinctBlock(block) && Conforms(v, CtyType(block))
    ensures Conforms(Stripped(v, block), CtyType(block))
    decreases block, 1
  {
    if v.Object? {
      var m := Stripped(v, block);
      ConformsBySlot(v, block);
      forall k | k in m.fields ensures SlotConforms(block, k, m.fields[k]) {
        StrippedAt(v, block, k);
        assert SlotConforms(block, k, v.fields[k]);
        if SlotOf(block, k).BlockSlot? {
          var nb := SlotOf(block, k).nb;
          DistinctChild(block, nb);
          StripElementsKeepType(v.fields[k], nb.nesting, nb.block);
        }
      }
      ConformsBySlot(m, block);
    }
  }

  lemma {:induction false} StripElementsKeepType(x: Value, mode: NestingMode, inner: Block)
    requires DistinctBlock(inner) && Conforms(x, Nest(mode, CtyType(inner)))
    ensures Conforms(StrippedElements(x, mode, inner), Nest(mode, CtyType(inner)))
    decreases inner, 2
  {
    match mode
    case NestSingle => StripKeepsType(x, inner);
    case NestList => if x.List? { forall i | 0 <= i < |x.items| { StripKeepsType(x.items[i], inner); } }
    case NestSet => if x.Set? { forall i | 0 <= i < |x.items| { StripKeepsType(x.items[i], inner); } }
    case NestMap => if x.Map? { forall k | k in x.entries { StripKeepsType(x.entries[k], inner); } }
  }

  /** A proposal and defaults of the schema's type give a plan of the schema's type. */
  lemma {:induction false} PlanKeepsType(prior: Value, proposed: Value, block: Block)
    requires DistinctBlock(block) && DefaultsConform(block) && Conforms(proposed, CtyType(block))
    ensures Conforms(Planned(prior, proposed, block), CtyType(block))
  {
    var replacing := Replacements(prior, proposed, block) != [];
    MarkKeepsType(proposed, block, replacing);
    StripKeepsType(Marked(proposed, block, replacing), block);
  }

  // --- user intent ------------------------------------------------------------

  /** The path leads to an attribute that is neither computed nor write-only. */
  predicate UserSlot(block: Block, p: Path)
    decreases block
  {
    p != [] && p[0].Attribute?
    && match SlotOf(block, p[0].name)
       case AttributeSlot(a) => |p| == 1 && !a.computed && !a.writeOnly
       case BlockSlot(nb) =>
         if nb.nesting.NestSingle? then UserSlot(nb.block, p[1..])
         else |p| > 1 && FitsMode(p[1], nb.nesting) && UserSlot(nb.block, p[2..])
       case Undeclared => false
  }

  predicate UserElement(mode: NestingMode, inner: Block, p: Path) {
    if mode.NestSingle? then UserSlot(inner, p) else p != [] && FitsMode(p[0], mode) && UserSlot(inner, p[1..])
  }

  lemma {:induction false} MarkKeepsUser(v: Value, block: Block, replacing: bool, p: Path)
    requires DistinctBlock(block) && UserSlot(block, p) && GetAt(v, p).Some? && !GetAt(v, p).value.Null?
    ensures GetAt(Marked(v, block, replacing), p) == GetAt(v, p)
    decreases block, 1
  {
    var k := p[0].name;
    MarkedAt(v, block, replacing, k);
    GetAtField(v.fields, p);
    GetAtField(Marked(v, block, replacing).fields, p);
    if SlotOf(block, k).BlockSlot? {
      var nb := SlotOf(block, k).nb;
      DistinctChild(block, nb);
      assert |p| > 1 ==> p[1..][1..] == p[2..];
      MarkKeepsElement(v.fields[k], nb.nesting, nb.block, replacing, p[1..]);
    } else {
      assert p[1..] == [];
    }
  }

  lemma {:induction false} MarkKeepsElement(x: Value, mode: NestingMode, inner: Block, replacing: bool, p: Path)
    requires DistinctBlock(inner) && UserElement(mode, inner, p) && GetAt(x, p).Some? && !GetAt(x, p).value.Null?
    ensures GetAt(MarkedElements(x, mode, inner, replacing), p) == GetAt(x, p)
    decreases inner, 2
  {
    if mode.NestSingle? {
      MarkKeepsUser(x, inner, replacing, p);
    } else {
      MarkKeepsUser(Child(x, p[0]).value, inner, replacing, p[1..]);
      MarkedChild(x, mode, inner, replacing, p[0]);
    }
  }

  lemma {:induction false} MarkedChild(x: Value, mode: NestingMode, inner: Block, replacing: bool, step: PathStep)
    requires FitsMode(step, mode) && Child(x, step).Some?
    ensures Child(MarkedElements(x, mode, inner, replacing), step).Some?
    ensures var c := Child(MarkedElements(x, mode, inner, replacing), step).value;
            c == Marked(Child(x, step).value, inner, replacing) || c == Child(x, step).value
  {
  }

  lemma {:induction false} StripKeepsUser(v: Value, block: Block, p: Path)
    requires DistinctBlock(block) && UserSlot(block, p) && GetAt(v, p).Some?
    ensures GetAt(Stripped(v, block), p) == GetAt(v, p)
    decreases block, 1
  {
    var k := p[0].name;
    StrippedAt(v, block, k);
    if SlotOf(block, k).BlockSlot? {
      var nb := SlotOf(block, k).nb;
      DistinctChild(block, nb);
      assert |p| > 1 ==> p[1..][1..] == p[2..];
      StripKeepsElement(v.fields[k], nb.nesting, nb.block, p[1..]);
    }
  }

  lemma {:induction false} StripKeepsElement(x: Value, mode: NestingMode, inner: Block, p: Path)
    requires DistinctBlock(inner) && UserElement(mode, inner, p) && GetAt(x, p).Some?
    ensures GetAt(StrippedElements(x, mode, inner), p) == GetAt(x, p)
    decreases inner, 2
  {
    if mode.NestSingle? {
      StripKeepsUser(x, inner, p);
    } else {
      StripKeepsUser(Child(x, p[0]).value, inner, p[1..]);
      assert Child(StrippedElements(x, mode, inner), p[0]) == Some(Stripped(Child(x, p[0]).value, inner));
    }
  }

  /** At every depth, what the user set on an attribute that is neither computed nor
      write-only is in the plan unchanged. */
  lemma {:induction false} PlanKeepsIntent(prior: Value, proposed: Value, block: Block, p: Path)
    requires DistinctBlock(block) && UserSlot(block, p)
    requires GetAt(proposed, p).Some? && !GetAt(proposed, p).value.Null?
    ensures GetAt(Planned(prior, proposed, block), p) == GetAt(proposed, p)
  {
    var replacing := Replacements(prior, proposed, block) != [];
    MarkKeepsUser(proposed, block, replacing, p);
    StripKeepsUser(Marked(proposed, block, replacing), block, p);
  }

  // --- settled values ---------------------------------------------------------

  /** Whether planning inserts this attribute when it is missing. */
  predicate Supplied(a: AttributeSchema) { !a.required && (a.dflt.Some? || a.computed) }

  /** Whether planning leaves this attribute other than null. */
  predicate NeverNull(a: AttributeSchema) {
    !a.required && if a.dflt.Some? then !a.dflt.value.Null? else a.computed
  }

  /** Every supplied attribute is present, and no computed or defaulted one is null;
      after stripping, write-only ones are exempt. */
  predicate Settled(v: Value, block: Block, stripped: bool)
    decreases block, 1
  {
    v.Object? ==>
      && (forall a | a in block.attributes && Supplied(a) ::
            && a.name in v.fields
            && (NeverNull(a) && !(stripped && a.writeOnly) ==> !v.fields[a.name].Null?))
      && forall nb | nb in block.nested && nb.name in v.fields ::
           SettledElements(v.fields[nb.name], nb.nesting, nb.block, stripped)
  }

  predicate SettledElements(x: Value, mode: NestingMode, inner: Block, stripped: bool)
    decreases inner, 2
  {
    match mode
    case NestSingle => Settled(x, inner, stripped)
    case NestList => x.List? ==> forall i | 0 <= i < |x.items| :: Settled(x.items[i], inner, stripped)
    case NestSet => x.Set? ==> forall i | 0 <= i < |x.items| :: Settled(x.items[i], inner, stripped)
    case NestMap => x.Map? ==> forall k | k in x.entries :: Settled(x.entries[k], inner, stripped)
  }

  lemma {:induction false} SlotOfMember(block: Block, a: AttributeSchema)
    requires DistinctBlock(block) && a in block.attributes
    ensures SlotOf(block, a.name) == AttributeSlot(a)
  {
    var i :| 0 <= i < |block.attributes| && block.attributes[i] == a;
    SlotOfAttribute(block, i);
  }

  lemma {:induction false} SlotOfBlock(block: Block, nb: NestedBlock)
    requires DistinctBlock(block) && nb in block.nested
    ensures SlotOf(block, nb.name) == BlockSlot(nb) && DistinctBlock(nb.block)
  {
    var j :| 0 <= j < |block.nested| && block.nested[j] == nb;
    SlotOfNested(block, j);
  }

  lemma {:induction false} MarkSettles(v: Value, block: Block, replacing: bool)
    requires DistinctBlock(block)
    ensures Settled(Marked(v, block, replacing), block, false)
    decreases block, 1
  {
    if v.Object? {
      var m := Marked(v, block, replacing);
      forall a | a in block.attributes && Supplied(a)
        ensures a.name in m.fields && (NeverNull(a) ==> !m.fields[a.name].Null?)
      {
        SlotOfMember(block, a);
        MarkedAt(v, block, replacing, a.name);
      }
      forall nb | nb in block.nested && nb.name in m.fields
        ensures SettledElements(m.fields[nb.name], nb.nesting, nb.block, false)
      {
        SlotOfBlock(block, nb);
        MarkedAt(v, block, replacing, nb.name);
        MarkSettlesElements(v.fields[nb.name], nb.nesting, nb.block, replacing);
      }
    }
  }

  lemma {:induction false} MarkSettlesElements(x: Value, mode: NestingMode, inner: Block, replacing: bool)
    requires DistinctBlock(inner)
    ensures SettledElements(MarkedElements(x, mode, inner, replacing), mode, inner, false)
    decreases inner, 2
  {
    match mode
    case NestSingle => MarkSettles(x, inner, replacing);
    case NestList => if x.List? { forall i | 0 <= i < |x.items| { MarkSettles(x.items[i], inner, replacing); } }
    case NestSet => if x.Set? { forall i | 0 <= i < |x.items| { MarkSettles(x.items[i], inner, replacing); } }
    case NestMap => if x.Map? { forall k | k in x.entries { MarkSettles(x.entries[k], inner, replacing); } }
  }

  lemma {:induction false} StripKeepsSettled(v: Value, block: Block)
    requires DistinctBlock(block) && Settled(v, block, false)
    ensures Settled(Stripped(v, block), block, true)
    decreases block, 1
  {
    if v.Object? {
      var m := Stripped(v, block);
      forall a | a in block.attributes && Supplied(a)
        ensures a.name in m.fields && (NeverNull(a) && !a.writeOnly ==> !m.fields[a.name].Null?)
      {
        SlotOfMember(block, a);
        StrippedAt(v, block, a.name);
      }
      forall nb | nb in block.nested && nb.name in m.fields
        ensures SettledElements(m.fields[nb.name], nb.nesting, nb.block, true)
      {
        SlotOfBlock(block, nb);
        StrippedAt(v, block, nb.name);
        StripKeepsSettledElements(v.fields[nb.name], nb.nesting, nb.block);
      }
    }
  }

  lemma {:induction false} StripKeepsSettledElements(x: Value, mode: NestingMode, inner: Block)
    requires DistinctBlock(inner) && SettledElements(x, mode, inner, false)
    ensures SettledElements(StrippedElements(x, mode, inner), mode, inner, true)
    decreases inner, 2
  {
    match mode
    case NestSingle => StripKeepsSettled(x, inner);
    case NestList => if x.List? { forall i | 0 <= i < |x.items| { StripKeepsSettled(x.items[i], inner); } }
    case NestSet => if x.Set? { forall i | 0 <= i < |x.items| { StripKeepsSettled(x.items[i], inner); } }
    case NestMap => if x.Map? { forall k | k in x.entries { StripKeepsSettled(x.entries[k], inner); } }
  }

  /** A plan leaves no computed or defaulted attribute null, at any depth, and holds
      nothing in its write-only slots. */
  lemma {:induction false} PlanSettles(prior: Value, proposed: Value, block: Block)
    requires DistinctBlock(block)
    ensures Settled(Planned(prior, proposed, block), block, true)
    ensures Clean(Planned(prior, proposed, block), block, false)
  {
    if !proposed.Null? {
      var m := Marked(proposed, block, Replacements(prior, proposed, block) != []);
      MarkSettles(proposed, block, Replacements(prior, proposed, block) != []);
      StripKeepsSettled(m, block);
      StripCleans(m, block);
    }
  }

  // --- marking is idempotent --------------------------------------------------

  lemma {:induction false} MarkFixes(v: Value, block: Block)
    requires DistinctBlock(block) && Settled(v, block, false)
    ensures Marked(v, block, false) == v
    decreases block, 1
  {
    if v.Object? {
      var m := Marked(v, block, false);
      forall k ensures Field(m.fields, k) == Field(v.fields, k) {
        MarkedAt(v, block, false, k);
        match SlotOf(block, k)
        case AttributeSlot(a) => assert Supplied(a) ==> a.name in v.fields;
        case BlockSlot(nb) =>
          if k in v.fields {
            DistinctChild(block, nb);
            MarkFixesElements(v.fields[k], nb.nesting, nb.block);
          }
        case Undeclared =>
      }
      SameFields(m.fields, v.fields);
    }
  }

  lemma {:induction false} SameFields(a: map<string, Value>, b: map<string, Value>)
    requires forall k :: Field(a, k) == Field(b, k)
    ensures a == b
  {
    forall k ensures k in a <==> k in b { assert Field(a, k) == Field(b, k); }
    forall k | k in a ensures a[k] == b[k] { assert Field(a, k) == Field(b, k); }
  }

  lemma {:induction false} MarkFixesElements(x: Value, mode: NestingMode, inner: Block)
    requires DistinctBlock(inner) && SettledElements(x, mode, inner, false)
    ensures MarkedElements(x, mode, inner, false) == x
    decreases inner, 2
  {
    match mode
    case NestSingle => MarkFixes(x, inner);
    case NestList =>
      if x.List? {
        forall i | 0 <= i < |x.items| { MarkFixes(x.items[i], inner); }
        assert MarkedElements(x, mode, inner, false).items == x.items;
      }
    case NestSet =>
      if x.Set? {
        forall i | 0 <= i < |x.items| { MarkFixes(x.items[i], inner); }
        assert MarkedElements(x, mode, inner, false).items == x.items;
      }
    case NestMap => if x.Map? { forall k | k in x.entries { MarkFixes(x.entries[k], inner); } }
  }

  /** Marking what is already marked, without a replacement, changes nothing. */
  lemma {:induction false} MarkIdempotent(v: Value, block: Block, replacing: bool)
    requires DistinctBlock(block)
    ensures Marked(Marked(v, block, replacing), block, false) == Marked(v, block, replacing)
  {
    MarkSettles(v, block, replacing);
    MarkFixes(Marked(v, block, replacing), block);
  }

  // --- convergence ------------------------------------------------------------

  /** Marking and stripping a settled, clean value gives it back. */
  lemma {:induction false} FinishFixes(v: Value, block: Block)
    requires DistinctBlock(block) && Settled(v, block, true) && Clean(v, block, false)
    ensures Finished(v, block, false) == v
    decreases block, 1
  {
    if v.Object? {
      var m := Marked(v, block, false);
      forall k ensures Field(Stripped(m, block).fields, k) == Field(v.fields, k) {
        MarkedAt(v, block, false, k);
        if k in m.fields { StrippedAt(m, block, k); }
        match SlotOf(block, k)
        case AttributeSlot(a) => assert Supplied(a) ==> a.name in v.fields;
        case BlockSlot(nb) =>
          if k in v.fields {
            DistinctChild(block, nb);
            FinishFixesElements(v.fields[k], nb.nesting, nb.block);
          }
        case Undeclared =>
      }
      SameFields(Stripped(m, block).fields, v.fields);
    }
  }

  lemma {:induction false} FinishFixesElements(x: Value, mode: NestingMode, inner: Block)
    requires DistinctBlock(inner) && SettledElements(x, mode, inner, true) && CleanElements(x, mode, inner, false)
    ensures StrippedElements(MarkedElements(x, mode, inner, false), mode, inner) == x
    decreases inner, 2
  {
    var y := MarkedElements(x, mode, inner, false);
    if y == x {
      StripCleanElements(x, mode, inner);
    } else {
      match mode
      case NestSingle => FinishFixes(x, inner);
      case NestList =>
        forall i | 0 <= i < |x.items| { FinishFixes(x.items[i], inner); }
        assert StrippedElements(y, mode, inner).items == x.items;
      case NestSet =>
        forall i | 0 <= i < |x.items| { FinishFixes(x.items[i], inner); }
        assert StrippedElements(y, mode, inner).items == x.items;
      case NestMap => forall k | k in x.entries { FinishFixes(x.entries[k], inner); }
    }
  }

  /** The applied value completes the plan: nothing the plan promised comes back null,
      write-only slots stay null, keys and elements stay aligned, and what was wholly
      unknown is filled with a settled value. */
  predicate Fills(p: Value, a: Value, block: Block)
    decreases block, 1
  {
    if p.Unknown? then Settled(a, block, true) && Clean(a, block, false)
    else if !p.Object? then a == p
    else
      a.Object? && a.fields.Keys == p.fields.Keys
      && forall k | k in p.fields ::
           match SlotOf(block, k)
           case AttributeSlot(s) => if s.writeOnly then a.fields[k].Null? else !p.fields[k].Null? ==> !a.fields[k].Null?
           case BlockSlot(nb) => FillsElements(p.fields[k], a.fields[k], nb.nesting, nb.block)
           case Undeclared => true
  }

  predicate FillsElements(x: Value, y: Value, mode: NestingMode, inner: Block)
    decreases inner, 2
  {
    if x.Unknown? then SettledElements(y, mode, inner, true) && CleanElements(y, mode, inner, false)
    else
      match mode
      case NestSingle => Fills(x, y, inner)
      case NestList =>
        if x.List? then
          y.List? && |y.items| == |x.items| && forall i | 0 <= i < |x.items| :: Fills(x.items[i], y.items[i], inner)
        else y == x
      case NestSet =>
        if x.Set? then
          y.Set? && |y.items| == |x.items| && forall i | 0 <= i < |x.items| :: Fills(x.items[i], y.items[i], inner)
        else y == x
      case NestMap =>
        if x.Map? then
          y.Map? && y.entries.Keys == x.entries.Keys
          && forall k | k in x.entries :: Fills(x.entries[k], y.entries[k], inner)
        else y == x
  }

  lemma {:induction false} FilledIsSettled(p: Value, a: Value, block: Block)
    requires DistinctBlock(block) && Settled(p, block, true) && Clean(p, block, false) && Fills(p, a, block)
    ensures Settled(a, block, true) && Clean(a, block, false)
    decreases block, 1
  {
    if p.Object? {
      forall s | s in block.attributes && Supplied(s)
        ensures s.name in a.fields && (NeverNull(s) && !s.writeOnly ==> !a.fields[s.name].Null?)
      {
        SlotOfMember(block, s);
        assert s.name in p.fields;
      }
      forall nb | nb in block.nested && nb.name in a.fields
        ensures SettledElements(a.fields[nb.name], nb.nesting, nb.block, true)
        ensures CleanElements(a.fields[nb.name], nb.nesting, nb.block, false)
      {
        SlotOfBlock(block, nb);
        assert nb.name in p.fields;
        FilledElements(p.fields[nb.name], a.fields[nb.name], nb.nesting, nb.block);
      }
      forall k | k in a.fields && SlotOf(block, k).AttributeSlot?
        ensures SlotOf(block, k).attr.writeOnly ==> a.fields[k].Null?
      {
        assert k in p.fields;
      }
    }
  }

  lemma {:induction false} FilledElements(x: Value, y: Value, mode: NestingMode, inner: Block)
    requires DistinctBlock(inner) && SettledElements(x, mode, inner, true) && CleanElements(x, mode, inner, false)
    requires FillsElements(x, y, mode, inner)
    ensures SettledElements(y, mode, inner, true) && CleanElements(y, mode, inner, false)
    decreases inner, 2
  {
    if !x.Unknown? {
      match mode
      case NestSingle => FilledIsSettled(x, y, inner);
      case NestList => if x.List? { forall i | 0 <= i < |x.items| { FilledIsSettled(x.items[i], y.items[i], inner); } }
      case NestSet => if x.Set? { forall i | 0 <= i < |x.items| { FilledIsSettled(x.items[i], y.items[i], inner); } }
      case NestMap => if x.Map? { forall k | k in x.entries { FilledIsSettled(x.entries[k], y.entries[k], inner); } }
    }
  }

  /** No attribute whose change forces replacement holds a NaN. */
  predicate ComparableForceNew(v: Value, block: Block) {
    v.Object? ==>
      forall a | a in block.attributes && a.forceNew && a.name in v.fields :: AllNumbers(v.fields[a.name], NOT_NAN)
  }

  lemma {:induction false} SelfReplacement(v: Value, attributes: seq<AttributeSchema>)
    requires v.Object?
    ensures ReplacingPaths(v.fields, v.fields, attributes) == [] <==>
            forall a | a in attributes && a.forceNew && a.name in v.fields :: AllNumbers(v.fields[a.name], NOT_NAN)
  {
    if attributes != [] {
      var n := |attributes| - 1;
      SelfReplacement(v, attributes[..n]);
      assert attributes == attributes[..n] + [attributes[n]];
      if attributes[n].name in v.fields { EqReflexive(v.fields[attributes[n].name]); }
    }
  }

  /** Convergence. Once the applied value completes the plan, planning it against
      itself proposes no change and no replacement, exactly when no attribute that
      forces replacement holds a NaN (which never equals itself). */
  lemma {:induction false} PlanConverges(prior: Value, proposed: Value, applied: Value, block: Block)
    requires DistinctBlock(block) && Fills(Planned(prior, proposed, block), applied, block)
    ensures Planned(applied, applied, block) == applied && PlannedReplacements(applied, applied, block) == []
            <==> ComparableForceNew(applied, block)
  {
    PlanSettles(prior, proposed, block);
    FilledIsSettled(Planned(prior, proposed, block), applied, block);
    FinishFixes(applied, block);
    if applied.Object? { SelfReplacement(applied, block.attributes); }
  }
}
