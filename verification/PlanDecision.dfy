/** What a plan decides for every single attribute, at every depth. */
module PlanDecision {
  import opened Wrappers
  import opened Types
  import opened Values
  import opened Encode
  import opened Schema
  import opened WriteOnly
  import opened WriteOnlyLaws
  import opened Paths
  import opened Plan
  import opened PlanLaws

  /** The attribute a path leads to, through nested blocks of every mode. */
  function AttributeAt(block: Block, p: Path): Option<AttributeSchema>
    decreases block
  {
    if p == [] || !p[0].Attribute? then None
    else
      match SlotOf(block, p[0].name)
      case AttributeSlot(a) => if |p| == 1 then Some(a) else None
      case BlockSlot(nb) => AttributeIn(nb, p[1..])
      case Undeclared => None
  }

  function AttributeIn(nb: NestedBlock, p: Path): Option<AttributeSchema>
    decreases nb
  {
    if nb.nesting.NestSingle? then AttributeAt(nb.block, p)
    else if p != [] && FitsMode(p[0], nb.nesting) then AttributeAt(nb.block, p[1..])
    else None
  }

  /** The object the last step of a path reads from is there. */
  predicate HasHolder(v: Value, p: Path) {
    p != [] && GetAt(v, p[..|p| - 1]).Some? && GetAt(v, p[..|p| - 1]).value.Object?
  }

  /** The decision: a write-only attribute is null once planned; a required one is the
      user's; an unset one takes its default, or is unknown when computed; a set one is
      recomputed only when the resource is replaced. */
  function Decision(x: Option<Value>, a: AttributeSchema, replacing: bool): Option<Value> {
    var unset := x == None || x == Some(Null);
    var chosen :=
      if a.required then x
      else if unset && a.dflt.Some? then a.dflt
      else if unset && a.computed then Some(Unknown)
      else if !unset && a.computed && replacing then Some(Unknown)
      else x;
    if a.writeOnly && chosen.Some? then Some(Null) else chosen
  }

  lemma {:induction false} HolderStep(v: Value, p: Path)
    requires HasHolder(v, p) && |p| > 1
    ensures Child(v, p[0]).Some? && HasHolder(Child(v, p[0]).value, p[1..])
    ensures GetAt(v, p) == GetAt(Child(v, p[0]).value, p[1..])
  {
    assert p[..|p| - 1][0] == p[0] && p[..|p| - 1][1..] == p[1..][..|p[1..]| - 1];
  }

  lemma {:induction false} LastStep(v: Value, p: Path)
    requires HasHolder(v, p) && |p| == 1 && p[0].Attribute?
    ensures v.Object? && GetAt(v, p) == Field(v.fields, p[0].name)
  {
    assert p[..0] == [] && p[1..] == [];
  }

  lemma {:induction false} OwnAttribute(block: Block, p: Path)
    requires |p| == 1 && AttributeAt(block, p).Some?
    ensures p[0].Attribute? && SlotOf(block, p[0].name) == AttributeSlot(AttributeAt(block, p).value)
  {
    assert p[1..] == [];
    match SlotOf(block, p[0].name)
    case BlockSlot(nb) => NothingIn(nb);
    case _ =>
  }

  lemma {:induction false} NothingIn(nb: NestedBlock)
    ensures AttributeIn(nb, []) == None
  {
  }

  lemma {:induction false} MarkDecides(v: Value, block: Block, replacing: bool, p: Path)
    requires DistinctBlock(block) && Conforms(v, CtyType(block)) && HasHolder(v, p) && AttributeAt(block, p).Some?
    ensures HasHolder(Marked(v, block, replacing), p)
    ensures GetAt(Marked(v, block, replacing), p) == MarkedSlot(GetAt(v, p), AttributeAt(block, p).value, replacing)
    decreases block, 1
  {
    if |p| == 1 {
      LastStep(v, p);
      OwnAttribute(block, p);
      MarkedAt(v, block, replacing, p[0].name);
      HolderHere(Marked(v, block, replacing), p);
    } else {
      var nb := StepInto(v, block, p);
      MarkedAt(v, block, replacing, p[0].name);
      MarkDecidesIn(Child(v, p[0]).value, nb, replacing, p[1..]);
      HolderUp(Marked(v, block, replacing), p, MarkedElements(Child(v, p[0]).value, nb.nesting, nb.block, replacing));
    }
  }

  lemma {:induction false} HolderHere(v: Value, p: Path)
    requires v.Object? && |p| == 1 && p[0].Attribute?
    ensures HasHolder(v, p) && GetAt(v, p) == Field(v.fields, p[0].name)
  {
    assert p[..0] == [] && p[1..] == [];
  }

  /** The first step of a longer path goes into a nested block. */
  lemma {:induction false} StepInto(v: Value, block: Block, p: Path) returns (nb: NestedBlock)
    requires DistinctBlock(block) && HasHolder(v, p) && AttributeAt(block, p).Some? && |p| > 1
    ensures v.Object? && p[0].Attribute? && p[0].name in v.fields && Child(v, p[0]) == Some(v.fields[p[0].name])
    ensures SlotOf(block, p[0].name) == BlockSlot(nb) && nb in block.nested && DistinctBlock(nb.block)
    ensures HasHolder(Child(v, p[0]).value, p[1..]) && AttributeIn(nb, p[1..]) == AttributeAt(block, p)
    ensures GetAt(v, p) == GetAt(Child(v, p[0]).value, p[1..])
    ensures Conforms(v, CtyType(block)) ==> Conforms(Child(v, p[0]).value, Nest(nb.nesting, CtyType(nb.block)))
  {
    HolderStep(v, p);
    nb := SlotOf(block, p[0].name).nb;
    DistinctChild(block, nb);
    ConformsBySlot(v, block);
    assert Conforms(v, CtyType(block)) ==> SlotConforms(block, p[0].name, v.fields[p[0].name]);
  }

  /** A holder below the first step is a holder of the whole path. */
  lemma {:induction false} HolderUp(v: Value, p: Path, c: Value)
    requires |p| > 1 && Child(v, p[0]) == Some(c) && HasHolder(c, p[1..])
    ensures HasHolder(v, p) && GetAt(v, p) == GetAt(c, p[1..])
  {
    assert p[..|p| - 1][0] == p[0] && p[..|p| - 1][1..] == p[1..][..|p[1..]| - 1];
  }

  lemma {:induction false} MarkDecidesIn(x: Value, nb: NestedBlock, replacing: bool, p: Path)
    requires DistinctBlock(nb.block) && Conforms(x, Nest(nb.nesting, CtyType(nb.block))) && HasHolder(x, p)
             && AttributeIn(nb, p).Some?
    ensures HasHolder(MarkedElements(x, nb.nesting, nb.block, replacing), p)
    ensures GetAt(MarkedElements(x, nb.nesting, nb.block, replacing), p)
            == MarkedSlot(GetAt(x, p), AttributeIn(nb, p).value, replacing)
    decreases nb.block, 2
  {
    if nb.nesting.NestSingle? {
      MarkDecides(x, nb.block, replacing, p);
    } else {
      AttributeDeep(nb, p);
      HolderStep(x, p);
      var e := Child(x, p[0]).value;
      ElementMarked(x, nb, replacing, p[0]);
      MarkDecides(e, nb.block, replacing, p[1..]);
      HolderUp(MarkedElements(x, nb.nesting, nb.block, replacing), p, Marked(e, nb.block, replacing));
    }
  }

  lemma {:induction false} AttributeDeep(nb: NestedBlock, p: Path)
    requires !nb.nesting.NestSingle? && AttributeIn(nb, p).Some?
    ensures |p| > 1 && FitsMode(p[0], nb.nesting)
  {
  }

  lemma {:induction false} ElementMarked(x: Value, nb: NestedBlock, replacing: bool, step: PathStep)
    requires Conforms(x, Nest(nb.nesting, CtyType(nb.block))) && FitsMode(step, nb.nesting) && Child(x, step).Some?
    ensures Conforms(Child(x, step).value, CtyType(nb.block))
    ensures Child(MarkedElements(x, nb.nesting, nb.block, replacing), step)
            == Some(Marked(Child(x, step).value, nb.block, replacing))
  {
  }

  lemma {:induction false} StripDecides(v: Value, block: Block, p: Path)
    requires DistinctBlock(block) && HasHolder(v, p) && AttributeAt(block, p).Some?
    ensures HasHolder(Stripped(v, block), p)
    ensures GetAt(Stripped(v, block), p)
            == if AttributeAt(block, p).value.writeOnly && GetAt(v, p).Some? then Some(Null) else GetAt(v, p)
    decreases block, 1
  {
    if |p| == 1 {
      LastStep(v, p);
      OwnAttribute(block, p);
      if p[0].name in v.fields { StrippedAt(v, block, p[0].name); }
      HolderHere(Stripped(v, block), p);
    } else {
      var nb := StepInto(v, block, p);
      StrippedAt(v, block, p[0].name);
      StripDecidesIn(Child(v, p[0]).value, nb, p[1..]);
      HolderUp(Stripped(v, block), p, StrippedElements(Child(v, p[0]).value, nb.nesting, nb.block));
    }
  }

  lemma {:induction false} StripDecidesIn(x: Value, nb: NestedBlock, p: Path)
    requires DistinctBlock(nb.block) && HasHolder(x, p) && AttributeIn(nb, p).Some?
    ensures HasHolder(StrippedElements(x, nb.nesting, nb.block), p)
    ensures GetAt(StrippedElements(x, nb.nesting, nb.block), p)
            == if AttributeIn(nb, p).value.writeOnly && GetAt(x, p).Some? then Some(Null) else GetAt(x, p)
    decreases nb.block, 2
  {
    if nb.nesting.NestSingle? {
      StripDecides(x, nb.block, p);
    } else {
      AttributeDeep(nb, p);
      HolderStep(x, p);
      var e := Child(x, p[0]).value;
      StripDecides(e, nb.block, p[1..]);
      HolderUp(StrippedElements(x, nb.nesting, nb.block), p, Stripped(e, nb.block));
    }
  }

  /** Wherever a conforming proposal has the object an attribute belongs to, the plan
      reads exactly the decision for that attribute. */
  lemma {:induction false} PlanDecides(prior: Value, proposed: Value, block: Block, p: Path)
    requires DistinctBlock(block) && Conforms(proposed, CtyType(block)) && HasHolder(proposed, p)
             && AttributeAt(block, p).Some?
    ensures GetAt(Planned(prior, proposed, block), p)
            == Decision(GetAt(proposed, p), AttributeAt(block, p).value, Replacements(prior, proposed, block) != [])
  {
    var replacing := Replacements(prior, proposed, block) != [];
    NoHolderInNull(proposed, p);
    MarkDecides(proposed, block, replacing, p);
    StripDecides(Marked(proposed, block, replacing), block, p);
    MarkedThenStripped(GetAt(proposed, p), AttributeAt(block, p).value, replacing);
  }

  lemma {:induction false} MarkedThenStripped(x: Option<Value>, a: AttributeSchema, replacing: bool)
    ensures var marked := MarkedSlot(x, a, replacing);
            Decision(x, a, replacing) == if a.writeOnly && marked.Some? then Some(Null) else marked
  {
  }

  lemma {:induction false} NoHolderInNull(v: Value, p: Path)
    requires HasHolder(v, p)
    ensures !v.Null?
  {
    if |p| > 1 { HolderStep(v, p); } else { assert p[..0] == []; }
  }
}
