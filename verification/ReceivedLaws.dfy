/** What is read at a path of a value that came back over the wire. */
module ReceivedLaws {
  import opened Wrappers
  import opened Text
  import opened Types
  import opened Values
  import opened Encode
  import opened Decode
  import opened RoundTrip
  import opened Schema
  import opened WriteOnly
  import opened WriteOnlyLaws
  import opened Paths
  import opened PlanDecision
  import opened ServiceLaws

  // --- types along paths ------------------------------------------------------

  /** The type one step leads to. */
  function StepInType(ty: Type, step: PathStep): Option<Type> {
    match (ty, step)
    case (TObject(attrs), Attribute(n)) =>
      if AttrIndex(attrs, n) < |attrs| then Some(attrs[AttrIndex(attrs, n)].ty) else None
    case (TList(e), Index(_)) => Some(e)
    case (TSet(e), Index(_)) => Some(e)
    case (TMap(e), Key(_)) => Some(e)
    case _ => None
  }

  /** The type a path leads to; a path that leaves the type leads to none. */
  function TypeAt(ty: Type, p: Path): Option<Type>
    decreases p
  {
    if p == [] then Some(ty)
    else
      match StepInType(ty, p[0])
      case None => None
      case Some(sub) => TypeAt(sub, p[1..])
  }

  lemma {:induction false} TypeAlong(ty: Type, p: Path, q: Path)
    ensures TypeAt(ty, p + q) == if TypeAt(ty, p).Some? then TypeAt(TypeAt(ty, p).value, q) else None
    decreases p
  {
    if p == [] {
      assert p + q == q;
    } else {
      assert (p + q)[1..] == p[1..] + q;
      if StepInType(ty, p[0]).Some? { TypeAlong(StepInType(ty, p[0]).value, p[1..], q); }
    }
  }

  /** Every prefix of a path inside a type is inside it. */
  lemma {:induction false} PrefixTyped(ty: Type, p: Path, n: nat)
    requires n <= |p| && TypeAt(ty, p).Some?
    ensures TypeAt(ty, p[..n]).Some?
  {
    assert p == p[..n] + p[n..];
    TypeAlong(ty, p[..n], p[n..]);
  }

  lemma {:induction false} StepDistinct(ty: Type, step: PathStep)
    requires DistinctNames(ty) && StepInType(ty, step).Some?
    ensures DistinctNames(StepInType(ty, step).value)
  {
  }

  // --- one step ---------------------------------------------------------------

  lemma {:induction false} ChildTyped(w: Value, ty: Type, step: PathStep)
    requires Conforms(w, ty) && Child(w, step).Some? && StepInType(ty, step).Some?
    ensures Conforms(Child(w, step).value, StepInType(ty, step).value)
  {
  }

  /** A child of a received value is the child received. */
  lemma {:induction false} ReceivedChild(w: Value, ty: Type, step: PathStep)
    requires DistinctNames(ty) && Conforms(w, ty) && Child(w, step).Some? && StepInType(ty, step).Some?
    ensures Child(Received(w, ty), step) == Some(Received(Child(w, step).value, StepInType(ty, step).value))
  {
    match ty
    case TObject(attrs) => ProjectField(w, attrs, AttrIndex(attrs, step.name));
    case TList(e) => ReceivedItem(w, ty, e, step);
    case TSet(e) => ReceivedItem(w, ty, e, step);
    case TMap(e) => var out := ReceivedMap(w, e);
  }

  lemma {:induction false} ReceivedItem(w: Value, ty: Type, e: Type, step: PathStep)
    requires (ty == TList(e) && w.List?) || (ty == TSet(e) && w.Set?)
    requires step.Index? && Child(w, step).Some?
    ensures Child(Received(w, ty), step) == Some(Received(Child(w, step).value, e))
  {
    assert Project(w, ty).items[step.index] == Project(w.items[step.index], e);
  }

  // --- whole paths ------------------------------------------------------------

  /** What stands at a path comes back there as it would under the type of the path. */
  lemma {:induction false} ReceivedAt(w: Value, ty: Type, p: Path)
    requires DistinctNames(ty) && Conforms(w, ty) && GetAt(w, p).Some? && TypeAt(ty, p).Some?
    ensures Conforms(GetAt(w, p).value, TypeAt(ty, p).value)
    ensures GetAt(Received(w, ty), p) == Some(Received(GetAt(w, p).value, TypeAt(ty, p).value))
    decreases p
  {
    if p != [] {
      StepDistinct(ty, p[0]);
      ChildTyped(w, ty, p[0]);
      ReceivedChild(w, ty, p[0]);
      ReceivedAt(Child(w, p[0]).value, StepInType(ty, p[0]).value, p[1..]);
    }
  }

  /** A declared attribute that an object does not have comes back null. */
  lemma {:induction false} MissingReceived(w: Value, ty: Type, p: Path)
    requires DistinctNames(ty) && Conforms(w, ty) && HasHolder(w, p) && GetAt(w, p).None? && TypeAt(ty, p).Some?
    ensures GetAt(Received(w, ty), p) == Some(Null)
    decreases p
  {
    if |p| == 1 {
      HolderIsHere(w, p);
      ProjectField(w, ty.attrs, AttrIndex(ty.attrs, p[0].name));
    } else {
      HolderStep(w, p);
      StepDistinct(ty, p[0]);
      ChildTyped(w, ty, p[0]);
      ReceivedChild(w, ty, p[0]);
      MissingReceived(Child(w, p[0]).value, StepInType(ty, p[0]).value, p[1..]);
    }
  }

  lemma {:induction false} HolderIsHere(w: Value, p: Path)
    requires HasHolder(w, p) && |p| == 1
    ensures w.Object? && p[1..] == []
  {
    assert p[..0] == [];
  }

  // --- attributes -------------------------------------------------------------

  /** The path of an attribute leads to its type. */
  lemma {:induction false} AttributeTyped(block: Block, p: Path)
    requires DistinctBlock(block) && AttributeAt(block, p).Some?
    ensures TypeAt(CtyType(block), p) == Some(AttributeAt(block, p).value.ty)
    decreases block, 1
  {
    var k := p[0].name;
    SlotTyped(block, k);
    match SlotOf(block, k)
    case AttributeSlot(_) => assert p[1..] == [];
    case BlockSlot(nb) =>
      DistinctChild(block, nb);
      AttributeInTyped(nb, p[1..]);
  }

  lemma {:induction false} SlotTyped(block: Block, k: string)
    requires DistinctBlock(block) && !SlotOf(block, k).Undeclared?
    ensures StepInType(CtyType(block), Attribute(k)) == Some(SlotType(SlotOf(block, k)))
  {
    var ns := CtyTypeSpec(block);
    TypeNames(block, ns);
    var i := DeclaredAt(block, k, ns);
    AttrStep(AttrTypes(block.attributes) + ns, i);
  }

  /** Where a declared name stands in the type. */
  lemma {:induction false} DeclaredAt(block: Block, k: string, ns: seq<ObjectAttr>) returns (i: nat)
    requires !SlotOf(block, k).Undeclared? && |ns| == |block.nested|
    requires forall j | 0 <= j < |ns| ::
               && ns[j].name == block.nested[j].name
               && ns[j].ty == Nest(block.nested[j].nesting, CtyType(block.nested[j].block))
    ensures var all := AttrTypes(block.attributes) + ns;
            i < |all| && all[i].name == k && all[i].ty == SlotType(SlotOf(block, k))
  {
    match SlotOf(block, k)
    case AttributeSlot(a) => i :| 0 <= i < |block.attributes| && block.attributes[i] == a;
    case BlockSlot(nb) =>
      var j :| 0 <= j < |block.nested| && block.nested[j] == nb;
      i := |block.attributes| + j;
      assert (AttrTypes(block.attributes) + ns)[i] == ns[j];
  }

  function SlotType(slot: Slot): Type
    requires !slot.Undeclared?
  {
    match slot
    case AttributeSlot(a) => a.ty
    case BlockSlot(nb) => Nest(nb.nesting, CtyType(nb.block))
  }

  lemma {:induction false} AttrStep(attrs: seq<ObjectAttr>, i: nat)
    requires Distinct(Names(attrs)) && i < |attrs|
    ensures StepInType(TObject(attrs), Attribute(attrs[i].name)) == Some(attrs[i].ty)
  {
    AttrIndexAt(attrs, i);
  }

  lemma {:induction false} AttributeInTyped(nb: NestedBlock, p: Path)
    requires DistinctBlock(nb.block) && AttributeIn(nb, p).Some?
    ensures TypeAt(Nest(nb.nesting, CtyType(nb.block)), p) == Some(AttributeIn(nb, p).value.ty)
    decreases nb.block, 2
  {
    if nb.nesting.NestSingle? {
      AttributeTyped(nb.block, p);
    } else {
      AttributeTyped(nb.block, p[1..]);
    }
  }
}
