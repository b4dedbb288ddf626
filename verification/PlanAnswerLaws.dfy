/** What the answer to a plan holds: the decisions of the planner and the author's
    modifications, read back at their paths. */
module PlanAnswerLaws {
  import opened Wrappers
  import opened Types
  import opened Values
  import opened Encode
  import opened Decode
  import opened RoundTrip
  import opened Schema
  import opened WriteOnly
  import opened Paths
  import opened Plan
  import opened PlanLaws
  import opened PlanDecision
  import opened ModificationLaws
  import opened Normalize
  import opened Service
  import opened ServiceLaws
  import opened ReceivedLaws
  import opened AnswerLaws
  import opened OutcomeLaws

  const NO_MODIFICATIONS := PlanModifications([], [], [])

  // --- what was planned -------------------------------------------------------

  /** The attribute's values differ, or only one of the two objects has it. */
  predicate Differs(prior: map<string, Value>, proposed: map<string, Value>, name: string) {
    if name in prior && name in proposed then !ValueEq(prior[name], proposed[name])
    else name in prior || name in proposed
  }

  /** The attribute forces a replacement. */
  predicate Replaces(prior: Value, proposed: Value, a: AttributeSchema) {
    prior.Object? && proposed.Object? && a.forceNew && Differs(prior.fields, proposed.fields, a.name)
  }

  ghost predicate AnyReplaces(prior: Value, proposed: Value, block: Block) {
    exists a | a in block.attributes :: Replaces(prior, proposed, a)
  }

  /** One planning request whose inputs decode: the state before, the proposal kept to it
      where quotients agree, what the planner makes of it, and the author's modifications,
      of which there are none without a handler. */
  ghost predicate Request(
    codec: Codec, resource: Resource, prior: Option<DynamicValue>, proposed: Option<DynamicValue>,
    before: Value, kept: Value, planned: Value, mods: PlanModifications)
  {
    var ty := CtyType(resource.block);
    && DecodeDynamic(codec, prior, ty) == Ok(before)
    && (match DecodeDynamic(codec, proposed, ty)
        case Err(_) => false
        case Ok(wanted) =>
          kept == if resource.handler.Some? then KeptPrior(before, wanted, resource.handler.value.semanticEquality)
                  else wanted)
    && planned == Planned(before, kept, resource.block)
    && match resource.handler
       case None => mods == NO_MODIFICATIONS
       case Some(handler) => handler.modifyPlan(before, planned) == Ok(mods)
  }

  /** The answer encodes the modified plan and extends the mechanical list. */
  lemma {:induction false} RequestAnswer(
    codec: Codec, resource: Resource, prior: Option<DynamicValue>, proposed: Option<DynamicValue>,
    before: Value, kept: Value, planned: Value, mods: PlanModifications)
    requires Request(codec, resource, prior, proposed, before, kept, planned, mods)
    ensures PlanAnswer(codec, Some(resource), prior, proposed)
            == RespondState(Modified(planned, mods, before), CtyType(resource.block),
                 Extended(PlannedReplacements(before, kept, resource.block), mods.requireReplace))
  {
  }

  // --- the paths listed -------------------------------------------------------

  lemma {:induction false} ListedPaths(before: Value, kept: Value, block: Block, p: Path)
    ensures p in PlannedReplacements(before, kept, block) <==>
            exists a | a in block.attributes :: Replaces(before, kept, a) && p == [Attribute(a.name)]
  {
    if before.Object? && kept.Object? { ListedPathsOf(before, kept, block.attributes, p); }
  }

  /** Some attribute of the list forces a replacement and is what the path names. */
  ghost predicate Lists(before: Value, kept: Value, attributes: seq<AttributeSchema>, p: Path) {
    exists a | a in attributes :: Replaces(before, kept, a) && p == [Attribute(a.name)]
  }

  lemma {:induction false} ListsMore(
    before: Value, kept: Value, rest: seq<AttributeSchema>, a: AttributeSchema, p: Path)
    ensures Lists(before, kept, rest + [a], p)
            <==> Lists(before, kept, rest, p) || (Replaces(before, kept, a) && p == [Attribute(a.name)])
  {
    assert forall b :: b in rest + [a] <==> b in rest || b == a;
  }

  lemma {:induction false} ListedPathsOf(before: Value, kept: Value, attributes: seq<AttributeSchema>, p: Path)
    requires before.Object? && kept.Object?
    ensures p in ReplacingPaths(before.fields, kept.fields, attributes) <==> Lists(before, kept, attributes, p)
  {
    if attributes != [] {
      var n := |attributes| - 1;
      ListedPathsOf(before, kept, attributes[..n], p);
      ListsMore(before, kept, attributes[..n], attributes[n], p);
      assert attributes == attributes[..n] + [attributes[n]];
      assert Replaces(before, kept, attributes[n]) <==> ForcesReplacement(before.fields, kept.fields, attributes[n]);
    }
  }

  lemma {:induction false} ReplacesIffListed(before: Value, kept: Value, block: Block)
    ensures PlannedReplacements(before, kept, block) != [] <==> AnyReplaces(before, kept, block)
    ensures !kept.Null? ==> PlannedReplacements(before, kept, block) == Replacements(before, kept, block)
  {
    var listed := PlannedReplacements(before, kept, block);
    if listed != [] { ListedPaths(before, kept, block, listed[0]); }
    if a :| a in block.attributes && Replaces(before, kept, a) {
      ListedPaths(before, kept, block, [Attribute(a.name)]);
    }
  }

  /** The answer lists exactly the force-new attributes that differ and the paths the
      author asked for. */
  lemma {:induction false} AnswerLists(
    codec: Codec, resource: Resource, prior: Option<DynamicValue>, proposed: Option<DynamicValue>,
    before: Value, kept: Value, planned: Value, mods: PlanModifications, p: Path)
    requires Request(codec, resource, prior, proposed, before, kept, planned, mods)
    requires !PlanAnswer(codec, Some(resource), prior, proposed).failed
    ensures p in PlanAnswer(codec, Some(resource), prior, proposed).requiresReplace <==>
            p in mods.requireReplace
            || exists a | a in resource.block.attributes :: Replaces(before, kept, a) && p == [Attribute(a.name)]
  {
    RequestAnswer(codec, resource, prior, proposed, before, kept, planned, mods);
    ExtendedIsUnion(PlannedReplacements(before, kept, resource.block), mods.requireReplace);
    ListedPaths(before, kept, resource.block, p);
  }

  // --- the paths read ---------------------------------------------------------

  /** A path reads unknown in the answered state, or lies under one that does. */
  ghost predicate AnswersUnknown(codec: Codec, block: Block, answer: Answer, p: Path) {
    answer.state.Some?
    && var back := DecodeDynamic(codec, answer.state, CtyType(block));
       back.Ok? && UnknownAt(back.value, p)
  }

  /** What is unknown in an encoded value is unknown in the answer. */
  lemma {:induction false} UnknownAnswered(codec: Codec, block: Block, w: Value, answer: Answer, p: Path)
    requires WellFormed(block) && Conforms(w, CtyType(block)) && answer.state == EncodeDynamic(w, CtyType(block))
    requires TypeAt(CtyType(block), p).Some? && UnknownAt(w, p)
    ensures AnswersUnknown(codec, block, answer, p)
  {
    var n: nat :| n <= |p| && GetAt(w, p[..n]) == Some(Unknown);
    PrefixTyped(CtyType(block), p, n);
    EncodedReadsAt(codec, block, w, answer, p[..n]);
    ReceivedNull(Unknown, TypeAt(CtyType(block), p[..n]).value);
  }

  /** A path that a value resolves still resolves once other paths are reset to prior,
      unless prior lacks it below one of them. */
  lemma {:induction false} KeptResolves(v: Value, prior: Value, paths: seq<Path>, p: Path)
    requires GetAt(v, p).Some? && (GetAt(prior, p).Some? || forall q | q in paths :: !(q <= p))
    ensures GetAt(Kept(v, prior, paths), p).Some?
  {
    if paths != [] {
      var n := |paths| - 1;
      assert paths[n] in paths && forall r | r in paths[..n] :: r in paths;
      KeptResolves(v, prior, paths[..n], p);
      if GetAt(prior, paths[n]).Some? { ResetKeepsResolving(Kept(v, prior, paths[..n]), prior, paths[n], p); }
    }
  }

  /** Resetting one path. */
  lemma {:induction false} ResetKeepsResolving(w: Value, prior: Value, q: Path, p: Path)
    requires GetAt(w, p).Some? && GetAt(prior, q).Some? && (GetAt(prior, p).Some? || !(q <= p))
    ensures GetAt(SetAt(w, q, GetAt(prior, q).value), p).Some?
  {
    var x := GetAt(prior, q).value;
    if GetAt(w, q).None? {
      SetUnresolved(w, q, x);
    } else if q <= p {
      ResetResolves(w, prior, q, p);
    } else if p <= q {
      SetBelowResolves(w, q, x, p);
    } else {
      SetFrames(w, q, x, p);
    }
  }

  lemma {:induction false} ResetResolves(w: Value, prior: Value, q: Path, p: Path)
    requires q <= p && GetAt(w, q).Some? && GetAt(prior, q).Some? && GetAt(prior, p).Some?
    ensures GetAt(SetAt(w, q, GetAt(prior, q).value), p).Some?
  {
    var x := GetAt(prior, q).value;
    assert p == q + p[|q|..];
    GetAfterSet(w, q, x);
    GetAlong(SetAt(w, q, x), q, p[|q|..]);
    GetAlong(prior, q, p[|q|..]);
  }

  /** Every path the author marks unknown, if the plan has it and resetting the kept paths
      does not take it away, reads unknown in the answer or lies under one that does. */
  lemma {:induction false} AnswerObscures(
    codec: Codec, resource: Resource, prior: Option<DynamicValue>, proposed: Option<DynamicValue>,
    before: Value, kept: Value, planned: Value, mods: PlanModifications, i: nat)
    requires WellFormed(resource.block) && Request(codec, resource, prior, proposed, before, kept, planned, mods)
    requires !PlanAnswer(codec, Some(resource), prior, proposed).failed
    requires i < |mods.unknown| && TypeAt(CtyType(resource.block), mods.unknown[i]).Some?
    requires GetAt(planned, mods.unknown[i]).Some?
    requires GetAt(before, mods.unknown[i]).Some? || forall q | q in mods.keepPrior :: !(q <= mods.unknown[i])
    ensures AnswersUnknown(codec, resource.block, PlanAnswer(codec, Some(resource), prior, proposed), mods.unknown[i])
  {
    var w := Modified(planned, mods, before);
    RequestAnswer(codec, resource, prior, proposed, before, kept, planned, mods);
    AnsweredConforms(w, resource.block);
    KeptResolves(planned, before, mods.keepPrior, mods.unknown[i]);
    ModifiedReadsUnknown(planned, mods, before, i);
    UnknownAnswered(codec, resource.block, w, PlanAnswer(codec, Some(resource), prior, proposed), mods.unknown[i]);
  }

  lemma {:induction false} AnsweredConforms(w: Value, block: Block)
    ensures EncodeDynamic(w, CtyType(block)).Some? <==> Conforms(w, CtyType(block))
  {
    EncodesIffConforms(w, CtyType(block));
  }

  /** A path the author keeps, apart from every other one he names, reads what the state
      had there. */
  lemma {:induction false} AnswerKeeps(
    codec: Codec, resource: Resource, prior: Option<DynamicValue>, proposed: Option<DynamicValue>,
    before: Value, kept: Value, planned: Value, mods: PlanModifications, i: nat)
    requires WellFormed(resource.block) && Request(codec, resource, prior, proposed, before, kept, planned, mods)
    requires !PlanAnswer(codec, Some(resource), prior, proposed).failed
    requires i < |mods.keepPrior| && TypeAt(CtyType(resource.block), mods.keepPrior[i]).Some?
    requires GetAt(planned, mods.keepPrior[i]).Some? && GetAt(before, mods.keepPrior[i]).Some?
    requires forall j | 0 <= j < |mods.keepPrior| && j != i :: Apart(mods.keepPrior[j], mods.keepPrior[i])
    requires ApartFromAll(mods.keepPrior[i], mods.unknown)
    ensures AnswerReads(codec, resource.block, PlanAnswer(codec, Some(resource), prior, proposed),
              mods.keepPrior[i], GetAt(before, mods.keepPrior[i]).value)
  {
    var w, p := Modified(planned, mods, before), mods.keepPrior[i];
    RequestAnswer(codec, resource, prior, proposed, before, kept, planned, mods);
    AnsweredConforms(w, resource.block);
    KeptReadsPrior(planned, before, mods.keepPrior, i);
    ObscuredFrames(Kept(planned, before, mods.keepPrior), mods.unknown, p);
    EncodedReadsAt(codec, resource.block, w, PlanAnswer(codec, Some(resource), prior, proposed), p);
  }

  // --- holders survive --------------------------------------------------------

  /** A write at a path apart from an attribute leaves the object it belongs to. */
  lemma {:induction false} SetKeepsHolder(v: Value, q: Path, x: Value, p: Path)
    requires HasHolder(v, p) && Apart(q, p)
    ensures HasHolder(SetAt(v, q, x), p)
    decreases p
  {
    ApartTails(q, p);
    SetStep(v, q, x);
    var w := SetAt(v, q, x);
    if |p| == 1 {
      HolderIsHere(v, p);
      assert w.Object?;
      assert p[..0] == [];
    } else {
      HolderStep(v, p);
      if Child(v, q[0]).Some? {
        WithChildAt(v, q[0], SetAt(Child(v, q[0]).value, q[1..], x), p[0]);
        if q[0] == p[0] { SetKeepsHolder(Child(v, p[0]).value, q[1..], x, p[1..]); }
      }
      HolderUp(w, p, Child(w, p[0]).value);
    }
  }

  lemma {:induction false} KeptKeepsHolder(v: Value, prior: Value, paths: seq<Path>, p: Path)
    requires HasHolder(v, p) && ApartFromAll(p, paths)
    ensures HasHolder(Kept(v, prior, paths), p)
  {
    if paths != [] {
      var n := |paths| - 1;
      KeptKeepsHolder(v, prior, paths[..n], p);
      if GetAt(prior, paths[n]).Some? {
        SetKeepsHolder(Kept(v, prior, paths[..n]), paths[n], GetAt(prior, paths[n]).value, p);
      }
    }
  }

  lemma {:induction false} ObscuredKeepsHolder(v: Value, paths: seq<Path>, p: Path)
    requires HasHolder(v, p) && ApartFromAll(p, paths)
    ensures HasHolder(Obscured(v, paths), p)
  {
    if paths != [] {
      var n := |paths| - 1;
      ObscuredKeepsHolder(v, paths[..n], p);
      SetKeepsHolder(Obscured(v, paths[..n]), paths[n], Unknown, p);
    }
  }

  lemma {:induction false} PlannedHolder(before: Value, kept: Value, block: Block, p: Path)
    requires DistinctBlock(block) && Conforms(kept, CtyType(block)) && HasHolder(kept, p) && AttributeAt(block, p).Some?
    ensures HasHolder(Planned(before, kept, block), p) && !kept.Null?
  {
    var replacing := Replacements(before, kept, block) != [];
    NoHolderInNull(kept, p);
    MarkDecides(kept, block, replacing, p);
    StripDecides(Marked(kept, block, replacing), block, p);
  }

  /** The decision for an attribute, told by whether anything forces a replacement; an
      attribute without one comes back null. */
  ghost function Decided(before: Value, kept: Value, block: Block, p: Path): Value
    requires AttributeAt(block, p).Some?
  {
    var d := Decision(GetAt(kept, p), AttributeAt(block, p).value, AnyReplaces(before, kept, block));
    if d.Some? then d.value else Null
  }

  /** Every attribute at every depth that the author leaves alone reads the planner's
      decision for the suppressed proposal. */
  lemma {:induction false} AnswerDecides(
    codec: Codec, resource: Resource, prior: Option<DynamicValue>, proposed: Option<DynamicValue>,
    before: Value, kept: Value, planned: Value, mods: PlanModifications, p: Path)
    requires WellFormed(resource.block) && Request(codec, resource, prior, proposed, before, kept, planned, mods)
    requires !PlanAnswer(codec, Some(resource), prior, proposed).failed && Conforms(kept, CtyType(resource.block))
    requires HasHolder(kept, p) && AttributeAt(resource.block, p).Some?
    requires ApartFromAll(p, mods.keepPrior) && ApartFromAll(p, mods.unknown)
    ensures AnswerReads(codec, resource.block, PlanAnswer(codec, Some(resource), prior, proposed), p,
              Decided(before, kept, resource.block, p))
  {
    var w, block := Modified(planned, mods, before), resource.block;
    RequestAnswer(codec, resource, prior, proposed, before, kept, planned, mods);
    AnsweredConforms(w, block);
    PlannedHolder(before, kept, block, p);
    PlanDecides(before, kept, block, p);
    ReplacesIffListed(before, kept, block);
    ModifiedFrames(planned, mods, before, p);
    KeptKeepsHolder(planned, before, mods.keepPrior, p);
    ObscuredKeepsHolder(Kept(planned, before, mods.keepPrior), mods.unknown, p);
    AttributeTyped(block, p);
    EncodedReadsAt(codec, block, w, PlanAnswer(codec, Some(resource), prior, proposed), p);
  }

  /** A plan to destroy holds null and lists nothing but what the author asked for. */
  lemma {:induction false} DestroyAnswers(
    codec: Codec, resource: Resource, prior: Option<DynamicValue>, proposed: Option<DynamicValue>,
    before: Value, kept: Value, planned: Value, mods: PlanModifications)
    requires Request(codec, resource, prior, proposed, before, kept, planned, mods) && kept.Null?
    requires mods.keepPrior == [] && mods.unknown == []
    ensures var answer := PlanAnswer(codec, Some(resource), prior, proposed);
            && !answer.failed && answer.state.Some?
            && DecodeDynamic(codec, answer.state, CtyType(resource.block)) == Ok(Null)
            && forall p :: p in answer.requiresReplace <==> p in mods.requireReplace
  {
    RequestAnswer(codec, resource, prior, proposed, before, kept, planned, mods);
    ExtendedIsUnion([], mods.requireReplace);
  }
}
