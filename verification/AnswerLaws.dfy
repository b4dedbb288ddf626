/** What the service answers when nothing changes, when a handler fails, and that it does
    answer. */
module AnswerLaws {
  import opened Wrappers
  import opened Doubles
  import opened Numbers
  import opened Text
  import opened Types
  import opened Values
  import opened Encode
  import opened Decode
  import opened JsonCodec
  import opened RoundTrip
  import opened AcceptedLaws
  import opened Schema
  import opened WriteOnly
  import opened WriteOnlyLaws
  import opened Paths
  import opened Plan
  import opened PlanLaws
  import opened ModificationLaws
  import opened Normalize
  import opened Service
  import opened ServiceLaws
  import Typed
  import TypedLaws
  import Reflect
  import ReflectLaws

  // --- what an encoded value holds --------------------------------------------

  /** The encoded value decodes to something equal to `v`. */
  ghost predicate HoldsValue(codec: Codec, block: Block, dv: Option<DynamicValue>, v: Value) {
    dv.Some?
    && var back := DecodeDynamic(codec, dv, CtyType(block));
       back.Ok? && ValueEq(back.value, v)
  }

  /** Encoding succeeds exactly on conforming values, and what it holds is the value cut to
      its type exactly when the wire keeps the numbers in it. */
  lemma {:induction false} EncodedHolds(codec: Codec, block: Block, v: Value)
    requires WellFormed(block)
    ensures EncodeDynamic(v, CtyType(block)).Some? <==> Conforms(v, CtyType(block))
    ensures Conforms(v, CtyType(block)) ==>
              (HoldsValue(codec, block, EncodeDynamic(v, CtyType(block)), Project(v, CtyType(block)))
               <==> AllNumbers(Project(v, CtyType(block)), SURVIVES))
  {
    var ty := CtyType(block);
    CtyTypeDistinct(block);
    EncodesIffConforms(v, ty);
    if Conforms(v, ty) {
      MsgpackFaithful(codec.host, v, ty);
      MsgpackHolds(codec, block, v, ToMp(v, ty).value, Project(v, ty));
    }
  }

  lemma {:induction false} MsgpackHolds(codec: Codec, block: Block, v: Value, mp: Mp, w: Value)
    requires ToMp(v, CtyType(block)) == Ok(mp)
    ensures HoldsValue(codec, block, EncodeDynamic(v, CtyType(block)), w) <==>
            var back := FromMp(codec.host, mp, CtyType(block)); back.Ok? && ValueEq(back.value, w)
  {
  }

  /** Without dynamic slots, whatever a dynamic value decodes to is of exactly the type. */
  lemma {:induction false} DecodedFitted(codec: Codec, block: Block, dv: Option<DynamicValue>, v: Value)
    requires WellFormed(block) && DynamicFree(CtyType(block)) && DecodeDynamic(codec, dv, CtyType(block)) == Ok(v)
    ensures Fitted(v, CtyType(block))
  {
    CtyTypeDistinct(block);
    match dv
    case Some(DynamicValue(Holds(mp), _)) => AcceptedMp(codec.host, mp, CtyType(block));
    case Some(DynamicValue(Empty, Holds(json))) => AcceptedJson(codec.host, codec.lib, json, CtyType(block));
    case _ =>
  }

  // --- a failed apply ---------------------------------------------------------

  /** A handler that fails leaves the state as it was, as far as the wire can carry it: the
      prior value is encoded again, so there is a state in the answer exactly when it
      conforms, and that state holds it exactly when the wire keeps its numbers. */
  lemma {:induction false} FailedApplyAnswers(
    codec: Codec, resource: Resource, handler: Handler,
    prior: Option<DynamicValue>, planned: Option<DynamicValue>, config: Option<DynamicValue>,
    before: Value, wanted: Value, c: Value)
    requires WellFormed(resource.block) && resource.handler == Some(handler)
    requires DecodeDynamic(codec, prior, CtyType(resource.block)) == Ok(before)
    requires DecodeDynamic(codec, planned, CtyType(resource.block)) == Ok(wanted)
    requires BlockHas(resource.block) && !wanted.Null? ==>
               DecodeDynamic(codec, config, CtyType(resource.block)) == Ok(c)
    requires Outcome(handler, before, Merged(wanted, c, resource.block)).Err?
    ensures var answer, ty := ApplyAnswer(codec, Some(resource), prior, planned, config), CtyType(resource.block);
            && answer.failed && answer.requiresReplace == []
            && (answer.state.Some? <==> Conforms(before, ty))
            && (answer.state.Some? ==>
                  (HoldsValue(codec, resource.block, answer.state, Project(before, ty))
                   <==> AllNumbers(Project(before, ty), SURVIVES)))
  {
    ApplyGives(codec, resource, handler, prior, planned, config, before, wanted, c);
    EncodedHolds(codec, resource.block, before);
  }

  /** Without dynamic slots the state is always there, and it holds the prior value exactly
      when that holds neither a NaN nor 2^63 as a float. */
  lemma {:induction false} FailedApplyKeepsValue(
    codec: Codec, resource: Resource, handler: Handler,
    prior: Option<DynamicValue>, planned: Option<DynamicValue>, config: Option<DynamicValue>,
    before: Value, wanted: Value, c: Value)
    requires WellFormed(resource.block) && DynamicFree(CtyType(resource.block)) && resource.handler == Some(handler)
    requires DecodeDynamic(codec, prior, CtyType(resource.block)) == Ok(before)
    requires DecodeDynamic(codec, planned, CtyType(resource.block)) == Ok(wanted)
    requires BlockHas(resource.block) && !wanted.Null? ==>
               DecodeDynamic(codec, config, CtyType(resource.block)) == Ok(c)
    requires Outcome(handler, before, Merged(wanted, c, resource.block)).Err?
    ensures var answer := ApplyAnswer(codec, Some(resource), prior, planned, config);
            && answer.state.Some?
            && (HoldsValue(codec, resource.block, answer.state, before) <==> AllNumbers(before, SURVIVES))
  {
    FailedApplyAnswers(codec, resource, handler, prior, planned, config, before, wanted, c);
    DecodedFitted(codec, resource.block, prior, before);
  }

  /** Where the state sent encodes back to itself, the answer is that very state, or null
      when there was none. */
  lemma {:induction false} FailedApplyKeepsState(
    codec: Codec, resource: Resource, handler: Handler,
    prior: Option<DynamicValue>, planned: Option<DynamicValue>, config: Option<DynamicValue>,
    wanted: Value, c: Value)
    requires resource.handler == Some(handler) && (prior.Some? ==> Sound(codec, resource.block, prior.value))
    requires DecodeDynamic(codec, planned, CtyType(resource.block)) == Ok(wanted)
    requires BlockHas(resource.block) && !wanted.Null? ==>
               DecodeDynamic(codec, config, CtyType(resource.block)) == Ok(c)
    ensures var before := DecodeDynamic(codec, prior, CtyType(resource.block));
            before.Ok?
            && (Outcome(handler, before.value, Merged(wanted, c, resource.block)).Err? ==>
                  ApplyAnswer(codec, Some(resource), prior, planned, config)
                  == Answer(if prior.Some? then prior else Some(DynamicValue(Holds(MNil), Empty)), [], true))
  {
    var before := DecodedSound(codec, resource.block, prior);
    ApplyGives(codec, resource, handler, prior, planned, config, before, wanted, c);
  }

  // --- convergence ------------------------------------------------------------

  lemma {:induction false} KeptOfItself(v: Value, paths: seq<Path>)
    ensures Kept(v, v, paths) == v
  {
    if paths != [] {
      var n := |paths| - 1;
      KeptOfItself(v, paths[..n]);
      if GetAt(v, paths[n]).Some? { SetWhatIsThere(v, paths[n]); }
    }
  }

  /** No handler, or one whose modifications of an unchanged plan at most keep it. */
  predicate AddsNothing(handler: Option<Handler>, v: Value) {
    handler.Some? ==>
      && handler.value.modifyPlan(v, v).Ok?
      && handler.value.modifyPlan(v, v).value.unknown == [] && handler.value.modifyPlan(v, v).value.requireReplace == []
  }

  /** A value that plans to itself with no replacement is answered as it was sent. */
  lemma {:induction false} SelfPlan(codec: Codec, resource: Resource, state: DynamicValue, v: Value)
    requires DecodeDynamic(codec, Some(state), CtyType(resource.block)) == Ok(v)
    requires Planned(v, v, resource.block) == v && PlannedReplacements(v, v, resource.block) == []
    requires AddsNothing(resource.handler, v)
    ensures PlanAnswer(codec, Some(resource), Some(state), Some(state)) == RespondState(v, CtyType(resource.block), [])
  {
    if resource.handler.Some? {
      KeptAgainstItself(v, resource.handler.value.semanticEquality);
      KeptOfItself(v, resource.handler.value.modifyPlan(v, v).value.keepPrior);
    }
  }

  /** A mechanical replacement is never taken back. */
  lemma {:induction false} ReplacementStays(codec: Codec, resource: Resource, state: DynamicValue, v: Value)
    requires DecodeDynamic(codec, Some(state), CtyType(resource.block)) == Ok(v)
    requires PlannedReplacements(v, v, resource.block) != []
    ensures var answer := PlanAnswer(codec, Some(resource), Some(state), Some(state));
            answer.failed || answer.requiresReplace != []
  {
    var replace := PlannedReplacements(v, v, resource.block);
    if resource.handler.Some? {
      KeptAgainstItself(v, resource.handler.value.semanticEquality);
      var mods := resource.handler.value.modifyPlan(v, Planned(v, v, resource.block));
      if mods.Ok? { ExtendedIsUnion(replace, mods.value.requireReplace); }
    }
  }

  /** Whether a settled value plans to itself. */
  lemma {:induction false} SettledPlan(v: Value, block: Block)
    requires DistinctBlock(block) && Settled(v, block, true) && Clean(v, block, false)
    ensures PlannedReplacements(v, v, block) == [] <==> ComparableForceNew(v, block)
    ensures ComparableForceNew(v, block) ==> Planned(v, v, block) == v
  {
    FinishFixes(v, block);
    if v.Object? { SelfReplacement(v, block.attributes); }
  }

  /** The answer holds `v`, asks for no replacement and is no failure. */
  ghost predicate Unchanged(codec: Codec, block: Block, answer: Answer, v: Value) {
    !answer.failed && answer.requiresReplace == [] && HoldsValue(codec, block, answer.state, v)
  }

  /** Convergence on the wire. A settled state with no write-only value, planned against
      itself, is answered unchanged exactly when it conforms, no attribute that forces
      replacement holds a NaN, and the wire keeps its numbers. */
  lemma {:induction false} SettledStateAnswers(codec: Codec, resource: Resource, state: DynamicValue, v: Value)
    requires WellFormed(resource.block) && DecodeDynamic(codec, Some(state), CtyType(resource.block)) == Ok(v)
    requires Settled(v, resource.block, true) && Clean(v, resource.block, false) && AddsNothing(resource.handler, v)
    ensures var answer := PlanAnswer(codec, Some(resource), Some(state), Some(state));
            Unchanged(codec, resource.block, answer, Project(v, CtyType(resource.block)))
            <==> Conforms(v, CtyType(resource.block)) && ComparableForceNew(v, resource.block)
                 && AllNumbers(Project(v, CtyType(resource.block)), SURVIVES)
  {
    SettledPlan(v, resource.block);
    if ComparableForceNew(v, resource.block) {
      SelfPlan(codec, resource, state, v);
      EncodedHolds(codec, resource.block, v);
    } else {
      ReplacementStays(codec, resource, state, v);
    }
  }

  /** Without dynamic slots a state decodes to a value of the type, so planning it against
      itself proposes nothing exactly when it holds neither a NaN nor 2^63 as a float. */
  lemma {:induction false} SettledStateUnchanged(codec: Codec, resource: Resource, state: DynamicValue, v: Value)
    requires WellFormed(resource.block) && DecodeDynamic(codec, Some(state), CtyType(resource.block)) == Ok(v)
    requires Settled(v, resource.block, true) && Clean(v, resource.block, false) && AddsNothing(resource.handler, v)
    requires DynamicFree(CtyType(resource.block))
    ensures Unchanged(codec, resource.block, PlanAnswer(codec, Some(resource), Some(state), Some(state)), v)
            <==> AllNumbers(v, SURVIVES)
  {
    SettledStateAnswers(codec, resource, state, v);
    DecodedFitted(codec, resource.block, Some(state), v);
    if AllNumbers(v, SURVIVES) { SurvivorsComparable(v, resource.block); }
  }

  lemma {:induction false} SurvivorsAreNumbers(v: Value)
    requires AllNumbers(v, SURVIVES)
    ensures AllNumbers(v, NOT_NAN)
  {
    match v
    case List(xs) => forall i | 0 <= i < |xs| { SurvivorsAreNumbers(xs[i]); }
    case Set(xs) => forall i | 0 <= i < |xs| { SurvivorsAreNumbers(xs[i]); }
    case Tuple(xs) => forall i | 0 <= i < |xs| { SurvivorsAreNumbers(xs[i]); }
    case Map(m) => forall k | k in m { SurvivorsAreNumbers(m[k]); }
    case Object(m) => forall k | k in m { SurvivorsAreNumbers(m[k]); }
    case _ =>
  }

  lemma {:induction false} SurvivorsComparable(v: Value, block: Block)
    requires AllNumbers(v, SURVIVES)
    ensures ComparableForceNew(v, block)
  {
    if v.Object? { forall k | k in v.fields { SurvivorsAreNumbers(v.fields[k]); } }
  }

  /** And where the state encodes back to itself, so that the wire keeps its numbers, the
      answer is that very state: planned against itself, with no replacement exactly when no
      attribute that forces replacement holds a NaN. */
  lemma {:induction false} SettledStateConverges(codec: Codec, resource: Resource, state: DynamicValue, v: Value)
    requires DistinctBlock(resource.block) && Sound(codec, resource.block, state)
    requires DecodeDynamic(codec, Some(state), CtyType(resource.block)) == Ok(v)
    requires Settled(v, resource.block, true) && Clean(v, resource.block, false) && AddsNothing(resource.handler, v)
    ensures PlanAnswer(codec, Some(resource), Some(state), Some(state)) == Answer(Some(state), [], false)
            <==> ComparableForceNew(v, resource.block)
  {
    SettledPlan(v, resource.block);
    if ComparableForceNew(v, resource.block) {
      SelfPlan(codec, resource, state, v);
      var same := DecodedSound(codec, resource.block, Some(state));
    } else {
      ReplacementStays(codec, resource, state, v);
    }
  }

  // --- a state the wire changes -----------------------------------------------

  /** One optional number. */
  const NUMBER_BLOCK := Block([AttributeSchema("n", TNumber, false, true, false, false, false, None)], [])

  function NumberState(n: Mp): DynamicValue { DynamicValue(Holds(MMap([(MStr("n"), n)])), Empty) }

  function NumberValue(n: Number): Value { Object(map["n" := Num(n)]) }

  lemma {:induction false} NumberType()
    ensures CtyType(NUMBER_BLOCK) == TObject([ObjectAttr("n", TNumber, true)])
  {
    var ns := CtyTypeSpec(NUMBER_BLOCK);
    assert AttrTypes(NUMBER_BLOCK.attributes) + ns == [ObjectAttr("n", TNumber, true)];
  }

  lemma {:induction false} NumberDecodes(codec: Codec, mp: Mp, n: Number)
    requires NumberFromMp(codec.host, mp) == Some(n) && !mp.MNil? && !mp.MExt?
    ensures DecodeDynamic(codec, Some(NumberState(mp)), CtyType(NUMBER_BLOCK)) == Ok(NumberValue(n))
  {
    NumberType();
    var attrs := [ObjectAttr("n", TNumber, true)];
    var tree, out := MMap([(MStr("n"), mp)]), map["n" := Num(n)];
    assert Names(attrs) == ["n"];
    assert KeyIndex(tree.pairs, "n") == 0;
    assert FieldFromMp(codec.host, tree, attrs[0]) == Ok(Num(n));
    FieldsAssemble(codec.host, tree, attrs, ["n"], out);
    MapMeansObject(codec.host, tree, attrs);
  }

  lemma {:induction false} NumberEncodes(n: Number)
    ensures EncodeDynamic(NumberValue(n), CtyType(NUMBER_BLOCK)) == Some(NumberState(WireToMp(NumberToWire(n))))
  {
    NumberType();
    var attrs, v := [ObjectAttr("n", TNumber, true)], NumberValue(n);
    assert Conforms(v, TObject(attrs));
    EncodesIffConforms(v, TObject(attrs));
    var sorted, ms := EncodedObject(v, attrs);
    assert sorted == attrs by { assert SortByName(attrs[1..]) == []; }
    assert FieldToMp(v, attrs[0]) == Ok(WireToMp(NumberToWire(n)));
    assert ms == [WireToMp(NumberToWire(n))];
    assert Names(attrs) == ["n"];
    assert StringPairs(["n"], ms) == [(MStr("n"), ms[0])];
  }

  /** 2^63 as a float. */
  const TOP_FLOAT: F64 := IntToF64(TWO63)

  lemma {:induction false} TopFloatWire()
    ensures TOP_FLOAT == TWO63_F64 && NumberToWire(F64(TOP_FLOAT)) == WireInt(I64_MAX)
  {
    MinExact();
    IntExact(TWO63);
    WireGuard(TOP_FLOAT);
  }

  const TOP_STATE := NumberState(MF64(TOP_FLOAT))
  const TOP_VALUE := NumberValue(F64(TOP_FLOAT))
  const ANSWERED_STATE := NumberState(MInt(I64_MAX))

  /** The state whose number is the float 2^63: it is settled and free of NaN, but the cast
      saturates, so it encodes back as 2^63 - 1. */
  lemma {:induction false} TopState(codec: Codec)
    ensures DecodeDynamic(codec, Some(TOP_STATE), CtyType(NUMBER_BLOCK)) == Ok(TOP_VALUE)
    ensures EncodeDynamic(TOP_VALUE, CtyType(NUMBER_BLOCK)) == Some(ANSWERED_STATE)
    ensures Settled(TOP_VALUE, NUMBER_BLOCK, true) && Clean(TOP_VALUE, NUMBER_BLOCK, false)
    ensures DistinctBlock(NUMBER_BLOCK) && !BlockHas(NUMBER_BLOCK)
    ensures ComparableForceNew(TOP_VALUE, NUMBER_BLOCK) && AllNumbers(TOP_VALUE, NOT_NAN)
  {
    TopFloatWire();
    NumberDecodes(codec, MF64(TOP_FLOAT), F64(TOP_FLOAT));
    NumberEncodes(F64(TOP_FLOAT));
    NumberSettled(F64(TOP_FLOAT));
  }

  /** An unchanged plan of it answers with 2^63 - 1. */
  lemma {:induction false} TopFloatPlan(codec: Codec)
    ensures PlanAnswer(codec, Some(Resource(NUMBER_BLOCK, None)), Some(TOP_STATE), Some(TOP_STATE))
            == Answer(Some(ANSWERED_STATE), [], false)
  {
    TopState(codec);
    SettledPlan(TOP_VALUE, NUMBER_BLOCK);
    SelfPlan(codec, Resource(NUMBER_BLOCK, None), TOP_STATE, TOP_VALUE);
  }

  /** And so does a failed apply over it. */
  lemma {:induction false} TopFloatApply(codec: Codec, handler: Handler, planned: Option<DynamicValue>, wanted: Value)
    requires DecodeDynamic(codec, planned, CtyType(NUMBER_BLOCK)) == Ok(wanted)
    requires Outcome(handler, TOP_VALUE, wanted).Err?
    ensures ApplyAnswer(codec, Some(Resource(NUMBER_BLOCK, Some(handler))), Some(TOP_STATE), planned, None)
            == Answer(Some(ANSWERED_STATE), [], true)
  {
    TopState(codec);
  }

  lemma {:induction false} NumberSettled(n: Number)
    requires !n.IsNaN()
    ensures DistinctBlock(NUMBER_BLOCK) && Settled(NumberValue(n), NUMBER_BLOCK, true)
    ensures Clean(NumberValue(n), NUMBER_BLOCK, false) && AllNumbers(NumberValue(n), NOT_NAN)
    ensures ComparableForceNew(NumberValue(n), NUMBER_BLOCK) && !BlockHas(NUMBER_BLOCK)
  {
    SlotOfAttribute(NUMBER_BLOCK, 0);
  }

  // --- plans that answer ------------------------------------------------------

  /** The type a step leads to from a type. */
  predicate StepType(ty: Type, step: PathStep, sub: Type) {
    match (ty, step)
    case (TObject(attrs), Attribute(n)) => exists a | a in attrs :: a.name == n && a.ty == sub
    case (TList(e), Index(_)) => sub == e
    case (TSet(e), Index(_)) => sub == e
    case (TMap(e), Key(_)) => sub == e
    case _ => false
  }

  lemma {:induction false} ChildConforms(v: Value, step: PathStep, ty: Type, sub: Type)
    requires Conforms(v, ty) && Child(v, step).Some? && StepType(ty, step, sub)
    ensures Conforms(Child(v, step).value, sub)
  {
    if ty.TObject? {
      var a :| a in ty.attrs && a.name == step.name && a.ty == sub;
      var i :| 0 <= i < |ty.attrs| && ty.attrs[i] == a;
    }
  }

  lemma {:induction false} WithChildConforms(v: Value, step: PathStep, c: Value, ty: Type)
    requires Conforms(v, ty) && !ty.TDynamic? && Child(v, step).Some?
    requires forall sub | StepType(ty, step, sub) :: Conforms(c, sub)
    ensures Conforms(WithChild(v, step, c), ty)
  {
    match v
    case Object(fields) =>
      forall i | 0 <= i < |ty.attrs| && ty.attrs[i].name in fields
        ensures Conforms(fields[step.name := c][ty.attrs[i].name], ty.attrs[i].ty)
      {
        if ty.attrs[i].name == step.name { assert ty.attrs[i] in ty.attrs && StepType(ty, step, ty.attrs[i].ty); }
      }
    case List(_) => assert StepType(ty, step, ty.elem);
    case Set(_) => assert StepType(ty, step, ty.elem);
    case Map(_) => assert StepType(ty, step, ty.elem);
  }

  lemma {:induction false} StepDynamicFree(ty: Type, step: PathStep, sub: Type)
    requires DynamicFree(ty) && StepType(ty, step, sub)
    ensures DynamicFree(sub)
  {
    if ty.TObject? {
      var a :| a in ty.attrs && a.name == step.name && a.ty == sub;
      var i :| 0 <= i < |ty.attrs| && ty.attrs[i] == a;
    }
  }

  /** What may be written at a path without leaving the type: unknown, or what a value of
      the type has at that same path. */
  predicate TypedSource(source: Option<Value>, ty: Type, p: Path, x: Value) {
    match source
    case None => x.Unknown?
    case Some(s) => Conforms(s, ty) && GetAt(s, p) == Some(x)
  }

  lemma {:induction false} SetConforms(v: Value, source: Option<Value>, ty: Type, p: Path, x: Value)
    requires DynamicFree(ty) && Conforms(v, ty) && TypedSource(source, ty, p, x)
    ensures Conforms(SetAt(v, p, x), ty)
    decreases p
  {
    if p != [] {
      SetStep(v, p, x);
      if Child(v, p[0]).Some? {
        var c := SetAt(Child(v, p[0]).value, p[1..], x);
        forall sub | StepType(ty, p[0], sub) ensures Conforms(c, sub) {
          StepDynamicFree(ty, p[0], sub);
          ChildConforms(v, p[0], ty, sub);
          SourceInside(source, ty, p, x, sub);
          SetConforms(Child(v, p[0]).value, Under(source, p[0]), sub, p[1..], x);
        }
        WithChildConforms(v, p[0], c, ty);
      }
    }
  }

  lemma {:induction false} SourceInside(source: Option<Value>, ty: Type, p: Path, x: Value, sub: Type)
    requires TypedSource(source, ty, p, x) && p != [] && StepType(ty, p[0], sub)
    ensures source.Some? ==> Child(source.value, p[0]).Some?
    ensures TypedSource(Under(source, p[0]), sub, p[1..], x)
  {
    if source.Some? { ChildConforms(source.value, p[0], ty, sub); }
  }

  lemma {:induction false} KeptConforms(v: Value, prior: Value, ty: Type, paths: seq<Path>)
    requires DynamicFree(ty) && Conforms(v, ty) && Conforms(prior, ty)
    ensures Conforms(Kept(v, prior, paths), ty)
  {
    if paths != [] {
      var n := |paths| - 1;
      KeptConforms(v, prior, ty, paths[..n]);
      if GetAt(prior, paths[n]).Some? {
        SetConforms(Kept(v, prior, paths[..n]), Some(prior), ty, paths[n], GetAt(prior, paths[n]).value);
      }
    }
  }

  lemma {:induction false} ObscuredConforms(v: Value, ty: Type, paths: seq<Path>)
    requires DynamicFree(ty) && Conforms(v, ty)
    ensures Conforms(Obscured(v, paths), ty)
  {
    if paths != [] {
      var n := |paths| - 1;
      ObscuredConforms(v, ty, paths[..n]);
      SetConforms(Obscured(v, paths[..n]), None, ty, paths[n], Unknown);
    }
  }

  /** An author's modifications leave a plan of the type a plan of the type, wherever
      their paths lead. */
  lemma {:induction false} ModifiedConforms(v: Value, mods: PlanModifications, prior: Value, ty: Type)
    requires DynamicFree(ty) && Conforms(v, ty) && Conforms(prior, ty)
    ensures Conforms(Modified(v, mods, prior), ty)
  {
    KeptConforms(v, prior, ty, mods.keepPrior);
    ObscuredConforms(Kept(v, prior, mods.keepPrior), ty, mods.unknown);
  }

  /** So does the diff-suppression pre-pass, whatever the canonicalizers. */
  lemma {:induction false} SuppressedConforms(prior: Value, proposed: Value, canon: Canon, ty: Type)
    requires DynamicFree(ty) && Conforms(prior, ty) && Conforms(proposed, ty)
    ensures Conforms(KeptPrior(prior, proposed, canon), ty)
    decreases canon
  {
    if prior.Object? && proposed.Object? {
      var kept := KeptAt(prior, proposed, canon);
      forall i | 0 <= i < |ty.attrs| && ty.attrs[i].name in kept
        ensures Conforms(kept[ty.attrs[i].name], ty.attrs[i].ty)
      {
        var k := ty.attrs[i].name;
        if k in canon.blocks && k in prior.fields {
          var x := KeptFields(prior.fields, proposed.fields, canon)[k];
          SuppressedConforms(prior.fields[k], x, canon.blocks[k], ty.attrs[i].ty);
        }
      }
    }
  }

  /** What a plan is refused for: an input that does not decode, or an author's failure. */
  predicate PlanRefused(codec: Codec, resource: Resource, prior: Option<DynamicValue>, proposed: Option<DynamicValue>) {
    var before, wanted :=
      DecodeDynamic(codec, prior, CtyType(resource.block)), DecodeDynamic(codec, proposed, CtyType(resource.block));
    before.Err? || wanted.Err?
    || (resource.handler.Some?
        && resource.handler.value.modifyPlan(
             before.value,
             Planned(before.value, Suppressed(before.value, wanted.value, resource.handler), resource.block)).Err?)
  }

  /** Without dynamic slots and with defaults that conform, a plan fails for nothing else:
      whatever was planned, suppressed and modified encodes. */
  lemma {:induction false} PlanAnswers(
    codec: Codec, resource: Resource, prior: Option<DynamicValue>, proposed: Option<DynamicValue>)
    requires WellFormed(resource.block) && DynamicFree(CtyType(resource.block)) && DefaultsConform(resource.block)
    ensures var answer := PlanAnswer(codec, Some(resource), prior, proposed);
            && (answer.failed <==> PlanRefused(codec, resource, prior, proposed))
            && (answer.state.Some? <==> !answer.failed)
  {
    var block, handler := resource.block, resource.handler;
    var before, wanted := DecodeDynamic(codec, prior, CtyType(block)), DecodeDynamic(codec, proposed, CtyType(block));
    if before.Ok? && wanted.Ok? {
      DecodedFitted(codec, block, prior, before.value);
      DecodedFitted(codec, block, proposed, wanted.value);
      PlanConforms(before.value, wanted.value, handler, block);
    }
  }

  /** What a plan is answered with conforms. */
  lemma {:induction false} PlanConforms(before: Value, wanted: Value, handler: Option<Handler>, block: Block)
    requires WellFormed(block) && DynamicFree(CtyType(block)) && DefaultsConform(block)
    requires Conforms(before, CtyType(block)) && Conforms(wanted, CtyType(block))
    ensures var planned := Planned(before, Suppressed(before, wanted, handler), block);
            && EncodeDynamic(planned, CtyType(block)).Some?
            && (handler.Some? && handler.value.modifyPlan(before, planned).Ok? ==>
                  EncodeDynamic(Modified(planned, handler.value.modifyPlan(before, planned).value, before),
                      CtyType(block)).Some?)
  {
    var ty := CtyType(block);
    if handler.Some? { SuppressedConforms(before, wanted, handler.value.semanticEquality, ty); }
    var kept := Suppressed(before, wanted, handler);
    PlanKeepsType(before, kept, block);
    var planned := Planned(before, kept, block);
    EncodesIffConforms(planned, ty);
    if handler.Some? && handler.value.modifyPlan(before, planned).Ok? {
      var mods := handler.value.modifyPlan(before, planned).value;
      ModifiedConforms(planned, mods, before, ty);
      EncodesIffConforms(Modified(planned, mods, before), ty);
    }
  }

  /** So every resource reflected from a struct with distinct keys, whose literal defaults
      stand on scalar fields, has its plans refused for nothing else. */
  lemma {:induction false} ReflectedPlanAnswers(
    codec: Codec, fs: seq<Typed.Field>, resource: Resource, prior: Option<DynamicValue>, proposed: Option<DynamicValue>)
    requires TypedLaws.DistinctKeys(Typed.SStruct(fs)) && ReflectLaws.ScalarLiterals(fs)
    requires Reflect.BlockFromShape(codec.host, Typed.SStruct(fs)) == Ok(resource.block)
    ensures PlanAnswer(codec, Some(resource), prior, proposed).failed <==> PlanRefused(codec, resource, prior, proposed)
  {
    ReflectLaws.ReflectedDistinct(codec.host, fs);
    ReflectLaws.ReflectedDynamicFree(codec.host, fs);
    ReflectLaws.DefaultsConformIffScalar(codec.host, fs);
    PlanAnswers(codec, resource, prior, proposed);
  }
}
