/** What holds of every state the service returns, over every run. */
module ServiceLaws {
  import opened Wrappers
  import opened Text
  import opened Types
  import opened Values
  import opened Encode
  import opened Decode
  import opened RoundTrip
  import opened Schema
  import opened WriteOnly
  import opened WriteOnlyLaws
  import opened Paths
  import opened Plan
  import opened PlanLaws
  import opened Service

  // --- clean values stay clean ------------------------------------------------

  /** What may be written at a path without leaking a secret: unknown, or what a clean
      value has at that same path. */
  predicate CleanSource(source: Option<Value>, block: Block, p: Path, x: Value) {
    match source
    case None => x.Unknown?
    case Some(s) => Clean(s, block, true) && GetAt(s, p) == Some(x)
  }

  predicate CleanElementSource(source: Option<Value>, mode: NestingMode, inner: Block, p: Path, x: Value) {
    match source
    case None => x.Unknown?
    case Some(s) => CleanElements(s, mode, inner, true) && GetAt(s, p) == Some(x)
  }

  function Under(source: Option<Value>, step: PathStep): Option<Value>
    requires source.Some? ==> Child(source.value, step).Some?
  {
    if source.None? then None else Child(source.value, step)
  }

  /** What `Clean` asks of one key. */
  predicate CleanSlot(block: Block, k: string, x: Value) {
    match SlotOf(block, k)
    case AttributeSlot(a) => a.writeOnly ==> x.Null? || x.Unknown?
    case BlockSlot(nb) => CleanElements(x, nb.nesting, nb.block, true)
    case Undeclared => true
  }

  lemma {:induction false} CleanBySlot(v: Value, block: Block)
    requires v.Object?
    ensures Clean(v, block, true) <==> forall k | k in v.fields :: CleanSlot(block, k, v.fields[k])
  {
    forall k | k in v.fields
      ensures CleanSlot(block, k, v.fields[k]) <==>
              match SlotOf(block, k)
              case AttributeSlot(a) => a.writeOnly ==> v.fields[k].Null? || (true && v.fields[k].Unknown?)
              case BlockSlot(nb) => CleanElements(v.fields[k], nb.nesting, nb.block, true)
              case Undeclared => true
    {
    }
  }

  lemma {:induction false} SetClean(v: Value, source: Option<Value>, block: Block, p: Path, x: Value)
    requires DistinctBlock(block) && Clean(v, block, true) && CleanSource(source, block, p, x)
    ensures Clean(SetAt(v, p, x), block, true)
    decreases p, 1
  {
    if p != [] && v.Object? && Child(v, p[0]).Some? {
      var k := p[0].name;
      var y := SetAt(v.fields[k], p[1..], x);
      SetCleanField(v, source, block, p, x);
      CleanWithField(v, block, k, y);
      assert SetAt(v, p, x) == Object(v.fields[k := y]);
    }
  }

  lemma {:induction false} CleanWithField(v: Value, block: Block, k: string, y: Value)
    requires v.Object? && Clean(v, block, true) && CleanSlot(block, k, y)
    ensures Clean(Object(v.fields[k := y]), block, true)
  {
    CleanBySlot(v, block);
    CleanBySlot(Object(v.fields[k := y]), block);
  }

  /** An empty slot is written as a whole or not at all. */
  lemma {:induction false} SetCleanLeaf(y: Value, source: Option<Value>, p: Path, x: Value)
    requires if source.None? then x.Unknown? else GetAt(source.value, p) == Some(x)
    ensures y.Null? || y.Unknown? ==>
              SetAt(y, p, x) == y || SetAt(y, p, x).Unknown? || (source.Some? && SetAt(y, p, x) == source.value)
  {
  }

  lemma {:induction false} SetCleanField(v: Value, source: Option<Value>, block: Block, p: Path, x: Value)
    requires DistinctBlock(block) && v.Object? && Clean(v, block, true) && CleanSource(source, block, p, x)
    requires p != [] && Child(v, p[0]).Some?
    ensures CleanSlot(block, p[0].name, SetAt(v.fields[p[0].name], p[1..], x))
    decreases p, 0
  {
    var k := p[0].name;
    CleanBySlot(v, block);
    if source.Some? {
      assert Child(source.value, p[0]).Some?;
      CleanBySlot(source.value, block);
    }
    if SlotOf(block, k).AttributeSlot? {
      SetCleanLeaf(v.fields[k], Under(source, p[0]), p[1..], x);
      assert CleanSlot(block, k, v.fields[k]);
    } else if SlotOf(block, k).BlockSlot? {
      var nb := SlotOf(block, k).nb;
      DistinctChild(block, nb);
      SetCleanElements(v.fields[k], Under(source, p[0]), nb.nesting, nb.block, p[1..], x);
    }
  }

  lemma {:induction false} CleanChild(y: Value, mode: NestingMode, inner: Block, step: PathStep)
    requires !mode.NestSingle? && FitsMode(step, mode) && CleanElements(y, mode, inner, true) && Child(y, step).Some?
    ensures Clean(Child(y, step).value, inner, true)
  {
  }

  lemma {:induction false} CleanWithChild(y: Value, mode: NestingMode, inner: Block, step: PathStep, c: Value)
    requires !mode.NestSingle? && CleanElements(y, mode, inner, true) && Child(y, step).Some?
    requires FitsMode(step, mode) ==> Clean(c, inner, true)
    ensures CleanElements(WithChild(y, step, c), mode, inner, true)
  {
  }

  lemma {:induction false} SetCleanElements(
    y: Value, source: Option<Value>, mode: NestingMode, inner: Block, p: Path, x: Value)
    requires DistinctBlock(inner) && CleanElements(y, mode, inner, true)
             && CleanElementSource(source, mode, inner, p, x)
    ensures CleanElements(SetAt(y, p, x), mode, inner, true)
    decreases p, 2
  {
    if mode.NestSingle? {
      SetClean(y, source, inner, p, x);
    } else if p != [] && Child(y, p[0]).Some? {
      if FitsMode(p[0], mode) {
        assert source.Some? ==> Child(source.value, p[0]).Some?;
        if source.Some? { CleanChild(source.value, mode, inner, p[0]); }
        CleanChild(y, mode, inner, p[0]);
        SetClean(Child(y, p[0]).value, Under(source, p[0]), inner, p[1..], x);
      }
      CleanWithChild(y, mode, inner, p[0], SetAt(Child(y, p[0]).value, p[1..], x));
    }
  }

  lemma {:induction false} KeptClean(v: Value, prior: Value, block: Block, paths: seq<Path>)
    requires DistinctBlock(block) && Clean(v, block, true) && Clean(prior, block, true)
    ensures Clean(Kept(v, prior, paths), block, true)
  {
    if paths != [] {
      var n := |paths| - 1;
      KeptClean(v, prior, block, paths[..n]);
      if GetAt(prior, paths[n]).Some? {
        SetClean(Kept(v, prior, paths[..n]), Some(prior), block, paths[n], GetAt(prior, paths[n]).value);
      }
    }
  }

  lemma {:induction false} ObscuredClean(v: Value, block: Block, paths: seq<Path>)
    requires DistinctBlock(block) && Clean(v, block, true)
    ensures Clean(Obscured(v, paths), block, true)
  {
    if paths != [] {
      var n := |paths| - 1;
      ObscuredClean(v, block, paths[..n]);
      SetClean(Obscured(v, paths[..n]), None, block, paths[n], Unknown);
    }
  }

  lemma {:induction false} StrictlyClean(v: Value, block: Block)
    requires DistinctBlock(block) && Clean(v, block, false)
    ensures Clean(v, block, true)
    decreases block, 1
  {
    if v.Object? {
      forall k | k in v.fields && SlotOf(block, k).BlockSlot?
        ensures CleanElements(v.fields[k], SlotOf(block, k).nb.nesting, SlotOf(block, k).nb.block, true)
      {
        var nb := SlotOf(block, k).nb;
        DistinctChild(block, nb);
        StrictlyCleanElements(v.fields[k], nb.nesting, nb.block);
      }
    }
  }

  lemma {:induction false} StrictlyCleanElements(x: Value, mode: NestingMode, inner: Block)
    requires DistinctBlock(inner) && CleanElements(x, mode, inner, false)
    ensures CleanElements(x, mode, inner, true)
    decreases inner, 2
  {
    if mode.NestSingle? {
      StrictlyClean(x, inner);
    } else if mode.NestMap? {
      if x.Map? { forall k | k in x.entries { StrictlyClean(x.entries[k], inner); } }
    } else if x.List? || x.Set? {
      forall i | 0 <= i < |x.items| { StrictlyClean(x.items[i], inner); }
    }
  }

  /** Whatever the prior state, the proposal and the author's modifications, the
      modified plan shows no secret the prior state did not show. */
  lemma {:induction false} ModifiedPlanClean(prior: Value, proposed: Value, mods: PlanModifications, block: Block)
    requires DistinctBlock(block) && Clean(prior, block, true)
    ensures Clean(Planned(prior, proposed, block), block, true)
    ensures Clean(Modified(Planned(prior, proposed, block), mods, prior), block, true)
  {
    var planned := Planned(prior, proposed, block);
    PlanSettles(prior, proposed, block);
    StrictlyClean(planned, block);
    KeptClean(planned, prior, block, mods.keepPrior);
    ObscuredClean(Kept(planned, prior, mods.keepPrior), block, mods.unknown);
  }

  // --- the wire keeps a value clean -------------------------------------------

  lemma {:induction false} ReceivedNull(v: Value, ty: Type)
    ensures Received(v, ty).Null? <==> v.Null?
    ensures Received(v, ty).Unknown? <==> v.Unknown?
    ensures Conforms(v, ty) && ty.TObject? ==> (Received(v, ty).Object? <==> v.Object?)
    decreases ty.TDynamic?
  {
    if ty.TDynamic? && !v.Null? && !v.Unknown? {
      InferDynamic(v);
      ReceivedNull(v, InferType(v));
    }
  }

  /** One declared attribute of a received object. */
  lemma {:induction false} ReceivedField(v: Value, attrs: seq<ObjectAttr>, k: string) returns (i: nat)
    requires v.Object? && Distinct(Names(attrs)) && Received(v, TObject(attrs)).Object?
             && k in Received(v, TObject(attrs)).fields
    ensures i < |attrs| && attrs[i].name == k
    ensures Received(v, TObject(attrs)).fields[k] == if k in v.fields then Received(v.fields[k], attrs[i].ty) else Null
  {
    assert k in Names(attrs);
    i :| 0 <= i < |attrs| && Names(attrs)[i] == k;
    ProjectField(v, attrs, i);
  }

  lemma {:induction false} BlockTypeSlot(block: Block, i: nat)
    requires DistinctBlock(block) && CtyType(block).TObject? && i < |CtyType(block).attrs|
    ensures match SlotOf(block, CtyType(block).attrs[i].name)
            case AttributeSlot(a) => CtyType(block).attrs[i].ty == a.ty
            case BlockSlot(nb) =>
              nb in block.nested && CtyType(block).attrs[i].ty == Nest(nb.nesting, CtyType(nb.block))
            case Undeclared => false
  {
    var ns := CtyTypeSpec(block);
    var n := |block.attributes|;
    if i < n {
      assert CtyType(block).attrs[i] == AttrTypes(block.attributes)[i];
      SlotOfAttribute(block, i);
    } else {
      assert CtyType(block).attrs[i] == ns[i - n];
      SlotOfNested(block, i - n);
    }
  }

  lemma {:induction false} DistinctChildTypes(block: Block, nb: NestedBlock)
    requires DistinctTypes(block) && nb in block.nested
    ensures DistinctTypes(nb.block)
  {
    var j :| 0 <= j < |block.nested| && block.nested[j] == nb;
  }

  lemma {:induction false} ReceivedClean(v: Value, block: Block)
    requires DistinctBlock(block) && DistinctTypes(block) && Conforms(v, CtyType(block)) && Clean(v, block, true)
    ensures Clean(Received(v, CtyType(block)), block, true)
    decreases block, 1
  {
    var w := Received(v, CtyType(block));
    ReceivedNull(v, CtyType(block));
    CtyTypeDistinct(block);
    if w.Object? {
      forall k | k in w.fields
        ensures SlotOf(block, k).AttributeSlot? && SlotOf(block, k).attr.writeOnly ==>
                  w.fields[k].Null? || w.fields[k].Unknown?
        ensures SlotOf(block, k).BlockSlot? ==>
                  CleanElements(w.fields[k], SlotOf(block, k).nb.nesting, SlotOf(block, k).nb.block, true)
      {
        ReceivedCleanField(v, block, k);
      }
    }
  }

  lemma {:induction false} ReceivedCleanField(v: Value, block: Block, k: string)
    requires DistinctBlock(block) && DistinctTypes(block) && Conforms(v, CtyType(block)) && Clean(v, block, true)
    requires v.Object? && Received(v, CtyType(block)).Object? && k in Received(v, CtyType(block)).fields
    ensures var x := Received(v, CtyType(block)).fields[k];
            && (SlotOf(block, k).AttributeSlot? && SlotOf(block, k).attr.writeOnly ==> x.Null? || x.Unknown?)
            && (SlotOf(block, k).BlockSlot? ==>
                  CleanElements(x, SlotOf(block, k).nb.nesting, SlotOf(block, k).nb.block, true))
    decreases block, 0
  {
    CtyTypeDistinct(block);
    var i := ReceivedField(v, CtyType(block).attrs, k);
    BlockTypeSlot(block, i);
    if k in v.fields {
      ReceivedNull(v.fields[k], CtyType(block).attrs[i].ty);
      assert Conforms(v.fields[k], CtyType(block).attrs[i].ty);
      if SlotOf(block, k).BlockSlot? {
        var nb := SlotOf(block, k).nb;
        DistinctChild(block, nb);
        DistinctChildTypes(block, nb);
        ReceivedCleanElements(v.fields[k], nb.nesting, nb.block);
      }
    }
  }

  lemma {:induction false} ReceivedCleanElements(x: Value, mode: NestingMode, inner: Block)
    requires DistinctBlock(inner) && DistinctTypes(inner)
    requires Conforms(x, Nest(mode, CtyType(inner))) && CleanElements(x, mode, inner, true)
    ensures CleanElements(Received(x, Nest(mode, CtyType(inner))), mode, inner, true)
    decreases inner, 3
  {
    if !x.Null? && !x.Unknown? {
      match mode
      case NestSingle => ReceivedClean(x, inner);
      case NestList => ReceivedCleanItems(x, mode, inner);
      case NestSet => ReceivedCleanItems(x, mode, inner);
      case NestMap =>
        var out := ReceivedMap(x, CtyType(inner));
        forall k | k in x.entries { ReceivedClean(x.entries[k], inner); }
    }
  }

  lemma {:induction false} ReceivedCleanItems(x: Value, mode: NestingMode, inner: Block)
    requires DistinctBlock(inner) && DistinctTypes(inner) && (mode.NestList? || mode.NestSet?) && !x.Null?
             && !x.Unknown?
    requires Conforms(x, Nest(mode, CtyType(inner))) && CleanElements(x, mode, inner, true)
    ensures CleanElements(Received(x, Nest(mode, CtyType(inner))), mode, inner, true)
    decreases inner, 2
  {
    var y := Received(x, Nest(mode, CtyType(inner)));
    forall i | 0 <= i < |y.items| ensures Clean(y.items[i], inner, true) {
      assert y.items[i] == Received(x.items[i], CtyType(inner));
      ReceivedClean(x.items[i], inner);
    }
  }

  // --- returned states --------------------------------------------------------

  /** A state the host may hold: it decodes to null, unknown or an object of the
      schema's type, shows no write-only value, and encodes back to the same bytes. */
  ghost predicate Sound(codec: Codec, block: Block, state: DynamicValue) {
    state.msgpack.Holds? && state.json.Empty?
    && var back := FromMp(codec.host, state.msgpack.value, CtyType(block));
       && back.Ok?
       && Conforms(back.value, CtyType(block))
       && Clean(back.value, block, true)
       && ToMp(back.value, CtyType(block)) == Ok(state.msgpack.value)
  }

  predicate WellFormed(block: Block) { DistinctBlock(block) && DistinctTypes(block) }

  /** Encoding a clean value makes a sound state. */
  lemma {:induction false} EncodedSound(codec: Codec, block: Block, v: Value)
    requires WellFormed(block) && Clean(v, block, true)
    ensures EncodeDynamic(v, CtyType(block)).Some? ==> Sound(codec, block, EncodeDynamic(v, CtyType(block)).value)
  {
    var ty := CtyType(block);
    if ToMp(v, ty).Ok? {
      CtyTypeDistinct(block);
      EncodesIffConforms(v, ty);
      MsgpackRoundTrip(codec.host, v, ty);
      SecondTrip(codec.host, v, ty);
      Reencodes(v, ty);
      ReceivedClean(v, block);
    }
  }

  /** The decoded form of a sound state, or of none at all. */
  lemma {:induction false} DecodedSound(codec: Codec, block: Block, state: Option<DynamicValue>) returns (v: Value)
    requires state.Some? ==> Sound(codec, block, state.value)
    ensures DecodeDynamic(codec, state, CtyType(block)) == Ok(v) && Clean(v, block, true) && Conforms(v, CtyType(block))
    ensures EncodeDynamic(v, CtyType(block)) == if state.Some? then state else Some(DynamicValue(Holds(MNil), Empty))
  {
    v := if state.None? then Null else FromMp(codec.host, state.value.msgpack.value, CtyType(block)).value;
  }

  /** A prior state, in whatever encoding, that shows no write-only value if it decodes. */
  predicate CleanPrior(codec: Codec, block: Block, prior: Option<DynamicValue>) {
    var v := DecodeDynamic(codec, prior, CtyType(block));
    v.Ok? ==> Clean(v.value, block, true)
  }

  /** A planned state is sound whatever was proposed and however the author modified it. */
  lemma {:induction false} PlanSound(
    codec: Codec, resource: Resource, prior: Option<DynamicValue>, proposed: Option<DynamicValue>)
    requires WellFormed(resource.block) && CleanPrior(codec, resource.block, prior)
    ensures var state := PlanAnswer(codec, Some(resource), prior, proposed).state;
            state.Some? ==> Sound(codec, resource.block, state.value)
  {
    var block, handler := resource.block, resource.handler;
    var decoded := DecodeDynamic(codec, prior, CtyType(block));
    var wanted := DecodeDynamic(codec, proposed, CtyType(block));
    if decoded.Ok? && wanted.Ok? {
      var before := decoded.value;
      var kept := Suppressed(before, wanted.value, handler);
      var planned := Planned(before, kept, block);
      if handler.None? {
        ModifiedPlanClean(before, kept, PlanModifications([], [], []), block);
        EncodedSound(codec, block, planned);
      } else if handler.value.modifyPlan(before, planned).Ok? {
        var mods := handler.value.modifyPlan(before, planned).value;
        ModifiedPlanClean(before, kept, mods, block);
        EncodedSound(codec, block, Modified(planned, mods, before));
      }
    }
  }

  /** A refreshed state is sound whatever was sent and whatever the handler found. */
  lemma {:induction false} ReadSound(codec: Codec, resource: Resource, current: Option<DynamicValue>)
    requires WellFormed(resource.block)
    ensures var state := ReadAnswer(codec, Some(resource), current).state;
            state.Some? ==> Sound(codec, resource.block, state.value)
  {
    var block := resource.block;
    var v := DecodeDynamic(codec, current, CtyType(block));
    if resource.handler.Some? && v.Ok? {
      var found := resource.handler.value.read(v.value);
      if found.Ok? {
        var state := if found.value.Some? then Stripped(found.value.value, block) else Null;
        if found.value.Some? { StripCleans(found.value.value, block); }
        StrictlyClean(state, block);
        EncodedSound(codec, block, state);
      }
    }
  }

  lemma {:induction false} OutcomeSound(codec: Codec, block: Block, handler: Handler, before: Value, given: Value)
    requires WellFormed(block) && Clean(before, block, true)
    ensures var state := ApplyOutcome(handler, before, given, block).state;
            state.Some? ==> Sound(codec, block, state.value)
  {
    match Outcome(handler, before, given)
    case Ok(v) =>
      StripCleans(v, block);
      StrictlyClean(Stripped(v, block), block);
      EncodedSound(codec, block, Stripped(v, block));
    case Err(_) => EncodedSound(codec, block, before);
  }

  /** An applied state is sound whatever was planned and configured and whatever the
      handler answered. */
  lemma {:induction false} ApplySound(
    codec: Codec, resource: Resource,
    prior: Option<DynamicValue>, planned: Option<DynamicValue>, config: Option<DynamicValue>)
    requires WellFormed(resource.block) && CleanPrior(codec, resource.block, prior)
    ensures var state := ApplyAnswer(codec, Some(resource), prior, planned, config).state;
            state.Some? ==> Sound(codec, resource.block, state.value)
  {
    var block := resource.block;
    var decoded := DecodeDynamic(codec, prior, CtyType(block));
    if resource.handler.Some? && decoded.Ok? && DecodeDynamic(codec, planned, CtyType(block)).Ok? {
      var before := decoded.value;
      var wanted := DecodeDynamic(codec, planned, CtyType(block)).value;
      var c := DecodeDynamic(codec, config, CtyType(block));
      OutcomeSound(codec, block, resource.handler.value, before, wanted);
      if c.Ok? { OutcomeSound(codec, block, resource.handler.value, before, Merged(wanted, c.value, block)); }
    }
  }

  /** What the handler is given: the plan with the configuration's write-only values
      merged in. The configuration need only decode when a block with write-only
      attributes is created or updated; skipping it otherwise changes nothing. */
  lemma {:induction false} ApplyGives(
    codec: Codec, resource: Resource, handler: Handler,
    prior: Option<DynamicValue>, planned: Option<DynamicValue>, config: Option<DynamicValue>,
    before: Value, wanted: Value, c: Value)
    requires resource.handler == Some(handler)
    requires DecodeDynamic(codec, prior, CtyType(resource.block)) == Ok(before)
    requires DecodeDynamic(codec, planned, CtyType(resource.block)) == Ok(wanted)
    requires BlockHas(resource.block) && !wanted.Null? ==>
               DecodeDynamic(codec, config, CtyType(resource.block)) == Ok(c)
    ensures ApplyAnswer(codec, Some(resource), prior, planned, config)
            == ApplyOutcome(handler, before, Merged(wanted, c, resource.block), resource.block)
  {
    if !BlockHas(resource.block) { NoSecretsNoChange(wanted, c, resource.block); }
  }

  // --- runs -------------------------------------------------------------------

  /** One request of a run, with the handler that answers it. */
  datatype Step =
    | PlanStep(handler: Option<Handler>, prior: Option<DynamicValue>, proposed: Option<DynamicValue>)
    | ReadStep(handler: Option<Handler>, current: Option<DynamicValue>)
    | ApplyStep(
        handler: Option<Handler>, prior: Option<DynamicValue>, planned: Option<DynamicValue>,
        config: Option<DynamicValue>)

  function Answered(codec: Codec, block: Block, step: Step): Option<DynamicValue> {
    var resource := Some(Resource(block, step.handler));
    match step
    case PlanStep(_, prior, proposed) => PlanAnswer(codec, resource, prior, proposed).state
    case ReadStep(_, current) => ReadAnswer(codec, resource, current).state
    case ApplyStep(_, prior, planned, config) => ApplyAnswer(codec, resource, prior, planned, config).state
  }

  /** The states answered over the steps. */
  function Returned(codec: Codec, block: Block, steps: seq<Step>): set<DynamicValue> {
    if steps == [] then {}
    else
      var n := |steps| - 1;
      Returned(codec, block, steps[..n])
      + if Answered(codec, block, steps[n]).Some? then {Answered(codec, block, steps[n]).value} else {}
  }

  /** A prior state that comes from the ones held, as one of them or as the same value in
      another encoding, or else shows no write-only value itself, as none at all does. */
  ghost predicate ComesFrom(codec: Codec, block: Block, prior: Option<DynamicValue>, held: set<DynamicValue>) {
    CleanPrior(codec, block, prior)
    || exists s | s in held ::
         DecodeDynamic(codec, prior, CtyType(block)) == DecodeDynamic(codec, Some(s), CtyType(block))
  }

  /** Every prior state sent comes from the states the host started with and those it
      was answered; everything else in a request may be anything. */
  ghost predicate Run(codec: Codec, block: Block, start: set<DynamicValue>, steps: seq<Step>) {
    steps == []
    || var n := |steps| - 1;
       && Run(codec, block, start, steps[..n])
       && (!steps[n].ReadStep? ==>
             ComesFrom(codec, block, steps[n].prior, start + Returned(codec, block, steps[..n])))
  }

  lemma {:induction false} SoundIsClean(codec: Codec, block: Block, s: DynamicValue)
    requires Sound(codec, block, s)
    ensures CleanPrior(codec, block, Some(s))
  {
  }

  lemma {:induction false} ComesClean(codec: Codec, block: Block, prior: Option<DynamicValue>, held: set<DynamicValue>)
    requires ComesFrom(codec, block, prior, held) && forall s | s in held :: CleanPrior(codec, block, Some(s))
    ensures CleanPrior(codec, block, prior)
  {
  }

  /** The answer to one request that sends a clean prior state, if any. */
  lemma {:induction false} StepSound(codec: Codec, block: Block, step: Step)
    requires WellFormed(block) && (!step.ReadStep? ==> CleanPrior(codec, block, step.prior))
    ensures var state := Answered(codec, block, step); state.Some? ==> Sound(codec, block, state.value)
  {
    var resource := Resource(block, step.handler);
    match step
    case PlanStep(_, prior, proposed) => PlanSound(codec, resource, prior, proposed);
    case ReadStep(_, current) => ReadSound(codec, resource, current);
    case ApplyStep(_, prior, planned, config) => ApplySound(codec, resource, prior, planned, config);
  }

  /** Over every run from start states that show no write-only value, in any encoding,
      every state the service ever returns is sound. */
  lemma {:induction false} RunSound(codec: Codec, block: Block, start: set<DynamicValue>, steps: seq<Step>)
    requires WellFormed(block) && Run(codec, block, start, steps)
    requires forall s | s in start :: CleanPrior(codec, block, Some(s))
    ensures forall s | s in Returned(codec, block, steps) :: Sound(codec, block, s)
  {
    if steps != [] {
      var n := |steps| - 1;
      RunSound(codec, block, start, steps[..n]);
      var held := start + Returned(codec, block, steps[..n]);
      forall s | s in held ensures CleanPrior(codec, block, Some(s)) {
        if s !in start { SoundIsClean(codec, block, s); }
      }
      if !steps[n].ReadStep? { ComesClean(codec, block, steps[n].prior, held); }
      StepSound(codec, block, steps[n]);
    }
  }
}
