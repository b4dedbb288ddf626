/** The provider service: planning, reading and applying one managed resource. */
module Service {
  import opened Wrappers
  import opened Types
  import opened Values
  import opened Encode
  import opened Decode
  import opened JsonCodec
  import opened Schema
  import opened WriteOnly
  import opened Paths
  import opened Plan
  import opened Normalize

  /** Wire bytes, seen as what they spell. */
  datatype Payload<+T> = Empty | Malformed | Holds(value: T)

  datatype DynamicValue = DynamicValue(msgpack: Payload<Mp>, json: Payload<Json>)

  /** The library functions the codec calls. */
  datatype Codec = Codec(host: Parsers, lib: JsonLibrary)

  type Failure = string

  /** An erased resource handler. Each answer may be anything, failure included. */
  datatype Handler = Handler(
    read: Value -> Result<Option<Value>, Failure>,
    create: Value -> Result<Value, Failure>,
    update: (Value, Value) -> Result<Value, Failure>,
    delete: Value -> Result<(), Failure>,
    modifyPlan: (Value, Value) -> Result<PlanModifications, Failure>,
    semanticEquality: Canon)

  /** What the provider knows of a type name; the handler may not be built yet. */
  datatype Resource = Resource(block: Block, handler: Option<Handler>)

  datatype Answer = Answer(state: Option<DynamicValue>, requiresReplace: seq<Path>, failed: bool)

  const FAILED := Answer(None, [], true)

  /** `decode_dynamic`: msgpack when there is any, else JSON, else null. */
  function DecodeDynamic(codec: Codec, dv: Option<DynamicValue>, ty: Type): Decoded {
    match dv
    case None => Ok(Null)
    case Some(DynamicValue(Holds(mp), _)) => FromMp(codec.host, mp, ty)
    case Some(DynamicValue(Malformed, _)) => Err(BadBytes)
    case Some(DynamicValue(Empty, Holds(json))) => DecodeJson(codec.host, codec.lib, json, ty)
    case Some(DynamicValue(Empty, Malformed)) => Err(BadBytes)
    case Some(DynamicValue(Empty, Empty)) => Ok(Null)
  }

  /** `encode_dynamic`, with its failure as an absence. */
  function EncodeDynamic(v: Value, ty: Type): Option<DynamicValue> {
    match ToMp(v, ty)
    case Ok(mp) => Some(DynamicValue(Holds(mp), Empty))
    case Err(_) => None
  }

  /** `respond_state`. */
  function RespondState(v: Value, ty: Type, replace: seq<Path>): Answer {
    match EncodeDynamic(v, ty)
    case Some(dv) => Answer(Some(dv), replace, false)
    case None => FAILED
  }

  // --- plan -------------------------------------------------------------------

  function Suppressed(prior: Value, proposed: Value, handler: Option<Handler>): Value {
    if handler.Some? then KeptPrior(prior, proposed, handler.value.semanticEquality) else proposed
  }

  function PlanAnswer(
    codec: Codec, resource: Option<Resource>, prior: Option<DynamicValue>, proposed: Option<DynamicValue>): Answer
  {
    if resource.None? then FAILED
    else
      var block, handler := resource.value.block, resource.value.handler;
      match (DecodeDynamic(codec, prior, CtyType(block)), DecodeDynamic(codec, proposed, CtyType(block)))
      case (Ok(before), Ok(wanted)) =>
        var kept := Suppressed(before, wanted, handler);
        var planned := Planned(before, kept, block);
        var replace := PlannedReplacements(before, kept, block);
        if handler.None? then RespondState(planned, CtyType(block), replace)
        else
          (match handler.value.modifyPlan(before, planned)
           case Err(_) => FAILED
           case Ok(mods) =>
             RespondState(Modified(planned, mods, before), CtyType(block), Extended(replace, mods.requireReplace)))
      case _ => FAILED
  }

  /** `plan_resource_change`. */
  method PlanResourceChange(
    codec: Codec, resource: Option<Resource>, prior: Option<DynamicValue>, proposed: Option<DynamicValue>)
    returns (answer: Answer)
    ensures answer == PlanAnswer(codec, resource, prior, proposed)
  {
    if resource.None? { return FAILED; }
    var block := resource.value.block;
    var ty := BuildCtyType(block);
    var before := DecodeDynamic(codec, prior, ty);
    if before.Err? { return FAILED; }
    var wanted := DecodeDynamic(codec, proposed, ty);
    if wanted.Err? { return FAILED; }
    var kept := wanted.value;
    if resource.value.handler.Some? {
      kept := KeepPrior(before.value, kept, resource.value.handler.value.semanticEquality);
    }
    var plan := new ResourcePlan(before.value, kept, block);
    if resource.value.handler.Some? {
      var mods := resource.value.handler.value.modifyPlan(before.value, plan.planned);
      if mods.Err? { return FAILED; }
      plan.ApplyModifications(mods.value, before.value);
    }
    answer := RespondState(plan.planned, ty, plan.requiresReplace);
  }

  // --- read -------------------------------------------------------------------

  function ReadAnswer(codec: Codec, resource: Option<Resource>, current: Option<DynamicValue>): Answer {
    if resource.None? || resource.value.handler.None? then FAILED
    else
      var block := resource.value.block;
      match DecodeDynamic(codec, current, CtyType(block))
      case Err(_) => FAILED
      case Ok(v) =>
        match resource.value.handler.value.read(v)
        case Err(_) => FAILED
        case Ok(None) => RespondState(Null, CtyType(block), [])
        case Ok(Some(found)) => RespondState(Stripped(found, block), CtyType(block), [])
  }

  /** `read_resource`. A resource that is gone reads as null. */
  method ReadResource(codec: Codec, resource: Option<Resource>, current: Option<DynamicValue>) returns (answer: Answer)
    ensures answer == ReadAnswer(codec, resource, current)
  {
    if resource.None? || resource.value.handler.None? { return FAILED; }
    var block := resource.value.block;
    var ty := BuildCtyType(block);
    var v := DecodeDynamic(codec, current, ty);
    if v.Err? { return FAILED; }
    var outcome := resource.value.handler.value.read(v.value);
    if outcome.Err? { return FAILED; }
    var state := if outcome.value.Some? then outcome.value.value else Null;
    state := Strip(state, block);
    answer := RespondState(state, ty, []);
  }

  // --- apply ------------------------------------------------------------------

  /** The operation the two states ask for, on what the handler is given. */
  function Outcome(handler: Handler, before: Value, given: Value): Result<Value, Failure> {
    if given.Null? then
      (match handler.delete(before)
       case Ok(_) => Ok(Null)
       case Err(e) => Err(e))
    else if before.Null? then handler.create(given)
    else handler.update(given, before)
  }

  /** A failed operation answers with the prior state. */
  function ApplyOutcome(handler: Handler, before: Value, given: Value, block: Block): Answer {
    match Outcome(handler, before, given)
    case Ok(v) => RespondState(Stripped(v, block), CtyType(block), [])
    case Err(_) => Answer(EncodeDynamic(before, CtyType(block)), [], true)
  }

  /** The configuration is decoded and merged whenever something is to be created or
      updated; `apply_resource_change` skips that when the block declares no
      write-only attribute. */
  function ApplyAnswer(
    codec: Codec, resource: Option<Resource>,
    prior: Option<DynamicValue>, planned: Option<DynamicValue>, config: Option<DynamicValue>): Answer
  {
    if resource.None? || resource.value.handler.None? then FAILED
    else
      var block := resource.value.block;
      match (DecodeDynamic(codec, prior, CtyType(block)), DecodeDynamic(codec, planned, CtyType(block)))
      case (Ok(before), Ok(wanted)) =>
        if !BlockHas(block) || wanted.Null? then ApplyOutcome(resource.value.handler.value, before, wanted, block)
        else
          (match DecodeDynamic(codec, config, CtyType(block))
           case Err(_) => FAILED
           case Ok(c) => ApplyOutcome(resource.value.handler.value, before, Merged(wanted, c, block), block))
      case _ => FAILED
  }

  /** `apply_resource_change`. */
  method ApplyResourceChange(
    codec: Codec, resource: Option<Resource>,
    prior: Option<DynamicValue>, planned: Option<DynamicValue>, config: Option<DynamicValue>)
    returns (answer: Answer)
    ensures answer == ApplyAnswer(codec, resource, prior, planned, config)
  {
    if resource.None? || resource.value.handler.None? { return FAILED; }
    var block, handler := resource.value.block, resource.value.handler.value;
    var ty := BuildCtyType(block);
    var before := DecodeDynamic(codec, prior, ty);
    if before.Err? { return FAILED; }
    var wanted := DecodeDynamic(codec, planned, ty);
    if wanted.Err? { return FAILED; }
    var given := wanted.value;
    if BlockHas(block) && !given.Null? {
      var c := DecodeDynamic(codec, config, ty);
      if c.Err? { return FAILED; }
      given := MergeFromConfig(given, c.value, block);
    }
    var outcome: Result<Value, Failure>;
    if given.Null? {
      var gone := handler.delete(before.value);
      outcome := if gone.Ok? then Ok(Null) else Err(gone.error);
    } else if before.value.Null? {
      outcome := handler.create(given);
    } else {
      outcome := handler.update(given, before.value);
    }
    if outcome.Err? {
      return Answer(EncodeDynamic(before.value, ty), [], true);
    }
    var state := Strip(outcome.value, block);
    answer := RespondState(state, ty, []);
  }
}
