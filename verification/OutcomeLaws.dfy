/** What the answer to an apply or a refresh holds: what the handler returned. */
module OutcomeLaws {
  import opened Wrappers
  import opened Types
  import opened Values
  import opened Encode
  import opened Decode
  import opened RoundTrip
  import opened Schema
  import opened WriteOnly
  import opened WriteOnlyLaws
  import opened Paths
  import opened PlanLaws
  import opened PlanDecision
  import opened Service
  import opened ServiceLaws
  import opened ReceivedLaws
  import opened AnswerLaws

  // --- answers ----------------------------------------------------------------

  /** The answered state decodes, and reads `x` at the path, as the wire brings it back. */
  ghost predicate AnswerReads(codec: Codec, block: Block, answer: Answer, p: Path, x: Value) {
    answer.state.Some?
    && var back := DecodeDynamic(codec, answer.state, CtyType(block));
       && back.Ok? && TypeAt(CtyType(block), p).Some?
       && GetAt(back.value, p) == Some(Received(x, TypeAt(CtyType(block), p).value))
  }

  /** At every depth the attributes of the answered state are those of `found`: a
      write-only one is null, and so is one that is not there. */
  ghost predicate AttributesRead(codec: Codec, block: Block, answer: Answer, found: Value) {
    forall p | AttributeAt(block, p).Some? && HasHolder(found, p) ::
      AnswerReads(codec, block, answer, p,
        if GetAt(found, p).None? || AttributeAt(block, p).value.writeOnly then Null else GetAt(found, p).value)
  }

  /** Off the write-only attributes a value reads as before: leaves, keys and lengths. */
  ghost predicate SameOffSecrets(block: Block, v: Value, w: Value) {
    forall p | !ThroughSecret(block, p) :: SameReading(GetAt(v, p), GetAt(w, p))
  }

  /** The answer holds what a handler found, without its write-only values: there is a
      state exactly when what is left conforms, and that state holds it, cut to its type,
      exactly when the wire keeps its numbers. */
  ghost predicate AnswersFound(codec: Codec, block: Block, answer: Answer, found: Value) {
    var left, ty := Stripped(found, block), CtyType(block);
    && Clean(left, block, false) && SameOffSecrets(block, found, left)
    && answer.requiresReplace == [] && (answer.failed <==> !Conforms(left, ty))
    && (answer.state.Some? <==> Conforms(left, ty))
    && (Conforms(left, ty) ==>
          && AttributesRead(codec, block, answer, found)
          && (HoldsValue(codec, block, answer.state, Project(left, ty)) <==> AllNumbers(Project(left, ty), SURVIVES)))
  }

  /** The answer holds null: there is nothing any more. */
  ghost predicate AnswersNothing(codec: Codec, block: Block, answer: Answer) {
    && !answer.failed && answer.requiresReplace == [] && answer.state.Some?
    && DecodeDynamic(codec, answer.state, CtyType(block)) == Ok(Null)
  }

  /** The answer reports a failure and holds the prior value, as far as the wire can. */
  ghost predicate AnswersPrior(codec: Codec, block: Block, answer: Answer, before: Value) {
    var ty := CtyType(block);
    && answer.failed && answer.requiresReplace == [] && (answer.state.Some? <==> Conforms(before, ty))
    && (Conforms(before, ty) ==>
          (HoldsValue(codec, block, answer.state, Project(before, ty)) <==> AllNumbers(Project(before, ty), SURVIVES)))
  }

  // --- encoded values ---------------------------------------------------------

  /** Under the block's type an encoded value comes back as received. */
  lemma {:induction false} EncodedReads(codec: Codec, block: Block, w: Value)
    requires WellFormed(block) && Conforms(w, CtyType(block))
    ensures EncodeDynamic(w, CtyType(block)).Some?
    ensures DecodeDynamic(codec, EncodeDynamic(w, CtyType(block)), CtyType(block)) == Ok(Received(w, CtyType(block)))
  {
    CtyTypeDistinct(block);
    EncodesIffConforms(w, CtyType(block));
    MsgpackRoundTrip(codec.host, w, CtyType(block));
  }

  /** An answer that encodes `w` reads at every path of the type what `w` has there, and
      null where an object lacks an attribute. */
  lemma {:induction false} EncodedReadsAt(codec: Codec, block: Block, w: Value, answer: Answer, p: Path)
    requires WellFormed(block) && Conforms(w, CtyType(block)) && answer.state == EncodeDynamic(w, CtyType(block))
    requires TypeAt(CtyType(block), p).Some?
    ensures GetAt(w, p).Some? ==> AnswerReads(codec, block, answer, p, GetAt(w, p).value)
    ensures GetAt(w, p).None? && HasHolder(w, p) ==> AnswerReads(codec, block, answer, p, Null)
  {
    EncodedReads(codec, block, w);
    CtyTypeDistinct(block);
    if GetAt(w, p).Some? {
      ReceivedAt(w, CtyType(block), p);
    } else if HasHolder(w, p) {
      MissingReceived(w, CtyType(block), p);
      ReceivedNull(Null, TypeAt(CtyType(block), p).value);
    }
  }

  lemma {:induction false} StrippedReads(codec: Codec, block: Block, found: Value, answer: Answer)
    requires WellFormed(block) && Conforms(Stripped(found, block), CtyType(block))
    requires answer.state == EncodeDynamic(Stripped(found, block), CtyType(block))
    ensures AttributesRead(codec, block, answer, found)
  {
    forall p | AttributeAt(block, p).Some? && HasHolder(found, p)
      ensures AnswerReads(codec, block, answer, p,
                if GetAt(found, p).None? || AttributeAt(block, p).value.writeOnly then Null else GetAt(found, p).value)
    {
      AttributeTyped(block, p);
      StripDecides(found, block, p);
      EncodedReadsAt(codec, block, Stripped(found, block), answer, p);
    }
  }

  /** Answering a stripped value. */
  lemma {:induction false} RespondsFound(codec: Codec, block: Block, found: Value)
    requires WellFormed(block)
    ensures AnswersFound(codec, block, RespondState(Stripped(found, block), CtyType(block), []), found)
  {
    var left := Stripped(found, block);
    StripCleans(found, block);
    forall p | !ThroughSecret(block, p) ensures SameReading(GetAt(found, p), GetAt(left, p)) {
      StripKeepsTheRest(found, block, p);
    }
    EncodedHolds(codec, block, left);
    if Conforms(left, CtyType(block)) {
      StrippedReads(codec, block, found, RespondState(left, CtyType(block), []));
    }
  }

  lemma {:induction false} RespondsNothing(codec: Codec, block: Block)
    ensures AnswersNothing(codec, block, RespondState(Null, CtyType(block), []))
  {
  }

  lemma {:induction false} PriorAnswered(codec: Codec, block: Block, before: Value)
    requires WellFormed(block)
    ensures AnswersPrior(codec, block, Answer(EncodeDynamic(before, CtyType(block)), [], true), before)
  {
    EncodedHolds(codec, block, before);
  }

  // --- read -------------------------------------------------------------------

  /** A refresh answers what the handler found, null when there is nothing, and no state
      when it fails. */
  lemma {:induction false} ReadAnswers(
    codec: Codec, resource: Resource, handler: Handler, current: Option<DynamicValue>, v: Value)
    requires WellFormed(resource.block) && resource.handler == Some(handler)
    requires DecodeDynamic(codec, current, CtyType(resource.block)) == Ok(v)
    ensures var answer := ReadAnswer(codec, Some(resource), current);
            match handler.read(v)
            case Ok(Some(found)) => AnswersFound(codec, resource.block, answer, found)
            case Ok(None) => AnswersNothing(codec, resource.block, answer)
            case Err(_) => answer.failed && answer.state.None? && answer.requiresReplace == []
  {
    match handler.read(v)
    case Ok(Some(found)) => RespondsFound(codec, resource.block, found);
    case Ok(None) => RespondsNothing(codec, resource.block);
    case Err(_) =>
  }

  // --- apply ------------------------------------------------------------------

  /** What an apply answers, by the operation it comes to: a null plan deletes, a null
      prior creates, and anything else updates, each given the plan with the
      configuration's write-only values merged in. */
  ghost predicate AppliesTo(codec: Codec, block: Block, handler: Handler, before: Value, given: Value, answer: Answer) {
    if given.Null? then
      match handler.delete(before)
      case Ok(_) => AnswersNothing(codec, block, answer)
      case Err(_) => AnswersPrior(codec, block, answer, before)
    else if before.Null? then
      match handler.create(given)
      case Ok(made) => AnswersFound(codec, block, answer, made)
      case Err(_) => AnswersPrior(codec, block, answer, before)
    else
      match handler.update(given, before)
      case Ok(made) => AnswersFound(codec, block, answer, made)
      case Err(_) => AnswersPrior(codec, block, answer, before)
  }

  lemma {:induction false} ApplyAnswers(
    codec: Codec, resource: Resource, handler: Handler,
    prior: Option<DynamicValue>, planned: Option<DynamicValue>, config: Option<DynamicValue>,
    before: Value, wanted: Value, c: Value)
    requires WellFormed(resource.block) && resource.handler == Some(handler)
    requires DecodeDynamic(codec, prior, CtyType(resource.block)) == Ok(before)
    requires DecodeDynamic(codec, planned, CtyType(resource.block)) == Ok(wanted)
    requires BlockHas(resource.block) && !wanted.Null? ==>
               DecodeDynamic(codec, config, CtyType(resource.block)) == Ok(c)
    ensures AppliesTo(codec, resource.block, handler, before, Merged(wanted, c, resource.block),
              ApplyAnswer(codec, Some(resource), prior, planned, config))
  {
    var block := resource.block;
    var given := Merged(wanted, c, block);
    ApplyGives(codec, resource, handler, prior, planned, config, before, wanted, c);
    OutcomeAnswers(codec, block, handler, before, given);
  }

  lemma {:induction false} OutcomeAnswers(codec: Codec, block: Block, handler: Handler, before: Value, given: Value)
    requires WellFormed(block)
    ensures AppliesTo(codec, block, handler, before, given, ApplyOutcome(handler, before, given, block))
  {
    match Outcome(handler, before, given)
    case Err(_) => PriorAnswered(codec, block, before);
    case Ok(made) =>
      if given.Null? {
        NothingStripped(block);
        RespondsNothing(codec, block);
      } else {
        RespondsFound(codec, block, made);
      }
  }

  lemma {:induction false} NothingStripped(block: Block)
    ensures Stripped(Null, block) == Null
  {
  }

  /** Whatever does not decode fails, without a state. */
  lemma {:induction false} UndecodedFails(
    codec: Codec, resource: Resource,
    prior: Option<DynamicValue>, planned: Option<DynamicValue>, config: Option<DynamicValue>)
    ensures var ty := CtyType(resource.block);
            resource.handler.None? || DecodeDynamic(codec, prior, ty).Err? ==>
              && ReadAnswer(codec, Some(resource), prior) == Answer(None, [], true)
              && ApplyAnswer(codec, Some(resource), prior, planned, config) == Answer(None, [], true)
    ensures var ty := CtyType(resource.block);
            DecodeDynamic(codec, planned, ty).Err?
            || (BlockHas(resource.block) && !DecodeDynamic(codec, planned, ty).value.Null?
                && DecodeDynamic(codec, config, ty).Err?) ==>
              ApplyAnswer(codec, Some(resource), prior, planned, config) == Answer(None, [], true)
  {
  }
}
