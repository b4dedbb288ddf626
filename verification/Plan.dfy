/** The planning engine: defaults, unknown marking, replacement detection and the
    author's path-addressed modifications. */
module Plan {
  import opened Wrappers
  import opened Text
  import opened Values
  import opened Schema
  import opened WriteOnly
  import opened Paths

  function Field(fields: map<string, Value>, k: string): Option<Value> {
    if k in fields then Some(fields[k]) else None
  }

  // --- replacement ------------------------------------------------------------

  /** Rust's `==` on two looked-up fields. */
  predicate SameField(a: Option<Value>, b: Option<Value>) {
    match (a, b)
    case (None, None) => true
    case (Some(x), Some(y)) => ValueEq(x, y)
    case _ => false
  }

  predicate ForcesReplacement(prior: map<string, Value>, proposed: map<string, Value>, a: AttributeSchema) {
    a.forceNew && !SameField(Field(prior, a.name), Field(proposed, a.name))
  }

  function ReplacingPaths(
    prior: map<string, Value>, proposed: map<string, Value>, attributes: seq<AttributeSchema>): seq<Path>
  {
    if attributes == [] then []
    else
      var a := attributes[|attributes| - 1];
      ReplacingPaths(prior, proposed, attributes[..|attributes| - 1])
      + if ForcesReplacement(prior, proposed, a) then [[Attribute(a.name)]] else []
  }

  function Replacements(prior: Value, proposed: Value, block: Block): seq<Path> {
    if prior.Object? && proposed.Object? then ReplacingPaths(prior.fields, proposed.fields, block.attributes) else []
  }

  /** `requires_replace`. */
  method RequiresReplace(prior: Value, proposed: Value, block: Block) returns (paths: seq<Path>)
    ensures paths == Replacements(prior, proposed, block)
  {
    if !prior.Object? || !proposed.Object? { return []; }
    paths := [];
    for i := 0 to |block.attributes|
      invariant paths == ReplacingPaths(prior.fields, proposed.fields, block.attributes[..i])
    {
      var attr := block.attributes[i];
      assert block.attributes[..i + 1][..i] == block.attributes[..i];
      if attr.forceNew {
        if !SameField(Field(prior.fields, attr.name), Field(proposed.fields, attr.name)) {
          paths := paths + [[Attribute(attr.name)]];
        }
      }
    }
    assert block.attributes[..|block.attributes|] == block.attributes;
  }

  // --- defaults and unknown marking -------------------------------------------

  /** What becomes of one attribute's slot: a default fills an unset slot, a computed
      slot goes unknown when unset or when the resource is replaced. */
  function MarkedSlot(x: Option<Value>, a: AttributeSchema, replacing: bool): Option<Value> {
    var unset := x.None? || x.value.Null?;
    if a.required then x
    else if unset && a.dflt.Some? then a.dflt
    else if a.computed && (replacing || unset) then Some(Unknown)
    else x
  }

  function MarkStep(fields: map<string, Value>, a: AttributeSchema, replacing: bool): map<string, Value> {
    match MarkedSlot(Field(fields, a.name), a, replacing)
    case Some(x) => fields[a.name := x]
    case None => fields
  }

  function MarkedAttributes(
    fields: map<string, Value>, attributes: seq<AttributeSchema>, replacing: bool): map<string, Value>
  {
    if attributes == [] then fields
    else
      var before := MarkedAttributes(fields, attributes[..|attributes| - 1], replacing);
      MarkStep(before, attributes[|attributes| - 1], replacing)
  }

  /** `mark_computed_unknown`. */
  function Marked(v: Value, block: Block, replacing: bool): Value
    decreases block, 2
  {
    if !v.Object? then v
    else
      var fields := MarkedAttributes(v.fields, block.attributes, replacing);
      Object(map k | k in fields :: MarkedBy(block, Matching(block.nested, k), fields[k], replacing))
  }

  function MarkedBy(block: Block, bs: seq<NestedBlock>, x: Value, replacing: bool): Value
    requires forall nb | nb in bs :: nb in block.nested
    decreases block, 0, |bs|
  {
    if bs == [] then x
    else
      var nb := bs[|bs| - 1];
      Inside(block, nb);
      MarkedElements(MarkedBy(block, bs[..|bs| - 1], x, replacing), nb.nesting, nb.block, replacing)
  }

  /** `mark_block_computed_unknown`: each element per nesting mode; other shapes pass. */
  function MarkedElements(x: Value, mode: NestingMode, inner: Block, replacing: bool): Value
    decreases inner, 3
  {
    match mode
    case NestSingle => Marked(x, inner, replacing)
    case NestList =>
      if x.List? then List(seq(|x.items|, i requires 0 <= i < |x.items| => Marked(x.items[i], inner, replacing))) else x
    case NestSet =>
      if x.Set? then Set(seq(|x.items|, i requires 0 <= i < |x.items| => Marked(x.items[i], inner, replacing))) else x
    case NestMap =>
      if x.Map? then Map(map k | k in x.entries :: Marked(x.entries[k], inner, replacing)) else x
  }

  function MarkedUpTo(fields: map<string, Value>, block: Block, j: nat, replacing: bool): map<string, Value>
    requires j <= |block.nested|
  {
    map k | k in fields :: MarkedBy(block, Matching(block.nested[..j], k), fields[k], replacing)
  }

  lemma {:induction false} MarkedByAppend(
    block: Block, bs: seq<NestedBlock>, nb: NestedBlock, x: Value, replacing: bool)
    requires nb in block.nested && forall b | b in bs :: b in block.nested
    ensures MarkedBy(block, bs + [nb], x, replacing)
            == MarkedElements(MarkedBy(block, bs, x, replacing), nb.nesting, nb.block, replacing)
  {
    var all := bs + [nb];
    assert all[..|all| - 1] == bs && all[|all| - 1] == nb;
  }

  lemma {:induction false} MarkedStep(fields: map<string, Value>, block: Block, j: nat, replacing: bool)
    requires j < |block.nested|
    ensures var nb := block.nested[j];
            var before := MarkedUpTo(fields, block, j, replacing);
            MarkedUpTo(fields, block, j + 1, replacing)
            == if nb.name in fields
               then before[nb.name := MarkedElements(before[nb.name], nb.nesting, nb.block, replacing)] else before
  {
    var nb := block.nested[j];
    forall k | k in fields
      ensures MarkedUpTo(fields, block, j + 1, replacing)[k]
              == var x := MarkedUpTo(fields, block, j, replacing)[k];
                 if k == nb.name then MarkedElements(x, nb.nesting, nb.block, replacing) else x
    {
      MatchingStep(block.nested, j, k);
      var bs := Matching(block.nested[..j], k);
      if k == nb.name { MarkedByAppend(block, bs, nb, fields[k], replacing); } else { assert bs + [] == bs; }
    }
  }

  /** The source's two loops: attributes in declaration order, then nested blocks. */
  method MarkComputedUnknown(proposed: Value, block: Block, replacing: bool) returns (r: Value)
    ensures r == Marked(proposed, block, replacing)
    decreases block, 1
  {
    if !proposed.Object? { return proposed; }
    var fields := proposed.fields;
    for i := 0 to |block.attributes|
      invariant fields == MarkedAttributes(proposed.fields, block.attributes[..i], replacing)
    {
      var attr := block.attributes[i];
      assert block.attributes[..i + 1][..i] == block.attributes[..i];
      if attr.required { continue; }
      var isNull := attr.name !in fields || fields[attr.name].Null?;
      if isNull && attr.dflt.Some? {
        fields := fields[attr.name := attr.dflt.value];
        continue;
      }
      if attr.computed && (replacing || isNull) {
        fields := fields[attr.name := Unknown];
      } else if attr.name in fields {
        assert fields[attr.name := fields[attr.name]] == fields;
      }
    }
    assert block.attributes[..|block.attributes|] == block.attributes;
    fields := MarkBlocks(fields, block, replacing);
    r := Object(fields);
  }

  method MarkBlocks(start: map<string, Value>, block: Block, replacing: bool) returns (fields: map<string, Value>)
    ensures fields == map k | k in start :: MarkedBy(block, Matching(block.nested, k), start[k], replacing)
    decreases block, 0
  {
    fields := start;
    for j := 0 to |block.nested|
      invariant fields == MarkedUpTo(start, block, j, replacing)
    {
      var nb := block.nested[j];
      MarkedStep(start, block, j, replacing);
      if nb.name in fields {
        fields := fields[nb.name := MarkedElements(fields[nb.name], nb.nesting, nb.block, replacing)];
      }
    }
    assert block.nested[..|block.nested|] == block.nested;
  }

  // --- the plan ---------------------------------------------------------------

  /** The planned value: marked, then stripped of write-only values. */
  function Finished(v: Value, block: Block, replacing: bool): Value { Stripped(Marked(v, block, replacing), block) }

  function Planned(prior: Value, proposed: Value, block: Block): Value {
    if proposed.Null? then Null else Finished(proposed, block, Replacements(prior, proposed, block) != [])
  }

  function PlannedReplacements(prior: Value, proposed: Value, block: Block): seq<Path> {
    if proposed.Null? then [] else Replacements(prior, proposed, block)
  }

  // --- author modifications ---------------------------------------------------

  datatype PlanModifications = PlanModifications(keepPrior: seq<Path>, unknown: seq<Path>, requireReplace: seq<Path>)

  /** Resetting the kept paths, in order; an unresolvable one is skipped. */
  function Kept(v: Value, prior: Value, paths: seq<Path>): Value {
    if paths == [] then v
    else
      var p := paths[|paths| - 1];
      var w := Kept(v, prior, paths[..|paths| - 1]);
      match GetAt(prior, p)
      case None => w
      case Some(x) => SetAt(w, p, x)
  }

  function Obscured(v: Value, paths: seq<Path>): Value {
    if paths == [] then v
    else SetAt(Obscured(v, paths[..|paths| - 1]), paths[|paths| - 1], Unknown)
  }

  function Extended(replace: seq<Path>, paths: seq<Path>): seq<Path> {
    if paths == [] then replace
    else
      var p := paths[|paths| - 1];
      var r := Extended(replace, paths[..|paths| - 1]);
      if p in r then r else r + [p]
  }

  function Modified(v: Value, mods: PlanModifications, prior: Value): Value {
    Obscured(Kept(v, prior, mods.keepPrior), mods.unknown)
  }

  lemma {:induction false} KeptStep(v: Value, prior: Value, paths: seq<Path>, i: nat)
    requires i < |paths|
    ensures var w := Kept(v, prior, paths[..i]);
            Kept(v, prior, paths[..i + 1])
              == match GetAt(prior, paths[i]) case None => w case Some(x) => SetAt(w, paths[i], x)
  {
    assert paths[..i + 1][..i] == paths[..i];
  }

  lemma {:induction false} ObscuredStep(v: Value, paths: seq<Path>, i: nat)
    requires i < |paths|
    ensures Obscured(v, paths[..i + 1]) == SetAt(Obscured(v, paths[..i]), paths[i], Unknown)
  {
    assert paths[..i + 1][..i] == paths[..i];
  }

  lemma {:induction false} ExtendedStep(replace: seq<Path>, paths: seq<Path>, i: nat)
    requires i < |paths|
    ensures var r := Extended(replace, paths[..i]);
            Extended(replace, paths[..i + 1]) == if paths[i] in r then r else r + [paths[i]]
  {
    assert paths[..i + 1][..i] == paths[..i];
  }

  /** A plan under construction. */
  class ResourcePlan {
    var planned: Value
    var requiresReplace: seq<Path>

    /** `plan`. */
    constructor (prior: Value, proposed: Value, block: Block)
      ensures planned == Planned(prior, proposed, block)
      ensures requiresReplace == PlannedReplacements(prior, proposed, block)
    {
      if proposed.Null? {
        planned := Null;
        requiresReplace := [];
      } else {
        var replace := RequiresReplace(prior, proposed, block);
        var marked := MarkComputedUnknown(proposed, block, replace != []);
        var stripped := Strip(marked, block);
        planned := stripped;
        requiresReplace := replace;
      }
    }

    /** `apply_modifications`. */
    method ApplyModifications(mods: PlanModifications, prior: Value)
      modifies this
      ensures planned == Modified(old(planned), mods, prior)
      ensures requiresReplace == Extended(old(requiresReplace), mods.requireReplace)
    {
      for i := 0 to |mods.keepPrior|
        invariant planned == Kept(old(planned), prior, mods.keepPrior[..i])
        invariant requiresReplace == old(requiresReplace)
      {
        KeptStep(old(planned), prior, mods.keepPrior, i);
        var priorValue := GetAt(prior, mods.keepPrior[i]);
        if priorValue.Some? {
          planned := SetAt(planned, mods.keepPrior[i], priorValue.value);
        }
      }
      assert mods.keepPrior[..|mods.keepPrior|] == mods.keepPrior;
      ghost var kept := planned;
      for i := 0 to |mods.unknown|
        invariant planned == Obscured(kept, mods.unknown[..i])
        invariant requiresReplace == old(requiresReplace)
      {
        ObscuredStep(kept, mods.unknown, i);
        planned := SetAt(planned, mods.unknown[i], Unknown);
      }
      assert mods.unknown[..|mods.unknown|] == mods.unknown;
      for i := 0 to |mods.requireReplace|
        invariant planned == Obscured(kept, mods.unknown)
        invariant requiresReplace == Extended(old(requiresReplace), mods.requireReplace[..i])
      {
        ExtendedStep(old(requiresReplace), mods.requireReplace, i);
        if mods.requireReplace[i] !in requiresReplace {
          requiresReplace := requiresReplace + [mods.requireReplace[i]];
        }
      }
      assert mods.requireReplace[..|mods.requireReplace|] == mods.requireReplace;
    }
  }
}
