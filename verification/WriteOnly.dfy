/** Write-only attributes: nulled out of every returned state, merged back in from the
    configuration before an apply handler runs. */
module WriteOnly {
  import opened Wrappers
  import opened Text
  import opened Values
  import opened Schema

  /** `block_has`: a write-only attribute somewhere in the block. */
  predicate BlockHas(block: Block) {
    (exists i | 0 <= i < |block.attributes| :: block.attributes[i].writeOnly)
    || exists j | 0 <= j < |block.nested| :: BlockHas(block.nested[j].block)
  }

  function WriteOnlyNames(attributes: seq<AttributeSchema>): set<string> {
    set a | a in attributes && a.writeOnly :: a.name
  }

  /** The nested blocks called `k`, in order; at most one when names are distinct. */
  function Matching(nested: seq<NestedBlock>, k: string): (r: seq<NestedBlock>)
    ensures forall nb | nb in r :: nb in nested
  {
    if nested == [] then []
    else
      var n := |nested| - 1;
      Matching(nested[..n], k) + if nested[n].name == k then [nested[n]] else []
  }

  lemma {:induction false} MatchingStep(nested: seq<NestedBlock>, j: nat, k: string)
    requires j < |nested|
    ensures Matching(nested[..j + 1], k) == Matching(nested[..j], k) + if nested[j].name == k then [nested[j]] else []
  {
    assert nested[..j + 1][..j] == nested[..j];
  }

  lemma {:induction false} MatchingNone(nested: seq<NestedBlock>, k: string)
    requires forall j | 0 <= j < |nested| :: nested[j].name != k
    ensures Matching(nested, k) == []
  {
    if nested != [] { MatchingNone(nested[..|nested| - 1], k); }
  }

  lemma {:induction false} MatchingOne(nested: seq<NestedBlock>, j: nat)
    requires j < |nested| && forall i | 0 <= i < |nested| && i != j :: nested[i].name != nested[j].name
    ensures Matching(nested, nested[j].name) == [nested[j]]
  {
    var n := |nested| - 1;
    if j == n {
      MatchingNone(nested[..n], nested[j].name);
    } else {
      MatchingOne(nested[..n], j);
    }
  }

  /** Where a key of an object stands in its schema. */
  datatype Slot = AttributeSlot(attr: AttributeSchema) | BlockSlot(nb: NestedBlock) | Undeclared

  function SlotOf(block: Block, k: string): (slot: Slot)
    ensures slot.AttributeSlot? ==> slot.attr in block.attributes && slot.attr.name == k
    ensures slot.BlockSlot? ==> slot.nb in block.nested && slot.nb.name == k
  {
    var i := FindAttribute(block.attributes, k);
    if i < |block.attributes| then AttributeSlot(block.attributes[i])
    else
      var j := NestedIndex(block.nested, k);
      if j < |block.nested| then BlockSlot(block.nested[j]) else Undeclared
  }

  /** With distinct names a key meets at most one declaration. */
  lemma {:induction false} SlotSpec(block: Block, k: string)
    requires DistinctBlock(block)
    ensures match SlotOf(block, k)
            case AttributeSlot(a) =>
              a in block.attributes && a.name == k && Matching(block.nested, k) == []
              && (k in WriteOnlyNames(block.attributes) <==> a.writeOnly)
            case BlockSlot(nb) =>
              nb in block.nested && nb.name == k && Matching(block.nested, k) == [nb]
              && k !in WriteOnlyNames(block.attributes)
            case Undeclared => Matching(block.nested, k) == [] && k !in WriteOnlyNames(block.attributes)
  {
    var i := FindAttribute(block.attributes, k);
    if i < |block.attributes| {
      forall j | 0 <= j < |block.nested| ensures block.nested[j].name != k { AttributeNotNested(block, i, j); }
      MatchingNone(block.nested, k);
      forall a | a in block.attributes && a.name == k ensures a == block.attributes[i] {
        var m :| 0 <= m < |block.attributes| && block.attributes[m] == a;
        DistinctAttributes(block, i, m);
      }
    } else {
      var j := NestedIndex(block.nested, k);
      if j < |block.nested| {
        forall m | 0 <= m < |block.nested| && m != j ensures block.nested[m].name != k {
          DistinctNested(block, j, m);
        }
        MatchingOne(block.nested, j);
      } else {
        MatchingNone(block.nested, k);
      }
    }
  }

  lemma {:induction false} SlotOfAttribute(block: Block, i: nat)
    requires DistinctBlock(block) && i < |block.attributes|
    ensures SlotOf(block, block.attributes[i].name) == AttributeSlot(block.attributes[i])
  {
    DistinctAttributes(block, i, FindAttribute(block.attributes, block.attributes[i].name));
  }

  lemma {:induction false} SlotOfNested(block: Block, j: nat)
    requires DistinctBlock(block) && j < |block.nested|
    ensures SlotOf(block, block.nested[j].name) == BlockSlot(block.nested[j])
  {
    var i := FindAttribute(block.attributes, block.nested[j].name);
    if i < |block.attributes| { AttributeNotNested(block, i, j); }
    DistinctNested(block, j, NestedIndex(block.nested, block.nested[j].name));
  }

  lemma {:induction false} Inside(block: Block, nb: NestedBlock)
    requires nb in block.nested
    ensures nb.block < block
  {
    var j :| 0 <= j < |block.nested| && block.nested[j] == nb;
  }

  // --- strip ------------------------------------------------------------------

  /** The value with every write-only attribute nulled, at every depth. */
  function Stripped(v: Value, block: Block): Value
    decreases block, 2
  {
    if !v.Object? then v
    else Object(map k | k in v.fields :: StrippedSlot(v.fields[k], block, k))
  }

  function StrippedSlot(x: Value, block: Block, k: string): Value
    decreases block, 1
  {
    StrippedBy(block, Matching(block.nested, k), if k in WriteOnlyNames(block.attributes) then Null else x)
  }

  function StrippedBy(block: Block, bs: seq<NestedBlock>, x: Value): Value
    requires forall nb | nb in bs :: nb in block.nested
    decreases block, 0, |bs|
  {
    if bs == [] then x
    else
      var nb := bs[|bs| - 1];
      Inside(block, nb);
      StrippedElements(StrippedBy(block, bs[..|bs| - 1], x), nb.nesting, nb.block)
  }

  /** `walk_block` with the strip operation. */
  function StrippedElements(x: Value, mode: NestingMode, inner: Block): Value
    decreases inner, 3
  {
    match mode
    case NestSingle => Stripped(x, inner)
    case NestMap => if x.Map? then Map(map k | k in x.entries :: Stripped(x.entries[k], inner)) else x
    case _ =>
      if x.List? then List(seq(|x.items|, i requires 0 <= i < |x.items| => Stripped(x.items[i], inner)))
      else if x.Set? then Set(seq(|x.items|, i requires 0 <= i < |x.items| => Stripped(x.items[i], inner)))
      else x
  }

  function Nulled(fields: map<string, Value>, attributes: seq<AttributeSchema>): map<string, Value> {
    map k | k in fields :: if k in WriteOnlyNames(attributes) then Null else fields[k]
  }

  function StrippedUpTo(fields: map<string, Value>, block: Block, j: nat): map<string, Value>
    requires j <= |block.nested|
  {
    map k | k in fields :: StrippedBy(block, Matching(block.nested[..j], k), fields[k])
  }

  lemma {:induction false} NulledStep(fields: map<string, Value>, attributes: seq<AttributeSchema>, i: nat)
    requires i < |attributes|
    ensures Nulled(fields, attributes[..i + 1])
            == var before := Nulled(fields, attributes[..i]);
               if attributes[i].writeOnly && attributes[i].name in fields then before[attributes[i].name := Null]
               else before
  {
    assert attributes[..i + 1] == attributes[..i] + [attributes[i]];
  }

  lemma {:induction false} StrippedStep(fields: map<string, Value>, block: Block, j: nat)
    requires j < |block.nested|
    ensures var nb := block.nested[j];
            var before := StrippedUpTo(fields, block, j);
            StrippedUpTo(fields, block, j + 1)
            == if nb.name in fields then before[nb.name := StrippedElements(before[nb.name], nb.nesting, nb.block)]
               else before
  {
    var nb := block.nested[j];
    forall k | k in fields
      ensures StrippedUpTo(fields, block, j + 1)[k]
              == var x := StrippedUpTo(fields, block, j)[k];
                 if k == nb.name then StrippedElements(x, nb.nesting, nb.block) else x
    {
      MatchingStep(block.nested, j, k);
      var bs := Matching(block.nested[..j], k);
      if k == nb.name { StrippedByAppend(block, bs, nb, fields[k]); } else { assert bs + [] == bs; }
    }
  }

  lemma {:induction false} StrippedByAppend(block: Block, bs: seq<NestedBlock>, nb: NestedBlock, x: Value)
    requires nb in block.nested && forall b | b in bs :: b in block.nested
    ensures StrippedBy(block, bs + [nb], x) == StrippedElements(StrippedBy(block, bs, x), nb.nesting, nb.block)
  {
    var all := bs + [nb];
    assert all[..|all| - 1] == bs && all[|all| - 1] == nb;
  }

  /** `strip`: null the write-only slots, then walk each nested block. */
  method Strip(value: Value, block: Block) returns (r: Value)
    ensures r == Stripped(value, block)
    decreases block, 1
  {
    if !value.Object? { return value; }
    var fields := value.fields;
    for i := 0 to |block.attributes|
      invariant fields == Nulled(value.fields, block.attributes[..i])
    {
      NulledStep(value.fields, block.attributes, i);
      if block.attributes[i].writeOnly && block.attributes[i].name in fields {
        fields := fields[block.attributes[i].name := Null];
      }
    }
    assert block.attributes[..|block.attributes|] == block.attributes;
    fields := StripBlocks(fields, block);
    r := Object(fields);
  }

  method StripBlocks(start: map<string, Value>, block: Block) returns (fields: map<string, Value>)
    ensures fields == map k | k in start :: StrippedBy(block, Matching(block.nested, k), start[k])
    decreases block, 0
  {
    fields := start;
    for j := 0 to |block.nested|
      invariant fields == StrippedUpTo(start, block, j)
    {
      var nb := block.nested[j];
      StrippedStep(start, block, j);
      if nb.name in fields {
        var child := StripWalk(fields[nb.name], nb.nesting, nb.block);
        fields := fields[nb.name := child];
      }
    }
    assert block.nested[..|block.nested|] == block.nested;
  }

  method StripWalk(value: Value, mode: NestingMode, block: Block) returns (r: Value)
    ensures r == StrippedElements(value, mode, block)
    decreases block, 3
  {
    match mode
    case NestSingle =>
      r := Strip(value, block);
    case NestMap =>
      if !value.Map? { return value; }
      var entries := StripEntries(value.entries, block);
      r := Map(entries);
    case _ =>
      if !value.List? && !value.Set? { return value; }
      var items := StripItems(value.items, block);
      r := if value.List? then List(items) else Set(items);
  }

  method StripItems(start: seq<Value>, block: Block) returns (items: seq<Value>)
    ensures items == seq(|start|, i requires 0 <= i < |start| => Stripped(start[i], block))
    decreases block, 2
  {
    items := start;
    for i := 0 to |start|
      invariant |items| == |start|
      invariant forall j | 0 <= j < |start| :: items[j] == if j < i then Stripped(start[j], block) else start[j]
    {
      var e := Strip(items[i], block);
      items := items[i := e];
    }
  }

  method StripEntries(start: map<string, Value>, block: Block) returns (entries: map<string, Value>)
    ensures entries == map k | k in start :: Stripped(start[k], block)
    decreases block, 2
  {
    entries := start;
    var todo := start.Keys;
    while todo != {}
      invariant todo <= start.Keys
      invariant entries == map k | k in start :: if k in todo then start[k] else Stripped(start[k], block)
    {
      var k :| k in todo;
      var e := Strip(entries[k], block);
      entries := entries[k := e];
      todo := todo - {k};
    }
  }

  // --- merge ------------------------------------------------------------------

  /** The state with the write-only values the configuration carries at the aligned
      places. List elements align by position, map entries by key, set elements not
      at all. */
  function Merged(s: Value, c: Value, block: Block): Value
    decreases block, 2
  {
    if !s.Object? || !c.Object? then s
    else
      var base := WithSecrets(s.fields, c.fields, WriteOnlyNames(block.attributes));
      Object(map k | k in base :: MergedSlot(base, c.fields, block, k))
  }

  function WithSecrets(s: map<string, Value>, c: map<string, Value>, names: set<string>): (r: map<string, Value>)
    ensures forall k :: k in r <==> k in s || (k in c && k in names)
    ensures forall k | k in r :: r[k] == if k in c && k in names then c[k] else s[k]
  {
    s + map k | k in c && k in names :: c[k]
  }

  function MergedSlot(base: map<string, Value>, c: map<string, Value>, block: Block, k: string): Value
    requires k in base
    decreases block, 1
  {
    if k in c then MergedBy(block, Matching(block.nested, k), base[k], c[k]) else base[k]
  }

  function MergedBy(block: Block, bs: seq<NestedBlock>, x: Value, y: Value): Value
    requires forall nb | nb in bs :: nb in block.nested
    decreases block, 0, |bs|
  {
    if bs == [] then x
    else
      var nb := bs[|bs| - 1];
      Inside(block, nb);
      MergedElements(MergedBy(block, bs[..|bs| - 1], x, y), y, nb.nesting, nb.block)
  }

  function MergedElements(x: Value, y: Value, mode: NestingMode, inner: Block): Value
    decreases inner, 3
  {
    match mode
    case NestSingle => Merged(x, y, inner)
    case NestList =>
      if x.List? && y.List? then
        List(seq(|x.items|, i requires 0 <= i < |x.items| =>
          if i < |y.items| then Merged(x.items[i], y.items[i], inner) else x.items[i]))
      else x
    case NestMap =>
      if x.Map? && y.Map? then
        Map(map k | k in x.entries ::
          if k in y.entries then Merged(x.entries[k], y.entries[k], inner) else x.entries[k])
      else x
    case NestSet => x
  }

  function MergedUpTo(base: map<string, Value>, c: map<string, Value>, block: Block, j: nat): map<string, Value>
    requires j <= |block.nested|
  {
    map k | k in base :: if k in c then MergedBy(block, Matching(block.nested[..j], k), base[k], c[k]) else base[k]
  }

  lemma {:induction false} MergedStep(base: map<string, Value>, c: map<string, Value>, block: Block, j: nat)
    requires j < |block.nested|
    ensures var nb := block.nested[j];
            var before := MergedUpTo(base, c, block, j);
            MergedUpTo(base, c, block, j + 1)
            == if nb.name in base && nb.name in c
               then before[nb.name := MergedElements(before[nb.name], c[nb.name], nb.nesting, nb.block)] else before
  {
    var nb := block.nested[j];
    forall k | k in base
      ensures MergedUpTo(base, c, block, j + 1)[k]
              == var x := MergedUpTo(base, c, block, j)[k];
                 if k == nb.name && k in c then MergedElements(x, c[k], nb.nesting, nb.block) else x
    {
      MatchingStep(block.nested, j, k);
      var bs := Matching(block.nested[..j], k);
      if k == nb.name {
        if k in c { MergedByAppend(block, bs, nb, base[k], c[k]); }
      } else {
        assert bs + [] == bs;
      }
    }
  }

  lemma {:induction false} MergedByAppend(block: Block, bs: seq<NestedBlock>, nb: NestedBlock, x: Value, y: Value)
    requires nb in block.nested && forall b | b in bs :: b in block.nested
    ensures MergedBy(block, bs + [nb], x, y) == MergedElements(MergedBy(block, bs, x, y), y, nb.nesting, nb.block)
  {
    var all := bs + [nb];
    assert all[..|all| - 1] == bs && all[|all| - 1] == nb;
  }

  lemma {:induction false} SecretsStep(
    s: map<string, Value>, c: map<string, Value>, attributes: seq<AttributeSchema>, i: nat)
    requires i < |attributes|
    ensures WithSecrets(s, c, WriteOnlyNames(attributes[..i + 1]))
            == var before := WithSecrets(s, c, WriteOnlyNames(attributes[..i]));
               if attributes[i].writeOnly && attributes[i].name in c
               then before[attributes[i].name := c[attributes[i].name]] else before
  {
    NamesStep(attributes, i);
    if attributes[i].writeOnly { OneMoreSecret(s, c, WriteOnlyNames(attributes[..i]), attributes[i].name); }
  }

  lemma {:induction false} NamesStep(attributes: seq<AttributeSchema>, i: nat)
    requires i < |attributes|
    ensures WriteOnlyNames(attributes[..i + 1])
            == WriteOnlyNames(attributes[..i]) + if attributes[i].writeOnly then {attributes[i].name} else {}
  {
    assert attributes[..i + 1] == attributes[..i] + [attributes[i]];
  }

  lemma {:induction false} OneMoreSecret(s: map<string, Value>, c: map<string, Value>, names: set<string>, n: string)
    ensures WithSecrets(s, c, names + {n}) ==
            if n in c then WithSecrets(s, c, names)[n := c[n]] else WithSecrets(s, c, names)
  {
    var before, after := WithSecrets(s, c, names), WithSecrets(s, c, names + {n});
    if n in c { assert after == before[n := c[n]]; } else { assert after == before; }
  }

  /** `merge_from_config`: copy the secrets in, then walk each nested block present on
      both sides. */
  method MergeFromConfig(state: Value, config: Value, block: Block) returns (r: Value)
    ensures r == Merged(state, config, block)
    decreases block, 1
  {
    if !state.Object? || !config.Object? { return state; }
    var fields := state.fields;
    for i := 0 to |block.attributes|
      invariant fields == WithSecrets(state.fields, config.fields, WriteOnlyNames(block.attributes[..i]))
    {
      SecretsStep(state.fields, config.fields, block.attributes, i);
      if block.attributes[i].writeOnly && block.attributes[i].name in config.fields {
        fields := fields[block.attributes[i].name := config.fields[block.attributes[i].name]];
      }
    }
    assert block.attributes[..|block.attributes|] == block.attributes;
    fields := MergeBlocks(fields, config.fields, block);
    r := Object(fields);
  }

  method MergeBlocks(base: map<string, Value>, config: map<string, Value>, block: Block)
    returns (fields: map<string, Value>)
    ensures fields == map k | k in base :: MergedSlot(base, config, block, k)
    decreases block, 0
  {
    fields := base;
    for j := 0 to |block.nested|
      invariant fields == MergedUpTo(base, config, block, j)
    {
      var nb := block.nested[j];
      MergedStep(base, config, block, j);
      if nb.name in fields && nb.name in config {
        var child := MergeWalk(fields[nb.name], config[nb.name], nb.nesting, nb.block);
        fields := fields[nb.name := child];
      }
    }
    assert block.nested[..|block.nested|] == block.nested;
  }

  method MergeWalk(state: Value, config: Value, mode: NestingMode, block: Block) returns (r: Value)
    ensures r == MergedElements(state, config, mode, block)
    decreases block, 3
  {
    match mode
    case NestSingle =>
      r := MergeFromConfig(state, config, block);
    case NestList =>
      if !state.List? || !config.List? { return state; }
      var items := MergeItems(state.items, config.items, block);
      r := List(items);
    case NestMap =>
      if !state.Map? || !config.Map? { return state; }
      var entries := MergeEntries(state.entries, config.entries, block);
      r := Map(entries);
    case NestSet =>
      r := state;
  }

  method MergeItems(start: seq<Value>, config: seq<Value>, block: Block) returns (items: seq<Value>)
    ensures items == seq(|start|, i requires 0 <= i < |start| =>
                           if i < |config| then Merged(start[i], config[i], block) else start[i])
    decreases block, 2
  {
    items := start;
    for i := 0 to if |start| < |config| then |start| else |config|
      invariant |items| == |start|
      invariant forall j | 0 <= j < |start| ::
                  items[j] == if j < i && j < |config| then Merged(start[j], config[j], block) else start[j]
    {
      var e := MergeFromConfig(items[i], config[i], block);
      items := items[i := e];
    }
  }

  method MergeEntries(start: map<string, Value>, config: map<string, Value>, block: Block)
    returns (entries: map<string, Value>)
    ensures entries == map k | k in start :: if k in config then Merged(start[k], config[k], block) else start[k]
    decreases block, 2
  {
    entries := start;
    var todo := start.Keys;
    while todo != {}
      invariant todo <= start.Keys
      invariant entries == map k | k in start ::
                  if k !in todo && k in config then Merged(start[k], config[k], block) else start[k]
    {
      var k :| k in todo;
      if k in config {
        var e := MergeFromConfig(entries[k], config[k], block);
        entries := entries[k := e];
      }
      todo := todo - {k};
    }
  }
}
