/** The schema vocabulary: attributes, nested blocks and the type a block has on the wire. */
module Schema {
  import opened Wrappers
  import opened Text
  import opened Types
  import opened Values
  import opened Encode

  datatype AttributeSchema = AttributeSchema(
    name: string, ty: Type, required: bool, optional: bool, computed: bool,
    writeOnly: bool, forceNew: bool, dflt: Option<Value>)

  datatype NestingMode = NestSingle | NestList | NestSet | NestMap

  datatype NestedBlock = NestedBlock(name: string, nesting: NestingMode, block: Block)

  datatype Block = Block(attributes: seq<AttributeSchema>, nested: seq<NestedBlock>)

  function Nest(mode: NestingMode, inner: Type): Type {
    match mode
    case NestSingle => inner
    case NestList => TList(inner)
    case NestSet => TSet(inner)
    case NestMap => TMap(inner)
  }

  function AttrTypes(attributes: seq<AttributeSchema>): (r: seq<ObjectAttr>)
    ensures |r| == |attributes|
    ensures forall i | 0 <= i < |r| :: r[i] == ObjectAttr(attributes[i].name, attributes[i].ty, !attributes[i].required)
  {
    seq(|attributes|, i requires 0 <= i < |attributes| =>
      ObjectAttr(attributes[i].name, attributes[i].ty, !attributes[i].required))
  }

  function NestedTypes(block: Block): (r: seq<ObjectAttr>)
    decreases block, 0
  {
    seq(|block.nested|, j requires 0 <= j < |block.nested| =>
      ObjectAttr(block.nested[j].name, Nest(block.nested[j].nesting, CtyType(block.nested[j].block)), true))
  }

  /** `Block::cty_type`: the attributes, then one attribute per nested block. */
  function CtyType(block: Block): Type
    decreases block, 1
  {
    TObject(AttrTypes(block.attributes) + NestedTypes(block))
  }

  lemma {:induction false} CtyTypeSpec(block: Block) returns (ns: seq<ObjectAttr>)
    ensures CtyType(block) == TObject(AttrTypes(block.attributes) + ns) && |ns| == |block.nested|
    ensures forall j | 0 <= j < |ns| ::
              ns[j]
                == ObjectAttr(block.nested[j].name, Nest(block.nested[j].nesting, CtyType(block.nested[j].block)), true)
  {
    ns := NestedTypes(block);
  }

  /** The source's loop: collect the attributes, then push one entry per nested block. */
  method BuildCtyType(block: Block) returns (ty: Type)
    ensures ty == CtyType(block)
    decreases block
  {
    var attrs := AttrTypes(block.attributes);
    for j := 0 to |block.nested|
      invariant attrs == AttrTypes(block.attributes) + NestedTypes(block)[..j]
    {
      var inner := BuildCtyType(block.nested[j].block);
      attrs := attrs + [ObjectAttr(block.nested[j].name, Nest(block.nested[j].nesting, inner), true)];
    }
    assert NestedTypes(block)[..|block.nested|] == NestedTypes(block);
    ty := TObject(attrs);
  }

  /** The declared names of one level, attributes first. */
  function BlockNames(block: Block): (ns: seq<string>)
    ensures |ns| == |block.attributes| + |block.nested|
    ensures forall i | 0 <= i < |block.attributes| :: ns[i] == block.attributes[i].name
    ensures forall j | 0 <= j < |block.nested| :: ns[|block.attributes| + j] == block.nested[j].name
  {
    seq(|block.attributes|, i requires 0 <= i < |block.attributes| => block.attributes[i].name)
    + seq(|block.nested|, j requires 0 <= j < |block.nested| => block.nested[j].name)
  }

  lemma {:induction false} TypeNames(b: Block, ns: seq<ObjectAttr>)
    requires |ns| == |b.nested| && forall j | 0 <= j < |ns| :: ns[j].name == b.nested[j].name
    ensures Names(AttrTypes(b.attributes) + ns) == BlockNames(b)
  {
  }

  /** Attribute and block names are distinct within every level of the schema. */
  predicate DistinctBlock(block: Block) {
    Distinct(BlockNames(block)) && forall j | 0 <= j < |block.nested| :: DistinctBlock(block.nested[j].block)
  }

  /** The position of the attribute called `name`, or the number of attributes. */
  function FindAttribute(attributes: seq<AttributeSchema>, name: string): (i: nat)
    ensures i <= |attributes|
    ensures i < |attributes| ==> attributes[i].name == name
    ensures i == |attributes| ==> forall k | 0 <= k < |attributes| :: attributes[k].name != name
  {
    var names := seq(|attributes|, k requires 0 <= k < |attributes| => attributes[k].name);
    assert forall k | 0 <= k < |attributes| :: names[k] == attributes[k].name;
    IndexOf(names, name)
  }

  /** The position of the nested block called `name`, or the number of nested blocks. */
  function NestedIndex(nested: seq<NestedBlock>, name: string): (j: nat)
    ensures j <= |nested|
    ensures j < |nested| ==> nested[j].name == name
    ensures j == |nested| ==> forall k | 0 <= k < |nested| :: nested[k].name != name
  {
    var names := seq(|nested|, k requires 0 <= k < |nested| => nested[k].name);
    assert forall k | 0 <= k < |nested| :: names[k] == nested[k].name;
    IndexOf(names, name)
  }

  lemma {:induction false} DistinctAttributes(block: Block, i: nat, k: nat)
    requires DistinctBlock(block) && i < |block.attributes| && k < |block.attributes|
    ensures block.attributes[i].name == block.attributes[k].name <==> i == k
  {
    assert BlockNames(block)[i] == block.attributes[i].name && BlockNames(block)[k] == block.attributes[k].name;
  }

  lemma {:induction false} DistinctNested(block: Block, i: nat, k: nat)
    requires DistinctBlock(block) && i < |block.nested| && k < |block.nested|
    ensures block.nested[i].name == block.nested[k].name <==> i == k
  {
    var n := |block.attributes|;
    assert BlockNames(block)[n + i] == block.nested[i].name && BlockNames(block)[n + k] == block.nested[k].name;
  }

  lemma {:induction false} AttributeNotNested(block: Block, i: nat, j: nat)
    requires DistinctBlock(block) && i < |block.attributes| && j < |block.nested|
    ensures block.attributes[i].name != block.nested[j].name
  {
    assert BlockNames(block)[i] != BlockNames(block)[|block.attributes| + j];
  }

  /** Every attribute's own type has distinct names too. */
  predicate DistinctTypes(block: Block) {
    && (forall i | 0 <= i < |block.attributes| :: DistinctNames(block.attributes[i].ty))
    && forall j | 0 <= j < |block.nested| :: DistinctTypes(block.nested[j].block)
  }

  lemma {:induction false} NestDistinct(mode: NestingMode, inner: Type)
    ensures DistinctNames(Nest(mode, inner)) <==> DistinctNames(inner)
  {
  }

  /** The wire type of a well-formed block is one the codec round-trips. */
  lemma {:induction false} CtyTypeDistinct(block: Block)
    requires DistinctBlock(block) && DistinctTypes(block)
    ensures DistinctNames(CtyType(block))
  {
    var ns := CtyTypeSpec(block);
    forall j | 0 <= j < |ns| ensures DistinctNames(ns[j].ty) {
      CtyTypeDistinct(block.nested[j].block);
      NestDistinct(block.nested[j].nesting, CtyType(block.nested[j].block));
    }
    assert Names(AttrTypes(block.attributes) + ns) == BlockNames(block);
    AppendDistinct(AttrTypes(block.attributes), ns);
  }

  lemma {:induction false} AppendDistinct(xs: seq<ObjectAttr>, ys: seq<ObjectAttr>)
    requires Distinct(Names(xs + ys))
    requires forall i | 0 <= i < |xs| :: DistinctNames(xs[i].ty)
    requires forall j | 0 <= j < |ys| :: DistinctNames(ys[j].ty)
    ensures DistinctNames(TObject(xs + ys))
  {
  }

  lemma {:induction false} ConformsAppend(v: Value, xs: seq<ObjectAttr>, ys: seq<ObjectAttr>)
    requires v.Object?
    ensures Conforms(v, TObject(xs + ys)) <==> Conforms(v, TObject(xs)) && Conforms(v, TObject(ys))
  {
    var all := xs + ys;
    assert forall i | 0 <= i < |xs| :: all[i] == xs[i];
    assert forall j | 0 <= j < |ys| :: all[|xs| + j] == ys[j];
    if Conforms(v, TObject(all)) {
      forall j | 0 <= j < |ys| && ys[j].name in v.fields ensures Conforms(v.fields[ys[j].name], ys[j].ty) {
        assert all[|xs| + j].name in v.fields;
      }
    }
  }

  /** Conformance to a block's wire type, read off the block itself. */
  lemma {:induction false} ConformsToBlock(v: Value, block: Block)
    requires v.Object?
    ensures Conforms(v, CtyType(block)) <==>
            && (forall i | 0 <= i < |block.attributes| && block.attributes[i].name in v.fields ::
                  Conforms(v.fields[block.attributes[i].name], block.attributes[i].ty))
            && (forall j | 0 <= j < |block.nested| && block.nested[j].name in v.fields ::
                  Conforms(v.fields[block.nested[j].name],
                      Nest(block.nested[j].nesting, CtyType(block.nested[j].block))))
  {
    var ns := CtyTypeSpec(block);
    ConformsAppend(v, AttrTypes(block.attributes), ns);
  }

  /** The optional names of a block's type are its attributes that are not required and all
      its nested blocks. */
  lemma {:induction false} BlockOptionals(block: Block, name: string)
    ensures CtyType(block).TObject?
    ensures name in Optionals(CtyType(block).attrs) <==>
            (exists a | a in block.attributes :: a.name == name && !a.required)
            || exists nb | nb in block.nested :: nb.name == name
  {
    var ns := CtyTypeSpec(block);
    var xs := AttrTypes(block.attributes);
    var all := xs + ns;
    OptionalsSpec(all);
    if i :| 0 <= i < |all| && all[i].name == name && all[i].optional {
      if i < |xs| {
        assert block.attributes[i] in block.attributes && !block.attributes[i].required;
      } else {
        assert all[i] == ns[i - |xs|] && block.nested[i - |xs|] in block.nested;
      }
    }
    if a :| a in block.attributes && a.name == name && !a.required {
      var i :| 0 <= i < |block.attributes| && block.attributes[i] == a;
      assert all[i] == xs[i];
    }
    if nb :| nb in block.nested && nb.name == name {
      var j :| 0 <= j < |block.nested| && block.nested[j] == nb;
      assert all[|xs| + j] == ns[j];
    }
  }
}
