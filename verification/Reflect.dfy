/** Reflection of Rust shapes into types and schema blocks. */
module Reflect {
  import opened Wrappers
  import opened Text
  import opened Types
  import opened Values
  import opened Decode
  import opened Schema
  import opened Typed

  datatype ReflectError = NotAStruct | WriteOnlyComputed(field: string) | InvalidSearchKey(field: string)

  type Reflected<T> = Result<T, ReflectError>

  // --- types ------------------------------------------------------------------

  /** The two nullable wrappers. */
  predicate Nullable(shape: Shape) { shape.SOption? || shape.STfValue? }

  function ObjectAttrs(fs: seq<Field>): (attrs: seq<ObjectAttr>)
    ensures |attrs| == |fs| && Names(attrs) == FieldKeys(fs)
    decreases fs, 0
  {
    var attrs := seq(|fs|, i requires 0 <= i < |fs| =>
      ObjectAttr(fs[i].Key(), MapType(fs[i].shape), Nullable(fs[i].shape) || fs[i].marks.optional));
    assert Names(attrs) == FieldKeys(fs);
    attrs
  }

  /** `map_type`. Wrappers vanish; nullability belongs to the attribute. */
  function MapType(shape: Shape): Type
    decreases shape, 1
  {
    match shape
    case SBool => TBool
    case SString => TString
    case SInt(_, _) => TNumber
    case SF64 => TNumber
    case SF32 => TNumber
    case SOption(s) => MapType(s)
    case STfValue(s) => MapType(s)
    case SList(e) => TList(MapType(e))
    case SSet(e) => TSet(MapType(e))
    case SMap(e) => TMap(MapType(e))
    case SStruct(fs) => TObject(ObjectAttrs(fs))
  }

  /** `object_type`: one attribute pushed per field. */
  method ObjectType(fs: seq<Field>) returns (ty: Type)
    ensures ty == MapType(SStruct(fs))
  {
    var attrs: seq<ObjectAttr> := [];
    for i := 0 to |fs|
      invariant attrs == ObjectAttrs(fs)[..i]
    {
      var optional := Nullable(fs[i].shape) || fs[i].marks.optional;
      attrs := attrs + [ObjectAttr(fs[i].Key(), MapType(fs[i].shape), optional)];
    }
    ty := TObject(attrs);
    assert attrs == ObjectAttrs(fs);
  }

  // --- attributes -------------------------------------------------------------

  /** `field_default`: a literal parsed by the attribute's type; one that does not parse
      gives no default, and any other type takes the text itself. */
  function FieldDefault(host: Parsers, literal: Option<string>, ty: Type): Option<Value> {
    match literal
    case None => None
    case Some(text) =>
      match ty
      case TNumber => if host.number(text).Some? then Some(Num(host.number(text).value)) else None
      case TBool => if text == "true" then Some(Bool(true)) else if text == "false" then Some(Bool(false)) else None
      case _ => Some(Str(text))
  }

  /** `attribute_from_field`. Required is what is neither marked optional or computed
      nor nullable; an unmarked nullable field is optional. */
  function AttributeFromField(host: Parsers, f: Field): (r: Reflected<AttributeSchema>)
    ensures r.Err? <==> f.marks.writeOnly && f.marks.computed
    ensures r.Err? ==> r.error == WriteOnlyComputed(f.Key())
    ensures r.Ok? ==>
              && r.value.name == f.Key() && r.value.ty == MapType(f.shape)
              && (r.value.required <==> !r.value.optional && !r.value.computed)
              && (r.value.optional <==> f.marks.optional || (Nullable(f.shape) && !f.marks.computed))
              && (r.value.computed <==> f.marks.computed)
              && (r.value.writeOnly <==> f.marks.writeOnly) && (r.value.forceNew <==> f.marks.forceNew)
              && r.value.dflt == FieldDefault(host, f.marks.dflt, r.value.ty)
  {
    var ty := MapType(f.shape);
    if f.marks.writeOnly && f.marks.computed then Err(WriteOnlyComputed(f.Key()))
    else
      var unmarked := !f.marks.optional && !f.marks.computed;
      Ok(AttributeSchema(
           f.Key(), ty,
           unmarked && !Nullable(f.shape), f.marks.optional || (unmarked && Nullable(f.shape)), f.marks.computed,
           f.marks.writeOnly, f.marks.forceNew, FieldDefault(host, f.marks.dflt, ty)))
  }

  // --- blocks -----------------------------------------------------------------

  /** An optional block is the block under its `Option`. */
  function Peeled(shape: Shape): Shape { if shape.SOption? then shape.inner else shape }

  function Nesting(shape: Shape): NestingMode {
    match shape
    case SList(_) => NestList
    case SSet(_) => NestSet
    case SMap(_) => NestMap
    case _ => NestSingle
  }

  function Element(shape: Shape): Shape {
    match shape
    case SList(e) => e
    case SSet(e) => e
    case SMap(e) => e
    case _ => shape
  }

  /** `nested_block_from_field`. */
  function NestedFromField(host: Parsers, f: Field): Reflected<NestedBlock>
    decreases f, 0
  {
    var shape := Peeled(f.shape);
    var block :- BlockFromShape(host, Element(shape));
    Ok(NestedBlock(f.Key(), Nesting(shape), block))
  }

  function WithField(host: Parsers, block: Block, f: Field): Reflected<Block>
    decreases f, 1
  {
    if f.marks.block then
      var nb :- NestedFromField(host, f);
      Ok(block.(nested := block.nested + [nb]))
    else
      var a :- AttributeFromField(host, f);
      Ok(block.(attributes := block.attributes + [a]))
  }

  /** The first `n` fields of a struct, blocks and attributes each in order. */
  function BlockOfFields(host: Parsers, fs: seq<Field>, n: nat): Reflected<Block>
    requires n <= |fs|
    decreases fs, n
  {
    if n == 0 then Ok(Block([], []))
    else
      var block :- BlockOfFields(host, fs, n - 1);
      WithField(host, block, fs[n - 1])
  }

  /** `block_from_shape`. */
  function BlockFromShape(host: Parsers, shape: Shape): Reflected<Block>
    decreases shape
  {
    match shape
    case SStruct(fs) => BlockOfFields(host, fs, |fs|)
    case _ => Err(NotAStruct)
  }

  /** The source's loop over the fields, stopping at the first that does not reflect. */
  method ReflectBlock(host: Parsers, shape: Shape) returns (r: Reflected<Block>)
    ensures r == BlockFromShape(host, shape)
    decreases shape
  {
    if !shape.SStruct? { return Err(NotAStruct); }
    var attributes: seq<AttributeSchema> := [];
    var nested: seq<NestedBlock> := [];
    for i := 0 to |shape.fields|
      invariant BlockOfFields(host, shape.fields, i) == Ok(Block(attributes, nested))
    {
      var f := shape.fields[i];
      assert BlockOfFields(host, shape.fields, i + 1) == WithField(host, Block(attributes, nested), f);
      if f.marks.block {
        var block := ReflectBlock(host, Element(Peeled(f.shape)));
        if block.Err? {
          StopsAt(host, shape.fields, i);
          return Err(block.error);
        }
        var nb := NestedBlock(f.Key(), Nesting(Peeled(f.shape)), block.value);
        assert NestedFromField(host, f) == Ok(nb);
        nested := nested + [nb];
      } else {
        var a := AttributeFromField(host, f);
        if a.Err? {
          StopsAt(host, shape.fields, i);
          return Err(a.error);
        }
        attributes := attributes + [a.value];
      }
    }
    r := Ok(Block(attributes, nested));
  }

  lemma {:induction false} StopsAt(host: Parsers, fs: seq<Field>, i: nat)
    requires i < |fs| && BlockOfFields(host, fs, i).Ok?
    requires WithField(host, BlockOfFields(host, fs, i).value, fs[i]).Err?
    ensures BlockOfFields(host, fs, |fs|) == Err(WithField(host, BlockOfFields(host, fs, i).value, fs[i]).error)
  {
    var n := i + 1;
    while n < |fs|
      invariant i < n <= |fs|
      invariant BlockOfFields(host, fs, n) == Err(WithField(host, BlockOfFields(host, fs, i).value, fs[i]).error)
    {
      n := n + 1;
    }
  }

  // --- data sources -----------------------------------------------------------

  /** Whether a lookup by the field finds at most one object, or many. */
  datatype SearchKind = Exclusive | Shared

  /** A search key is marked with exactly one of its two kinds. */
  predicate ValidSearch(f: Field) {
    f.marks.search.Some? ==> f.marks.search.value.exclusive != f.marks.search.value.shared
  }

  /** `search_kind`. */
  function FieldSearchKind(f: Field): (r: Reflected<Option<SearchKind>>)
    ensures r.Ok? <==> ValidSearch(f)
    ensures r.Err? ==> r.error == InvalidSearchKey(f.name)
  {
    match f.marks.search
    case None => Ok(None)
    case Some(SearchKey(true, false)) => Ok(Some(Exclusive))
    case Some(SearchKey(false, true)) => Ok(Some(Shared))
    case _ => Err(InvalidSearchKey(f.name))
  }

  function AsSearched(a: AttributeSchema, kind: Option<SearchKind>): AttributeSchema {
    if kind == Some(Exclusive) then AsInput(a, true) else AsComputed(a)
  }

  /** `as_computed`: a read-only output. */
  function AsComputed(a: AttributeSchema): AttributeSchema {
    a.(required := false, optional := false, computed := true, forceNew := false, writeOnly := false)
  }

  /** `as_input`: a lookup input. */
  function AsInput(a: AttributeSchema, required: bool): AttributeSchema {
    a.(required := required, optional := !required, computed := false, forceNew := false, writeOnly := false)
  }

  /** `computed_block`. */
  function ComputedBlock(block: Block): Block {
    Block(
      seq(|block.attributes|, i requires 0 <= i < |block.attributes| => AsComputed(block.attributes[i])),
      seq(|block.nested|, j requires 0 <= j < |block.nested| => AsComputedNested(block.nested[j])))
  }

  function AsComputedNested(nb: NestedBlock): NestedBlock { nb.(block := ComputedBlock(nb.block)) }

  /** `reflect_data_source`: exclusive search keys are inputs, everything else is a
      computed output. */
  method ReflectDataSource(host: Parsers, shape: Shape) returns (r: Reflected<Block>)
    ensures r == DataSourceBlock(host, shape)
  {
    if !shape.SStruct? { return Err(NotAStruct); }
    var attributes: seq<AttributeSchema> := [];
    var nested: seq<NestedBlock> := [];
    for i := 0 to |shape.fields|
      invariant DataSourceFields(host, shape.fields, i) == Ok(Block(attributes, nested))
    {
      var f := shape.fields[i];
      if f.marks.block {
        var block := ReflectBlock(host, Element(Peeled(f.shape)));
        if block.Err? {
          DataSourceStopsAt(host, shape.fields, i);
          return Err(block.error);
        }
        nested := nested + [AsComputedNested(NestedBlock(f.Key(), Nesting(Peeled(f.shape)), block.value))];
      } else {
        var a := AttributeFromField(host, f);
        if a.Err? {
          DataSourceStopsAt(host, shape.fields, i);
          return Err(a.error);
        }
        var kind := FieldSearchKind(f);
        if kind.Err? {
          DataSourceStopsAt(host, shape.fields, i);
          return Err(kind.error);
        }
        attributes := attributes + [AsSearched(a.value, kind.value)];
      }
    }
    r := Ok(Block(attributes, nested));
  }

  function DataSourceField(host: Parsers, block: Block, f: Field): Reflected<Block> {
    if f.marks.block then
      var nb :- NestedFromField(host, f);
      Ok(block.(nested := block.nested + [AsComputedNested(nb)]))
    else
      var a :- AttributeFromField(host, f);
      var kind :- FieldSearchKind(f);
      Ok(block.(attributes := block.attributes + [AsSearched(a, kind)]))
  }

  function DataSourceFields(host: Parsers, fs: seq<Field>, n: nat): Reflected<Block>
    requires n <= |fs|
  {
    if n == 0 then Ok(Block([], []))
    else
      var block :- DataSourceFields(host, fs, n - 1);
      DataSourceField(host, block, fs[n - 1])
  }

  function DataSourceBlock(host: Parsers, shape: Shape): Reflected<Block> {
    match shape
    case SStruct(fs) => DataSourceFields(host, fs, |fs|)
    case _ => Err(NotAStruct)
  }

  lemma {:induction false} DataSourceStopsAt(host: Parsers, fs: seq<Field>, i: nat)
    requires i < |fs| && DataSourceFields(host, fs, i).Ok?
    requires DataSourceField(host, DataSourceFields(host, fs, i).value, fs[i]).Err?
    ensures DataSourceFields(host, fs, |fs|)
            == Err(DataSourceField(host, DataSourceFields(host, fs, i).value, fs[i]).error)
  {
    var n := i + 1;
    while n < |fs|
      invariant i < n <= |fs|
      invariant DataSourceFields(host, fs, n)
                == Err(DataSourceField(host, DataSourceFields(host, fs, i).value, fs[i]).error)
    {
      n := n + 1;
    }
  }
}
