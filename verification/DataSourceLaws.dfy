/** What a reflected data source asks for and what it gives back. */
module DataSourceLaws {
  import opened Wrappers
  import opened Types
  import opened Decode
  import opened Schema
  import opened Typed
  import opened Reflect
  import opened ReflectLaws

  /** A value the provider gives back and nothing else. */
  predicate Output(a: AttributeSchema) {
    a.computed && !a.required && !a.optional && !a.forceNew && !a.writeOnly
  }

  /** A value the configuration must give and nothing else. */
  predicate Input(a: AttributeSchema) {
    a.required && !a.computed && !a.optional && !a.forceNew && !a.writeOnly
  }

  /** Only outputs, here and in every nested block. */
  predicate OutputsOnly(block: Block) {
    && (forall i | 0 <= i < |block.attributes| :: Output(block.attributes[i]))
    && forall j | 0 <= j < |block.nested| :: OutputsOnly(block.nested[j].block)
  }

  /** A lookup by the field finds at most one object. */
  predicate ExclusiveKey(f: Field) { f.marks.search == Some(SearchKey(true, false)) }

  /** What a data source declares for an attribute field: an input exactly when the field
      is an exclusive search key, and an output otherwise. */
  predicate Declares(host: Parsers, a: AttributeSchema, f: Field) {
    && a.name == f.Key() && a.ty == MapType(f.shape) && a.dflt == FieldDefault(host, f.marks.dflt, MapType(f.shape))
    && if ExclusiveKey(f) then Input(a) else Output(a)
  }

  /** And for a block field: a block that only gives back. */
  predicate DeclaresBlock(nb: NestedBlock, f: Field) {
    nb.name == f.Key() && nb.nesting == Nesting(Peeled(f.shape)) && OutputsOnly(nb.block)
  }

  lemma {:induction false} ComputedOutputs(block: Block)
    ensures OutputsOnly(ComputedBlock(block))
  {
    forall j | 0 <= j < |block.nested| { ComputedOutputs(block.nested[j].block); }
  }

  /** The attribute fields among the first `n`. */
  function AttributeFields(fs: seq<Field>, n: nat): seq<Field>
    requires n <= |fs|
  {
    if n == 0 then [] else AttributeFields(fs, n - 1) + if fs[n - 1].marks.block then [] else [fs[n - 1]]
  }

  function BlockFields(fs: seq<Field>, n: nat): seq<Field>
    requires n <= |fs|
  {
    if n == 0 then [] else BlockFields(fs, n - 1) + if fs[n - 1].marks.block then [fs[n - 1]] else []
  }

  /** The data source declares its attribute fields and its block fields, each in order. */
  predicate DeclaresAll(host: Parsers, c: Block, attrs: seq<Field>, blocks: seq<Field>) {
    && |c.attributes| == |attrs| && (forall i | 0 <= i < |attrs| :: Declares(host, c.attributes[i], attrs[i]))
    && |c.nested| == |blocks| && forall j | 0 <= j < |blocks| :: DeclaresBlock(c.nested[j], blocks[j])
  }

  lemma {:induction false} FieldDeclared(host: Parsers, c: Block, f: Field, attrs: seq<Field>, blocks: seq<Field>)
    requires DeclaresAll(host, c, attrs, blocks) && DataSourceField(host, c, f).Ok?
    ensures DeclaresAll(host, DataSourceField(host, c, f).value,
              attrs + if f.marks.block then [] else [f], blocks + if f.marks.block then [f] else [])
  {
    if f.marks.block {
      BlockDeclared(host, c, f, attrs, blocks);
    } else {
      AttributeDeclared(host, c, f, attrs, blocks);
    }
  }

  lemma {:induction false} BlockDeclared(host: Parsers, c: Block, f: Field, attrs: seq<Field>, blocks: seq<Field>)
    requires DeclaresAll(host, c, attrs, blocks) && f.marks.block && DataSourceField(host, c, f).Ok?
    ensures DeclaresAll(host, DataSourceField(host, c, f).value, attrs + [], blocks + [f])
  {
    var nb := NestedFromField(host, f).value;
    ComputedOutputs(nb.block);
    assert DeclaresBlock(AsComputedNested(nb), f);
    assert attrs + [] == attrs;
  }

  lemma {:induction false} AttributeDeclared(host: Parsers, c: Block, f: Field, attrs: seq<Field>, blocks: seq<Field>)
    requires DeclaresAll(host, c, attrs, blocks) && !f.marks.block && DataSourceField(host, c, f).Ok?
    ensures DeclaresAll(host, DataSourceField(host, c, f).value, attrs + [f], blocks + [])
  {
    var a := AsSearched(AttributeFromField(host, f).value, FieldSearchKind(f).value);
    assert Declares(host, a, f);
    assert blocks + [] == blocks;
  }

  lemma {:induction false} FieldsDeclared(host: Parsers, fs: seq<Field>, n: nat)
    requires n <= |fs| && DataSourceFields(host, fs, n).Ok?
    ensures DeclaresAll(host, DataSourceFields(host, fs, n).value, AttributeFields(fs, n), BlockFields(fs, n))
  {
    if n > 0 {
      FieldsDeclared(host, fs, n - 1);
      FieldDeclared(host, DataSourceFields(host, fs, n - 1).value, fs[n - 1],
        AttributeFields(fs, n - 1), BlockFields(fs, n - 1));
    }
  }

  /** A reflected data source has one attribute per attribute field, required exactly when
      the field is an exclusive search key and computed otherwise, and one block per block
      field, in which everything at every depth is computed only. */
  lemma {:induction false} DataSourceDeclares(host: Parsers, fs: seq<Field>)
    requires DataSourceBlock(host, SStruct(fs)).Ok?
    ensures DeclaresAll(host, DataSourceBlock(host, SStruct(fs)).value, AttributeFields(fs, |fs|),
              BlockFields(fs, |fs|))
  {
    FieldsDeclared(host, fs, |fs|);
  }

  /** Two keys, the first exclusive and the second shared: the first must be given and the
      second comes back. */
  lemma {:induction false} TwoKeys(host: Parsers, arn: Field, name: Field)
    requires !arn.marks.block && arn.marks.search == Some(SearchKey(true, false))
    requires !name.marks.block && name.marks.search == Some(SearchKey(false, true))
    requires DataSourceBlock(host, SStruct([arn, name])).Ok?
    ensures var attrs := DataSourceBlock(host, SStruct([arn, name])).value.attributes;
            |attrs| == 2 && Input(attrs[0]) && Output(attrs[1])
  {
    var fs := [arn, name];
    DataSourceDeclares(host, fs);
    assert AttributeFields(fs, 1) == [arn] by { assert AttributeFields(fs, 0) == []; }
    assert AttributeFields(fs, 2) == [arn, name];
  }
}
