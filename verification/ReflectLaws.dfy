/** The reflected schema agrees with the typed layer, and the whole way from a Rust value
    over the wire and back. */
module ReflectLaws {
  import opened Wrappers
  import opened Numbers
  import opened Text
  import opened Types
  import opened Values
  import opened Encode
  import opened Decode
  import opened RoundTrip
  import opened Schema
  import opened WriteOnly
  import opened PlanLaws
  import opened Alike
  import opened Typed
  import opened TypedLaws
  import opened Reflect

  // --- the type of a shape ----------------------------------------------------

  lemma {:induction false} MapTypeDistinct(shape: Shape)
    requires DistinctKeys(shape)
    ensures DistinctNames(MapType(shape)) && DynamicFree(MapType(shape))
  {
    match shape
    case SOption(s) => MapTypeDistinct(s);
    case STfValue(s) => MapTypeDistinct(s);
    case SList(e) => MapTypeDistinct(e);
    case SSet(e) => MapTypeDistinct(e);
    case SMap(e) => MapTypeDistinct(e);
    case SStruct(fs) => forall i | 0 <= i < |fs| { MapTypeDistinct(fs[i].shape); }
    case _ =>
  }

  /** The value of a field in a struct's value tree. */
  lemma {:induction false} StructField(x: Rust, fs: seq<Field>, i: nat)
    requires WellTyped(x, SStruct(fs)) && Distinct(FieldKeys(fs)) && i < |fs|
    ensures ToValue(x, SStruct(fs)).Object? && fs[i].Key() in ToValue(x, SStruct(fs)).fields
    ensures ToValue(x, SStruct(fs)).fields[fs[i].Key()] == ToValue(x.values[i], fs[i].shape)
  {
    var ks, vs := FieldKeys(fs), FieldValues(x, fs);
    BuildMapAt(ks, vs, i);
    assert ks[i] == fs[i].Key() && vs[i] == ToValue(x.values[i], fs[i].shape);
  }

  lemma {:induction false} StructKeys(x: Rust, fs: seq<Field>)
    requires WellTyped(x, SStruct(fs))
    ensures ToValue(x, SStruct(fs)).Object?
    ensures forall k :: k in ToValue(x, SStruct(fs)).fields <==> k in FieldKeys(fs)
  {
  }

  /** Every value of a Rust type is a value of the reflected type. */
  lemma {:induction false} TypedConforms(x: Rust, shape: Shape)
    requires WellTyped(x, shape) && DistinctKeys(shape)
    ensures Conforms(ToValue(x, shape), MapType(shape))
    decreases x
  {
    match shape
    case SOption(s) => if x.RSome? { TypedConforms(x.inner, s); }
    case STfValue(s) => if x.RKnown? { TypedConforms(x.inner, s); }
    case SList(e) => forall i | 0 <= i < |x.items| { TypedConforms(x.items[i], e); }
    case SSet(e) => forall i | 0 <= i < |x.items| { TypedConforms(x.items[i], e); }
    case SMap(e) => forall k | k in x.entries { TypedConforms(x.entries[k], e); }
    case SStruct(fs) =>
      var attrs := ObjectAttrs(fs);
      forall i | 0 <= i < |attrs| ensures Conforms(ToValue(x, shape).fields[attrs[i].name], attrs[i].ty) {
        assert Names(attrs)[i] == FieldKeys(fs)[i];
        StructField(x, fs, i);
        TypedConforms(x.values[i], fs[i].shape);
      }
    case _ =>
  }

  /** And cutting it to that type changes nothing. */
  lemma {:induction false} TypedProject(x: Rust, shape: Shape)
    requires WellTyped(x, shape) && DistinctKeys(shape)
    ensures Project(ToValue(x, shape), MapType(shape)) == ToValue(x, shape)
    decreases x, 1
  {
    match shape
    case SOption(s) => if x.RSome? { TypedProject(x.inner, s); }
    case STfValue(s) => if x.RKnown? { TypedProject(x.inner, s); }
    case SList(e) => ItemsProject(x, shape, e);
    case SSet(e) => ItemsProject(x, shape, e);
    case SMap(e) => EntriesProject(x, e);
    case SStruct(fs) => StructProject(x, fs);
    case _ =>
  }

  lemma {:induction false} EntriesProject(x: Rust, e: Shape)
    requires WellTyped(x, SMap(e)) && DistinctKeys(e)
    ensures Project(ToValue(x, SMap(e)), MapType(SMap(e))) == ToValue(x, SMap(e))
    decreases x, 0
  {
    var v := ToValue(x, SMap(e));
    var p := Project(v, TMap(MapType(e)));
    forall k | k in x.entries ensures p.entries[k] == v.entries[k] { TypedProject(x.entries[k], e); }
    assert p.entries == v.entries;
  }

  lemma {:induction false} ItemsProject(x: Rust, shape: Shape, e: Shape)
    requires WellTyped(x, shape) && DistinctKeys(e) && (shape == SList(e) || shape == SSet(e))
    ensures Project(ToValue(x, shape), MapType(shape)) == ToValue(x, shape)
    decreases x, 0
  {
    var v := ToValue(x, shape);
    var p := Project(v, MapType(shape));
    forall i | 0 <= i < |x.items| ensures p.items[i] == v.items[i] { TypedProject(x.items[i], e); }
    assert p.items == v.items;
  }

  lemma {:induction false} FieldProject(x: Rust, fs: seq<Field>, i: nat)
    requires WellTyped(x, SStruct(fs)) && DistinctKeys(SStruct(fs)) && i < |fs|
    ensures var p, v := Project(ToValue(x, SStruct(fs)), TObject(ObjectAttrs(fs))), ToValue(x, SStruct(fs));
            p.Object? && v.Object? && fs[i].Key() in p.fields && fs[i].Key() in v.fields
            && p.fields[fs[i].Key()] == v.fields[fs[i].Key()]
    decreases x, 0, 0
  {
    StructField(x, fs, i);
    assert Names(ObjectAttrs(fs))[i] == FieldKeys(fs)[i];
    ProjectedAt(ToValue(x, SStruct(fs)), ObjectAttrs(fs), i);
    TypedProject(x.values[i], fs[i].shape);
  }

  lemma {:induction false} StructProject(x: Rust, fs: seq<Field>)
    requires WellTyped(x, SStruct(fs)) && DistinctKeys(SStruct(fs))
    ensures Project(ToValue(x, SStruct(fs)), MapType(SStruct(fs))) == ToValue(x, SStruct(fs))
    decreases x, 0, 1
  {
    StructKeys(x, fs);
    var p := ProjectedKeys(ToValue(x, SStruct(fs)), ObjectAttrs(fs));
    var m := ToValue(x, SStruct(fs)).fields;
    var ks := FieldKeys(fs);
    forall i | 0 <= i < |ks| ensures p[ks[i]] == m[ks[i]] { FieldProject(x, fs, i); }
    EqualMaps(p, m, ks);
  }

  // --- the reflected block ----------------------------------------------------

  /** The declared names of the block are distinct, and are those of `ks`. */
  predicate KeysAre(block: Block, ks: seq<string>) {
    Distinct(BlockNames(block)) && Elems(BlockNames(block)) == Elems(ks)
  }

  /** The declared names of a block so far are the keys of the fields so far. */
  lemma {:induction false} BlockKeys(host: Parsers, fs: seq<Field>, n: nat)
    requires n <= |fs| && BlockOfFields(host, fs, n).Ok? && Distinct(FieldKeys(fs))
    ensures KeysAre(BlockOfFields(host, fs, n).value, FieldKeys(fs)[..n])
  {
    if n > 0 {
      var before := BlockBefore(host, fs, n);
      BlockKeys(host, fs, n - 1);
      FieldAdded(host, before, fs[n - 1], BlockOfFields(host, fs, n).value, FieldKeys(fs), n - 1);
    } else {
      assert BlockNames(Block([], [])) == [];
    }
  }

  lemma {:induction false} BlockBefore(host: Parsers, fs: seq<Field>, n: nat) returns (before: Block)
    requires 0 < n <= |fs| && BlockOfFields(host, fs, n).Ok?
    ensures BlockOfFields(host, fs, n - 1) == Ok(before)
    ensures WithField(host, before, fs[n - 1]) == BlockOfFields(host, fs, n)
  {
    before := BlockOfFields(host, fs, n - 1).value;
  }

  lemma {:induction false} FieldAdded(host: Parsers, before: Block, f: Field, after: Block, ks: seq<string>, n: nat)
    requires WithField(host, before, f) == Ok(after) && Distinct(ks) && n < |ks| && ks[n] == f.Key()
    requires KeysAre(before, ks[..n])
    ensures KeysAre(after, ks[..n + 1])
  {
    assert ks[..n + 1] == ks[..n] + [ks[n]];
    if f.marks.block {
      NestedAdded(before, NestedFromField(host, f).value);
    } else {
      AttributeAdded(before, AttributeFromField(host, f).value);
    }
  }

  lemma {:induction false} AttributeAdded(block: Block, a: AttributeSchema)
    requires Distinct(BlockNames(block)) && a.name !in Elems(BlockNames(block))
    ensures var after := block.(attributes := block.attributes + [a]);
            Distinct(BlockNames(after)) && Elems(BlockNames(after)) == Elems(BlockNames(block)) + {a.name}
  {
    var after := block.(attributes := block.attributes + [a]);
    var n := |block.attributes|;
    var front, back := BlockNames(block)[..n], BlockNames(block)[n..];
    assert BlockNames(block) == front + back;
    assert BlockNames(after) == front + [a.name] + back;
  }

  lemma {:induction false} NestedAdded(block: Block, nb: NestedBlock)
    requires Distinct(BlockNames(block)) && nb.name !in Elems(BlockNames(block))
    ensures var after := block.(nested := block.nested + [nb]);
            Distinct(BlockNames(after)) && Elems(BlockNames(after)) == Elems(BlockNames(block)) + {nb.name}
  {
    var after := block.(nested := block.nested + [nb]);
    assert BlockNames(after) == BlockNames(block) + [nb.name];
  }

  /** Where each attribute of a reflected block comes from. */
  lemma {:induction false} AttributeOrigin(host: Parsers, fs: seq<Field>, n: nat, i: nat) returns (f: nat)
    requires n <= |fs| && BlockOfFields(host, fs, n).Ok? && i < |BlockOfFields(host, fs, n).value.attributes|
    ensures f < n && !fs[f].marks.block
            && AttributeFromField(host, fs[f]) == Ok(BlockOfFields(host, fs, n).value.attributes[i])
  {
    var before := BlockOfFields(host, fs, n - 1).value;
    if i < |before.attributes| { f := AttributeOrigin(host, fs, n - 1, i); } else { f := n - 1; }
  }

  /** Where each nested block of a reflected block comes from. */
  lemma {:induction false} NestedOrigin(host: Parsers, fs: seq<Field>, n: nat, j: nat) returns (f: nat)
    requires n <= |fs| && BlockOfFields(host, fs, n).Ok? && j < |BlockOfFields(host, fs, n).value.nested|
    ensures f < n && fs[f].marks.block && NestedFromField(host, fs[f]) == Ok(BlockOfFields(host, fs, n).value.nested[j])
  {
    var before := BlockOfFields(host, fs, n - 1).value;
    if j < |before.nested| { f := NestedOrigin(host, fs, n - 1, j); } else { f := n - 1; }
  }

  lemma {:induction false} ElementKeys(shape: Shape)
    requires DistinctKeys(shape)
    ensures DistinctKeys(Element(Peeled(shape)))
    ensures MapType(shape) == Nest(Nesting(Peeled(shape)), MapType(Element(Peeled(shape))))
  {
  }

  /** A reflected block has distinct names throughout. */
  lemma {:induction false} ReflectedDistinct(host: Parsers, fs: seq<Field>)
    requires DistinctKeys(SStruct(fs)) && BlockFromShape(host, SStruct(fs)).Ok?
    ensures DistinctBlock(BlockFromShape(host, SStruct(fs)).value)
            && DistinctTypes(BlockFromShape(host, SStruct(fs)).value)
    decreases fs
  {
    var block := BlockOfFields(host, fs, |fs|).value;
    BlockKeys(host, fs, |fs|);
    forall i | 0 <= i < |block.attributes| ensures DistinctNames(block.attributes[i].ty) {
      var f := AttributeOrigin(host, fs, |fs|, i);
      MapTypeDistinct(fs[f].shape);
    }
    forall j | 0 <= j < |block.nested|
      ensures DistinctBlock(block.nested[j].block) && DistinctTypes(block.nested[j].block)
    {
      var f := NestedOrigin(host, fs, |fs|, j);
      ElementKeys(fs[f].shape);
      ReflectedDistinct(host, Element(Peeled(fs[f].shape)).fields);
    }
  }

  /** And no dynamic slot anywhere. */
  lemma {:induction false} ReflectedDynamicFree(host: Parsers, fs: seq<Field>)
    requires DistinctKeys(SStruct(fs)) && BlockFromShape(host, SStruct(fs)).Ok?
    ensures DynamicFree(CtyType(BlockFromShape(host, SStruct(fs)).value))
    decreases fs
  {
    var block := BlockOfFields(host, fs, |fs|).value;
    var ns := CtyTypeSpec(block);
    forall i | 0 <= i < |block.attributes| ensures DynamicFree(block.attributes[i].ty) {
      var f := AttributeOrigin(host, fs, |fs|, i);
      MapTypeDistinct(fs[f].shape);
    }
    forall j | 0 <= j < |ns| ensures DynamicFree(ns[j].ty) {
      var f := NestedOrigin(host, fs, |fs|, j);
      ElementKeys(fs[f].shape);
      ReflectedDynamicFree(host, Element(Peeled(fs[f].shape)).fields);
      NestDynamicFree(block.nested[j].nesting, CtyType(block.nested[j].block));
    }
    PartsDynamicFree(AttrTypes(block.attributes), ns);
  }

  lemma {:induction false} NestDynamicFree(mode: NestingMode, inner: Type)
    ensures DynamicFree(Nest(mode, inner)) <==> DynamicFree(inner)
  {
  }

  lemma {:induction false} PartsDynamicFree(xs: seq<ObjectAttr>, ys: seq<ObjectAttr>)
    requires forall i | 0 <= i < |xs| :: DynamicFree(xs[i].ty)
    requires forall j | 0 <= j < |ys| :: DynamicFree(ys[j].ty)
    ensures DynamicFree(TObject(xs + ys))
  {
  }

  lemma {:induction false} SameTypeReflexive(ty: Type)
    requires DistinctNames(ty)
    ensures SameType(ty, ty)
  {
    match ty
    case TList(e) => SameTypeReflexive(e);
    case TSet(e) => SameTypeReflexive(e);
    case TMap(e) => SameTypeReflexive(e);
    case TTuple(es) => forall i | 0 <= i < |es| { SameTypeReflexive(es[i]); }
    case TObject(attrs) =>
      forall i | 0 <= i < |attrs| ensures SameType(attrs[i].ty, attrs[AttrIndex(attrs, attrs[i].name)].ty) {
        AttrIndexAt(attrs, i);
        SameTypeReflexive(attrs[i].ty);
      }
    case _ =>
  }

  lemma {:induction false} SameNest(mode: NestingMode, a: Type, b: Type)
    requires SameType(a, b)
    ensures SameType(Nest(mode, a), Nest(mode, b))
  {
  }

  /** One attribute of the block's type against the shape's. */
  lemma {:induction false} AttributeSame(host: Parsers, fs: seq<Field>, i: nat)
    requires DistinctKeys(SStruct(fs)) && BlockOfFields(host, fs, |fs|).Ok?
    requires i < |BlockOfFields(host, fs, |fs|).value.attributes|
    ensures var a, ys := BlockOfFields(host, fs, |fs|).value.attributes[i], ObjectAttrs(fs);
            AttrIndex(ys, a.name) < |ys| && SameType(a.ty, ys[AttrIndex(ys, a.name)].ty)
  {
    var f := AttributeOrigin(host, fs, |fs|, i);
    assert Names(ObjectAttrs(fs))[f] == FieldKeys(fs)[f];
    AttrIndexAt(ObjectAttrs(fs), f);
    MapTypeDistinct(fs[f].shape);
    SameTypeReflexive(MapType(fs[f].shape));
  }

  /** One nested block of the block's type against the shape's. */
  lemma {:induction false} NestedSame(host: Parsers, fs: seq<Field>, j: nat)
    requires DistinctKeys(SStruct(fs)) && BlockOfFields(host, fs, |fs|).Ok?
    requires j < |BlockOfFields(host, fs, |fs|).value.nested|
    ensures var nb, ys := BlockOfFields(host, fs, |fs|).value.nested[j], ObjectAttrs(fs);
            AttrIndex(ys, nb.name) < |ys|
              && SameType(Nest(nb.nesting, CtyType(nb.block)), ys[AttrIndex(ys, nb.name)].ty)
    decreases fs, 0
  {
    var f := NestedOrigin(host, fs, |fs|, j);
    var nb := BlockOfFields(host, fs, |fs|).value.nested[j];
    assert Names(ObjectAttrs(fs))[f] == FieldKeys(fs)[f];
    AttrIndexAt(ObjectAttrs(fs), f);
    ElementKeys(fs[f].shape);
    var e := Element(Peeled(fs[f].shape));
    assert BlockFromShape(host, e) == Ok(nb.block);
    BlockTypeIsMapType(host, e.fields);
    SameNest(nb.nesting, CtyType(nb.block), MapType(e));
  }

  /** The type of a reflected block is the type of the shape, but for attribute order
      and optional flags. */
  lemma {:induction false} BlockTypeIsMapType(host: Parsers, fs: seq<Field>)
    requires DistinctKeys(SStruct(fs)) && BlockFromShape(host, SStruct(fs)).Ok?
    ensures SameType(CtyType(BlockFromShape(host, SStruct(fs)).value), MapType(SStruct(fs)))
    decreases fs, 1
  {
    var block := BlockOfFields(host, fs, |fs|).value;
    var ns := CtyTypeSpec(block);
    var attrs := AttrTypes(block.attributes) + ns;
    BlockKeys(host, fs, |fs|);
    assert FieldKeys(fs)[..|fs|] == FieldKeys(fs);
    assert Names(attrs) == BlockNames(block);
    forall i | 0 <= i < |block.attributes| { AttributeSame(host, fs, i); }
    forall j | 0 <= j < |block.nested| { NestedSame(host, fs, j); }
    SameObjectType(attrs, ObjectAttrs(fs));
  }

  lemma {:induction false} SameObjectType(xs: seq<ObjectAttr>, ys: seq<ObjectAttr>)
    requires Distinct(Names(xs)) && Distinct(Names(ys)) && NameSet(xs) == NameSet(ys)
    requires forall i | 0 <= i < |xs| ::
               AttrIndex(ys, xs[i].name) < |ys| && SameType(xs[i].ty, ys[AttrIndex(ys, xs[i].name)].ty)
    ensures SameType(TObject(xs), TObject(ys))
  {
  }

  /** So a value encodes the same under either, and a Rust value conforms to both. */
  lemma {:induction false} BlockEncodesAsShape(host: Parsers, fs: seq<Field>, v: Value)
    requires DistinctKeys(SStruct(fs)) && BlockFromShape(host, SStruct(fs)).Ok?
    ensures ToMp(v, CtyType(BlockFromShape(host, SStruct(fs)).value)) == ToMp(v, MapType(SStruct(fs)))
    ensures Conforms(v, CtyType(BlockFromShape(host, SStruct(fs)).value)) <==> Conforms(v, MapType(SStruct(fs)))
  {
    BlockTypeIsMapType(host, fs);
    SameTypeEncodes(v, CtyType(BlockFromShape(host, SStruct(fs)).value), MapType(SStruct(fs)));
    SameTypeConforms(v, CtyType(BlockFromShape(host, SStruct(fs)).value), MapType(SStruct(fs)));
  }

  // --- the whole pipeline -----------------------------------------------------

  /** Out of a Rust value, over msgpack under the shape's type, and back: equal exactly
      when the value is sharp and holds no NaN. */
  lemma {:induction false} TypedPipeline(host: Parsers, x: Rust, shape: Shape)
    requires WellTyped(x, shape) && DistinctKeys(shape)
    ensures var sent := ToMp(ToValue(x, shape), MapType(shape));
            sent.Ok?
            && var got := FromMp(host, sent.value, MapType(shape));
               got.Ok? && (RustEq(FromValue(got.value, shape), x) <==> Sharp(x) && NaNFree(x))
  {
    var v := ToValue(x, shape);
    MapTypeDistinct(shape);
    TypedConforms(x, shape);
    EncodesIffConforms(v, MapType(shape));
    MsgpackRoundTrip(host, v, MapType(shape));
    TypedProject(x, shape);
    MapCarried(v);
    WireKeepsScalars();
    TypedIff(x, shape, CARRIED);
  }

  /** The same over the wire type of the reflected schema, which is what the service
      encodes and decodes under. */
  lemma {:induction false} ResourcePipeline(host: Parsers, x: Rust, fs: seq<Field>, block: Block)
    requires WellTyped(x, SStruct(fs)) && DistinctKeys(SStruct(fs)) && BlockFromShape(host, SStruct(fs)) == Ok(block)
    ensures var sent := ToMp(ToValue(x, SStruct(fs)), CtyType(block));
            sent.Ok?
            && var got := FromMp(host, sent.value, CtyType(block));
               got.Ok? && (RustEq(FromValue(got.value, SStruct(fs)), x) <==> Sharp(x) && NaNFree(x))
  {
    TypedPipeline(host, x, SStruct(fs));
    BlockEncodesAsShape(host, fs, ToValue(x, SStruct(fs)));
    BlockTypeIsMapType(host, fs);
    SameTypeDecodes(host, ToMp(ToValue(x, SStruct(fs)), CtyType(block)).value, CtyType(block), MapType(SStruct(fs)));
  }

  // --- dispositions -----------------------------------------------------------

  /** `c` declares what `b` does: the same names and types with other dispositions, and
      read-only forms of the same nested blocks. */
  predicate Redisposed(c: Block, b: Block) {
    && |c.attributes| == |b.attributes| && |c.nested| == |b.nested|
    && (forall i | 0 <= i < |b.attributes| ::
          c.attributes[i].name == b.attributes[i].name && c.attributes[i].ty == b.attributes[i].ty)
    && forall j | 0 <= j < |b.nested| :: c.nested[j] == AsComputedNested(b.nested[j])
  }

  lemma {:induction false} RedisposedNames(c: Block, b: Block)
    requires Redisposed(c, b)
    ensures BlockNames(c) == BlockNames(b)
  {
  }

  /** Dispositions are not part of the type. */
  lemma {:induction false} RedisposedSame(c: Block, b: Block)
    requires DistinctBlock(b) && DistinctTypes(b) && Redisposed(c, b)
    ensures SameType(CtyType(c), CtyType(b))
    decreases b, 1
  {
    var ns := CtyTypeSpec(c);
    var ms := CtyTypeSpec(b);
    var xs, ys := AttrTypes(c.attributes), AttrTypes(b.attributes);
    RedisposedNames(c, b);
    TypeNames(c, ns);
    TypeNames(b, ms);
    forall j | 0 <= j < |ns| ensures SameType(ns[j].ty, ms[j].ty) { ComputedNestedSame(b, j); }
    forall i | 0 <= i < |xs| ensures SameType(xs[i].ty, ys[i].ty) { AttributeUnchanged(c, b, i); }
    SameParts(xs, ns, ys, ms);
  }

  lemma {:induction false} AttributeUnchanged(c: Block, b: Block, i: nat)
    requires DistinctTypes(b) && Redisposed(c, b) && i < |b.attributes|
    ensures SameType(AttrTypes(c.attributes)[i].ty, AttrTypes(b.attributes)[i].ty)
  {
    SameTypeReflexive(b.attributes[i].ty);
  }

  lemma {:induction false} ComputedNestedSame(b: Block, j: nat)
    requires DistinctBlock(b) && DistinctTypes(b) && j < |b.nested|
    ensures var c, nb := AsComputedNested(b.nested[j]), b.nested[j];
            SameType(Nest(c.nesting, CtyType(c.block)), Nest(nb.nesting, CtyType(nb.block)))
    decreases b, 0
  {
    var nb := b.nested[j];
    RedisposedSame(ComputedBlock(nb.block), nb.block);
    SameNest(nb.nesting, CtyType(ComputedBlock(nb.block)), CtyType(nb.block));
  }

  lemma {:induction false} SameParts(xs: seq<ObjectAttr>, ns: seq<ObjectAttr>, ys: seq<ObjectAttr>, ms: seq<ObjectAttr>)
    requires Names(xs + ns) == Names(ys + ms) && Distinct(Names(ys + ms)) && |xs| == |ys| && |ns| == |ms|
    requires forall i | 0 <= i < |xs| :: SameType(xs[i].ty, ys[i].ty)
    requires forall j | 0 <= j < |ns| :: SameType(ns[j].ty, ms[j].ty)
    ensures SameType(TObject(xs + ns), TObject(ys + ms))
  {
    SameInPlace(xs + ns, ys + ms);
  }

  lemma {:induction false} SameInPlace(xs: seq<ObjectAttr>, ys: seq<ObjectAttr>)
    requires Names(xs) == Names(ys) && Distinct(Names(ys)) && |xs| == |ys|
    requires forall i | 0 <= i < |xs| :: SameType(xs[i].ty, ys[i].ty)
    ensures SameType(TObject(xs), TObject(ys))
  {
    forall i | 0 <= i < |xs| ensures AttrIndex(ys, xs[i].name) == i {
      assert xs[i].name == Names(xs)[i] == Names(ys)[i] == ys[i].name;
      AttrIndexAt(ys, i);
    }
    SameObjectType(xs, ys);
  }

  /** The read-only projection of a block: nothing encodes differently under it. */
  lemma {:induction false} ComputedEncodesSame(v: Value, block: Block)
    requires DistinctBlock(block) && DistinctTypes(block)
    ensures ToMp(v, CtyType(ComputedBlock(block))) == ToMp(v, CtyType(block))
  {
    RedisposedSame(ComputedBlock(block), block);
    SameTypeEncodes(v, CtyType(ComputedBlock(block)), CtyType(block));
  }

  /** No attribute of it is write-only, at any depth. */
  lemma {:induction false} ComputedHasNoSecrets(block: Block)
    ensures !BlockHas(ComputedBlock(block))
  {
    forall j | 0 <= j < |block.nested| { ComputedHasNoSecrets(block.nested[j].block); }
  }

  /** Every search key among the first `n` attributes is exclusive or shared. */
  predicate SearchKeysValid(fs: seq<Field>, n: nat)
    requires n <= |fs|
  {
    forall i | 0 <= i < n && !fs[i].marks.block :: ValidSearch(fs[i])
  }

  /** The data source agrees with the resource where the search keys are valid, and does
      not reflect where one is not. */
  predicate SourceMatches(c: Reflected<Block>, b: Reflected<Block>, valid: bool) {
    && (c.Ok? <==> b.Ok? && valid)
    && (c.Ok? ==> Redisposed(c.value, b.value))
    && (valid && b.Err? ==> c == b)
  }

  lemma {:induction false} NestedRedisposed(c: Block, b: Block, nb: NestedBlock)
    requires Redisposed(c, b)
    ensures Redisposed(c.(nested := c.nested + [AsComputedNested(nb)]), b.(nested := b.nested + [nb]))
  {
  }

  lemma {:induction false} AttributeRedisposed(c: Block, b: Block, a: AttributeSchema, kind: Option<SearchKind>)
    requires Redisposed(c, b)
    ensures Redisposed(c.(attributes := c.attributes + [AsSearched(a, kind)]), b.(attributes := b.attributes + [a]))
  {
  }

  /** One field more of both. */
  lemma {:induction false} FieldRedisposed(host: Parsers, c: Block, b: Block, f: Field)
    requires Redisposed(c, b)
    ensures SourceMatches(DataSourceField(host, c, f), WithField(host, b, f), f.marks.block || ValidSearch(f))
  {
    if f.marks.block {
      if NestedFromField(host, f).Ok? { NestedRedisposed(c, b, NestedFromField(host, f).value); }
    } else if AttributeFromField(host, f).Ok? && FieldSearchKind(f).Ok? {
      AttributeRedisposed(c, b, AttributeFromField(host, f).value, FieldSearchKind(f).value);
    }
  }

  /** A data source reflects exactly when the resource does and every search key is
      valid, and then declares the same. */
  lemma {:induction false} DataSourceRedisposed(host: Parsers, fs: seq<Field>, n: nat)
    requires n <= |fs|
    ensures SourceMatches(DataSourceFields(host, fs, n), BlockOfFields(host, fs, n), SearchKeysValid(fs, n))
  {
    if n > 0 {
      DataSourceRedisposed(host, fs, n - 1);
      var c, b := DataSourceFields(host, fs, n - 1), BlockOfFields(host, fs, n - 1);
      if c.Ok? { FieldRedisposed(host, c.value, b.value, fs[n - 1]); }
    }
  }

  /** So the model of a resource is also, byte for byte, the model of its data source. */
  lemma {:induction false} DataSourceEncodesSame(host: Parsers, fs: seq<Field>, v: Value)
    requires DistinctKeys(SStruct(fs)) && BlockFromShape(host, SStruct(fs)).Ok?
    ensures DataSourceBlock(host, SStruct(fs)).Ok? <==> SearchKeysValid(fs, |fs|)
    ensures SearchKeysValid(fs, |fs|) ==>
              ToMp(v, CtyType(DataSourceBlock(host, SStruct(fs)).value))
                == ToMp(v, CtyType(BlockFromShape(host, SStruct(fs)).value))
  {
    DataSourceRedisposed(host, fs, |fs|);
    ReflectedDistinct(host, fs);
    if SearchKeysValid(fs, |fs|) {
      var c, b := DataSourceBlock(host, SStruct(fs)).value, BlockFromShape(host, SStruct(fs)).value;
      RedisposedSame(c, b);
      SameTypeEncodes(v, CtyType(c), CtyType(b));
    }
  }

  // --- defaults ---------------------------------------------------------------

  /** Some value of the shape encodes as null. */
  ghost predicate CanBeNull(shape: Shape) { exists x :: WellTyped(x, shape) && ToValue(x, shape).Null? }

  lemma {:induction false} NullableIff(shape: Shape)
    ensures CanBeNull(shape) <==> Nullable(shape)
  {
    if shape.SOption? {
      assert WellTyped(RNone, shape) && ToValue(RNone, shape).Null?;
    } else if shape.STfValue? {
      assert WellTyped(RTfNull, shape) && ToValue(RTfNull, shape).Null?;
    }
  }

  /** A field of an object type is optional exactly when it is marked so or can be null, and
      an attribute is required exactly when it is not marked optional or computed and
      cannot. */
  lemma {:induction false} OptionalIff(host: Parsers, fs: seq<Field>, i: nat)
    requires i < |fs|
    ensures MapType(SStruct(fs)).TObject? && i < |MapType(SStruct(fs)).attrs|
    ensures MapType(SStruct(fs)).attrs[i].optional <==> fs[i].marks.optional || CanBeNull(fs[i].shape)
    ensures AttributeFromField(host, fs[i]).Ok? ==>
              (AttributeFromField(host, fs[i]).value.required
               <==> !fs[i].marks.optional && !fs[i].marks.computed && !CanBeNull(fs[i].shape))
  {
    NullableIff(fs[i].shape);
    assert MapType(SStruct(fs)).attrs[i] == ObjectAttrs(fs)[i];
  }

  /** What a literal means by the type it stands on: a truth value, a number the host can
      parse, or the text itself. */
  lemma {:induction false} LiteralMeans(host: Parsers, text: string, shape: Shape)
    ensures var d := FieldDefault(host, Some(text), MapType(shape));
            match MapType(shape)
            case TBool =>
              d == (if text == "true" then Some(Bool(true)) else if text == "false" then Some(Bool(false)) else None)
            case TNumber => d == (match host.number(text) case Some(n) => Some(Num(n)) case None => None)
            case _ => d == Some(Str(text))
    ensures FieldDefault(host, None, MapType(shape)) == None
  {
  }

  predicate ScalarType(ty: Type) { ty.TBool? || ty.TNumber? || ty.TString? }

  /** A literal default conforms exactly when the attribute is a scalar: on any other
      type the text itself is the default. */
  lemma {:induction false} DefaultConforms(host: Parsers, literal: Option<string>, shape: Shape)
    requires literal.Some?
    ensures var d := FieldDefault(host, literal, MapType(shape));
            (d.Some? ==> Conforms(d.value, MapType(shape))) <==> ScalarType(MapType(shape))
  {
    NeverDynamic(shape);
  }

  lemma {:induction false} NeverDynamic(shape: Shape)
    ensures !MapType(shape).TDynamic? && !MapType(shape).TTuple?
  {
    match shape
    case SOption(s) => NeverDynamic(s);
    case STfValue(s) => NeverDynamic(s);
    case _ =>
  }

  /** Literal defaults stand on scalar fields alone, here and in every nested block. */
  predicate ScalarLiterals(fs: seq<Field>)
    decreases fs
  {
    forall i | 0 <= i < |fs| ::
      if fs[i].marks.block then
        Element(Peeled(fs[i].shape)).SStruct? ==> ScalarLiterals(Element(Peeled(fs[i].shape)).fields)
      else fs[i].marks.dflt.Some? ==> ScalarType(MapType(fs[i].shape))
  }

  /** The attribute of a field. */
  lemma {:induction false} AttributeOf(host: Parsers, fs: seq<Field>, n: nat, f: nat) returns (i: nat)
    requires f < n <= |fs| && BlockOfFields(host, fs, n).Ok? && !fs[f].marks.block
    ensures i < |BlockOfFields(host, fs, n).value.attributes|
    ensures AttributeFromField(host, fs[f]) == Ok(BlockOfFields(host, fs, n).value.attributes[i])
  {
    var before := BlockOfFields(host, fs, n - 1).value;
    if f < n - 1 { i := AttributeOf(host, fs, n - 1, f); } else { i := |before.attributes|; }
  }

  /** The nested block of a field. */
  lemma {:induction false} NestedOf(host: Parsers, fs: seq<Field>, n: nat, f: nat) returns (j: nat)
    requires f < n <= |fs| && BlockOfFields(host, fs, n).Ok? && fs[f].marks.block
    ensures j < |BlockOfFields(host, fs, n).value.nested|
    ensures NestedFromField(host, fs[f]) == Ok(BlockOfFields(host, fs, n).value.nested[j])
  {
    var before := BlockOfFields(host, fs, n - 1).value;
    if f < n - 1 { j := NestedOf(host, fs, n - 1, f); } else { j := |before.nested|; }
  }

  /** Which structs reflect to schemas whose defaults conform. */
  lemma {:induction false} DefaultsConformIffScalar(host: Parsers, fs: seq<Field>)
    requires BlockFromShape(host, SStruct(fs)).Ok?
    ensures DefaultsConform(BlockFromShape(host, SStruct(fs)).value) <==> ScalarLiterals(fs)
    decreases fs
  {
    if ScalarLiterals(fs) { ScalarsConform(host, fs); } else { ConformingScalars(host, fs); }
  }

  lemma {:induction false} ScalarsConform(host: Parsers, fs: seq<Field>)
    requires BlockFromShape(host, SStruct(fs)).Ok? && ScalarLiterals(fs)
    ensures DefaultsConform(BlockFromShape(host, SStruct(fs)).value)
    decreases fs
  {
    var block := BlockOfFields(host, fs, |fs|).value;
    forall i | 0 <= i < |block.attributes| && block.attributes[i].dflt.Some?
      ensures Conforms(block.attributes[i].dflt.value, block.attributes[i].ty)
    {
      var f := AttributeOrigin(host, fs, |fs|, i);
      DefaultConforms(host, fs[f].marks.dflt, fs[f].shape);
    }
    forall j | 0 <= j < |block.nested| ensures DefaultsConform(block.nested[j].block) {
      var f := NestedOrigin(host, fs, |fs|, j);
      ScalarsConform(host, Element(Peeled(fs[f].shape)).fields);
    }
  }

  lemma {:induction false} ConformingScalars(host: Parsers, fs: seq<Field>)
    requires BlockFromShape(host, SStruct(fs)).Ok? && !ScalarLiterals(fs)
    ensures !DefaultsConform(BlockFromShape(host, SStruct(fs)).value)
    decreases fs
  {
    var f :| 0 <= f < |fs|
             && !(if fs[f].marks.block then
                    Element(Peeled(fs[f].shape)).SStruct? ==> ScalarLiterals(Element(Peeled(fs[f].shape)).fields)
                  else fs[f].marks.dflt.Some? ==> ScalarType(MapType(fs[f].shape)));
    if fs[f].marks.block {
      var j := NestedOf(host, fs, |fs|, f);
      ConformingScalars(host, Element(Peeled(fs[f].shape)).fields);
    } else {
      var i := AttributeOf(host, fs, |fs|, f);
      DefaultConforms(host, fs[f].marks.dflt, fs[f].shape);
    }
  }

  /** A list of strings with a default: its text is not a list, so the schema reflects
      with a default that does not conform. */
  lemma {:induction false} ListDefaultMisfits(host: Parsers)
    ensures var tags := Field("tags", None, SList(SString), Marks(false, false, false, false, false, Some("a"), None));
            BlockFromShape(host, SStruct([tags])).Ok? && !DefaultsConform(BlockFromShape(host, SStruct([tags])).value)
  {
    var tags := Field("tags", None, SList(SString), Marks(false, false, false, false, false, Some("a"), None));
    assert BlockOfFields(host, [tags], 1) == WithField(host, Block([], []), tags);
    assert !ScalarLiterals([tags]) by { assert [tags][0] == tags; }
    DefaultsConformIffScalar(host, [tags]);
  }

  /** A renamed field goes by its new name in the schema and in the value. */
  lemma {:induction false} RenamedField(host: Parsers, x: Rust, f: Field, k: string)
    requires f.rename == Some(k) && WellTyped(RStruct([x]), SStruct([f]))
    ensures AttributeFromField(host, f).Ok? ==> AttributeFromField(host, f).value.name == k
    ensures ToValue(RStruct([x]), SStruct([f])).Object? && ToValue(RStruct([x]), SStruct([f])).fields.Keys == {k}
  {
    StructKeys(RStruct([x]), [f]);
    assert FieldKeys([f]) == [k];
  }
}
