/** Diff suppression by quotient types: a proposed value that is semantically equal to
    the prior one is put back to the prior value before planning. */
module Normalize {
  import opened Wrappers
  import opened Values
  import opened Schema
  import opened WriteOnly
  import opened WriteOnlyLaws
  import opened Paths
  import opened Plan
  import opened ModificationLaws

  /** The canonicalizers of a resource: one per quotient attribute, and a child per
      single nested block holding quotients. */
  datatype Canon = Canon(fields: map<string, Value -> Value>, blocks: map<string, Canon>) {
    predicate IsEmpty() { fields == map[] && blocks == map[] }
  }

  /** `string_quotient`: canonicalize strings the type accepts, pass the rest through. */
  function StringQuotient(representative: string -> Option<string>): Value -> Value {
    (v: Value) => if v.Str? && representative(v.s).Some? then Str(representative(v.s).value) else v
  }

  predicate Equivalent(prior: Value, proposed: Value, c: Value -> Value) { ValueEq(c(prior), c(proposed)) }

  function KeptFields(prior: map<string, Value>, proposed: map<string, Value>, canon: Canon): map<string, Value> {
    map k | k in proposed ::
      if k in canon.fields && k in prior && Equivalent(prior[k], proposed[k], canon.fields[k]) then prior[k]
      else proposed[k]
  }

  function KeptBlocks(prior: map<string, Value>, fields: map<string, Value>, canon: Canon): map<string, Value>
    decreases canon, 0
  {
    map k | k in fields ::
      if k in canon.blocks && k in prior then KeptPrior(prior[k], fields[k], canon.blocks[k]) else fields[k]
  }

  /** `keep_prior`. */
  function KeptPrior(prior: Value, proposed: Value, canon: Canon): Value
    decreases canon, 1
  {
    if !prior.Object? || !proposed.Object? then proposed
    else Object(KeptBlocks(prior.fields, KeptFields(prior.fields, proposed.fields, canon), canon))
  }

  /** The source's two loops over the registered fields and blocks, in any order. */
  method KeepPrior(prior: Value, proposed: Value, canon: Canon) returns (r: Value)
    ensures r == KeptPrior(prior, proposed, canon)
    decreases canon, 1
  {
    if canon.IsEmpty() {
      EmptyKeeps(prior, proposed, canon);
      return proposed;
    }
    if !prior.Object? || !proposed.Object? { return proposed; }
    var fields := KeepFields(prior.fields, proposed.fields, canon);
    fields := KeepBlocks(prior.fields, fields, canon);
    r := Object(fields);
  }

  method KeepFields(prior: map<string, Value>, proposed: map<string, Value>, canon: Canon)
    returns (fields: map<string, Value>)
    ensures fields == KeptFields(prior, proposed, canon)
  {
    fields := proposed;
    var todo := canon.fields.Keys;
    while todo != {}
      invariant todo <= canon.fields.Keys && fields.Keys == proposed.Keys
      invariant forall k | k in fields ::
                  fields[k] == if k in todo then proposed[k] else KeptFields(prior, proposed, canon)[k]
    {
      var name :| name in todo;
      if name in prior && name in fields {
        if ValueEq(canon.fields[name](prior[name]), canon.fields[name](fields[name])) {
          fields := fields[name := prior[name]];
        }
      }
      todo := todo - {name};
    }
  }

  method KeepBlocks(prior: map<string, Value>, start: map<string, Value>, canon: Canon)
    returns (fields: map<string, Value>)
    ensures fields == KeptBlocks(prior, start, canon)
    decreases canon, 0
  {
    fields := start;
    var todo := canon.blocks.Keys;
    while todo != {}
      invariant todo <= canon.blocks.Keys && fields.Keys == start.Keys
      invariant forall k | k in fields ::
                  fields[k] == if k in todo then start[k] else KeptBlocks(prior, start, canon)[k]
    {
      var name :| name in todo;
      if name in prior && name in fields {
        var child := KeepPrior(prior[name], fields[name], canon.blocks[name]);
        fields := fields[name := child];
      }
      todo := todo - {name};
    }
  }

  lemma {:induction false} EmptyKeeps(prior: Value, proposed: Value, canon: Canon)
    requires canon.IsEmpty()
    ensures KeptPrior(prior, proposed, canon) == proposed
  {
    if prior.Object? && proposed.Object? {
      assert KeptPrior(prior, proposed, canon).fields == proposed.fields;
    }
  }

  /** The kept object, key by key. */
  lemma {:induction false} KeptAt(prior: Value, proposed: Value, canon: Canon) returns (kept: map<string, Value>)
    requires prior.Object? && proposed.Object?
    ensures KeptPrior(prior, proposed, canon) == Object(kept) && kept.Keys == proposed.fields.Keys
    ensures forall k | k in kept :: kept[k] == KeptField(prior.fields, proposed.fields, canon, k)
  {
    kept := KeptBlocks(prior.fields, KeptFields(prior.fields, proposed.fields, canon), canon);
  }

  function KeptField(prior: map<string, Value>, proposed: map<string, Value>, canon: Canon, k: string): Value
    requires k in proposed
  {
    var x := KeptFields(prior, proposed, canon)[k];
    if k in canon.blocks && k in prior then KeptPrior(prior[k], x, canon.blocks[k]) else x
  }

  // --- laws -------------------------------------------------------------------

  /** A value is kept against itself, whatever the canonicalizers. */
  lemma {:induction false} KeptAgainstItself(v: Value, canon: Canon)
    ensures KeptPrior(v, v, canon) == v
    decreases canon
  {
    if v.Object? {
      var kept := KeptAt(v, v, canon);
      forall k | k in kept ensures kept[k] == v.fields[k] {
        if k in canon.blocks { KeptAgainstItself(v.fields[k], canon.blocks[k]); }
      }
      assert kept == v.fields;
    }
  }

  /** A canonicalizer that respects equality. */
  ghost predicate Respects(c: Value -> Value) {
    forall a, b {:trigger ValueEq(c(a), c(b))} :: ValueEq(a, b) ==> ValueEq(c(a), c(b))
  }

  /** Every string quotient does. */
  lemma {:induction false} StringQuotientRespects(representative: string -> Option<string>)
    ensures Respects(StringQuotient(representative))
  {
    var c := StringQuotient(representative);
    forall a, b | ValueEq(a, b) ensures ValueEq(c(a), c(b)) { StringQuotientAt(representative, a, b); }
  }

  lemma {:induction false} StringQuotientAt(representative: string -> Option<string>, a: Value, b: Value)
    requires ValueEq(a, b)
    ensures ValueEq(StringQuotient(representative)(a), StringQuotient(representative)(b))
  {
    if a.Str? { assert a == b; }
  }

  /** Two strings are equivalent exactly when their representatives are the same, a string
      the type rejects being its own. */
  lemma {:induction false} StringsEquivalent(representative: string -> Option<string>, a: string, b: string)
    ensures Equivalent(Str(a), Str(b), StringQuotient(representative)) <==>
            (if representative(a).Some? then representative(a).value else a)
            == (if representative(b).Some? then representative(b).value else b)
  {
  }

  /** A name is a quotient attribute or a block with quotients inside, never both. */
  predicate Separate(canon: Canon) {
    canon.fields.Keys !! canon.blocks.Keys && forall k | k in canon.blocks :: Separate(canon.blocks[k])
  }

  lemma {:induction false} SameNameSameAttribute(block: Block, a: AttributeSchema)
    requires DistinctBlock(block) && a in block.attributes
    ensures forall b | b in block.attributes && b.name == a.name :: b == a
  {
    forall b | b in block.attributes && b.name == a.name ensures b == a {
      var i :| 0 <= i < |block.attributes| && block.attributes[i] == a;
      var m :| 0 <= m < |block.attributes| && block.attributes[m] == b;
      DistinctAttributes(block, i, m);
    }
  }

  /** What it takes for a prior value to equal what the pre-pass makes of a proposed one. */
  predicate SameField(prior: Value, proposed: Value, c: Value -> Value) {
    if Equivalent(prior, proposed, c) then AllNumbers(prior, NOT_NAN) else ValueEq(prior, proposed)
  }

  predicate SameUpTo(prior: Value, proposed: Value, canon: Canon)
    decreases canon, 1
  {
    if !prior.Object? || !proposed.Object? then ValueEq(prior, proposed)
    else
      prior.fields.Keys == proposed.fields.Keys
      && forall k | k in prior.fields :: SameSlot(prior.fields[k], proposed.fields[k], canon, k)
  }

  predicate SameSlot(prior: Value, proposed: Value, canon: Canon, k: string)
    decreases canon, 0
  {
    if k in canon.fields then SameField(prior, proposed, canon.fields[k])
    else if k in canon.blocks then SameUpTo(prior, proposed, canon.blocks[k])
    else ValueEq(prior, proposed)
  }

  lemma {:induction false} KeptFieldEqual(prior: Value, proposed: Value, c: Value -> Value)
    ensures ValueEq(prior, KeptValue(Some(prior), proposed, c)) <==> SameField(prior, proposed, c)
  {
    EqReflexive(prior);
  }

  /** When the canonicalizer respects equality, equal values are equivalent. */
  lemma {:induction false} RespectedField(prior: Value, proposed: Value, c: Value -> Value)
    requires Respects(c)
    ensures SameField(prior, proposed, c) <==> Equivalent(prior, proposed, c) && AllNumbers(prior, NOT_NAN)
  {
    assert ValueEq(prior, proposed) ==> ValueEq(c(prior), c(proposed));
  }

  /** The planner sees no change inside a value exactly when prior and proposal agree
      there up to the quotients. */
  lemma {:induction false} KeptEqual(prior: Value, proposed: Value, canon: Canon)
    requires Separate(canon)
    ensures ValueEq(prior, KeptPrior(prior, proposed, canon)) <==> SameUpTo(prior, proposed, canon)
    decreases canon, 1
  {
    if prior.Object? && proposed.Object? {
      var kept := KeptAt(prior, proposed, canon);
      forall k | k in prior.fields && k in proposed.fields
        ensures ValueEq(prior.fields[k], kept[k]) <==> SameSlot(prior.fields[k], proposed.fields[k], canon, k)
      {
        KeptSlotEqual(prior.fields, proposed.fields, canon, k);
      }
    }
  }

  lemma {:induction false} KeptSlotEqual(
    prior: map<string, Value>, proposed: map<string, Value>, canon: Canon, k: string)
    requires Separate(canon) && k in prior && k in proposed
    ensures ValueEq(prior[k], KeptField(prior, proposed, canon, k)) <==> SameSlot(prior[k], proposed[k], canon, k)
    decreases canon, 0
  {
    if k in canon.fields { KeptFieldEqual(prior[k], proposed[k], canon.fields[k]); }
    if k in canon.blocks { KeptEqual(prior[k], proposed[k], canon.blocks[k]); }
  }

  /** After the pre-pass, a force-new quotient attribute present on both sides forces a
      replacement exactly when the two are not the same up to the quotient; where the
      canonicalizer respects equality that is when its canonical forms differ, or prior
      holds a NaN, which differs from itself. */
  lemma {:induction false} ReplacedIffCanonDiffers(
    prior: Value, proposed: Value, canon: Canon, block: Block, a: AttributeSchema)
    requires prior.Object? && proposed.Object? && DistinctBlock(block) && a in block.attributes && a.forceNew
    requires a.name in canon.fields && a.name !in canon.blocks
    requires a.name in prior.fields && a.name in proposed.fields
    ensures [Attribute(a.name)] in Replacements(prior, KeptPrior(prior, proposed, canon), block)
            <==> !SameField(prior.fields[a.name], proposed.fields[a.name], canon.fields[a.name])
    ensures Respects(canon.fields[a.name]) ==>
              ([Attribute(a.name)] in Replacements(prior, KeptPrior(prior, proposed, canon), block)
               <==> !Equivalent(prior.fields[a.name], proposed.fields[a.name], canon.fields[a.name])
                    || !AllNumbers(prior.fields[a.name], NOT_NAN))
  {
    var kept := KeptAt(prior, proposed, canon);
    ListedIffChanged(prior, Object(kept), block, a.name);
    SameNameSameAttribute(block, a);
    var x, y, c := prior.fields[a.name], proposed.fields[a.name], canon.fields[a.name];
    KeptFieldEqual(x, y, c);
    if Respects(c) { RespectedField(x, y, c); }
  }

  /** A force-new object attribute holding quotients forces a replacement exactly when
      prior and proposal are not the same up to the quotients inside. */
  lemma {:induction false} ReplacedIffBlockDiffers(
    prior: Value, proposed: Value, canon: Canon, block: Block, a: AttributeSchema)
    requires prior.Object? && proposed.Object? && DistinctBlock(block) && a in block.attributes && a.forceNew
    requires a.name in canon.blocks && a.name !in canon.fields && Separate(canon.blocks[a.name])
    requires a.name in prior.fields && a.name in proposed.fields
    ensures [Attribute(a.name)] in Replacements(prior, KeptPrior(prior, proposed, canon), block)
            <==> !SameUpTo(prior.fields[a.name], proposed.fields[a.name], canon.blocks[a.name])
  {
    var kept := KeptAt(prior, proposed, canon);
    ListedIffChanged(prior, Object(kept), block, a.name);
    SameNameSameAttribute(block, a);
    assert KeptFields(prior.fields, proposed.fields, canon)[a.name] == proposed.fields[a.name];
    KeptEqual(prior.fields[a.name], proposed.fields[a.name], canon.blocks[a.name]);
  }

  /** The canonicalizer registered at a path through nested blocks, if any. */
  function CanonAt(canon: Canon, p: Path): Option<Value -> Value>
    decreases canon
  {
    if p == [] || !p[0].Attribute? then None
    else if |p| == 1 then (if p[0].name in canon.fields then Some(canon.fields[p[0].name]) else None)
    else if p[0].name in canon.blocks then CanonAt(canon.blocks[p[0].name], p[1..])
    else None
  }

  /** What the pre-pass makes of a registered attribute: prior's value when the two are
      equivalent, else the proposed one. */
  function KeptValue(prior: Option<Value>, proposed: Value, c: Value -> Value): Value {
    if prior.Some? && Equivalent(prior.value, proposed, c) then prior.value else proposed
  }

  /** At every depth, each registered attribute becomes exactly that. */
  lemma {:induction false} KeptAtPath(prior: Value, proposed: Value, canon: Canon, p: Path)
    requires Separate(canon) && CanonAt(canon, p).Some? && GetAt(proposed, p).Some?
    ensures GetAt(KeptPrior(prior, proposed, canon), p)
            == Some(KeptValue(GetAt(prior, p), GetAt(proposed, p).value, CanonAt(canon, p).value))
    decreases canon
  {
    if !prior.Object? {
      assert GetAt(prior, p).None?;
    } else {
      var k := p[0].name;
      var kept := KeptAt(prior, proposed, canon);
      GetAtField(prior.fields, p);
      GetAtField(proposed.fields, p);
      GetAtField(kept, p);
      if |p| == 1 {
        assert p[1..] == [];
      } else {
        assert KeptFields(prior.fields, proposed.fields, canon)[k] == proposed.fields[k];
        if k in prior.fields { KeptAtPath(prior.fields[k], proposed.fields[k], canon.blocks[k], p[1..]); }
      }
    }
  }

  /** Each registered attribute, at every depth, keeps its canonical form, exactly when
      that form equals itself, so holds no NaN. */
  lemma {:induction false} CanonicalFormKept(prior: Value, proposed: Value, canon: Canon, p: Path)
    requires Separate(canon) && CanonAt(canon, p).Some? && GetAt(proposed, p).Some?
    ensures GetAt(KeptPrior(prior, proposed, canon), p).Some?
    ensures var c, x := CanonAt(canon, p).value, GetAt(proposed, p).value;
            Equivalent(GetAt(KeptPrior(prior, proposed, canon), p).value, x, c) <==> AllNumbers(c(x), NOT_NAN)
  {
    KeptAtPath(prior, proposed, canon, p);
    KeptFormEqual(GetAt(prior, p), GetAt(proposed, p).value, CanonAt(canon, p).value);
  }

  lemma {:induction false} KeptFormEqual(prior: Option<Value>, x: Value, c: Value -> Value)
    ensures Equivalent(KeptValue(prior, x, c), x, c) <==> AllNumbers(c(x), NOT_NAN)
  {
    EqReflexive(c(x));
    if prior.Some? && Equivalent(prior.value, x, c) {
      EqSymmetricTransitive(c(prior.value), c(x), c(prior.value));
      EqSymmetricTransitive(c(x), c(prior.value), c(x));
    }
  }

  lemma {:induction false} KeptIdempotent(prior: Value, proposed: Value, canon: Canon)
    requires Separate(canon)
    ensures KeptPrior(prior, KeptPrior(prior, proposed, canon), canon) == KeptPrior(prior, proposed, canon)
    decreases canon
  {
    if prior.Object? && proposed.Object? {
      var once := KeptAt(prior, proposed, canon);
      var twice := KeptAt(prior, Object(once), canon);
      forall k | k in once ensures twice[k] == once[k] {
        assert k in canon.fields ==> k !in canon.blocks;
        assert KeptFields(prior.fields, once, canon)[k] == once[k];
        if k in canon.blocks && k in prior.fields {
          KeptIdempotent(prior.fields[k], KeptFields(prior.fields, proposed.fields, canon)[k], canon.blocks[k]);
        }
      }
    }
  }

  /** The path ends at or below a registered attribute. */
  predicate Registered(canon: Canon, p: Path)
    decreases canon
  {
    p != [] && p[0].Attribute?
    && (p[0].name in canon.fields || (p[0].name in canon.blocks && Registered(canon.blocks[p[0].name], p[1..])))
  }

  /** Off the registered attributes every path reads as proposed: leaves are equal,
      containers keep their keys and lengths, and nothing is added. */
  lemma {:induction false} UnregisteredUntouched(prior: Value, proposed: Value, canon: Canon, p: Path)
    requires !Registered(canon, p)
    ensures SameReading(GetAt(proposed, p), GetAt(KeptPrior(prior, proposed, canon), p))
    decreases canon
  {
    if prior.Object? && proposed.Object? && p != [] && p[0].Attribute? && p[0].name in proposed.fields {
      var k := p[0].name;
      var kept := KeptAt(prior, proposed, canon);
      assert KeptFields(prior.fields, proposed.fields, canon)[k] == proposed.fields[k];
      if k in canon.blocks && k in prior.fields {
        UnregisteredUntouched(prior.fields[k], proposed.fields[k], canon.blocks[k], p[1..]);
      } else {
        SameAsItself(GetAt(proposed, p));
      }
    } else if prior.Object? && proposed.Object? {
      var kept := KeptAt(prior, proposed, canon);
    } else {
      SameAsItself(GetAt(proposed, p));
    }
  }

  /** The proposal is the prior value up to the quotients. */
  predicate EqualUpTo(prior: Value, proposed: Value, canon: Canon)
    decreases canon
  {
    if !prior.Object? || !proposed.Object? then proposed == prior
    else
      prior.fields.Keys == proposed.fields.Keys
      && forall k | k in prior.fields ::
           if k in canon.fields
           then proposed.fields[k] == prior.fields[k]
             || Equivalent(prior.fields[k], proposed.fields[k], canon.fields[k])
           else if k in canon.blocks then EqualUpTo(prior.fields[k], proposed.fields[k], canon.blocks[k])
           else proposed.fields[k] == prior.fields[k]
  }

  /** The pre-pass turns the proposal into the prior value exactly when the two are
      equal up to the quotients. */
  lemma {:induction false} KeptIsPrior(prior: Value, proposed: Value, canon: Canon)
    requires Separate(canon)
    ensures KeptPrior(prior, proposed, canon) == prior <==> EqualUpTo(prior, proposed, canon)
    decreases canon
  {
    if prior.Object? && proposed.Object? {
      var kept := KeptAt(prior, proposed, canon);
      forall k | k in prior.fields && k in proposed.fields
        ensures kept[k] == prior.fields[k] <==>
                if k in canon.fields
                then proposed.fields[k] == prior.fields[k]
                  || Equivalent(prior.fields[k], proposed.fields[k], canon.fields[k])
                else if k in canon.blocks then EqualUpTo(prior.fields[k], proposed.fields[k], canon.blocks[k])
                else proposed.fields[k] == prior.fields[k]
      {
        var x := KeptFields(prior.fields, proposed.fields, canon)[k];
        if k in canon.blocks { KeptIsPrior(prior.fields[k], x, canon.blocks[k]); }
      }
      if EqualUpTo(prior, proposed, canon) { assert kept == prior.fields; }
    }
  }
}
