/** Harvesting a resource's canonicalizers from the shape of its model. */
module Harvest {
  import opened Wrappers
  import opened Text
  import opened Types
  import opened Numbers
  import opened Values
  import opened Paths
  import opened Plan
  import opened Normalize
  import opened ProxyLaws
  import Typed
  import TypedLaws

  /** A model shape as harvesting sees it: a quotient type, which decodes its proxy and
      represents it canonically unless it rejects it, an option, a struct, or anything
      else. */
  datatype ModelShape =
    | MQuotient(proxy: Typed.Shape, represent: Typed.Rust -> Option<Typed.Rust>)
    | MOption(inner: ModelShape)
    | MStruct(fields: seq<(string, ModelShape)>)
    | MOther

  /** `quotient_inner`: a quotient type under any number of options. */
  predicate IsQuotient(s: ModelShape) { s.MQuotient? || (s.MOption? && IsQuotient(s.inner)) }

  /** The quotient type under the options. */
  function Core(s: ModelShape): (q: ModelShape)
    requires IsQuotient(s)
    ensures q.MQuotient?
  {
    if s.MOption? then Core(s.inner) else s
  }

  /** `single_struct_inner`: a struct under any number of options. */
  function StructInner(s: ModelShape): Option<ModelShape> {
    match s
    case MOption(i) => StructInner(i)
    case MStruct(_) => Some(s)
    case _ => None
  }

  // --- canonicalizers ---------------------------------------------------------

  /** The shape a quotient field decodes and encodes through. */
  function FieldShape(s: ModelShape): Typed.Shape
    requires IsQuotient(s)
  {
    if s.MOption? then Typed.SOption(FieldShape(s.inner)) else s.proxy
  }

  /** The conversion of a decoded field; what it makes is of the proxy's type. */
  function Converted(s: ModelShape, x: Typed.Rust): (r: Option<Typed.Rust>)
    requires IsQuotient(s)
    ensures r.Some? ==> Typed.WellTyped(r.value, FieldShape(s))
  {
    if s.MOption? then
      if !x.RSome? then Some(Typed.RNone)
      else if Converted(s.inner, x.inner).Some? then Some(Typed.RSome(Converted(s.inner, x.inner).value))
      else None
    else
      var r := s.represent(x);
      if r.Some? && Typed.WellTyped(r.value, s.proxy) then r else None
  }

  /** What a decoded field is converted to, encoded. */
  function Rendered(s: ModelShape, x: Typed.Rust): Option<Value>
    requires IsQuotient(s)
  {
    var r := Converted(s, x);
    if r.Some? then Some(Typed.ToValue(r.value, FieldShape(s))) else None
  }

  /** `canonicalize_try`: decode, convert and encode, unless the type rejects the value. */
  function Through(s: ModelShape, v: Value): Option<Value>
    requires IsQuotient(s)
  {
    Rendered(s, Typed.FromValue(v, FieldShape(s)))
  }

  /** `canonicalize_through_shape`: a value the type rejects is left alone. */
  function Canonicalizer(s: ModelShape): Value -> Value
    requires IsQuotient(s)
  {
    (v: Value) => if Through(s, v).Some? then Through(s, v).value else v
  }

  /** Under options, nothing known reads as null and everything else as without them. */
  lemma {:induction false} ThroughOptions(s: ModelShape, v: Value)
    requires IsQuotient(s)
    ensures Through(s, v) == if s.MOption? && !Present(v) then Some(Null) else Through(Core(s), v)
  {
    if s.MOption? {
      if Present(v) { ThroughOptions(s.inner, v); }
    }
  }

  // --- respect for equality ---------------------------------------------------

  /** The quotient under `n` options. */
  function Optioned(q: ModelShape, n: nat): (s: ModelShape)
    requires q.MQuotient?
    ensures IsQuotient(s) && Core(s) == q && (s.MOption? <==> n > 0)
  {
    if n == 0 then q else MOption(Optioned(q, n - 1))
  }

  /** Two decoded proxies are rejected both, or rendered equal. */
  predicate SameRendered(q: ModelShape, x: Typed.Rust, y: Typed.Rust)
    requires IsQuotient(q)
  {
    match (Rendered(q, x), Rendered(q, y))
    case (None, None) => true
    case (Some(u), Some(t)) => ValueEq(u, t)
    case _ => false
  }

  /** Conversions that take equal proxies to equal representatives. */
  ghost predicate Coherent(q: ModelShape)
    requires IsQuotient(q)
  {
    forall x, y | Typed.RustEq(x, y) :: SameRendered(q, x, y)
  }

  /** A canonicalizer respects equality where decoding does. */
  lemma {:induction false} RespectsAt(s: ModelShape, a: Value, b: Value)
    requires IsQuotient(s) && ValueEq(a, b)
    requires NumberFree(Core(s).proxy) || (IntegerFree(Core(s).proxy) && Coherent(Core(s)))
    ensures ValueEq(Canonicalizer(s)(a), Canonicalizer(s)(b))
  {
    var q := Core(s);
    ThroughOptions(s, a);
    ThroughOptions(s, b);
    if !s.MOption? || Present(a) { DecodedSame(q, a, b); }
  }

  lemma {:induction false} DecodedSame(q: ModelShape, a: Value, b: Value)
    requires q.MQuotient? && ValueEq(a, b)
    requires NumberFree(q.proxy) || (IntegerFree(q.proxy) && Coherent(q))
    ensures SameRendered(q, Typed.FromValue(a, q.proxy), Typed.FromValue(b, q.proxy))
  {
    if NumberFree(q.proxy) {
      SameDecoded(a, b, q.proxy);
      RenderedEqual(q, Typed.FromValue(a, q.proxy));
    } else {
      EqualDecoded(a, b, q.proxy);
    }
  }

  /** What is rendered without numbers equals itself. */
  lemma {:induction false} RenderedEqual(q: ModelShape, x: Typed.Rust)
    requires q.MQuotient? && NumberFree(q.proxy)
    ensures SameRendered(q, x, x)
  {
    if Rendered(q, x).Some? {
      NoNumbers(Converted(q, x).value, q.proxy);
      EqReflexive(Rendered(q, x).value);
    }
  }

  /** Exactly the quotients over proxies without numbers have canonicalizers that respect
      equality whatever their conversions. */
  ghost predicate AlwaysRespect(proxy: Typed.Shape, n: nat) {
    forall represent :: Respects(Canonicalizer(Optioned(MQuotient(proxy, represent), n)))
  }

  lemma {:induction false} AlwaysRespectIff(proxy: Typed.Shape, n: nat)
    ensures AlwaysRespect(proxy, n) <==> NumberFree(proxy)
  {
    if NumberFree(proxy) {
      forall represent ensures Respects(Canonicalizer(Optioned(MQuotient(proxy, represent), n))) {
        RespectsAll(Optioned(MQuotient(proxy, represent), n));
      }
    } else {
      var represent := Disrespectful(proxy, n, false);
      assert !Respects(Canonicalizer(Optioned(MQuotient(proxy, represent), n)));
    }
  }

  /** And exactly those over proxies without integers do for all conversions that take
      equal proxies to equal representatives. */
  ghost predicate CoherentRespect(proxy: Typed.Shape, n: nat) {
    forall represent | Coherent(MQuotient(proxy, represent)) ::
      Respects(Canonicalizer(Optioned(MQuotient(proxy, represent), n)))
  }

  lemma {:induction false} CoherentRespectIff(proxy: Typed.Shape, n: nat)
    ensures CoherentRespect(proxy, n) <==> IntegerFree(proxy)
  {
    if IntegerFree(proxy) {
      forall represent | Coherent(MQuotient(proxy, represent))
        ensures Respects(Canonicalizer(Optioned(MQuotient(proxy, represent), n)))
      {
        RespectsAll(Optioned(MQuotient(proxy, represent), n));
      }
    } else {
      var represent := Disrespectful(proxy, n, true);
      assert Coherent(MQuotient(proxy, represent));
      assert !Respects(Canonicalizer(Optioned(MQuotient(proxy, represent), n)));
    }
  }

  lemma {:induction false} RespectsAll(s: ModelShape)
    requires IsQuotient(s)
    requires NumberFree(Core(s).proxy) || (IntegerFree(Core(s).proxy) && Coherent(Core(s)))
    ensures Respects(Canonicalizer(s))
  {
    var c := Canonicalizer(s);
    forall a, b | ValueEq(a, b) ensures ValueEq(c(a), c(b)) { RespectsAt(s, a, b); }
  }

  /** Conversions that reject what one of two equal values decodes to and represent
      everything else by one value that equals neither. */
  lemma {:induction false} Disrespectful(proxy: Typed.Shape, n: nat, byEq: bool)
    returns (represent: Typed.Rust -> Option<Typed.Rust>)
    requires TellsApart(proxy, byEq)
    ensures byEq ==> Coherent(MQuotient(proxy, represent))
    ensures !Respects(Canonicalizer(Optioned(MQuotient(proxy, represent), n)))
  {
    var a, b := ShapeApart(proxy, byEq);
    var rejected := Typed.FromValue(b, proxy);
    OtherUnlike(b, proxy);
    OtherEqual(proxy);
    EqReflexiveOf(a, b);
    EqualDecoded(b, b, proxy);
    represent := RejectingOne(rejected, Other(proxy), byEq);
    var q := MQuotient(proxy, represent);
    if byEq { RejectingCoherent(q, rejected); }
    RejectingRendered(q, rejected, Typed.FromValue(a, proxy), byEq);
    RejectingRendered(q, rejected, rejected, byEq);
    RejectingBreaks(q, n, a, b);
  }

  lemma {:induction false} RejectingBreaks(q: ModelShape, n: nat, a: Value, b: Value)
    requires q.MQuotient? && ValueEq(a, b) && Present(a) && Present(b)
    requires Through(q, a).Some? && Through(q, b).None? && !ValueEq(Through(q, a).value, b)
    ensures !Respects(Canonicalizer(Optioned(q, n)))
  {
    var s := Optioned(q, n);
    ThroughOptions(s, a);
    ThroughOptions(s, b);
    var c := Canonicalizer(s);
    assert ValueEq(a, b) && !ValueEq(c(a), c(b));
  }

  lemma {:induction false} EqReflexiveOf(a: Value, b: Value)
    requires ValueEq(a, b)
    ensures ValueEq(b, b)
  {
    EqSymmetricTransitive(a, b, a);
    EqSymmetricTransitive(b, a, b);
  }

  function RejectingOne(rejected: Typed.Rust, other: Typed.Rust, byEq: bool): Typed.Rust -> Option<Typed.Rust> {
    (x: Typed.Rust) => if ToldApart(x, rejected, byEq) then Some(other) else None
  }

  /** What such conversions render. */
  lemma {:induction false} RejectingRendered(q: ModelShape, rejected: Typed.Rust, x: Typed.Rust, byEq: bool)
    requires q.MQuotient? && q.represent == RejectingOne(rejected, Other(q.proxy), byEq) && OtherTyped(q.proxy)
    ensures Rendered(q, x) ==
            if ToldApart(x, rejected, byEq) then Some(Typed.ToValue(Other(q.proxy), q.proxy)) else None
  {
  }

  lemma {:induction false} RejectingCoherent(q: ModelShape, rejected: Typed.Rust)
    requires q.MQuotient? && q.represent == RejectingOne(rejected, Other(q.proxy), true)
    ensures Coherent(q)
  {
    OtherEqual(q.proxy);
    forall x, y | Typed.RustEq(x, y) ensures SameRendered(q, x, y) {
      TypedLaws.RustEqTransitive(x, y, rejected);
      TypedLaws.RustEqTransitive(y, x, rejected);
      RejectingRendered(q, rejected, x, true);
      RejectingRendered(q, rejected, y, true);
    }
  }

  /** An integer quotient with no conversion at all: a float cast saturates where an
      integer cast wraps, so two equal numbers are kept as different integers. */
  lemma {:induction false} PlainIntegerFails(signed: bool, w: Width)
    ensures !Respects(Canonicalizer(MQuotient(Typed.SInt(signed, w), x => Some(x))))
  {
    var s := MQuotient(Typed.SInt(signed, w), x => Some(x));
    var a, b := IntegersApart(signed, w);
    var c := Canonicalizer(s);
    PlainRendered(s, signed, w, a);
    PlainRendered(s, signed, w, b);
    EqIsMathEquality(FromInt(ToInt(a, signed, w), signed, w), FromInt(ToInt(b, signed, w), signed, w));
    assert ValueEq(Num(a), Num(b)) && !ValueEq(c(Num(a)), c(Num(b)));
  }

  lemma {:induction false} PlainRendered(s: ModelShape, signed: bool, w: Width, n: Number)
    requires s.MQuotient? && s.proxy == Typed.SInt(signed, w) && forall x :: s.represent(x) == Some(x)
    ensures Canonicalizer(s)(Num(n)) == Num(FromInt(ToInt(n, signed, w), signed, w))
  {
    var x := Typed.RInt(ToInt(n, signed, w));
    assert Typed.FromValue(Num(n), s.proxy) == x;
    assert s.represent(x) == Some(x);
  }

  // --- unknown prior values ---------------------------------------------------

  /** With a string quotient, an unknown prior value is equivalent to nothing but unknown. */
  lemma {:induction false} UnknownUnderStringQuotient(representative: string -> Option<string>, v: Value)
    ensures Equivalent(Unknown, v, StringQuotient(representative)) <==> v.Unknown?
  {
  }

  /** What unknown decodes to: nothing known, which only `TfValue` tells from null. */
  function Nothing(proxy: Typed.Shape): Typed.Rust {
    if proxy.STfValue? then Typed.RTfUnknown else TypedLaws.Zero(proxy)
  }

  /** When a harvested canonicalizer takes a proposal for unknown. Under an option unknown
      reads as null, so it matches null, unknown and what the type represents by null.
      Bare it reads as the proxy's zero value, so if the type represents that at all, it
      matches whatever is represented alike. */
  predicate MatchesUnknown(s: ModelShape, v: Value)
    requires IsQuotient(s)
  {
    var q := Core(s);
    var read := Rendered(q, Typed.FromValue(v, q.proxy));
    if s.MOption? then !Present(v) || read == Some(Null)
    else
      match Rendered(q, Nothing(q.proxy))
      case None => v.Unknown? || read == Some(Unknown)
      case Some(nothing) => ValueEq(nothing, if read.Some? then read.value else v)
  }

  /** Harvested, an unknown prior value is equivalent to exactly those proposals. */
  lemma {:induction false} UnknownUnderHarvested(s: ModelShape, v: Value)
    requires IsQuotient(s)
    ensures Equivalent(Unknown, v, Canonicalizer(s)) <==> MatchesUnknown(s, v)
  {
    ThroughOptions(s, Unknown);
    ThroughOptions(s, v);
    TypedLaws.NothingIsZero(Core(s).proxy);
  }

  /** A quotient over strings. */
  function TextQuotient(represent: string -> Option<string>): (q: ModelShape)
    ensures IsQuotient(q) && q.MQuotient? && q.proxy == Typed.SString
  {
    MQuotient(Typed.SString,
      (x: Typed.Rust) => if x.RString? && represent(x.s).Some? then Some(Typed.RString(represent(x.s).value)) else None)
  }

  /** What a string decodes to: anything that is not one reads as empty. */
  function AsText(v: Value): string { if v.Str? then v.s else "" }

  lemma {:induction false} TextThrough(represent: string -> Option<string>, v: Value)
    ensures Through(TextQuotient(represent), v) ==
            match represent(AsText(v)) case Some(t) => Some(Str(t)) case None => None
  {
    assert Typed.FromValue(v, Typed.SString) == Typed.RString(AsText(v));
  }

  /** On strings a harvested quotient is the string quotient of the same conversions. */
  lemma {:induction false} TextIsStringQuotient(represent: string -> Option<string>, n: nat, s: string)
    ensures Canonicalizer(Optioned(TextQuotient(represent), n))(Str(s)) == StringQuotient(represent)(Str(s))
  {
    ThroughOptions(Optioned(TextQuotient(represent), n), Str(s));
    TextThrough(represent, Str(s));
  }

  /** Over strings the proposals that match unknown are, under an option, null and
      unknown, and bare whatever text the type makes the same of as of the empty one. */
  lemma {:induction false} UnknownUnderText(represent: string -> Option<string>, n: nat, v: Value)
    ensures Equivalent(Unknown, v, Canonicalizer(Optioned(TextQuotient(represent), n))) <==>
            if n > 0 then !Present(v)
            else
              match represent("")
              case None => v.Unknown?
              case Some(empty) =>
                match represent(AsText(v))
                case Some(t) => t == empty
                case None => v == Str(empty)
  {
    var s := Optioned(TextQuotient(represent), n);
    ThroughOptions(s, Unknown);
    ThroughOptions(s, v);
    TextThrough(represent, Unknown);
    TextThrough(represent, v);
  }

  // --- harvesting -------------------------------------------------------------

  function WithField(canon: Canon, field: (string, ModelShape)): Canon
    decreases field, 1
  {
    if IsQuotient(field.1) then canon.(fields := canon.fields[field.0 := Canonicalizer(field.1)])
    else if StructInner(field.1).Some? then
      StructIsInside(field.1);
      var nested := Harvested(StructInner(field.1).value);
      if nested.IsEmpty() then canon else canon.(blocks := canon.blocks[field.0 := nested])
    else canon
  }

  lemma {:induction false} StructIsInside(s: ModelShape)
    ensures StructInner(s).Some? ==> StructInner(s).value == s || StructInner(s).value < s
  {
    if s.MOption? { StructIsInside(s.inner); }
  }

  function HarvestedFields(fields: seq<(string, ModelShape)>, n: nat): Canon
    requires n <= |fields|
    decreases fields, n
  {
    if n == 0 then Canon(map[], map[]) else WithField(HarvestedFields(fields, n - 1), fields[n - 1])
  }

  /** `harvest_shape`. */
  function Harvested(s: ModelShape): Canon
    decreases s, 0
  {
    match s
    case MStruct(fields) => HarvestedFields(fields, |fields|)
    case _ => Canon(map[], map[])
  }

  /** The source's loop over the fields. */
  method HarvestShape(s: ModelShape) returns (canon: Canon)
    ensures canon == Harvested(s)
    decreases s
  {
    canon := Canon(map[], map[]);
    if !s.MStruct? { return; }
    for i := 0 to |s.fields|
      invariant canon == HarvestedFields(s.fields, i)
    {
      var name, shape := s.fields[i].0, s.fields[i].1;
      assert HarvestedFields(s.fields, i + 1) == WithField(canon, s.fields[i]);
      if IsQuotient(shape) {
        canon := canon.(fields := canon.fields[name := Canonicalizer(shape)]);
      } else if StructInner(shape).Some? {
        StructIsInside(shape);
        var nested := HarvestShape(StructInner(shape).value);
        if !nested.IsEmpty() {
          canon := canon.(blocks := canon.blocks[name := nested]);
        }
      }
    }
  }

  // --- laws -------------------------------------------------------------------

  /** A struct under `n` options. */
  function OptionedStruct(fields: seq<(string, ModelShape)>, n: nat): ModelShape {
    if n == 0 then MStruct(fields) else MOption(OptionedStruct(fields, n - 1))
  }

  /** Options do not hide a struct. */
  lemma {:induction false} StructUnderOptions(fields: seq<(string, ModelShape)>, n: nat)
    ensures StructInner(OptionedStruct(fields, n)) == Some(MStruct(fields))
  {
    if n > 0 { StructUnderOptions(fields, n - 1); }
  }

  /** And nothing but a struct under them is taken for one. */
  lemma {:induction false} OnlyStructs(s: ModelShape) returns (fields: seq<(string, ModelShape)>, n: nat)
    requires StructInner(s).Some?
    ensures s == OptionedStruct(fields, n)
  {
    if s.MOption? {
      fields, n := OnlyStructs(s.inner);
      n := n + 1;
    } else {
      fields, n := s.fields, 0;
    }
  }

  /** The keys of every struct are distinct. */
  predicate DistinctFields(s: ModelShape) {
    match s
    case MOption(i) => DistinctFields(i)
    case MStruct(fs) => Distinct(Keys(fs)) && forall i | 0 <= i < |fs| :: DistinctFields(fs[i].1)
    case _ => true
  }

  lemma {:induction false} StructInnerDistinct(s: ModelShape)
    requires DistinctFields(s) && StructInner(s).Some?
    ensures DistinctFields(StructInner(s).value)
  {
    if s.MOption? { StructInnerDistinct(s.inner); }
  }

  /** The child canon a field brings in, if its struct holds any quotient. */
  function BlockOf(s: ModelShape): Option<Canon> {
    if IsQuotient(s) || StructInner(s).None? || Harvested(StructInner(s).value).IsEmpty() then None
    else Some(Harvested(StructInner(s).value))
  }

  /** The canon has under `k` exactly what a field of this shape brings in. */
  ghost predicate Entered(canon: Canon, k: string, s: ModelShape) {
    && (k in canon.fields <==> IsQuotient(s)) && (k in canon.fields ==> canon.fields[k] == Canonicalizer(s))
    && (k in canon.blocks <==> BlockOf(s).Some?) && (k in canon.blocks ==> canon.blocks[k] == BlockOf(s).value)
  }

  lemma {:induction false} HarvestedEntry(fields: seq<(string, ModelShape)>, n: nat, k: string)
    requires n <= |fields| && Distinct(Keys(fields))
    ensures forall i | 0 <= i < n && fields[i].0 == k :: Entered(HarvestedFields(fields, n), k, fields[i].1)
    ensures (forall i | 0 <= i < n :: fields[i].0 != k) ==>
              k !in HarvestedFields(fields, n).fields && k !in HarvestedFields(fields, n).blocks
  {
    if n > 0 {
      HarvestedEntry(fields, n - 1, k);
      FieldEntered(HarvestedFields(fields, n - 1), fields[n - 1], k);
      if fields[n - 1].0 == k {
        forall i | 0 <= i < n - 1 ensures fields[i].0 != k { assert Keys(fields)[i] != Keys(fields)[n - 1]; }
      }
    }
  }

  /** One field changes only its own key. */
  lemma {:induction false} FieldEntered(before: Canon, field: (string, ModelShape), k: string)
    ensures var after := WithField(before, field);
            if k == field.0 then (k !in before.fields && k !in before.blocks ==> Entered(after, k, field.1))
            else (k in after.fields <==> k in before.fields) && (k in after.blocks <==> k in before.blocks)
                 && (k in before.fields ==> after.fields[k] == before.fields[k])
                 && (k in before.blocks ==> after.blocks[k] == before.blocks[k])
  {
    StructIsInside(field.1);
  }

  /** The quotient a path of keys leads to, through structs under options. */
  function QuotientAt(s: ModelShape, p: Path): (q: Option<ModelShape>)
    ensures q.Some? ==> IsQuotient(q.value)
    decreases p
  {
    if !s.MStruct? || p == [] || !p[0].Attribute? || Lookup(s.fields, p[0].name).None? then None
    else
      var f := Lookup(s.fields, p[0].name).value;
      if |p| == 1 then (if IsQuotient(f) then Some(f) else None)
      else if StructInner(f).Some? then QuotientAt(StructInner(f).value, p[1..])
      else None
  }

  lemma {:induction false} FieldNamed(fields: seq<(string, ModelShape)>, k: string) returns (i: nat)
    requires Distinct(Keys(fields))
    ensures i < |fields| ==> fields[i].0 == k && Lookup(fields, k) == Some(fields[i].1)
    ensures i >= |fields| ==> Lookup(fields, k).None? && forall j | 0 <= j < |fields| :: fields[j].0 != k
  {
    LookupSpec(fields, k);
    if j :| 0 <= j < |fields| && fields[j].0 == k {
      assert Keys(fields)[j] == k;
      i := j;
    } else {
      assert forall j | 0 <= j < |fields| :: Keys(fields)[j] != k;
      i := |fields|;
    }
  }

  lemma {:induction false} QuotientIsNoStruct(s: ModelShape)
    requires IsQuotient(s)
    ensures StructInner(s).None?
  {
    if s.MOption? { QuotientIsNoStruct(s.inner); }
  }

  /** A path leads to a quotient exactly when the harvested canon registers a
      canonicalizer there, and it is that quotient's. */
  lemma {:induction false} HarvestedExactly(s: ModelShape, p: Path)
    requires DistinctFields(s)
    ensures CanonAt(Harvested(s), p) == match QuotientAt(s, p)
                                        case Some(q) => Some(Canonicalizer(q))
                                        case None => None
    decreases p
  {
    if s.MStruct? && p != [] && p[0].Attribute? {
      var k := p[0].name;
      HarvestedEntry(s.fields, |s.fields|, k);
      var i := FieldNamed(s.fields, k);
      if i < |s.fields| && |p| > 1 && StructInner(s.fields[i].1).Some? {
        var f := s.fields[i].1;
        StructInnerDistinct(f);
        HarvestedExactly(StructInner(f).value, p[1..]);
        if IsQuotient(f) { QuotientIsNoStruct(f); }
      }
    }
  }

  /** What a plan makes of an unknown prior value at any harvested attribute: it stays
      unknown, in place of the proposal, exactly when the proposal matches unknown. */
  lemma {:induction false} UnknownKeptIff(prior: Value, proposed: Value, s: ModelShape, p: Path)
    requires DistinctFields(s) && QuotientAt(s, p).Some?
    requires GetAt(prior, p) == Some(Unknown) && GetAt(proposed, p).Some?
    ensures GetAt(KeptPrior(prior, proposed, Harvested(s)), p)
            == if MatchesUnknown(QuotientAt(s, p).value, GetAt(proposed, p).value) then Some(Unknown)
               else GetAt(proposed, p)
  {
    HarvestedSeparate(s);
    HarvestedExactly(s, p);
    KeptAtPath(prior, proposed, Harvested(s), p);
    UnknownUnderHarvested(QuotientAt(s, p).value, GetAt(proposed, p).value);
  }

  /** So an unknown prior field can be kept over a concrete proposed string: with a bare
      quotient that accepts the empty text, proposing that text plans unknown. */
  lemma {:induction false} UnknownOverConcrete(represent: string -> Option<string>)
    requires represent("").Some?
    ensures KeptPrior(Object(map["a" := Unknown]), Object(map["a" := Str("")]),
              Harvested(MStruct([("a", TextQuotient(represent))]))) == Object(map["a" := Unknown])
  {
    var s, p := MStruct([("a", TextQuotient(represent))]), [Attribute("a")];
    var prior, proposed := Object(map["a" := Unknown]), Object(map["a" := Str("")]);
    OneQuotient(represent);
    OneField(Unknown);
    OneField(Str(""));
    UnknownKeptIff(prior, proposed, s, p);
    var kept := KeptAt(prior, proposed, Harvested(s));
    OnlyField(kept, Unknown);
  }

  lemma {:induction false} OneField(x: Value)
    ensures GetAt(Object(map["a" := x]), [Attribute("a")]) == Some(x)
  {
    GetAtField(map["a" := x], [Attribute("a")]);
  }

  lemma {:induction false} OnlyField(m: map<string, Value>, x: Value)
    requires m.Keys == {"a"} && GetAt(Object(m), [Attribute("a")]) == Some(x)
    ensures m == map["a" := x]
  {
    GetAtField(m, [Attribute("a")]);
    assert m["a"] == x;
  }

  lemma {:induction false} OneQuotient(represent: string -> Option<string>)
    requires represent("").Some?
    ensures var q := TextQuotient(represent);
            && QuotientAt(MStruct([("a", q)]), [Attribute("a")]) == Some(q) && MatchesUnknown(q, Str(""))
            && DistinctFields(MStruct([("a", q)]))
  {
    UnknownUnderHarvested(TextQuotient(represent), Str(""));
    UnknownUnderText(represent, 0, Str(""));
  }

  /** At every level of a harvested canon, no name is both an attribute and a block. */
  lemma {:induction false} HarvestedSeparate(s: ModelShape)
    requires DistinctFields(s)
    ensures Separate(Harvested(s))
    decreases s
  {
    if s.MStruct? {
      var canon := Harvested(s);
      forall k ensures !(k in canon.fields && k in canon.blocks) && (k in canon.blocks ==> Separate(canon.blocks[k])) {
        HarvestedEntry(s.fields, |s.fields|, k);
        var i := FieldNamed(s.fields, k);
        if k in canon.blocks {
          StructIsInside(s.fields[i].1);
          StructInnerDistinct(s.fields[i].1);
          assert s.fields[i] in s.fields;
          HarvestedSeparate(StructInner(s.fields[i].1).value);
        }
      }
    }
  }

  /** Every canonicalizer registered in a canon respects equality. */
  ghost predicate RespectsThroughout(canon: Canon) {
    forall p | CanonAt(canon, p).Some? :: Respects(CanonAt(canon, p).value)
  }

  /** The canonicalizer of every quotient of a model does. */
  ghost predicate QuotientsRespect(s: ModelShape) {
    forall p | QuotientAt(s, p).Some? :: Respects(Canonicalizer(QuotientAt(s, p).value))
  }

  /** A harvested canon separates attributes from blocks throughout, and all its
      canonicalizers respect equality exactly when those of the model's quotients do. */
  lemma {:induction false} HarvestedSound(s: ModelShape)
    requires DistinctFields(s)
    ensures Separate(Harvested(s)) && (RespectsThroughout(Harvested(s)) <==> QuotientsRespect(s))
  {
    HarvestedSeparate(s);
    forall p ensures CanonAt(Harvested(s), p) == match QuotientAt(s, p)
                                                 case Some(q) => Some(Canonicalizer(q))
                                                 case None => None
    {
      HarvestedExactly(s, p);
    }
    if RespectsThroughout(Harvested(s)) {
      forall p | QuotientAt(s, p).Some? ensures Respects(Canonicalizer(QuotientAt(s, p).value)) {
        assert CanonAt(Harvested(s), p).Some?;
      }
    }
  }

  /** So they do for a model whose quotients are all over proxies without numbers. */
  lemma {:induction false} NumberFreeSound(s: ModelShape)
    requires DistinctFields(s) && forall p | QuotientAt(s, p).Some? :: NumberFree(Core(QuotientAt(s, p).value).proxy)
    ensures RespectsThroughout(Harvested(s))
  {
    forall p | QuotientAt(s, p).Some? ensures Respects(Canonicalizer(QuotientAt(s, p).value)) {
      RespectsAll(QuotientAt(s, p).value);
    }
    HarvestedSound(s);
  }
}
