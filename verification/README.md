# A verified model of the tofu-sdk provider kernel

This project models, in Dafny 4.11, the logic at the heart of the tofu-sdk
Terraform provider SDK, and proves what that logic is for.

* **Values and types.** `Doubles` gives `f64` and `f32` as NaN, infinities and
  finite dyadic reals, with rounding to nearest-even (section 4.3.1 of IEEE
  754-2019) and saturating casts. `Numbers` has the three-case `Number`, its
  equality by mathematical value and its wire form. `Types` and `Values` hold the
  cty type system, its JSON encoding, the value tree and type inference.
* **Codec.** `Encode` and `Decode` are the type-directed msgpack path, `JsonCodec`
  the JSON path. `RoundTrip` and `JsonLaws` prove what comes back, for every type
  and every value, `ReceivedLaws` what is read at each path of it, `AcceptedLaws` what
  the decoders accept, `DecoderLaws` what they make of other hosts' trees, and
  `DynamicLaws` which values a dynamic slot carries. `Alike` proves that attribute order
  and optional flags never reach the wire.
* **Typed layer and reflector.** `Typed` maps Rust values of a reflected shape to
  value trees and back; `Reflect` maps shapes to types and schema blocks.
  `TypedLaws` and `ReflectLaws` prove the whole pipeline from a Rust value over the
  wire and back, `ProxyLaws` for which shapes equal values decode to equal ones, and
  `DataSourceLaws` what a data source asks for.
* **Planner.** `Schema`, `Paths`, `WriteOnly`, `Plan`, `Normalize` and `Harvest` are
  the planning engine; `WriteOnlyLaws`, `PlanLaws`, `PlanDecision` and
  `ModificationLaws` its algebra, down to convergence.
* **Service.** `Service` is the plan/read/apply dispatch with arbitrary handlers;
  `ServiceLaws` proves what holds of every state over every run, `OutcomeLaws` and
  `PlanAnswerLaws` what an apply, a refresh and a plan answer, read back path by path,
  and `AnswerLaws` what is answered when nothing changes, and that plans are answered.
* **State store.** `StateStore` has the store's objects and atomic steps, `StoreLaws`
  lock safety, freshness, isolation and refinement over every interleaving.
  `StoreConfig` decodes a store's configuration; `Chunks` and `StateService` split,
  reassemble and serve state bytes.
* **Printers and boundaries.** `Log` (JSON log lines), `Sql` (quoting) and `Zod` with
  `ZodLaws` (sets at the TypeScript boundary).

Where the program changes things step by step there is a Dafny method in that form:
loops over fields, entries and chunks, classes for the plan under construction, the
lock counter, the store, its backends and the service. Each is proved equal to a
specification function, and the laws are proved about that function.

A lemma about one attribute or one path says so at every depth, through nested
blocks of all four nesting modes. Many laws are stated as an "exactly when". Where a
natural law is false of the program, the exact condition is proved instead:

* a number keeps its value over msgpack unless it is NaN or `F64(2^63)`, which the
  saturating cast sends as `i64::MAX` (`Numbers.WireTripKeeps`);
* a typed value comes back equal unless it holds a NaN or a present wrapper directly
  around an absent one (`TypedLaws.TypedIff`);
* `strip` undoes `merge_from_config` exactly when the merge added no key
  (`WriteOnlyLaws.StripUndoesMerge`);
* planning an applied value against itself gives that value and no replacement exactly
  when no force-new attribute holds a NaN (`PlanLaws.PlanConverges`); over the wire, when
  the state holds neither a NaN nor `F64(2^63)` (`AnswerLaws.SettledStateUnchanged`,
  `AnswerLaws.TopFloatPlan`);
* a handler that fails leaves the prior value as it was under the same condition, since
  the service encodes it again (`AnswerLaws.FailedApplyKeepsValue`,
  `AnswerLaws.TopFloatApply`); with a dynamic slot there may be no state in the answer at
  all (`AnswerLaws.FailedApplyAnswers`);
* a quotient's canonicalizer takes equal values to equal ones, whatever its conversions,
  exactly when its proxy holds no number, and for conversions that respect equality
  exactly when it holds no integer: `F64(2^63)` equals `U64(2^63)`, but one saturates
  where the other wraps (`Harvest.AlwaysRespectIff`, `Harvest.CoherentRespectIff`,
  `Harvest.PlainIntegerFails`);
* the pre-pass keeps an attribute's canonical form exactly when that form holds no NaN
  (`Normalize.CanonicalFormKept`);
* a struct reflects to conforming defaults exactly when literals stand on scalar fields
  alone; on a list, set, map or object the text itself becomes the default
  (`ReflectLaws.DefaultsConformIffScalar`, `ReflectLaws.ListDefaultMisfits`);
* whatever the decoder accepts encodes again for exactly the types without a dynamic
  slot (`AcceptedLaws.AcceptedEncodesIffDynamicFree`);
* a JavaScript array where the schema has an object comes back as an object
  (`ZodLaws.RevivedBack`).

Two comments in the program say more than its code does, and the model follows the
code. `keep_prior` says that an unknown prior field is never suppressed. That holds of
`string_quotient` (`Harvest.UnknownUnderStringQuotient`) but not of harvested quotients,
which decode before they compare: under an option unknown reads as null, and bare it
reads as a proxy with nothing known, so it matches whatever the type represents alike.
Over strings that is the empty text (`Harvest.UnknownUnderText`), and a proposed `""`
under a bare quotient that accepts it is planned unknown (`Harvest.UnknownOverConcrete`).
`Harvest.UnknownUnderHarvested` and `Harvest.UnknownKeptIff` say exactly when an unknown
prior value is kept, at every harvested attribute and for every proxy.
`write_state_stream` says that the first chunk carries the metadata; any chunk may, and
the last to carry it wins.

## Model

| member | source | states |
|---|---|---|
| `Doubles.RoundNearest` | crates/terraform-value/src/value.rs:49-55 | a finite result of rounding a real is a number of the format, no other is nearer, and one as near leaves the result an even last digit |
| `Doubles.RoundOverflows` | crates/terraform-value/src/value.rs:49-55 | a result is infinite exactly from half a unit past the greatest number on |
| `Doubles.RoundExact` | crates/terraform-value/src/value.rs:49-55 | a real the format can represent rounds to itself |
| `Numbers.EqIsMathEquality` | crates/terraform-value/src/value.rs:76-83 | off NaN, equality holds exactly when the mathematical values are equal, across all three cases |
| `Numbers.WireTripKeeps` | crates/terraform-codec/src/encode.rs:136-148 | one trip keeps a number exactly when it is neither NaN nor 2^63 held as a float |
| `Numbers.FloatFieldTrip` | crates/terraform-codec/src/typed.rs:364-367 | every non-NaN `f64` field survives the wire, 2^63 included |
| `Numbers.SingleFieldTrip` | crates/terraform-codec/src/typed.rs:368-371 | every non-NaN `f32` field survives widening, wire and narrowing |
| `Numbers.IntFieldTrip` | crates/terraform-codec/src/typed.rs:372-411 | every integer of every width and sign survives exactly |
| `Numbers.IntFieldWraps` | crates/terraform-codec/src/typed.rs:372-411 | an integer too wide for a field moves by whole rounds of the field's width into its range |
| `Doubles.CastTruncates` | crates/terraform-value/src/value.rs:58-73 | a float reads as the integer next to it toward zero, the nearer bound beyond the range, and zero for NaN |
| `Types.ObjectToCty` | crates/terraform-value/src/ty.rs:69-102 | the one-pass object encoding computes the type document |
| `Types.CtyRoundTrip` | crates/terraform-value/src/ty.rs:114-177 | decoding an encoded type gives it back exactly when attribute names are distinct at every depth |
| `Values.EqReflexive` | crates/terraform-value/src/value.rs:76-83 | a value equals itself exactly when it holds no NaN |
| `Values.EqSymmetricTransitive` | crates/terraform-value/src/value.rs:76-83 | value equality is symmetric and transitive |
| `Values.InferredNamesDistinct` | crates/terraform-value/src/value.rs:186-223 | an inferred type has distinct names at every depth, so its document round-trips |
| `Encode.EncodesIffConforms` | crates/terraform-codec/src/encode.rs:49-130 | encoding succeeds exactly on the values that conform to the type, dynamic slots included |
| `DynamicLaws.DynamicEncodes` | crates/terraform-codec/src/encode.rs:125-130 | a dynamic slot accepts exactly the values whose lists, sets and maps have elements of the type the first one fixes, told from the values alone |
| `DynamicLaws.DynamicSends` | crates/terraform-codec/src/encode.rs:125-130 | what is sent: the type document of the value, spelled out per constructor, and the value under that type; null and unknown bare |
| `DynamicLaws.DocumentIsInferred` | crates/terraform-value/src/value.rs:186-223 | the inferred type's document is the one read off the value |
| `DynamicLaws.MapKeysAscend` | crates/terraform-codec/src/encode.rs:94-100 | a map is sent with its keys in ascending order |
| `Decode.DecodeMap` | crates/terraform-codec/src/decode.rs:236-246 | the filling loop computes the decoded map or the first error |
| `Decode.DecodeObject` | crates/terraform-codec/src/decode.rs:249-263 | the filling loop computes the decoded object or the first error |
| `RoundTrip.MsgpackRoundTrip` | crates/terraform-codec/src/decode.rs:182-211 | for every type with distinct names, decode after encode is the value cut to its type with wire numbers |
| `RoundTrip.MsgpackFaithful` | crates/terraform-codec/src/decode.rs:182-302 | that equals the projected value exactly when every kept number survives the wire |
| `RoundTrip.Reencodes` | crates/terraform-codec/src/encode.rs:49-69 | decoding and encoding again reproduces the same msgpack tree |
| `RoundTrip.SecondTrip` | crates/terraform-codec/src/decode.rs:182-211 | a second trip changes nothing more |
| `RoundTrip.InferReceived` | crates/terraform-codec/src/encode.rs:125-130 | what comes back from a dynamic slot infers the type that was sent |
| `ReceivedLaws.ReceivedAt` | crates/terraform-codec/src/decode.rs:182-263 | what stands at a path comes back there as it would under the type the path leads to |
| `ReceivedLaws.MissingReceived` | crates/terraform-codec/src/decode.rs:249-263 | an attribute its object does not have comes back null, at every depth |
| `DecoderLaws.NumberForms` | crates/terraform-codec/src/decode.rs:288-302 | integers, doubles, singles and parsable texts are accepted as numbers of the same value, and nothing else is |
| `DecoderLaws.MapReadsLast` | crates/terraform-codec/src/decode.rs:236-246 | of repeated keys a map reads the last |
| `DecoderLaws.ObjectReadsFirst` | crates/terraform-codec/src/decode.rs:249-263 | and an object the first, and no key that is not declared |
| `DecoderLaws.SentEitherWay` | crates/terraform-runtime/src/service.rs:1925-1943 | a value sent as msgpack or as JSON is read as the wire makes it |
| `AcceptedLaws.AcceptedMp` | crates/terraform-codec/src/decode.rs:182-263 | without dynamic slots, a msgpack tree decodes to a conforming value that cutting to the type leaves as it is |
| `AcceptedLaws.AcceptedJson` | crates/terraform-codec/src/decode.rs:29-100 | and so does a JSON document |
| `AcceptedLaws.DecodedConforms` | crates/terraform-codec/src/decode.rs:182-263 | without dynamic slots, whatever the decoder accepts conforms and encodes again |
| `AcceptedLaws.AcceptedEncodesIffDynamicFree` | crates/terraform-codec/src/decode.rs:182-302 | every accepted tree encodes again for exactly the types with no dynamic slot at any depth |
| `AcceptedLaws.DynamicDecodeNeedNotEncode` | crates/terraform-codec/src/decode.rs:266-286 | a concrete dynamic document, what it decodes to, and that this does not encode |
| `JsonCodec.EncodeJsonTree` | crates/terraform-codec/src/encode.rs:17-38 | pushing items and inserting entries computes the JSON encoding |
| `JsonCodec.DecodeJsonMap` | crates/terraform-codec/src/decode.rs:77-84 | the map loop computes the decoded map or the first error |
| `JsonCodec.DecodeJsonObject` | crates/terraform-codec/src/decode.rs:85-96 | the object loop computes the decoded object or the first error |
| `JsonCodec.DecodeDynamicObject` | crates/terraform-codec/src/decode.rs:136-142 | the schema-less object loop computes the decoded object |
| `JsonLaws.JsonRoundTrip` | crates/terraform-codec/src/decode.rs:29-100 | for every type, what comes back over JSON is the value cut to its type, unknown as null, dynamic slots collapsed |
| `JsonLaws.JsonFaithful` | crates/terraform-codec/src/encode.rs:17-38 | without dynamic slots it is the projection with unknown replaced by null |
| `JsonLaws.CollapseRoundTrip` | crates/terraform-codec/src/decode.rs:110-146 | without a schema it is the value with sequences as tuples and keyed containers as objects |
| `JsonLaws.SchemalessRoundTrip` | crates/terraform-codec/src/decode.rs:110-146 | without a schema nothing is lost exactly when there was no unknown, list, set or map |
| `JsonLaws.CollapseIdempotent` | crates/terraform-codec/src/decode.rs:114-146 | the collapse is a fixed point of a second trip |
| `Alike.SameTypeEncodes` | crates/terraform-codec/src/encode.rs:104-121 | types that differ in attribute order and optional flags encode every value alike |
| `Alike.SameTypeDecodes` | crates/terraform-codec/src/decode.rs:249-263 | and decode every tree to the same value |
| `Typed.PeekMap` | crates/terraform-codec/src/typed.rs:97-105 | inserting entries in any order computes the map's value |
| `Typed.PeekStruct` | crates/terraform-codec/src/typed.rs:114-125 | inserting fields under their keys computes the struct's value |
| `Typed.Fill` | crates/terraform-codec/src/typed.rs:227-332 | the recursive builder computes the decoded Rust value for every shape |
| `Typed.FillSet` | crates/terraform-codec/src/typed.rs:284-292 | filling a set keeps one of equal elements |
| `Typed.FillMap` | crates/terraform-codec/src/typed.rs:293-309 | filling a map decodes every entry, and nothing from a non-map |
| `Typed.FillStruct` | crates/terraform-codec/src/typed.rs:336-351 | filling a struct decodes each field by its key, an absent one from null |
| `TypedLaws.TypedIff` | crates/terraform-codec/src/typed.rs:227-332 | through any carrier that keeps typed scalars, a value comes back equal exactly when it is sharp and NaN-free |
| `TypedLaws.ValueRoundTrip` | crates/terraform-codec/src/typed.rs:48-128 | `from_value(to_value(x)) == x` exactly then |
| `TypedLaws.BuiltSharp` | crates/terraform-codec/src/typed.rs:319-332 | no decoded value has a present wrapper directly around an absent one |
| `TypedLaws.NothingIsZero` | crates/terraform-codec/src/typed.rs:355-449 | null and unknown decode to the zero value of every shape, except that `TfValue` keeps unknown |
| `TypedLaws.OtherKindIsZero` | crates/terraform-codec/src/typed.rs:355-449 | a value of another kind than the shape decodes to zero too |
| `TypedLaws.AbsentFieldIsZero` | crates/terraform-codec/src/typed.rs:336-351 | and so does a field that is not there |
| `ProxyLaws.SequencesAlike` | crates/terraform-codec/src/typed.rs:418-423 | lists, sets and tuples decode alike |
| `ProxyLaws.SameDecoded` | crates/terraform-codec/src/typed.rs:227-415 | under a shape without numbers, equal values decode to the same Rust value |
| `ProxyLaws.EqualDecoded` | crates/terraform-codec/src/typed.rs:227-415 | under a shape without integers they decode to equal Rust values, and under any shape a value without NaN decodes to one that equals itself |
| `ProxyLaws.ShapeApart` | crates/terraform-codec/src/typed.rs:364-411 | every shape with a number in it has equal values that decode to different ones, and every shape with an integer to unequal ones |
| `Reflect.ObjectType` | crates/terraform-reflect/src/reader.rs:770-786 | the pushing loop computes the object type |
| `Reflect.AttributeFromField` | crates/terraform-reflect/src/reader.rs:620-669 | reflection fails exactly on write-only and computed together; required is exactly neither optional nor computed, an unmarked nullable field is optional, and every other disposition and the default is the declared one |
| `ReflectLaws.OptionalIff` | crates/terraform-reflect/src/reader.rs:770-786 | a field is optional exactly when marked so or some value of it encodes as null, and required exactly when neither that nor computed |
| `ReflectLaws.LiteralMeans` | crates/terraform-reflect/src/reader.rs:686-696 | what a literal default means by the type it stands on |
| `Reflect.ReflectBlock` | crates/terraform-reflect/src/reader.rs:520-535 | the loop over the fields computes the block or the first error |
| `Reflect.ReflectDataSource` | crates/terraform-reflect/src/reader.rs:291-316 | the loop over the fields computes the data source's block or the first error, an invalid search key included |
| `ReflectLaws.ReflectedDistinct` | crates/terraform-reflect/src/reader.rs:520-535 | a struct with distinct keys reflects to a block with distinct names throughout |
| `ReflectLaws.ReflectedDynamicFree` | crates/terraform-reflect/src/reader.rs:720-786 | no reflected schema has a dynamic slot at any depth |
| `ReflectLaws.TypedConforms` | crates/terraform-reflect/src/reader.rs:720-786 | every value of a Rust type conforms to the type reflected from it |
| `ReflectLaws.BlockTypeIsMapType` | crates/terraform-reflect/src/reader.rs:520-592 | the reflected block's wire type is the shape's type but for order and optional flags |
| `ReflectLaws.BlockEncodesAsShape` | crates/terraform-ir/src/lib.rs:221-248 | so every value encodes alike under both and conforms to both or neither |
| `ReflectLaws.TypedPipeline` | crates/terraform-codec/src/typed.rs:57-128 | Rust value to msgpack and back under the shape's type: equal exactly when sharp and NaN-free |
| `ReflectLaws.ResourcePipeline` | crates/terraform-codec/src/typed.rs:227-415 | the same under the wire type of the reflected schema |
| `ReflectLaws.ComputedEncodesSame` | crates/terraform-reflect/src/reader.rs:270-286 | the read-only projection of a block never changes an encoding |
| `ReflectLaws.ComputedHasNoSecrets` | crates/terraform-reflect/src/reader.rs:246-286 | and has no write-only attribute at any depth |
| `ReflectLaws.DataSourceRedisposed` | crates/terraform-reflect/src/reader.rs:215-316 | a data source reflects exactly when the resource does and every search key is exclusive or shared but not both, and then declares the same names, types and blocks |
| `ReflectLaws.DataSourceEncodesSame` | crates/terraform-reflect/src/reader.rs:291-316 | and every value encodes alike under both |
| `DataSourceLaws.DataSourceDeclares` | crates/terraform-reflect/src/reader.rs:291-316 | one attribute per attribute field, required exactly when its key is exclusive and computed otherwise, never optional, force-new or write-only; and blocks in which everything at every depth is computed only |
| `DataSourceLaws.TwoKeys` | crates/terraform-reflect/src/reader.rs:303-306 | of an exclusive and a shared key the first must be given and the second comes back |
| `ReflectLaws.DefaultsConformIffScalar` | crates/terraform-reflect/src/reader.rs:686-696 | a struct reflects to conforming defaults exactly when, through every block field, literal defaults stand on boolean, number and string fields alone |
| `ReflectLaws.ListDefaultMisfits` | crates/terraform-reflect/src/reader.rs:686-696 | a concrete struct with a defaulted list field, whose default does not conform |
| `Schema.BuildCtyType` | crates/terraform-ir/src/lib.rs:221-248 | collecting attributes and pushing nested blocks computes the wire type |
| `Schema.ConformsToBlock` | crates/terraform-ir/src/lib.rs:221-248 | conforming to the wire type is conforming attribute by attribute and block by block |
| `Schema.CtyTypeDistinct` | crates/terraform-ir/src/lib.rs:221-248 | distinct names in the schema make the wire type one the codec round-trips |
| `Schema.BlockOptionals` | crates/terraform-ir/src/lib.rs:221-248 | the optional names of the wire type are the attributes that are not required and all nested blocks |
| `Paths.GetAfterSet` | crates/terraform-runtime/src/plan.rs:192-217 | a resolvable path reads what was written to it |
| `Paths.SetWhatIsThere` | crates/terraform-runtime/src/plan.rs:192-217 | writing what is already there changes nothing |
| `Paths.SetUnresolved` | crates/terraform-runtime/src/plan.rs:192-217 | writing to an unresolvable path changes nothing |
| `Paths.SetAfterSet` | crates/terraform-runtime/src/plan.rs:192-217 | the last write to a path wins |
| `Paths.SetFrames` | crates/terraform-runtime/src/plan.rs:174-217 | a write leaves every path apart from it alone |
| `Paths.SetsCommute` | crates/terraform-runtime/src/plan.rs:192-217 | writes at paths that are no prefix of each other commute |
| `WriteOnly.Strip` | crates/terraform-runtime/src/write_only.rs:36-54 | the stripping loops compute the stripped value |
| `WriteOnly.MergeFromConfig` | crates/terraform-runtime/src/write_only.rs:61-106 | the merging loops compute the merged value |
| `WriteOnly.StripWalk` | crates/terraform-runtime/src/write_only.rs:110-133 | the walk applies the operation to every element per nesting mode |
| `WriteOnlyLaws.StripCleans` | crates/terraform-runtime/src/write_only.rs:36-54 | after stripping no write-only slot holds a value, at any depth |
| `WriteOnlyLaws.StripIdempotent` | crates/terraform-runtime/src/write_only.rs:36-54 | stripping twice is stripping once |
| `WriteOnlyLaws.StripKeepsTheRest` | crates/terraform-runtime/src/write_only.rs:36-54 | off the write-only slots every path reads the same before and after: leaves, keys, lengths, and nothing added |
| `WriteOnlyLaws.NoSecretsNoChange` | crates/terraform-runtime/src/write_only.rs:26-32 | without a write-only attribute both walks are the identity |
| `WriteOnlyLaws.StripUndoesMerge` | crates/terraform-runtime/src/write_only.rs:61-106 | stripping undoes a merge exactly when the merge added no key |
| `WriteOnlyLaws.MergeDelivers` | crates/terraform-runtime/src/write_only.rs:61-106 | every aligned write-only slot reads exactly the configuration's value |
| `WriteOnlyLaws.MergeSkipsSets` | crates/terraform-runtime/src/write_only.rs:61-106 | every path through a set block, at any depth, reads as it did before the merge |
| `WriteOnlyLaws.MergeKeepsTheRest` | crates/terraform-runtime/src/write_only.rs:61-106 | off the write-only slots a merge changes no leaf and adds nothing, at any depth |
| `Plan.RequiresReplace` | crates/terraform-runtime/src/plan.rs:62-79 | the loop lists the force-new attributes whose value differs, in order |
| `Plan.MarkComputedUnknown` | crates/terraform-runtime/src/plan.rs:90-118 | the marking loops compute the marked value |
| `Plan.ResourcePlan.constructor` | crates/terraform-runtime/src/plan.rs:36-57 | a new plan holds the planned value and the replacement paths |
| `Plan.ResourcePlan.ApplyModifications` | crates/terraform-runtime/src/plan.rs:155-170 | the three loops leave the modified plan and the extended path list |
| `PlanDecision.PlanDecides` | crates/terraform-runtime/src/plan.rs:90-149 | at every depth the plan reads the decision for that attribute: null if write-only, the user's if required, a default if unset, unknown if computed and unset or replaced, else unchanged |
| `PlanLaws.PlanKeepsType` | crates/terraform-runtime/src/plan.rs:90-149 | a conforming proposal and conforming defaults give a conforming plan |
| `PlanLaws.PlanKeepsIntent` | crates/terraform-runtime/src/plan.rs:90-149 | a non-null attribute neither computed nor write-only is planned unchanged, at every depth |
| `PlanLaws.PlanSettles` | crates/terraform-runtime/src/plan.rs:90-149 | a plan leaves no computed or defaulted attribute null and no write-only slot set |
| `PlanLaws.MarkIdempotent` | crates/terraform-runtime/src/plan.rs:90-118 | marking what is marked, without a replacement, changes nothing |
| `PlanLaws.FilledIsSettled` | crates/terraform-runtime/src/plan.rs:36-57 | an applied value that completes a plan is settled and clean |
| `PlanLaws.PlanConverges` | crates/terraform-runtime/src/plan.rs:36-149 | planning such a value against itself returns it with no replacement, exactly when no force-new attribute holds a NaN |
| `ModificationLaws.ExtendedIsUnion` | crates/terraform-runtime/src/plan.rs:164-169 | the mechanical list is a prefix, the result is the union, and nothing added is a duplicate |
| `ModificationLaws.ListedIffChanged` | crates/terraform-runtime/src/plan.rs:62-79 | an attribute is listed exactly when it is force-new and its value differs |
| `ModificationLaws.ListedInOrder` | crates/terraform-runtime/src/plan.rs:62-79 | the mechanical list follows the order of the schema |
| `ModificationLaws.ModifiedFrames` | crates/terraform-runtime/src/plan.rs:155-170 | a path apart from every targeted one reads the mechanical plan |
| `ModificationLaws.ModifiedReadsUnknown` | crates/terraform-runtime/src/plan.rs:155-170 | each resolvable unknown path reads unknown or lies under one that does |
| `ModificationLaws.KeptReadsPrior` | crates/terraform-runtime/src/plan.rs:155-170 | a kept path resolvable on both sides, and apart from the other kept ones, reads its prior value |
| `Normalize.KeepPrior` | crates/terraform-runtime/src/normalize.rs:230-272 | the two loops compute the kept proposal, in any order |
| `Normalize.KeptEqual` | crates/terraform-runtime/src/normalize.rs:230-272 | prior equals what the pre-pass makes of the proposal exactly when the two have the same keys, equivalent quotients free of NaN and equal values elsewhere, at every level |
| `Normalize.ReplacedIffCanonDiffers` | crates/terraform-runtime/src/normalize.rs:230-272 | after the pre-pass a force-new quotient attribute is replaced exactly when the two are neither equal nor equivalent, or prior holds a NaN; where the canonicalizer respects equality, when canonical forms differ or prior holds a NaN |
| `Normalize.ReplacedIffBlockDiffers` | crates/terraform-runtime/src/normalize.rs:262-271 | a force-new object with quotients inside is replaced exactly when prior and proposal are not the same up to the quotients, at every level |
| `Normalize.KeptAtPath` | crates/terraform-runtime/src/normalize.rs:230-272 | at every depth a registered attribute becomes prior's value when the two are equivalent and stays as proposed otherwise |
| `Normalize.CanonicalFormKept` | crates/terraform-runtime/src/normalize.rs:230-272 | so at every depth its canonical form is the proposed one, exactly when that form holds no NaN |
| `Normalize.KeptIdempotent` | crates/terraform-runtime/src/normalize.rs:230-272 | the pre-pass is idempotent |
| `Normalize.UnregisteredUntouched` | crates/terraform-runtime/src/normalize.rs:230-272 | off the registered attributes every path reads as proposed: leaves, keys, lengths, and nothing added |
| `Normalize.KeptIsPrior` | crates/terraform-runtime/src/normalize.rs:230-272 | the result is the prior value exactly when the proposal equals it up to the quotients |
| `Normalize.StringQuotientRespects` | crates/terraform-runtime/src/normalize.rs:181-194 | a string quotient respects value equality |
| `Normalize.StringsEquivalent` | crates/terraform-runtime/src/normalize.rs:181-194 | two strings are equivalent exactly when their representatives are the same |
| `Harvest.HarvestShape` | crates/terraform-runtime/src/normalize.rs:135-162 | the loop over the fields computes the harvested canonicalizers |
| `Harvest.HarvestedExactly` | crates/terraform-runtime/src/normalize.rs:135-162 | a path through structs leads to a quotient exactly when a canonicalizer is registered there, and it is that quotient's |
| `Harvest.StructUnderOptions` | crates/terraform-runtime/src/normalize.rs:213-219 | options do not hide a nested struct |
| `Harvest.TextIsStringQuotient` | crates/terraform-codec/src/typed.rs:207-223 | on strings a harvested quotient is the string quotient of the same conversions |
| `Harvest.HarvestedSound` | crates/terraform-runtime/src/normalize.rs:135-162 | at every level attributes are apart from blocks, and the registered canonicalizers respect equality exactly when those of the model's quotients do |
| `Harvest.NumberFreeSound` | crates/terraform-runtime/src/normalize.rs:135-162 | so they do when every quotient's proxy is free of numbers, as string proxies are |
| `Harvest.AlwaysRespectIff` | crates/terraform-codec/src/typed.rs:207-259 | the quotients over a proxy, under any number of options, respect equality whatever their conversions exactly when the proxy holds no number |
| `Harvest.CoherentRespectIff` | crates/terraform-codec/src/typed.rs:207-259 | and for all conversions that take equal proxies to equal representatives exactly when it holds no integer |
| `Harvest.PlainIntegerFails` | crates/terraform-codec/src/typed.rs:372-411 | an integer quotient of any width and sign that converts nothing does not respect equality |
| `Harvest.ThroughOptions` | crates/terraform-codec/src/typed.rs:262-274 | under options nothing known is canonicalized to null, and everything else as without them |
| `Harvest.UnknownUnderHarvested` | crates/terraform-codec/src/typed.rs:207-223 | for every harvested shape and proxy, the proposals equivalent to unknown: what is represented by null under an option, and bare what is represented like a proxy with nothing known |
| `Harvest.UnknownUnderText` | crates/terraform-codec/src/typed.rs:207-223 | over strings: null and unknown under an option, and bare what the type makes the same of as the empty text |
| `Harvest.UnknownKeptIff` | crates/terraform-runtime/src/normalize.rs:236-272 | at any harvested attribute an unknown prior value is kept over exactly those proposals |
| `Harvest.UnknownOverConcrete` | crates/terraform-runtime/src/normalize.rs:236-240 | a concrete proposed string that is planned unknown |
| `Harvest.UnknownUnderStringQuotient` | crates/terraform-runtime/src/normalize.rs:181-194 | under a string quotient unknown is equivalent only to unknown |
| `Service.PlanResourceChange` | crates/terraform-runtime/src/service.rs:508-623 | the dispatch answers with the modified plan of the suppressed proposal, or fails |
| `Service.ReadResource` | crates/terraform-runtime/src/service.rs:625-693 | the dispatch answers with the stripped refreshed state, null when it is gone |
| `Service.ApplyResourceChange` | crates/terraform-runtime/src/service.rs:695-819 | the dispatch picks delete, create or update and answers with the stripped result, or the prior state on failure |
| `ServiceLaws.ModifiedPlanClean` | crates/terraform-runtime/src/plan.rs:155-217 | whatever an author's modifications, the plan shows no write-only value the clean prior state did not |
| `ServiceLaws.ReceivedClean` | crates/terraform-codec/src/decode.rs:182-211 | the wire brings back no write-only value |
| `ServiceLaws.ReadSound` | crates/terraform-runtime/src/service.rs:625-693 | every refreshed state is sound whatever was sent and found |
| `ServiceLaws.PlanSound` | crates/terraform-runtime/src/service.rs:508-623 | over any prior that decodes, if at all, to a clean value, every planned state is sound |
| `ServiceLaws.ApplySound` | crates/terraform-runtime/src/service.rs:695-819 | and so is every applied state, whatever was planned, configured and answered |
| `ServiceLaws.ApplyGives` | crates/terraform-runtime/src/service.rs:732-747 | the handler is given the plan with the configuration's secrets merged in; the configuration matters only to a create or update with secrets declared |
| `OutcomeLaws.ApplyAnswers` | crates/terraform-runtime/src/service.rs:695-819 | a null plan deletes and answers null, a null prior creates, anything else updates, each with the merged plan; the answer holds what the handler returned, without its write-only values, at every attribute; a failure holds the prior value |
| `OutcomeLaws.ReadAnswers` | crates/terraform-runtime/src/service.rs:625-693 | a refresh answers what the handler found, without its write-only values, at every attribute; null when there is nothing, and no state on failure |
| `OutcomeLaws.UndecodedFails` | crates/terraform-runtime/src/service.rs:625-747 | inputs that do not decode fail without a state |
| `PlanAnswerLaws.AnswerDecides` | crates/terraform-runtime/src/service.rs:508-623 | in the answer, read back, every attribute at every depth that the author leaves alone is the planner's decision for the suppressed proposal |
| `PlanAnswerLaws.AnswerObscures` | crates/terraform-runtime/src/plan.rs:155-170 | every path marked unknown that the plan resolves reads unknown in the answer or lies under one that does |
| `PlanAnswerLaws.AnswerKeeps` | crates/terraform-runtime/src/plan.rs:155-170 | a kept path apart from the others reads in the answer what the state had |
| `PlanAnswerLaws.AnswerLists` | crates/terraform-runtime/src/service.rs:580-612 | the answer lists exactly the force-new attributes that differ and the paths the author asked for |
| `PlanAnswerLaws.DestroyAnswers` | crates/terraform-runtime/src/plan.rs:36-57 | a plan to destroy holds null and lists only what the author asked for |
| `AnswerLaws.FailedApplyAnswers` | crates/terraform-runtime/src/service.rs:811-817 | over any prior that decodes, a failed handler is answered with a state exactly when the prior value conforms, and it holds that value cut to its type exactly when the wire keeps the numbers in it |
| `AnswerLaws.FailedApplyKeepsValue` | crates/terraform-runtime/src/service.rs:811-817 | without dynamic slots there is always a state, and it holds the prior value exactly when that holds neither a NaN nor 2^63 as a float |
| `AnswerLaws.FailedApplyKeepsState` | crates/terraform-runtime/src/service.rs:811-817 | where the state sent encodes back to itself, it is answered unchanged |
| `AnswerLaws.SettledStateAnswers` | crates/terraform-runtime/src/service.rs:508-623 | a settled clean state planned against itself is answered with its value cut to its type and no replacement, exactly when it conforms, no force-new attribute holds a NaN and the wire keeps the numbers in it |
| `AnswerLaws.SettledStateUnchanged` | crates/terraform-runtime/src/service.rs:508-623 | without dynamic slots it is answered with its value and no replacement exactly when it holds neither a NaN nor 2^63 as a float |
| `AnswerLaws.SettledStateConverges` | crates/terraform-runtime/src/service.rs:508-623 | where the state encodes back to itself, it is answered itself, exactly when no force-new attribute holds a NaN |
| `AnswerLaws.TopFloatPlan` | crates/terraform-codec/src/encode.rs:136-148 | a concrete settled state, free of NaN, that an unchanged plan answers with another number |
| `AnswerLaws.TopFloatApply` | crates/terraform-runtime/src/service.rs:811-817 | and that a failed apply does |
| `AnswerLaws.SuppressedConforms` | crates/terraform-runtime/src/normalize.rs:230-272 | without dynamic slots, the pre-pass keeps a conforming proposal conforming, whatever the canonicalizers |
| `AnswerLaws.ModifiedConforms` | crates/terraform-runtime/src/plan.rs:155-217 | and so do an author's modifications, wherever their paths lead |
| `AnswerLaws.PlanAnswers` | crates/terraform-runtime/src/service.rs:508-623 | without dynamic slots and with conforming defaults, a plan fails exactly when an input does not decode or the author's modification fails |
| `AnswerLaws.ReflectedPlanAnswers` | crates/terraform-runtime/src/service.rs:508-623 | so of every resource reflected from a struct with distinct keys and scalar literal defaults |
| `ServiceLaws.RunSound` | crates/terraform-runtime/src/service.rs:508-819 | over every run with arbitrary handlers whose priors come from held or clean states in any encoding, every returned state decodes, conforms, shows no write-only value and encodes back to itself |
| `StateStore.LockSequence.FetchAdd` | crates/example-aws/src/main.rs:473 | the counter hands out its value and moves on, wrapping around |
| `StateStore.InMemBackend.ReadState` | crates/example-aws/src/main.rs:490-496 | reads the bytes under the key, or none |
| `StateStore.InMemBackend.WriteState` | crates/example-aws/src/main.rs:498-502 | stores the bytes under the key and changes nothing else |
| `StateStore.InMemBackend.Lock` | crates/example-aws/src/main.rs:504-514 | refuses a held key, else grants a new identifier |
| `StateStore.InMemBackend.Unlock` | crates/example-aws/src/main.rs:516-528 | releases exactly on the holder's identifier; an unheld key is fine |
| `StateStore.InMemBackend.States` | crates/example-aws/src/main.rs:530-536 | lists exactly the ids under the prefix, each once |
| `StateStore.InMemBackend.DeleteState` | crates/example-aws/src/main.rs:538-542 | removes the key and changes nothing else |
| `StoreLaws.LockIdInjective` | crates/example-aws/src/main.rs:511 | two identifiers are equal exactly when operation and number are |
| `StoreLaws.LockCycle` | crates/example-aws/src/main.rs:504-528 | a free key is granted and nothing else changes but the counter; handing the identifier back frees it again, and handing anything to a free key does nothing |
| `StoreLaws.HeldUntilReleased` | crates/example-aws/src/main.rs:504-528 | over any steps that do not hand back the identifier, a held key stays held, refuses locks and refuses other identifiers |
| `StoreLaws.GrantsNeedRelease` | crates/example-aws/src/main.rs:504-528 | between two grants of one key the first identifier was handed back |
| `StoreLaws.ReissuedIffWrapped` | crates/example-aws/src/main.rs:473-514 | an identifier recurs exactly when the operation is the same and the counter has gone round completely |
| `StoreLaws.StaleNeverReleases` | crates/example-aws/src/main.rs:516-528 | before that, a stale identifier never releases a later holder of any key |
| `StoreLaws.OthersIsolated` | crates/example-aws/src/main.rs:465-543 | over any run of steps through incomparable prefixes a backend observes no change in its states or locks |
| `StoreLaws.ComparableInterfere` | crates/example-aws/src/main.rs:465-543 | comparable prefixes interfere in every world |
| `StoreLaws.RefinesTable` | crates/example-aws/src/main.rs:490-543 | over every interleaving a backend's states are a private map to which only its own writes and deletes applied |
| `StoreLaws.RepliesFromTable` | crates/example-aws/src/main.rs:490-536 | reads and listings answer from that map, listings without duplicates |
| `Chunks.ChunkState` | crates/terraform-runtime/src/service.rs:2104-2131 | the chunks are contiguous from 0 to the total, all but the last full, and concatenate to the state |
| `Chunks.CoveringUnique` | crates/terraform-runtime/src/service.rs:2104-2131 | no other chunking meets that description |
| `StateService.Server.ConfigureStateStore` | crates/terraform-runtime/src/service.rs:1503-1568 | the configuration is decoded and its prefix given to a new backend; a positive suggested chunk size is honoured, and failures change nothing |
| `StoreConfig.ConfigArrives` | crates/terraform-runtime/src/state_store.rs:195-205 | the prefix a client encodes is the prefix the store decodes |
| `StateService.Server.WriteStateStream` | crates/terraform-runtime/src/service.rs:115-175 | the whole reassembled state is stored under the named key, or nothing changes at all |
| `StateService.Server.ReadStateBytes` | crates/terraform-runtime/src/service.rs:1797-1832 | the chunks are contiguous, all but the last of the negotiated size, and concatenate to the stored bytes |
| `StateService.RequestsIffWhole` | crates/terraform-runtime/src/service.rs:115-155 | a stream asks for a write exactly when no chunk is broken and one names its target |
| `StateService.SentRequests` | crates/terraform-runtime/src/service.rs:115-155 | however a state is split, the stream asks for exactly that state |
| `StateService.LastMetaNames` | crates/terraform-runtime/src/service.rs:115-155 | the last chunk that carries metadata names the target, and the bytes of all chunks are written in order |
| `StateService.WriteThenRead` | crates/terraform-runtime/src/service.rs:115-175 | write any split, reconfigure with any chunk size, read: the state comes back |
| `Log.JsonString` | crates/terraform-runtime/src/log.rs:214-230 | the escaping loop computes the quoted text |
| `Log.QuotedRead` | crates/terraform-runtime/src/log.rs:214-230 | an RFC 8259 reader gives the text back and stops exactly at its end |
| `Log.BuildLine` | crates/terraform-runtime/src/log.rs:186-211 | the pushes compute the object of the core fields and the event's own |
| `Log.BuiltLineReads` | crates/terraform-runtime/src/log.rs:186-211 | the line reads back as its members in order and has no control character |
| `Sql.QuoteScans` | crates/example-postgres/src/sql.rs:18-27 | the scanner stops at the end of what was quoted and returns it exactly when no quote follows |
| `Sql.QuoteInjective` | crates/example-postgres/src/sql.rs:18-27 | different texts are quoted differently |
| `Sql.IdentScans` | crates/example-postgres/src/sql.rs:18-20 | a quoted identifier is read back whole exactly when no double quote follows |
| `Sql.LiteralScans` | crates/example-postgres/src/sql.rs:23-27 | a quoted literal is read back whole exactly when no single quote follows |
| `Sql.QuotedApart` | crates/example-postgres/src/sql.rs:18-27 | neither confuses two texts, and no identifier is quoted as a literal is |
| `Zod.Peel` | packages/tofu-sdk/ts/schema.ts:188-205 | the loop terminates on every schema graph, cyclic ones included, and computes the peeled core |
| `Zod.CoreEnds` | packages/tofu-sdk/ts/schema.ts:188-205 | the core is reached over schemas that are all different, and is no wrapper or one of them: the first repetition |
| `Zod.PeelEnds` | packages/tofu-sdk/ts/schema.ts:188-205 | from any point of the loop, it ends at the first schema of the chain that is no wrapper or was seen before |
| `Zod.PeelFinds` | packages/tofu-sdk/ts/schema.ts:188-205 | the core is optional exactly when some wrapper makes it so and none further in takes that back, and under each key the outermost text is found |
| `Zod.ReviveObject` | packages/tofu-sdk/ts/schema.ts:506-514 | reviving property by property in shape order computes the revived object |
| `Zod.ReviveRecord` | packages/tofu-sdk/ts/schema.ts:515-522 | one pass over the entries computes the revived record |
| `ZodLaws.RevivedBack` | packages/tofu-sdk/ts/schema.ts:495-532 | rendering what was revived gives the JSON back exactly when set arrays repeat no primitive and no array stands for an object |
| `ZodLaws.SetsExactly` | packages/tofu-sdk/ts/schema.ts:495-526 | sets stand exactly at the positions that a set schema governs and an array filled |

## Left out

- Byte-level msgpack and JSON text: trees stand for bytes; the two libraries are taken as inverse pairs, and empty bytes decode to null.
- Number parsing, the JSON reader of dynamic types and the JSON number views are parameters; only `JsonLaws` asks anything of them, that they never change a finite number (`JsonCodec.Lossless`), and `JsonCodec.LosslessLibraryExists` shows that can be met.
- Non-finite floats over JSON: what the JSON library makes of them is not part of this model.
- `&mut` value trees: `strip`, `merge_from_config`, `keep_prior` and `set_at_path` rebuild the tree and return it; aliasing inside a tree does not arise.
- Hash-table order: a Rust set lists its elements in one order, and equality ignores it.
- Proxy types in the typed layer: `Typed` has no quotient newtypes, whose decoding can fail; `Harvest` covers their canonicalizers, over any proxy that is not itself a quotient.
- `char`, unit, `i128`, `u128`, fixed arrays and maps with keys other than strings in the typed layer and the reflector.
- Attribute descriptions, sensitive and deprecated flags, and item limits of nested blocks.
- Resource identities, private state, warnings, timeouts, cancellation and panics: they ride along with an answer, or make a handler fail, which the model's handlers may do at any time.
- Import, upgrade, move, data-source, ephemeral, function, list and action calls: they do not call `strip`, and the run invariant is about plan, read and apply.
- Schemas with repeated names at one level: `DistinctBlock` and `DistinctKeys` are premises of the laws about them, though the functions handle them as the code does.
- Other state-store backends: `StateService` runs over the in-memory one, whose reads and writes never fail.
- Object keys that exist on every JavaScript object, signed zero, and values that are not JSON at the TypeScript boundary.
- Schema emission, provider building, gRPC and the example handlers' own resources.
