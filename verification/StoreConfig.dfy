/** The in-memory store's configuration, on its way from the wire to a key prefix. */
module StoreConfig {
  import opened Wrappers
  import opened Types
  import opened Values
  import opened Encode
  import opened Decode
  import opened Schema
  import opened Typed
  import opened TypedLaws
  import opened Reflect
  import opened ReflectLaws
  import opened Service

  const UNMARKED := Marks(false, false, false, false, false, None, None)

  /** `InMemConfig`: an optional key prefix. */
  const CONFIG := SStruct([Field("prefix", None, SOption(SString), UNMARKED)])

  const CONFIG_BLOCK := Block([AttributeSchema("prefix", TString, false, true, false, false, false, None)], [])

  const CONFIG_TYPE := CtyType(CONFIG_BLOCK)

  lemma {:induction false} ConfigReflects(host: Parsers)
    ensures BlockFromShape(host, CONFIG) == Ok(CONFIG_BLOCK)
  {
    var fs := CONFIG.fields;
    var a := AttributeFromField(host, fs[0]).value;
    assert MapType(SOption(SString)) == TString;
    assert BlockOfFields(host, fs, 0) == Ok(Block([], []));
    assert WithField(host, Block([], []), fs[0]) == Ok(Block([] + [a], []));
    assert [] + [a] == CONFIG_BLOCK.attributes;
    assert BlockOfFields(host, fs, 1) == WithField(host, Block([], []), fs[0]);
  }

  function ConfigOf(prefix: Option<string>): (x: Rust)
    ensures WellTyped(x, CONFIG)
  {
    RStruct([if prefix.Some? then RSome(RString(prefix.value)) else RNone])
  }

  /** `from_value` at the configuration's type, and the prefix it holds. */
  function ConfiguredPrefix(v: Value): Option<string> {
    var prefix := FromValue(FieldOf(v, "prefix"), SOption(SString));
    if prefix.RSome? then Some(prefix.inner.s) else None
  }

  /** The prefix a received configuration asks for. */
  function DecodedPrefix(codec: Codec, config: Option<DynamicValue>): Result<Option<string>, CodecError> {
    var v :- DecodeDynamic(codec, config, CONFIG_TYPE);
    Ok(ConfiguredPrefix(v))
  }

  lemma {:induction false} ConfiguredIsTyped(v: Value)
    ensures FromValue(v, CONFIG) == ConfigOf(ConfiguredPrefix(v))
  {
    assert FromValue(v, CONFIG).values[0] == FromValue(FieldOf(v, "prefix"), SOption(SString));
  }

  /** What `ResourcePipeline` says of a value sent as a dynamic value. */
  lemma {:induction false} SentAndReceived(codec: Codec, x: Rust, fs: seq<Field>, block: Block)
    requires WellTyped(x, SStruct(fs)) && DistinctKeys(SStruct(fs))
             && BlockFromShape(codec.host, SStruct(fs)) == Ok(block)
    ensures var sent := EncodeDynamic(ToValue(x, SStruct(fs)), CtyType(block));
            sent.Some?
            && var got := DecodeDynamic(codec, sent, CtyType(block));
               got.Ok? && (RustEq(FromValue(got.value, SStruct(fs)), x) <==> Sharp(x) && NaNFree(x))
  {
    ResourcePipeline(codec.host, x, fs, block);
    var v, ty := ToValue(x, SStruct(fs)), CtyType(block);
    var mp := ToMp(v, ty).value;
    DynamicTrip(codec, v, ty, mp, FromMp(codec.host, mp, ty).value);
  }

  lemma {:induction false} DynamicTrip(codec: Codec, v: Value, ty: Type, mp: Mp, got: Value)
    requires ToMp(v, ty) == Ok(mp) && FromMp(codec.host, mp, ty) == Ok(got)
    ensures EncodeDynamic(v, ty).Some? && DecodeDynamic(codec, EncodeDynamic(v, ty), ty) == Ok(got)
  {
  }

  lemma {:induction false} ConfigSharp(prefix: Option<string>)
    ensures Sharp(ConfigOf(prefix)) && NaNFree(ConfigOf(prefix))
  {
  }

  /** The configuration a client sends for a prefix. */
  function SentConfig(prefix: Option<string>): Option<DynamicValue> {
    EncodeDynamic(ToValue(ConfigOf(prefix), CONFIG), CONFIG_TYPE)
  }

  /** A configured prefix arrives as it was sent. */
  lemma {:induction false} ConfigArrives(codec: Codec, prefix: Option<string>)
    ensures DecodedPrefix(codec, SentConfig(prefix)) == Ok(prefix)
  {
    ConfigReflects(codec.host);
    ConfigSharp(prefix);
    SentAndReceived(codec, ConfigOf(prefix), CONFIG.fields, CONFIG_BLOCK);
    var got := DecodeDynamic(codec, SentConfig(prefix), CONFIG_TYPE).value;
    ConfiguredIsTyped(got);
    PrefixesEqual(ConfiguredPrefix(got), prefix);
  }

  lemma {:induction false} PrefixesEqual(a: Option<string>, b: Option<string>)
    requires RustEq(ConfigOf(a), ConfigOf(b))
    ensures a == b
  {
    assert RustEq(ConfigOf(a).values[0], ConfigOf(b).values[0]);
  }
}
