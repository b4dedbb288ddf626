/** The state-store half of the provider service: configuring a store, writing a state
    from a chunk stream and reading it back in chunks. */
module StateService {
  import opened Wrappers
  import opened Numbers
  import opened Service
  import opened StoreConfig
  import opened StateStore
  import opened Chunks

  /** A connected backend and its negotiated chunk size. */
  datatype ConfiguredBackend = ConfiguredBackend(backend: InMemBackend, chunkSize: nat)

  const DEFAULT_STATE_CHUNK_SIZE: i64 := 4 * 1024 * 1024

  /** A positive suggestion of the host is honoured. */
  function Negotiated(suggested: Option<i64>): i64 {
    if suggested.Some? && suggested.value > 0 then suggested.value else DEFAULT_STATE_CHUNK_SIZE
  }

  class Server {
    /** The provider's stores by type name. */
    const stores: map<string, InMemStore>
    /** The stores configured so far. */
    var backends: map<string, ConfiguredBackend>

    constructor (stores: map<string, InMemStore>)
      ensures this.stores == stores && backends == map[]
    {
      this.stores := stores;
      backends := map[];
    }

    /** Why a store cannot be used: not configured yet, or no such store. */
    function Unavailable(typeName: string): StoreError { if typeName in stores then NotConfigured else UnknownStore }

    ghost function Stores(): set<InMemStore>
      reads this
    {
      set t | t in backends :: backends[t].backend.store
    }

    /** `configure_state_store`. */
    method ConfigureStateStore(codec: Codec, typeName: string, config: Option<DynamicValue>, suggested: Option<i64>)
      returns (r: Result<i64, StoreError>)
      modifies this
      ensures typeName !in stores ==> r == Err(UnknownStore)
      ensures typeName in stores ==>
                r == match DecodedPrefix(codec, config)
                     case Ok(_) => Ok(Negotiated(suggested))
                     case Err(e) => Err(BadConfig(e))
      ensures r.Ok? ==>
                && typeName in backends
                && var c := backends[typeName];
                   && backends == old(backends)[typeName := c]
                   && fresh(c.backend) && c.backend.store == stores[typeName] && c.chunkSize == Negotiated(suggested)
                   && c.backend.prefix == OrEmpty(DecodedPrefix(codec, config).value)
      ensures r.Err? ==> backends == old(backends)
    {
      if typeName !in stores { return Err(Unavailable(typeName)); }
      var prefix := DecodedPrefix(codec, config);
      if prefix.Err? { return Err(BadConfig(prefix.error)); }
      var backend := new InMemBackend(stores[typeName], prefix.value);
      var size := Negotiated(suggested);
      backends := backends[typeName := ConfiguredBackend(backend, size)];
      r := Ok(size);
    }

    /** `write_state_stream`. Either the whole reassembled state is stored under the
        key the metadata names, and nothing else changes, or nothing changes at all. */
    method WriteStateStream(stream: Stream) returns (r: Result<(), StoreError>)
      modifies Stores()
      ensures match Requested(stream)
              case Err(e) => r == Err(e)
              case Ok((meta, data)) =>
                if meta.typeName !in backends
                  then r == Err(if meta.typeName in stores then NotConfigured else UnknownStore)
                else
                  var b := backends[meta.typeName].backend;
                  && r == Ok(())
                  && b.store.Now() == old(b.store.Now()).(states := old(b.store.states)[b.Key(meta.stateId) := data])
                  && forall s | s in Stores() && s != b.store :: s.Now() == old(s.Now())
      ensures r.Err? ==> forall s | s in Stores() :: s.Now() == old(s.Now())
    {
      var meta: Option<Meta> := None;
      var data: seq<byte> := [];
      for i := 0 to |stream|
        invariant forall j | 0 <= j < i :: stream[j].Ok?
        invariant meta == LastMeta(stream[..i]) && data == Concat(Payloads(stream[..i]))
        invariant forall s | s in Stores() :: s.Now() == old(s.Now())
      {
        if stream[i].Err? {
          FirstBreak(stream, i);
          return Err(Broken(stream[i].error));
        }
        Received(stream, i);
        if stream[i].value.meta.Some? { meta := stream[i].value.meta; }
        data := data + stream[i].value.bytes;
      }
      assert stream[..|stream|] == stream;
      if meta.None? { return Err(MissingMeta); }
      if meta.value.typeName !in backends { return Err(Unavailable(meta.value.typeName)); }
      backends[meta.value.typeName].backend.WriteState(meta.value.stateId, data);
      r := Ok(());
    }

    /** `read_state_bytes`, with its chunks in one list. */
    method ReadStateBytes(typeName: string, stateId: string) returns (r: Result<seq<ReadChunk>, StoreError>)
      ensures typeName !in backends ==> r == Err(if typeName in stores then NotConfigured else UnknownStore)
      ensures typeName in backends ==>
                && r.Ok?
                && var bytes := ReadAt(backends[typeName].backend.store.Now(), backends[typeName].backend.Key(stateId));
                   && Concat(Contents(r.value)) == bytes
                   && Covers(r.value, bytes, Positive(backends[typeName].chunkSize))
                   && r.value != [] && r.value[|r.value| - 1].end == |bytes|
                   && if bytes == [] then r.value == [ReadChunk([], 0, 0, 0)] else Contiguous(r.value)
    {
      if typeName !in backends { return Err(Unavailable(typeName)); }
      var bytes := backends[typeName].backend.ReadState(stateId);
      var chunks := ChunkState(bytes, backends[typeName].chunkSize);
      r := Ok(chunks);
    }
  }

  function Positive(n: nat): nat { if n == 0 then 1 else n }

  function OrEmpty(s: Option<string>): string { if s.Some? then s.value else "" }

  lemma {:induction false} FirstBreak(stream: Stream, i: nat)
    requires i < |stream| && stream[i].Err? && forall j | 0 <= j < i :: stream[j].Ok?
    ensures Requested(stream) == Err(Broken(stream[i].error))
  {
  }

  lemma {:induction false} Received(stream: Stream, i: nat)
    requires i < |stream| && stream[i].Ok?
    ensures LastMeta(stream[..i + 1]) ==
            if stream[i].value.meta.Some? then stream[i].value.meta else LastMeta(stream[..i])
    ensures Concat(Payloads(stream[..i + 1])) == Concat(Payloads(stream[..i])) + stream[i].value.bytes
  {
    assert stream[..i + 1][..i] == stream[..i];
    assert Payloads(stream[..i + 1])[..i] == Payloads(stream[..i]);
  }

  // --- laws -------------------------------------------------------------------

  /** A split of a state, with the metadata on its first chunk. */
  function Sent(meta: Meta, parts: seq<seq<byte>>): (stream: Stream)
    ensures |stream| == |parts|
  {
    seq(|parts|, i requires 0 <= i < |parts| => Ok(WriteChunk(if i == 0 then Some(meta) else None, parts[i])))
  }

  lemma {:induction false} SentMeta(meta: Meta, parts: seq<seq<byte>>)
    requires parts != []
    ensures LastMeta(Sent(meta, parts)) == Some(meta)
  {
    var n := |parts| - 1;
    if n > 0 {
      assert Sent(meta, parts)[..n] == Sent(meta, parts[..n]);
      SentMeta(meta, parts[..n]);
    }
  }

  /** However a state is split, the stream asks for exactly that state. */
  lemma {:induction false} SentRequests(meta: Meta, parts: seq<seq<byte>>)
    requires parts != []
    ensures Requested(Sent(meta, parts)) == Ok((meta, Concat(parts)))
  {
    SentMeta(meta, parts);
    assert Payloads(Sent(meta, parts)) == parts;
  }

  lemma {:induction false} LastMetaIs(stream: Stream, i: nat)
    requires i < |stream| && stream[i].Ok? && stream[i].value.meta.Some?
    requires forall j | i < j < |stream| :: stream[j].Ok? && stream[j].value.meta.None?
    ensures LastMeta(stream) == stream[i].value.meta
  {
    var n := |stream| - 1;
    if i < n { LastMetaIs(stream[..n], i); }
  }

  /** The chunk that last carries metadata names the target; the bytes of all of them are
      written, in order. */
  lemma {:induction false} LastMetaNames(stream: Stream, i: nat)
    requires i < |stream| && forall j | 0 <= j < |stream| :: stream[j].Ok?
    requires stream[i].value.meta.Some? && forall j | i < j < |stream| :: stream[j].value.meta.None?
    ensures Requested(stream) ==
            Ok((stream[i].value.meta.value,
                Concat(seq(|stream|, j requires 0 <= j < |stream| => stream[j].value.bytes))))
  {
    LastMetaIs(stream, i);
    assert Payloads(stream) == seq(|stream|, j requires 0 <= j < |stream| => stream[j].value.bytes);
  }

  /** A stream asks for a write exactly when no chunk is broken and one names its target. */
  lemma {:induction false} RequestsIffWhole(stream: Stream)
    ensures Requested(stream).Ok? <==>
            (forall c | c in stream :: c.Ok?) && exists c | c in stream :: c.Ok? && c.value.meta.Some?
  {
    MetaSeen(stream);
    if i :| 0 <= i < |stream| && stream[i].Err? { FirstBroken(stream, i); }
  }

  lemma {:induction false} FirstBroken(stream: Stream, i: nat)
    requires i < |stream| && stream[i].Err?
    ensures Requested(stream).Err?
  {
    if j :| 0 <= j < i && stream[j].Err? { FirstBroken(stream, j); } else { FirstBreak(stream, i); }
  }

  lemma {:induction false} MetaSeen(stream: Stream)
    ensures LastMeta(stream).Some? <==> exists c | c in stream :: c.Ok? && c.value.meta.Some?
  {
    if stream != [] {
      var n := |stream| - 1;
      MetaSeen(stream[..n]);
      assert stream == stream[..n] + [stream[n]];
    }
  }

  /** A split of a state is stored whole. */
  method WriteWhole(server: Server, meta: Meta, parts: seq<seq<byte>>)
    requires parts != [] && meta.typeName in server.backends
    modifies server.Stores()
    ensures var b := server.backends[meta.typeName].backend; ReadAt(b.store.Now(), b.Key(meta.stateId)) == Concat(parts)
  {
    SentRequests(meta, parts);
    var written := server.WriteStateStream(Sent(meta, parts));
  }

  /** A store configured again reads what is under its prefix. */
  method ReadAgain(
    codec: Codec, server: Server, typeName: string, stateId: string, prefix: Option<string>, suggested: Option<i64>)
    returns (chunks: seq<ReadChunk>)
    requires typeName in server.stores
    modifies server
    ensures Concat(Contents(chunks)) == ReadAt(server.stores[typeName].Now(), OrEmpty(prefix) + stateId)
    ensures forall c | c in chunks :: |c.bytes| <= Negotiated(suggested)
  {
    ConfigArrives(codec, prefix);
    var size := server.ConfigureStateStore(codec, typeName, SentConfig(prefix), suggested);
    var read := server.ReadStateBytes(typeName, stateId);
    chunks := read.value;
    ChunkSizes(chunks, ReadAt(server.stores[typeName].Now(), OrEmpty(prefix) + stateId), Negotiated(suggested));
  }

  /** The whole way round: a state split anyhow and written, then read back through a
      store configured again with the same prefix and any chunk size, is the state. */
  method WriteThenRead(
    codec: Codec, server: Server, meta: Meta, parts: seq<seq<byte>>, prefix: Option<string>, suggested: Option<i64>)
    returns (chunks: seq<ReadChunk>)
    requires parts != [] && meta.typeName in server.backends && meta.typeName in server.stores
    requires server.backends[meta.typeName].backend.store == server.stores[meta.typeName]
    requires server.backends[meta.typeName].backend.prefix == OrEmpty(prefix)
    modifies server, server.Stores()
    ensures Concat(Contents(chunks)) == Concat(parts)
    ensures forall c | c in chunks :: |c.bytes| <= Negotiated(suggested)
  {
    WriteWhole(server, meta, parts);
    chunks := ReadAgain(codec, server, meta.typeName, meta.stateId, prefix, suggested);
  }
}
