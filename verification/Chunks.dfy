/** State bytes in transit: splitting for a read, reassembling for a write, and the
    negotiated chunk size of a configured store. */
module Chunks {
  import opened Wrappers
  import opened Numbers
  import opened Encode
  import opened StateStore

  /** One `ReadStateBytes` response: bytes `start..end` of `total`. */
  datatype ReadChunk = ReadChunk(bytes: seq<byte>, total: nat, start: nat, end: nat)

  datatype Meta = Meta(typeName: string, stateId: string)

  /** One `WriteStateBytes` request chunk. */
  datatype WriteChunk = WriteChunk(meta: Option<Meta>, bytes: seq<byte>)

  datatype StoreError =
    | Broken(message: string)
    | MissingMeta
    | NotConfigured
    | UnknownStore
    | BadConfig(error: CodecError)

  function Concat(parts: seq<seq<byte>>): seq<byte> {
    if parts == [] then [] else Concat(parts[..|parts| - 1]) + parts[|parts| - 1]
  }

  function Contents(chunks: seq<ReadChunk>): (parts: seq<seq<byte>>)
    ensures |parts| == |chunks| && forall i | 0 <= i < |chunks| :: parts[i] == chunks[i].bytes
  {
    seq(|chunks|, i requires 0 <= i < |chunks| => chunks[i].bytes)
  }

  /** The chunk is its range of `bytes`, full unless it is the last. */
  predicate Slices(c: ReadChunk, bytes: seq<byte>, size: nat) {
    && c.start <= c.end <= |bytes| == c.total
    && c.bytes == bytes[c.start..c.end]
    && c.end == if c.start + size < |bytes| then c.start + size else |bytes|
  }

  /** The chunks cover `bytes` in order, every one full but the last. */
  ghost predicate Covers(chunks: seq<ReadChunk>, bytes: seq<byte>, size: nat) {
    && (forall i | 0 <= i < |chunks| :: Slices(chunks[i], bytes, size))
    && (forall i | 0 <= i < |chunks| :: chunks[i].start == i * size)
    && Concat(Contents(chunks)) == bytes[..if chunks == [] then 0 else chunks[|chunks| - 1].end]
  }

  /** Neighbouring chunks touch, and none is empty. */
  ghost predicate Contiguous(chunks: seq<ReadChunk>) {
    && (forall i | 0 <= i < |chunks| :: chunks[i].start < chunks[i].end)
    && forall i | 0 <= i < |chunks| - 1 :: chunks[i].end == chunks[i + 1].start
  }

  /** The chunks so far reach `start`. */
  ghost predicate Reach(chunks: seq<ReadChunk>, bytes: seq<byte>, size: nat, start: nat) {
    && Covers(chunks, bytes, size) && Contiguous(chunks) && start <= |bytes|
    && start == (if chunks == [] then 0 else chunks[|chunks| - 1].end)
    && (start < |bytes| ==> start == |chunks| * size)
  }

  function NextChunk(bytes: seq<byte>, size: nat, start: nat): ReadChunk
    requires start <= |bytes|
  {
    var end := if start + size < |bytes| then start + size else |bytes|;
    ReadChunk(bytes[start..end], |bytes|, start, end)
  }

  lemma {:induction false} ChunkSizes(chunks: seq<ReadChunk>, bytes: seq<byte>, size: nat)
    requires Covers(chunks, bytes, size)
    ensures forall c | c in chunks :: |c.bytes| <= size
  {
    forall c | c in chunks ensures |c.bytes| <= size { var i :| 0 <= i < |chunks| && chunks[i] == c; }
  }

  lemma {:induction false} ConcatMore(chunks: seq<ReadChunk>, next: ReadChunk)
    ensures Concat(Contents(chunks + [next])) == Concat(Contents(chunks)) + next.bytes
  {
    assert Contents(chunks + [next])[..|chunks|] == Contents(chunks);
  }

  lemma {:induction false} CoversMore(chunks: seq<ReadChunk>, bytes: seq<byte>, size: nat, start: nat)
    requires Covers(chunks, bytes, size) && start == |chunks| * size <= |bytes|
    requires start == if chunks == [] then 0 else chunks[|chunks| - 1].end
    ensures Covers(chunks + [NextChunk(bytes, size, start)], bytes, size)
  {
    var next := NextChunk(bytes, size, start);
    var all := chunks + [next];
    ConcatMore(chunks, next);
    assert bytes[..next.end] == bytes[..next.start] + next.bytes;
    forall i | 0 <= i < |all| ensures Slices(all[i], bytes, size) && all[i].start == i * size {
      if i < |chunks| { assert all[i] == chunks[i]; }
    }
  }

  lemma {:induction false} ReachMore(chunks: seq<ReadChunk>, bytes: seq<byte>, size: nat, start: nat)
    requires Reach(chunks, bytes, size, start) && size > 0 && start < |bytes|
    ensures Reach(chunks + [NextChunk(bytes, size, start)], bytes, size, NextChunk(bytes, size, start).end)
  {
    CoversMore(chunks, bytes, size, start);
    assert start + size == (|chunks| + 1) * size;
  }

  lemma {:induction false} ReachEnd(chunks: seq<ReadChunk>, bytes: seq<byte>, size: nat)
    requires Reach(chunks, bytes, size, |bytes|) && bytes != []
    ensures chunks != [] && chunks[|chunks| - 1].end == |bytes| && Concat(Contents(chunks)) == bytes
  {
    assert bytes[..|bytes|] == bytes;
  }

  lemma {:induction false} EmptyCovered(size: nat)
    ensures Covers([ReadChunk([], 0, 0, 0)], [], size) && Concat(Contents([ReadChunk([], 0, 0, 0)])) == []
  {
    CoversMore([], [], size, 0);
    assert [] + [ReadChunk([], 0, 0, 0)] == [ReadChunk([], 0, 0, 0)];
  }

  /** `chunk_state`. The chunks cover the state from its start to its end, each but the
      last full; an empty state is one empty chunk. */
  method ChunkState(bytes: seq<byte>, chunkSize: nat) returns (chunks: seq<ReadChunk>)
    ensures chunks != [] && Covers(chunks, bytes, if chunkSize == 0 then 1 else chunkSize)
    ensures chunks[|chunks| - 1].end == |bytes| && Concat(Contents(chunks)) == bytes
    ensures if bytes == [] then chunks == [ReadChunk([], 0, 0, 0)] else Contiguous(chunks)
  {
    var size := if chunkSize == 0 then 1 else chunkSize;
    if bytes == [] {
      EmptyCovered(size);
      return [ReadChunk([], 0, 0, 0)];
    }
    chunks := SplitState(bytes, size);
    ReachEnd(chunks, bytes, size);
  }

  /** The running start of the chunks, from zero to the total. */
  method SplitState(bytes: seq<byte>, size: nat) returns (chunks: seq<ReadChunk>)
    requires size > 0
    ensures Reach(chunks, bytes, size, |bytes|)
  {
    var start := 0;
    chunks := [];
    while start < |bytes|
      invariant Reach(chunks, bytes, size, start)
      decreases |bytes| - start
    {
      var end := if start + size < |bytes| then start + size else |bytes|;
      ReachMore(chunks, bytes, size, start);
      chunks := chunks + [ReadChunk(bytes[start..end], |bytes|, start, end)];
      start := end;
    }
  }

  /** The splitting leaves nothing open: there is one such covering of given bytes at
      a given size. */
  lemma {:induction false} CoveringUnique(a: seq<ReadChunk>, b: seq<ReadChunk>, bytes: seq<byte>, size: nat)
    requires a != [] && b != [] && Contiguous(a) && Contiguous(b)
    requires Covers(a, bytes, size) && a[|a| - 1].end == |bytes|
    requires Covers(b, bytes, size) && b[|b| - 1].end == |bytes|
    ensures a == b
  {
    NotLonger(a, b, bytes, size);
    NotLonger(b, a, bytes, size);
    forall i | 0 <= i < |a| ensures a[i] == b[i] { SameChunk(a, b, bytes, size, i); }
  }

  lemma {:induction false} SameChunk(a: seq<ReadChunk>, b: seq<ReadChunk>, bytes: seq<byte>, size: nat, i: nat)
    requires Covers(a, bytes, size) && Covers(b, bytes, size) && i < |a| && i < |b|
    ensures a[i] == b[i]
  {
    assert a[i].start == i * size == b[i].start;
  }

  lemma {:induction false} NotLonger(a: seq<ReadChunk>, b: seq<ReadChunk>, bytes: seq<byte>, size: nat)
    requires a != [] && Covers(a, bytes, size) && a[|a| - 1].end == |bytes| && Covers(b, bytes, size) && Contiguous(b)
    ensures |b| <= |a|
  {
    if |b| > |a| { BeyondEnd(a, b, bytes, size); }
  }

  lemma {:induction false} BeyondEnd(a: seq<ReadChunk>, b: seq<ReadChunk>, bytes: seq<byte>, size: nat)
    requires a != [] && Covers(a, bytes, size) && a[|a| - 1].end == |bytes| && Covers(b, bytes, size) && |b| > |a|
    ensures b[|a|].start == b[|a|].end == |bytes|
  {
    var n := |a|;
    assert n * size == (n - 1) * size + size;
    assert a[n - 1].start == (n - 1) * size && b[n].start == n * size;
  }

  // --- reassembly -------------------------------------------------------------

  type Stream = seq<Result<WriteChunk, string>>

  /** The last metadata seen; a later one overrides an earlier one. */
  function LastMeta(stream: Stream): Option<Meta> {
    if stream == [] then None
    else
      var last := stream[|stream| - 1];
      if last.Ok? && last.value.meta.Some? then last.value.meta else LastMeta(stream[..|stream| - 1])
  }

  function Payloads(stream: Stream): (parts: seq<seq<byte>>)
    ensures |parts| == |stream|
  {
    seq(|stream|, i requires 0 <= i < |stream| => if stream[i].Ok? then stream[i].value.bytes else [])
  }

  /** The write a stream asks for: a broken stream or one without metadata asks for none. */
  function Requested(stream: Stream): Result<(Meta, seq<byte>), StoreError> {
    if b :| 0 <= b < |stream| && stream[b].Err? && forall j | 0 <= j < b :: stream[j].Ok? then
      Err(Broken(stream[b].error))
    else if LastMeta(stream).None? then Err(MissingMeta)
    else Ok((LastMeta(stream).value, Concat(Payloads(stream))))
  }
}
