/** Measuring request bodies: pipe to chunker to store, as one composition of steps. */
module Measuring {
  import opened Words
  import opened TreeSpec
  import opened Bitwise
  import opened Hashing
  import opened CutSpec
  import opened Readers
  import opened FastCdc
  import opened DedupStore
  import opened BodyStream

  const DEFAULT_CONFIG: Config := Config(16 * 1024, 64 * 1024, 256 * 1024)

  lemma DefaultConfigIsValid()
    ensures ValidConfig(DEFAULT_CONFIG)
  {
  }

  function Identity(chunk: Chunk): ChunkIdentity {
    ChunkIdentity(chunk.digest, chunk.length)
  }

  function Identities(chunks: seq<Chunk>): (ids: seq<ChunkIdentity>)
    ensures |ids| == |chunks|
  {
    seq(|chunks|, i requires 0 <= i < |chunks| => Identity(chunks[i]))
  }

  /** What a complete measurement of `body` records. */
  function RequestOf(compress: Compressor, table: GearTable, body: seq<Byte>): Request {
    DefaultConfigIsValid();
    Request(|body|, Identities(Records(compress, 0, Params(DEFAULT_CONFIG, table).Chunks(body))))
  }

  lemma {:induction false} RecordedBytes(compress: Compressor, offset: nat, chunks: seq<seq<Byte>>)
    ensures SeqBytes(Identities(Records(compress, offset, chunks))) == |Flatten(chunks)|
    decreases |chunks|
  {
    hide HashBytes, SeqBytes, Identities, Record, Records;
    if chunks == [] {
      NothingRecorded(compress, offset);
    } else {
      var n, tail := |chunks[0]|, chunks[1..];
      RecordedBytes(compress, offset + n, tail);
      RecordsFromFirst(compress, offset, chunks);
      OneMoreIdentity(Record(compress, offset, chunks[0]), Records(compress, offset + n, tail));
    }
  }

  lemma NothingRecorded(compress: Compressor, offset: nat)
    ensures SeqBytes(Identities(Records(compress, offset, []))) == 0
  {
  }

  lemma RecordsFromFirst(compress: Compressor, offset: nat, chunks: seq<seq<Byte>>)
    requires chunks != []
    ensures Records(compress, offset, chunks)
         == [Record(compress, offset, chunks[0])] + Records(compress, offset + |chunks[0]|, chunks[1..])
    ensures Record(compress, offset, chunks[0]).length == |chunks[0]|
  {
    hide HashBytes;
  }

  lemma OneMoreIdentity(first: Chunk, rest: seq<Chunk>)
    ensures SeqBytes(Identities([first] + rest)) == first.length + SeqBytes(Identities(rest))
  {
    assert Identities([first] + rest) == [Identity(first)] + Identities(rest);
    SeqBytesFromFront(Identity(first), Identities(rest));
  }

  lemma {:induction false} SeqBytesFromFront(first: ChunkIdentity, rest: seq<ChunkIdentity>)
    ensures SeqBytes([first] + rest) == first.length + SeqBytes(rest)
    decreases |rest|
  {
    var all := [first] + rest;
    if rest == [] {
      assert all[..|all| - 1] == [];
    } else {
      SeqBytesFromFront(first, rest[..|rest| - 1]);
      assert all[..|all| - 1] == [first] + rest[..|rest| - 1];
    }
  }

  /** The chunks a measured request records account for every byte of its body. */
  lemma MeasuredChunksTileTheBody(compress: Compressor, table: GearTable, body: seq<Byte>)
    ensures Tiles(RequestOf(compress, table, body)) && RequestOf(compress, table, body).bodyBytes == |body|
  {
    var p := Params(DEFAULT_CONFIG, table);
    DefaultConfigIsValid();
    p.ChunksTile(body);
    RecordedBytes(compress, 0, p.Chunks(body));
  }

  /** The identity of a chunk is the digest of its bytes and their number. */
  function IdentityOf(compress: Compressor, data: seq<Byte>): ChunkIdentity {
    ChunkIdentity(HashBytes(Mode(compress, IV, 0), data, 32), |data|)
  }

  ghost function IdentitiesOf(compress: Compressor, chunks: set<seq<Byte>>): set<ChunkIdentity> {
    set data | data in chunks :: IdentityOf(compress, data)
  }

  /** The chunks of a body under the default sizes: 16, 64 and 256 KiB. */
  function ChunksOf(table: GearTable, body: seq<Byte>): seq<seq<Byte>> {
    DefaultConfigIsValid();
    Params(Config(16384, 65536, 262144), table).Chunks(body)
  }

  ghost function ChunkSet(table: GearTable, body: seq<Byte>): set<seq<Byte>> {
    set data | data in ChunksOf(table, body)
  }

  /** The request has the identity of every chunk of the body, in order. */
  ghost predicate RecordsEveryChunk(r: Request, compress: Compressor, table: GearTable, body: seq<Byte>) {
    var chunks := ChunksOf(table, body);
    && r.bodyBytes == |body| && |r.chunks| == |chunks|
    && forall i :: 0 <= i < |chunks| ==> r.chunks[i] == IdentityOf(compress, chunks[i])
  }

  lemma RequestChunks(compress: Compressor, table: GearTable, body: seq<Byte>)
    ensures RecordsEveryChunk(RequestOf(compress, table, body), compress, table, body)
  {
    hide HashBytes, Params.Chunks;
    var chunks := ChunksOf(table, body);
    forall i: nat | i < |chunks| ensures RequestOf(compress, table, body).chunks[i] == IdentityOf(compress, chunks[i]) {
      RecordsLocateChunks(compress, 0, chunks, i);
    }
  }

  lemma IdsOfRequest(compress: Compressor, table: GearTable, body: seq<Byte>)
    ensures Ids(RequestOf(compress, table, body).chunks) == IdentitiesOf(compress, ChunkSet(table, body))
  {
    hide IdentityOf, RequestOf, ChunksOf;
    RequestChunks(compress, table, body);
    var r, chunks := RequestOf(compress, table, body), ChunksOf(table, body);
    forall i: nat | i < |chunks| ensures chunks[i] in ChunkSet(table, body) && r.chunks[i] in Ids(r.chunks) {}
  }

  /** A chunk whose digest no chunk seen before has is counted as new. */
  lemma NewDigestIsNew(compress: Compressor, table: GearTable, seen: set<seq<Byte>>, body: seq<Byte>,
                       data: seq<Byte>, m: Measurement)
    requires Measures(m, IdentitiesOf(compress, seen), RequestOf(compress, table, body))
    requires data in ChunksOf(table, body)
    requires forall other :: other in seen ==>
               HashBytes(Mode(compress, IV, 0), other, 32) != HashBytes(Mode(compress, IV, 0), data, 32)
    ensures m.newChunkCount >= 1 && m.newChunkBytes >= |data|
  {
    hide HashBytes, ChunksOf, RequestOf;
    var known, ids := IdentitiesOf(compress, seen), Ids(RequestOf(compress, table, body).chunks);
    IdsOfRequest(compress, table, body);
    assert data in ChunkSet(table, body);
    assert IdentityOf(compress, data) in ids - known;
    SetBytesWithout(ids - known, IdentityOf(compress, data));
  }

  /** No two of these byte strings have the same digest. */
  ghost predicate DigestsTellApart(compress: Compressor, chunks: set<seq<Byte>>) {
    forall a, b :: a in chunks && b in chunks && IdentityOf(compress, a) == IdentityOf(compress, b) ==> a == b
  }

  lemma {:induction false} OneIdentityEach(compress: Compressor, chunks: set<seq<Byte>>)
    requires DigestsTellApart(compress, chunks)
    ensures |IdentitiesOf(compress, chunks)| == |chunks|
    decreases |chunks|
  {
    hide IdentityOf;
    if chunks != {} {
      var data :| data in chunks;
      OneIdentityEach(compress, chunks - {data});
      assert IdentitiesOf(compress, chunks) ==
             IdentitiesOf(compress, chunks - {data}) + {IdentityOf(compress, data)};
    }
  }

  /** Unless digests collide, a request's new chunks are exactly the distinct chunks not seen before; all
      others are reusable, and the cache then has what was seen and what came with the request. */
  lemma NewChunksAreUnseen(compress: Compressor, table: GearTable, seen: set<seq<Byte>>, body: seq<Byte>,
                           m: Measurement)
    requires Measures(m, IdentitiesOf(compress, seen), RequestOf(compress, table, body))
    requires DigestsTellApart(compress, seen + ChunkSet(table, body))
    ensures m.newChunkCount == |ChunkSet(table, body) - seen|
    ensures m.newChunkBytes == SetBytes(IdentitiesOf(compress, ChunkSet(table, body) - seen))
    ensures m.chunkCount == |ChunksOf(table, body)| == m.newChunkCount + m.reusableChunkCount
    ensures m.bodyBytes == |body| == m.newChunkBytes + m.reusableChunkBytes
    ensures m.simulatedCacheChunks == |seen + ChunkSet(table, body)|
    ensures m.simulatedCacheBytes == SetBytes(IdentitiesOf(compress, seen + ChunkSet(table, body)))
  {
    hide IdentityOf, ChunksOf, RequestOf, SetBytes, SeqBytes;
    RequestChunks(compress, table, body);
    MeasuredChunksTileTheBody(compress, table, body);
    var chunks := ChunkSet(table, body);
    IdsOfRequest(compress, table, body);
    assert IdentitiesOf(compress, chunks) - IdentitiesOf(compress, seen) == IdentitiesOf(compress, chunks - seen);
    OneIdentityEach(compress, chunks - seen);
    assert IdentitiesOf(compress, seen) + IdentitiesOf(compress, chunks) == IdentitiesOf(compress, seen + chunks);
    OneIdentityEach(compress, seen + chunks);
  }

  /** The requests of a row of bodies, and all their distinct chunks. */
  function RequestsOf(compress: Compressor, table: GearTable, bodies: seq<seq<Byte>>): (rs: seq<Request>)
    ensures |rs| == |bodies|
  {
    seq(|bodies|, i requires 0 <= i < |bodies| => RequestOf(compress, table, bodies[i]))
  }

  ghost function DistinctChunks(table: GearTable, bodies: seq<seq<Byte>>): set<seq<Byte>> {
    if bodies == [] then {} else ChunkSet(table, bodies[0]) + DistinctChunks(table, bodies[1..])
  }

  lemma {:induction false} SeenAfter(compress: Compressor, table: GearTable, bodies: seq<seq<Byte>>)
    ensures HistoryIds(RequestsOf(compress, table, bodies)) == IdentitiesOf(compress, DistinctChunks(table, bodies))
    decreases |bodies|
  {
    hide RequestOf, IdentityOf, ChunkSet;
    if bodies != [] {
      var first, rest := RequestOf(compress, table, bodies[0]), RequestsOf(compress, table, bodies[1..]);
      assert RequestsOf(compress, table, bodies) == [first] + rest;
      FirstRequestIds(first, rest);
      IdsOfRequest(compress, table, bodies[0]);
      SeenAfter(compress, table, bodies[1..]);
    }
  }

  lemma FirstRequestIds(first: Request, rest: seq<Request>)
    ensures HistoryIds([first] + rest) == Ids(first.chunks) + HistoryIds(rest)
  {
    var all := [first] + rest;
    assert all[0] == first && all[1..] == rest;
    forall r ensures r in all <==> r == first || r in rest {}
  }

  /** Unless digests collide, the cache holds one entry for every distinct chunk of all bodies measured. */
  lemma CacheHoldsDistinctChunks(compress: Compressor, table: GearTable, bodies: seq<seq<Byte>>, s: Snapshot)
    requires Shows(s, RequestsOf(compress, table, bodies))
    requires DigestsTellApart(compress, DistinctChunks(table, bodies))
    ensures s.simulatedCacheChunks == |DistinctChunks(table, bodies)| % TWO_64
    ensures s.measuredRequestCount == |bodies| % TWO_64
  {
    hide IdentityOf, RequestOf, ChunkSet, SetBytes;
    SeenAfter(compress, table, bodies);
    OneIdentityEach(compress, DistinctChunks(table, bodies));
    SnapshotCounts(s, RequestsOf(compress, table, bodies));
    TallyOfAllChunks(RequestsOf(compress, table, bodies));
  }

  datatype MeasureResult = Measured(measurement: Measurement) | MeasureFailed(err: Ending)

  /** Chunks whatever the reader delivers; only a stream that ends, rather than fails, is recorded. */
  method MeasureRequestBody(compress: Compressor, table: GearTable, reader: Reader, store: Store)
    returns (r: MeasureResult)
    requires store.Valid() && |reader.Remaining()| < TWO_64
    modifies reader, store
    ensures store.Valid()
    ensures reader.ending.Failure? ==>
              r == MeasureFailed(reader.ending) && store.history == old(store.history)
              && store.snapshot == old(store.snapshot) && store.chunks == old(store.chunks)
    ensures !reader.ending.Failure? ==>
              var request := RequestOf(compress, table, old(reader.Remaining()));
              && store.history == old(store.history) + [request]
              && r.Measured? && Reports(r.measurement, old(store.chunks), request)
              && r.measurement.newChunkBytes + r.measurement.reusableChunkBytes == r.measurement.bodyBytes
              && RecordsEveryChunk(request, compress, table, old(reader.Remaining()))
  {
    ghost var body := reader.Remaining();
    DefaultConfigIsValid();
    var created := NewChunker(compress, table, reader, DEFAULT_CONFIG);
    var chunker := created.chunker;
    var chunks, err := CollectChunks(chunker);
    if err.Some? {
      return MeasureFailed(err.value);
    }
    var summary, complete := chunker.Summary();
    assert complete;
    chunker.params.CleanEndEmitsAll(body);
    MeasuredChunksTileTheBody(compress, table, body);
    ghost var known := store.chunks;
    var measurement := store.RecordRequest(summary.totalSize, Identities(chunks));
    RequestChunks(compress, table, body);
    BodyBytesAreConserved(measurement, known, RequestOf(compress, table, body));
    r := Measured(measurement);
  }

  /** One streamed request: the provider reads, the handler closes, the measurement consumes the pipe. */
  method MeasureStreamedBody(compress: Compressor, table: GearTable, expected: int, arrivals: seq<SourceRead>,
                             store: Store)
    returns (r: MeasureResult)
    requires store.Valid() && |AllData(arrivals)| < TWO_64
    modifies store
    ensures store.Valid()
    ensures var run := RunOf(expected, 0, arrivals);
            if run.ending.Failure? then
              && store.history == old(store.history) && store.snapshot == old(store.snapshot)
              && r == MeasureFailed(run.ending)
            else
              store.history == old(store.history) + [RequestOf(compress, table, run.body)] && r.Measured?
  {
    var pipe := new Pipe(None);
    var stream := new MeasuredBodyStream(pipe, expected);
    Drive(stream, arrivals);
    ghost var run := RunOf(expected, 0, arrivals);
    assert pipe.accepted == run.body;
    var reader := new Reader([pipe.accepted], pipe.ending.value, false);
    assert Flatten([pipe.accepted]) == pipe.accepted + Flatten([]) == pipe.accepted;
    r := MeasureRequestBody(compress, table, reader, store);
  }

  /** A request leaves a trace in the store exactly when the pipe does not end in a failure. */
  predicate Recorded(expected: int, arrivals: seq<SourceRead>) {
    !RunOf(expected, 0, arrivals).ending.Failure?
  }

  /** These bytes are a whole body: as many as announced from the front of what the source delivers, or,
      if no length was announced, everything up to the end the source itself reports. */
  predicate WholeBody(expected: int, arrivals: seq<SourceRead>, body: seq<Byte>) {
    if expected >= 0 then |body| == expected && body <= UpToEnd(arrivals)
    else body == UpToEnd(arrivals) && FirstError(arrivals) == Some(EOF)
  }

  /** A truncated body does get recorded: five bytes announced, three delivered before the end. */
  lemma TruncatedBodyIsRecorded()
    ensures Recorded(5, [SourceRead([1, 2, 3], Some(EOF))])
    ensures RunOf(5, 0, [SourceRead([1, 2, 3], Some(EOF))]).body == [1, 2, 3]
    ensures !WholeBody(5, [SourceRead([1, 2, 3], Some(EOF))], [1, 2, 3])
  {
  }

  /** Only whole bodies are recorded exactly for sources that keep their promise or report a genuine failure. */
  lemma RecordedOnlyWhenWhole(expected: int, arrivals: seq<SourceRead>)
    ensures (Recorded(expected, arrivals) ==> WholeBody(expected, arrivals, RunOf(expected, 0, arrivals).body)) <==>
            KeepsPromise(expected, 0, arrivals) || (FirstError(arrivals).Some? && FirstError(arrivals).value.Failure?)
  {
    PipeCarriesTheSource(expected, 0, arrivals);
    CleanCloseIsComplete(expected, 0, arrivals);
    FailureIsPassedOn(expected, 0, arrivals);
  }
}
