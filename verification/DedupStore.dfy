/** The simulated remote cache: which chunks have been seen, and cumulative counts. */
module DedupStore {
  import opened Words
  import opened Bitwise

  datatype ChunkIdentity = ChunkIdentity(digest: seq<Byte>, length: nat)
  datatype Request = Request(bodyBytes: nat, chunks: seq<ChunkIdentity>)

  datatype Snapshot = Snapshot(
    measuredRequestCount: nat, bodyBytes: nat, chunkCount: nat, newChunkBytes: nat, reusableChunkBytes: nat,
    newChunkCount: nat, reusableChunkCount: nat, simulatedCacheBytes: nat, simulatedCacheChunks: nat)

  datatype Measurement = Measurement(
    bodyBytes: nat, chunkCount: nat, newChunkBytes: nat, reusableChunkBytes: nat,
    newChunkCount: nat, reusableChunkCount: nat, simulatedCacheBytes: nat, simulatedCacheChunks: nat)

  /** Total length of distinct chunks. */
  ghost function SetBytes(ids: set<ChunkIdentity>): nat {
    if ids == {} then 0
    else
      var c :| c in ids;
      c.length + SetBytes(ids - {c})
  }

  lemma {:induction false} SetBytesWithout(ids: set<ChunkIdentity>, c: ChunkIdentity)
    requires c in ids
    ensures SetBytes(ids) == c.length + SetBytes(ids - {c})
    decreases |ids|
  {
    var d :| d in ids && SetBytes(ids) == d.length + SetBytes(ids - {d});
    if d != c {
      SetBytesWithout(ids - {d}, c);
      SetBytesWithout(ids - {c}, d);
      assert ids - {d} - {c} == ids - {c} - {d};
    }
  }

  /** Total length of chunks, repetitions included. */
  function SeqBytes(chunks: seq<ChunkIdentity>): nat {
    if chunks == [] then 0 else SeqBytes(chunks[..|chunks| - 1]) + chunks[|chunks| - 1].length
  }

  ghost function Ids(chunks: seq<ChunkIdentity>): set<ChunkIdentity> {
    set c | c in chunks
  }

  ghost function HistoryIds(history: seq<Request>): set<ChunkIdentity> {
    set r, c | r in history && c in r.chunks :: c
  }

  datatype Tally = Tally(requests: nat, bodyBytes: nat, chunkCount: nat, chunkBytes: nat)

  /** Plain sums over the requests. */
  function Tallied(history: seq<Request>): Tally {
    if history == [] then Tally(0, 0, 0, 0)
    else Plus(Tallied(history[..|history| - 1]), history[|history| - 1])
  }

  function Plus(t: Tally, r: Request): Tally {
    Tally(t.requests + 1, t.bodyBytes + r.bodyBytes, t.chunkCount + |r.chunks|, t.chunkBytes + SeqBytes(r.chunks))
  }

  /** What the cumulative counters say about the requests recorded, in whatever order. */
  ghost predicate Describes(s: Snapshot, history: seq<Request>) {
    var ids, t := HistoryIds(history), Tallied(history);
    && s.measuredRequestCount == t.requests
    && s.bodyBytes == t.bodyBytes
    && s.chunkCount == t.chunkCount == s.newChunkCount + s.reusableChunkCount
    && t.chunkBytes == s.newChunkBytes + s.reusableChunkBytes
    && s.newChunkBytes == s.simulatedCacheBytes == SetBytes(ids)
    && s.newChunkCount == s.simulatedCacheChunks == |ids|
  }

  /** What one request's counters say, given the chunks known before. */
  ghost predicate Measures(m: Measurement, known: set<ChunkIdentity>, r: Request) {
    var fresh' := Ids(r.chunks) - known;
    && m.bodyBytes == r.bodyBytes
    && m.chunkCount == |r.chunks| == m.newChunkCount + m.reusableChunkCount
    && SeqBytes(r.chunks) == m.newChunkBytes + m.reusableChunkBytes
    && m.newChunkBytes == SetBytes(fresh') && m.newChunkCount == |fresh'|
    && m.simulatedCacheBytes == SetBytes(known + Ids(r.chunks)) && m.simulatedCacheChunks == |known + Ids(r.chunks)|
  }

  /** `+=` on an unsigned 64-bit counter. */
  function Added(a: nat, b: nat): uint64 {
    (a + b) % TWO_64
  }

  /** The counters as 64-bit words. */
  function SnapshotWords(s: Snapshot): Snapshot {
    Snapshot(s.measuredRequestCount % TWO_64, s.bodyBytes % TWO_64, s.chunkCount % TWO_64,
             s.newChunkBytes % TWO_64, s.reusableChunkBytes % TWO_64, s.newChunkCount % TWO_64,
             s.reusableChunkCount % TWO_64, s.simulatedCacheBytes % TWO_64, s.simulatedCacheChunks % TWO_64)
  }

  function MeasurementWords(m: Measurement): Measurement {
    Measurement(m.bodyBytes % TWO_64, m.chunkCount % TWO_64, m.newChunkBytes % TWO_64,
                m.reusableChunkBytes % TWO_64, m.newChunkCount % TWO_64, m.reusableChunkCount % TWO_64,
                m.simulatedCacheBytes % TWO_64, m.simulatedCacheChunks % TWO_64)
  }

  /** The cumulative counters are right, up to wrap-around. */
  ghost predicate Shows(s: Snapshot, history: seq<Request>) {
    exists e :: Describes(e, history) && s == SnapshotWords(e)
  }

  /** The counters of one request are right, up to wrap-around. */
  ghost predicate Reports(m: Measurement, known: set<ChunkIdentity>, r: Request) {
    exists e :: Measures(e, known, r) && m == MeasurementWords(e)
  }

  lemma AddedWords(a: nat, b: nat)
    ensures Added(a % TWO_64, b % TWO_64) == Added(a % TWO_64, b) == (a + b) % TWO_64
  {
    AddMultiple(TWO_64, a / TWO_64, a % TWO_64 + b);
    AddMultiple(TWO_64, b / TWO_64, a % TWO_64 + b % TWO_64);
  }

  predicate Tiles(r: Request) {
    SeqBytes(r.chunks) == r.bodyBytes
  }

  /** When the chunks tile the body, every body byte is counted once, as new or as reusable. */
  lemma BodyBytesAreConserved(m: Measurement, known: set<ChunkIdentity>, r: Request)
    requires Reports(m, known, r) && Tiles(r)
    ensures Added(m.newChunkBytes, m.reusableChunkBytes) == m.bodyBytes
    ensures r.bodyBytes < TWO_64 ==> m.newChunkBytes + m.reusableChunkBytes == m.bodyBytes == r.bodyBytes
  {
    hide SetBytes, SeqBytes, Ids;
    var e :| Measures(e, known, r) && m == MeasurementWords(e);
    AddedWords(e.newChunkBytes, e.reusableChunkBytes);
  }

  lemma {:induction false} TilingAddsUp(history: seq<Request>)
    requires forall r :: r in history ==> Tiles(r)
    ensures Tallied(history).chunkBytes == Tallied(history).bodyBytes
  {
    if history != [] {
      var n := |history| - 1;
      assert forall r :: r in history[..n] ==> r in history;
      TilingAddsUp(history[..n]);
      assert Tiles(history[n]);
    }
  }

  /** All chunks of all requests, one after the other. */
  function AllChunks(history: seq<Request>): seq<ChunkIdentity> {
    if history == [] then [] else history[0].chunks + AllChunks(history[1..])
  }

  function AllBodyBytes(history: seq<Request>): nat {
    if history == [] then 0 else history[0].bodyBytes + AllBodyBytes(history[1..])
  }

  lemma {:induction false} AllChunksGrow(history: seq<Request>, r: Request)
    ensures AllChunks(history + [r]) == AllChunks(history) + r.chunks
    ensures AllBodyBytes(history + [r]) == AllBodyBytes(history) + r.bodyBytes
  {
    var h := history + [r];
    if history == [] {
      assert h[1..] == [];
    } else {
      assert h[1..] == history[1..] + [r];
      AllChunksGrow(history[1..], r);
    }
  }

  lemma {:induction false} SeqBytesAdd(a: seq<ChunkIdentity>, b: seq<ChunkIdentity>)
    ensures SeqBytes(a + b) == SeqBytes(a) + SeqBytes(b)
    decreases |b|
  {
    if b == [] {
      assert a + b == a;
    } else {
      var n := |b| - 1;
      assert (a + b)[..|a| + n] == a + b[..n];
      SeqBytesAdd(a, b[..n]);
    }
  }

  /** The sums over the requests are those over all their chunks in one row. */
  lemma {:induction false} TallyOfAllChunks(history: seq<Request>)
    ensures Tallied(history) ==
            Tally(|history|, AllBodyBytes(history), |AllChunks(history)|, SeqBytes(AllChunks(history)))
    ensures HistoryIds(history) == Ids(AllChunks(history))
  {
    if history != [] {
      var init, r := history[..|history| - 1], history[|history| - 1];
      assert history == init + [r];
      hide Tallied, HistoryIds, AllChunks, SeqBytes, AllBodyBytes;
      TallyOfAllChunks(init);
      AllChunksGrow(init, r);
      SeqBytesAdd(AllChunks(init), r.chunks);
      HistoryGrows(init, r);
    }
  }

  /** The total length of distinct chunks is the plain sum of any list of them without repetitions. */
  lemma {:induction false} DistinctBytesAddUp(chunks: seq<ChunkIdentity>)
    requires forall i, j :: 0 <= i < j < |chunks| ==> chunks[i] != chunks[j]
    ensures SetBytes(Ids(chunks)) == SeqBytes(chunks)
  {
    if chunks != [] {
      hide SetBytes;
      var n := |chunks| - 1;
      DistinctBytesAddUp(chunks[..n]);
      SetBytesWith(Ids(chunks[..n]), chunks[n]);
      assert chunks == chunks[..n] + [chunks[n]];
      assert Ids(chunks) == Ids(chunks[..n]) + {chunks[n]};
    } else {
      assert Ids(chunks) == {};
    }
  }

  /** What a snapshot shows of the requests and all their chunks in one row. */
  lemma SnapshotCounts(s: Snapshot, history: seq<Request>)
    requires Shows(s, history)
    ensures s.measuredRequestCount == |history| % TWO_64 && s.bodyBytes == AllBodyBytes(history) % TWO_64
    ensures s.chunkCount == |AllChunks(history)| % TWO_64 == Added(s.newChunkCount, s.reusableChunkCount)
    ensures s.newChunkCount == s.simulatedCacheChunks == |Ids(AllChunks(history))| % TWO_64
    ensures s.newChunkBytes == s.simulatedCacheBytes == SetBytes(Ids(AllChunks(history))) % TWO_64
    ensures Added(s.newChunkBytes, s.reusableChunkBytes) == SeqBytes(AllChunks(history)) % TWO_64
  {
    hide HistoryIds, SetBytes, SeqBytes, Tallied, Ids, AllChunks, AllBodyBytes;
    var e :| Describes(e, history) && s == SnapshotWords(e);
    TallyOfAllChunks(history);
    AddedWords(e.newChunkBytes, e.reusableChunkBytes);
    AddedWords(e.newChunkCount, e.reusableChunkCount);
  }

  /** In every state the cache holds exactly the new bytes, and when the chunks of every
      request tiled its body, new and reusable bytes together are all body bytes. */
  lemma CumulativeBytesAreConserved(s: Snapshot, history: seq<Request>)
    requires Shows(s, history)
    ensures s.simulatedCacheBytes == s.newChunkBytes == SetBytes(HistoryIds(history)) % TWO_64
    ensures s.simulatedCacheChunks == s.newChunkCount == |HistoryIds(history)| % TWO_64
    ensures (forall r :: r in history ==> Tiles(r)) ==>
              && Added(s.newChunkBytes, s.reusableChunkBytes) == s.bodyBytes
              && (Tallied(history).bodyBytes < TWO_64 ==> s.newChunkBytes + s.reusableChunkBytes == s.bodyBytes)
  {
    hide HistoryIds, SetBytes, SeqBytes, Tallied;
    var e :| Describes(e, history) && s == SnapshotWords(e);
    AddedWords(e.newChunkBytes, e.reusableChunkBytes);
    if forall r :: r in history ==> Tiles(r) {
      TilingAddsUp(history);
    }
  }

  lemma PlusCommutes(t: Tally, a: Request, b: Request)
    ensures Plus(Plus(t, a), b) == Plus(Plus(t, b), a)
  {
  }

  function Without(s: seq<Request>, i: nat): (r: seq<Request>)
    requires i < |s|
    ensures |r| == |s| - 1
  {
    s[..i] + s[i + 1..]
  }

  lemma {:induction false} TallyWithout(history: seq<Request>, i: nat)
    requires i < |history|
    ensures Tallied(history) == Plus(Tallied(Without(history, i)), history[i])
    decreases |history|
  {
    hide SeqBytes, Plus;
    var n := |history| - 1;
    var init := history[..n];
    if i == n {
      assert Without(history, i) == init;
    } else {
      TallyWithout(init, i);
      LastStays(history, i);
      assert init[i] == history[i];
      PlusCommutes(Tallied(Without(init, i)), history[i], history[n]);
    }
  }

  lemma LastStays(history: seq<Request>, i: nat)
    requires i < |history| - 1
    ensures var n := |history| - 1;
            Tallied(Without(history, i)) == Plus(Tallied(Without(history[..n], i)), history[n])
  {
    var n, without := |history| - 1, Without(history, i);
    assert without[..n - 1] == Without(history[..n], i);
  }

  lemma WithoutOne(s: seq<Request>, i: nat)
    requires i < |s|
    ensures multiset(Without(s, i)) == multiset(s) - multiset{s[i]}
  {
    assert s == s[..i] + [s[i]] + s[i + 1..];
  }

  lemma {:induction false} TallyIgnoresOrder(a: seq<Request>, b: seq<Request>)
    requires multiset(a) == multiset(b)
    ensures Tallied(a) == Tallied(b)
    decreases |a|
  {
    if a == [] {
      assert |multiset(b)| == 0;
    } else {
      hide Plus, SeqBytes, Without, Tallied;
      assert a[0] in multiset(b);
      var i: nat :| i < |b| && b[i] == a[0];
      WithoutOne(a, 0);
      WithoutOne(b, i);
      TallyIgnoresOrder(Without(a, 0), Without(b, i));
      TallyWithout(a, 0);
      TallyWithout(b, i);
    }
  }

  /** The cumulative counters are the same for every order of the same requests. */
  lemma OrderDoesNotMatter(s: Snapshot, s': Snapshot, history: seq<Request>, history': seq<Request>)
    requires Shows(s, history) && Shows(s', history') && multiset(history) == multiset(history')
    ensures s == s'
  {
    hide Describes, SnapshotWords, HistoryIds, Tallied, SetBytes;
    var e :| Describes(e, history) && s == SnapshotWords(e);
    var e' :| Describes(e', history') && s' == SnapshotWords(e');
    TallyIgnoresOrder(history, history');
    SameIds(history, history');
    DescriptionIsUnique(e, e', history, history');
  }

  lemma SameIds(history: seq<Request>, history': seq<Request>)
    requires multiset(history) == multiset(history')
    ensures HistoryIds(history) == HistoryIds(history')
  {
    assert forall r :: r in history <==> r in multiset(history);
    assert forall r :: r in history' <==> r in multiset(history');
  }

  lemma DescriptionIsUnique(e: Snapshot, e': Snapshot, history: seq<Request>, history': seq<Request>)
    requires Describes(e, history) && Describes(e', history')
    requires Tallied(history) == Tallied(history') && HistoryIds(history) == HistoryIds(history')
    ensures e == e'
  {
    hide Tallied, HistoryIds, SetBytes;
  }

  lemma SetBytesWith(ids: set<ChunkIdentity>, c: ChunkIdentity)
    requires c !in ids
    ensures SetBytes(ids + {c}) == SetBytes(ids) + c.length
  {
    SetBytesWithout(ids + {c}, c);
    assert ids + {c} - {c} == ids;
  }

  class Store {
    var chunks: set<ChunkIdentity>
    var snapshot: Snapshot
    ghost var history: seq<Request>

    ghost predicate Valid()
      reads this
    {
      chunks == HistoryIds(history) && Shows(snapshot, history)
    }

    constructor ()
      ensures Valid() && history == []
    {
      chunks, snapshot, history := {}, Snapshot(0, 0, 0, 0, 0, 0, 0, 0, 0), [];
      new;
      NothingRecorded(snapshot);
    }

    method RecordRequest(bodyBytes: uint64, requestChunks: seq<ChunkIdentity>) returns (m: Measurement)
      requires Valid()
      modifies this
      ensures Valid() && history == old(history) + [Request(bodyBytes, requestChunks)]
      ensures Reports(m, old(chunks), Request(bodyBytes, requestChunks))
    {
      hide SetBytes, SeqBytes, Ids, Describes, HistoryIds, Counted, Measures, Added, MeasurementWords, SnapshotWords;
      ghost var known, r := chunks, Request(bodyBytes, requestChunks);
      ghost var before :| Describes(before, history) && snapshot == SnapshotWords(before);
      ghost var exact := Measurement(bodyBytes, |requestChunks|, 0, 0, 0, 0, 0, 0);
      m := Measurement(bodyBytes, |requestChunks| % TWO_64, 0, 0, 0, 0, 0, 0);
      SnapshotSizes(before, history);
      NothingCounted(exact, known, requestChunks[..0], r);
      CounterWords(before, exact, 0);
      var i := 0;
      while i < |requestChunks|
        invariant i <= |requestChunks| && history == old(history)
        invariant Counted(exact, known, requestChunks[..i], r, chunks) && m == MeasurementWords(exact)
        invariant snapshot == SnapshotWords(before).(simulatedCacheBytes := SetBytes(chunks) % TWO_64)
      {
        var chunk := requestChunks[i];
        CountOne(exact, known, r, i, chunks);
        CounterWords(before, exact, chunk.length);
        if chunk in chunks {
          m := m.(reusableChunkBytes := Added(m.reusableChunkBytes, chunk.length),
                  reusableChunkCount := Added(m.reusableChunkCount, 1));
          exact := exact.(reusableChunkBytes := exact.reusableChunkBytes + chunk.length,
                          reusableChunkCount := exact.reusableChunkCount + 1);
        } else {
          SetBytesWith(chunks, chunk);
          AddedWords(SetBytes(chunks), chunk.length);
          chunks := chunks + {chunk};
          m := m.(newChunkBytes := Added(m.newChunkBytes, chunk.length), newChunkCount := Added(m.newChunkCount, 1));
          exact := exact.(newChunkBytes := exact.newChunkBytes + chunk.length,
                          newChunkCount := exact.newChunkCount + 1);
          snapshot := snapshot.(simulatedCacheBytes := Added(snapshot.simulatedCacheBytes, chunk.length));
        }
        i := i + 1;
      }
      AllCounted(exact, known, r, chunks, i);
      m := m.(simulatedCacheChunks := |chunks| % TWO_64, simulatedCacheBytes := snapshot.simulatedCacheBytes);
      snapshot := snapshot.(measuredRequestCount := Added(snapshot.measuredRequestCount, 1),
                            bodyBytes := Added(snapshot.bodyBytes, m.bodyBytes),
                            chunkCount := Added(snapshot.chunkCount, m.chunkCount),
                            newChunkBytes := Added(snapshot.newChunkBytes, m.newChunkBytes),
                            reusableChunkBytes := Added(snapshot.reusableChunkBytes, m.reusableChunkBytes),
                            newChunkCount := Added(snapshot.newChunkCount, m.newChunkCount),
                            reusableChunkCount := Added(snapshot.reusableChunkCount, m.reusableChunkCount),
                            simulatedCacheChunks := m.simulatedCacheChunks);
      CacheWords(exact, SetBytes(chunks), |chunks|);
      exact := exact.(simulatedCacheChunks := |chunks|, simulatedCacheBytes := SetBytes(chunks));
      Accumulates(before, history, r, exact, m, snapshot);
      HistoryGrows(history, r);
      history := history + [r];
    }
  }

  lemma NothingRecorded(s: Snapshot)
    requires s == Snapshot(0, 0, 0, 0, 0, 0, 0, 0, 0)
    ensures HistoryIds([]) == {} && Shows(s, [])
  {
    assert Describes(s, []) && s == SnapshotWords(s);
  }

  /** The words of the counters before and after one more chunk. */
  lemma CounterWords(s: Snapshot, m: Measurement, n: nat)
    ensures m.bodyBytes < TWO_64 && m.newChunkBytes == m.reusableChunkBytes == m.newChunkCount == m.reusableChunkCount
              == m.simulatedCacheBytes == m.simulatedCacheChunks == 0 ==>
              MeasurementWords(m) == m.(chunkCount := m.chunkCount % TWO_64)
    ensures var w := MeasurementWords(m);
            && MeasurementWords(m.(reusableChunkBytes := m.reusableChunkBytes + n,
                                   reusableChunkCount := m.reusableChunkCount + 1))
               == w.(reusableChunkBytes := Added(w.reusableChunkBytes, n),
                     reusableChunkCount := Added(w.reusableChunkCount, 1))
            && MeasurementWords(m.(newChunkBytes := m.newChunkBytes + n, newChunkCount := m.newChunkCount + 1))
               == w.(newChunkBytes := Added(w.newChunkBytes, n), newChunkCount := Added(w.newChunkCount, 1))
    ensures SnapshotWords(s).(simulatedCacheBytes := s.simulatedCacheBytes % TWO_64) == SnapshotWords(s)
  {
    AddedWords(m.reusableChunkBytes, n);
    AddedWords(m.reusableChunkCount, 1);
    AddedWords(m.newChunkBytes, n);
    AddedWords(m.newChunkCount, 1);
  }

  lemma CacheWords(m: Measurement, bytes: nat, count: nat)
    ensures MeasurementWords(m.(simulatedCacheChunks := count, simulatedCacheBytes := bytes)) ==
            MeasurementWords(m).(simulatedCacheChunks := count % TWO_64, simulatedCacheBytes := bytes % TWO_64)
  {
  }

  function SumUp(s: Snapshot, m: Measurement): Snapshot {
    Snapshot(s.measuredRequestCount + 1, s.bodyBytes + m.bodyBytes, s.chunkCount + m.chunkCount,
             s.newChunkBytes + m.newChunkBytes, s.reusableChunkBytes + m.reusableChunkBytes,
             s.newChunkCount + m.newChunkCount, s.reusableChunkCount + m.reusableChunkCount,
             m.simulatedCacheBytes, m.simulatedCacheChunks)
  }

  /** The same on 64-bit counters. */
  function AddedUp(s: Snapshot, m: Measurement): Snapshot {
    Snapshot(Added(s.measuredRequestCount, 1), Added(s.bodyBytes, m.bodyBytes), Added(s.chunkCount, m.chunkCount),
             Added(s.newChunkBytes, m.newChunkBytes), Added(s.reusableChunkBytes, m.reusableChunkBytes),
             Added(s.newChunkCount, m.newChunkCount), Added(s.reusableChunkCount, m.reusableChunkCount),
             m.simulatedCacheBytes, m.simulatedCacheChunks)
  }

  lemma SumUpWords(s: Snapshot, m: Measurement)
    ensures SnapshotWords(SumUp(s, m)) == AddedUp(SnapshotWords(s), MeasurementWords(m))
  {
    AddedWords(s.measuredRequestCount, 1);
    AddedWords(s.bodyBytes, m.bodyBytes);
    AddedWords(s.chunkCount, m.chunkCount);
    AddedWords(s.newChunkBytes, m.newChunkBytes);
    AddedWords(s.reusableChunkBytes, m.reusableChunkBytes);
    AddedWords(s.newChunkCount, m.newChunkCount);
    AddedWords(s.reusableChunkCount, m.reusableChunkCount);
  }

  lemma SnapshotSizes(s: Snapshot, history: seq<Request>)
    requires Describes(s, history)
    ensures s.simulatedCacheBytes == SetBytes(HistoryIds(history))
    ensures s.simulatedCacheChunks == |HistoryIds(history)|
  {
  }

  /** The counters after the chunks in `part`, when `known` has grown to `cache`. */
  ghost predicate Counted(m: Measurement, known: set<ChunkIdentity>, part: seq<ChunkIdentity>, r: Request,
                          cache: set<ChunkIdentity>) {
    var fresh' := Ids(part) - known;
    && cache == known + Ids(part)
    && m.bodyBytes == r.bodyBytes && m.chunkCount == |r.chunks|
    && m.newChunkBytes == SetBytes(fresh') && m.newChunkCount == |fresh'|
    && m.newChunkBytes + m.reusableChunkBytes == SeqBytes(part)
    && m.newChunkCount + m.reusableChunkCount == |part|
    && SetBytes(cache) == SetBytes(known) + m.newChunkBytes && |cache| == |known| + m.newChunkCount
  }

  lemma NothingCounted(m: Measurement, known: set<ChunkIdentity>, none: seq<ChunkIdentity>, r: Request)
    requires none == [] && m == Measurement(r.bodyBytes, |r.chunks|, 0, 0, 0, 0, 0, 0)
    ensures Counted(m, known, none, r, known)
  {
    assert Ids(none) == {} == Ids(none) - known && known + Ids(none) == known;
  }

  lemma CountOne(m: Measurement, known: set<ChunkIdentity>, r: Request, i: nat, cache: set<ChunkIdentity>)
    requires i < |r.chunks| && Counted(m, known, r.chunks[..i], r, cache)
    ensures r.chunks[i] in cache ==>
              Counted(m.(reusableChunkBytes := m.reusableChunkBytes + r.chunks[i].length,
                         reusableChunkCount := m.reusableChunkCount + 1), known, r.chunks[..i + 1], r, cache)
    ensures r.chunks[i] !in cache ==>
              Counted(m.(newChunkBytes := m.newChunkBytes + r.chunks[i].length,
                         newChunkCount := m.newChunkCount + 1), known, r.chunks[..i + 1], r, cache + {r.chunks[i]})
  {
    hide SetBytes, SeqBytes, Ids;
    var chunk := r.chunks[i];
    OneMore(known, r.chunks, i);
    if chunk !in cache {
      SetBytesWith(cache, chunk);
      SetBytesWith(Ids(r.chunks[..i]) - known, chunk);
    }
  }

  lemma AllCounted(m: Measurement, known: set<ChunkIdentity>, r: Request, cache: set<ChunkIdentity>, n: nat)
    requires n == |r.chunks| && Counted(m, known, r.chunks[..n], r, cache)
    ensures cache == known + Ids(r.chunks)
    ensures SetBytes(cache) == SetBytes(known) + m.newChunkBytes && |cache| == |known| + m.newChunkCount
    ensures Measures(m.(simulatedCacheChunks := |cache|, simulatedCacheBytes := SetBytes(cache)), known, r)
  {
    hide SetBytes, SeqBytes, Ids;
    assert r.chunks[..n] == r.chunks;
  }

  /** Adding a request's counters to the cumulative ones keeps them right. */
  lemma Accumulates(e: Snapshot, history: seq<Request>, r: Request, exact: Measurement, m: Measurement, s: Snapshot)
    requires Describes(e, history) && Measures(exact, HistoryIds(history), r)
    requires exact.simulatedCacheBytes == e.simulatedCacheBytes + exact.newChunkBytes
    requires exact.simulatedCacheChunks == e.simulatedCacheChunks + exact.newChunkCount
    requires m == MeasurementWords(exact)
    requires s == AddedUp(SnapshotWords(e), m)
    ensures Shows(s, history + [r])
    ensures Reports(m, HistoryIds(history), r)
  {
    hide SetBytes, SeqBytes, Ids, HistoryIds, Added;
    HistoryGrows(history, r);
    SumUpWords(e, exact);
    assert Describes(SumUp(e, exact), history + [r]);
  }

  lemma OneMore(known: set<ChunkIdentity>, chunks: seq<ChunkIdentity>, i: nat)
    requires i < |chunks|
    ensures Ids(chunks[..i + 1]) == Ids(chunks[..i]) + {chunks[i]}
    ensures chunks[i] in known + Ids(chunks[..i]) ==> Ids(chunks[..i + 1]) - known == Ids(chunks[..i]) - known
    ensures chunks[i] !in known + Ids(chunks[..i]) ==>
              Ids(chunks[..i + 1]) - known == (Ids(chunks[..i]) - known) + {chunks[i]}
    ensures SeqBytes(chunks[..i + 1]) == SeqBytes(chunks[..i]) + chunks[i].length
  {
    assert chunks[..i + 1] == chunks[..i] + [chunks[i]];
    assert chunks[..i + 1][..i] == chunks[..i];
  }

  lemma HistoryGrows(history: seq<Request>, r: Request)
    ensures HistoryIds(history + [r]) == HistoryIds(history) + Ids(r.chunks)
    ensures Tallied(history + [r]) == Plus(Tallied(history), r)
  {
    var h := history + [r];
    assert h[..|h| - 1] == history;
    forall c ensures c in HistoryIds(h) <==> c in HistoryIds(history) + Ids(r.chunks) {
      if c in HistoryIds(history) {
        var q :| q in history && c in q.chunks;
        assert q in h;
      }
      if c in r.chunks {
        assert h[|history|] == r && r in h;
      }
    }
  }
}
