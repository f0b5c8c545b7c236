/** The streaming chunker: a sliding buffer of twice the maximal chunk over any reader. */
module FastCdc {
  import opened Words
  import opened Bitwise
  import opened TreeSpec
  import opened Hashing
  import opened Blake3
  import opened CutSpec
  import opened Readers

  datatype ConfigError =
    | MinimumNotPositive | AverageBelowEight | AverageBelowMinimum | MaximumBelowAverage | MaximumTooLarge

  /** The first rule a configuration breaks. */
  function ValidateChunkerConfig(c: Config): (e: Option<ConfigError>)
    ensures e.None? <==> ValidConfig(c)
    ensures e.None? <==> 8 <= c.average && 0 < c.minimum <= c.average <= c.maximum <= 0x3FFF_FFFF_FFFF_FFFF
    ensures e.Some? && c.minimum > 0 && c.average >= 8 ==>
              e.value == if c.average < c.minimum then AverageBelowMinimum
                         else if c.maximum < c.average then MaximumBelowAverage else MaximumTooLarge
  {
    if c.minimum <= 0 then Some(MinimumNotPositive)
    else if c.average < 8 then Some(AverageBelowEight)
    else if c.average < c.minimum then Some(AverageBelowMinimum)
    else if c.maximum < c.average then Some(MaximumBelowAverage)
    else if c.maximum > MAX_INT / 2 then Some(MaximumTooLarge)
    else None
  }

  datatype Chunk = Chunk(offset: nat, length: nat, digest: seq<Byte>, data: seq<Byte>)
  datatype NextResult = NextChunk(chunk: Chunk) | EndOfStream | ReadFailed(err: Ending)
  datatype ChunkingSummary = ChunkingSummary(totalSize: nat, chunkCount: nat, bodyDigest: seq<Byte>)

  /** The chunk record of `data` when `offset` bytes precede it. */
  function Record(compress: Compressor, offset: nat, data: seq<Byte>): Chunk {
    Chunk(offset, |data|, HashBytes(Unkeyed(compress), data, DIGEST_LEN), data)
  }

  /** The records of consecutive chunks; each offset is the length of what precedes it. */
  function Records(compress: Compressor, offset: nat, chunks: seq<seq<Byte>>): (records: seq<Chunk>)
    ensures |records| == |chunks|
    decreases |chunks|
  {
    if chunks == [] then []
    else [Record(compress, offset, chunks[0])] + Records(compress, offset + |chunks[0]|, chunks[1..])
  }

  /** Record `i` says where in the stream its chunk lies. */
  lemma {:induction false} RecordsLocateChunks(compress: Compressor, offset: nat, chunks: seq<seq<Byte>>, i: nat)
    requires i < |chunks|
    ensures var r := Records(compress, offset, chunks)[i];
            && r.offset == offset + |Flatten(chunks[..i])|
            && r.length == |chunks[i]| && r.data == chunks[i]
            && r.digest == HashBytes(Unkeyed(compress), chunks[i], DIGEST_LEN)
            && r.offset - offset + r.length <= |Flatten(chunks)|
            && Flatten(chunks)[r.offset - offset..r.offset - offset + r.length] == r.data
    decreases i
  {
    hide HashBytes;
    var first, rest := chunks[0], chunks[1..];
    if i > 0 {
      hide Record;
      RecordsLocateChunks(compress, offset + |first|, rest, i - 1);
      FlattenBefore(chunks, i);
      var r := Records(compress, offset, chunks)[i];
      assert r == Records(compress, offset + |first|, rest)[i - 1];
      var at := r.offset - offset - |first|;
      SliceBehind(first, Flatten(rest), at, at + r.length);
    }
  }

  lemma FlattenBefore(chunks: seq<seq<Byte>>, i: nat)
    requires 0 < i <= |chunks|
    ensures |Flatten(chunks[..i])| == |chunks[0]| + |Flatten(chunks[1..][..i - 1])|
  {
    assert chunks[..i][1..] == chunks[1..][..i - 1];
  }

  lemma SliceBehind(a: seq<Byte>, b: seq<Byte>, lo: nat, hi: nat)
    requires lo <= hi <= |b|
    ensures (a + b)[|a| + lo..|a| + hi] == b[lo..hi]
  {
  }

  lemma EmittedNext(compress: Compressor, params: Params, offset: nat, rest: seq<Byte>, failed: bool)
    requires params.Valid()
    ensures var c := params.FirstCut(rest);
            Records(compress, offset, params.Emitted(rest, failed)) ==
            if rest == [] || (failed && |rest| < params.config.maximum) then []
            else [Record(compress, offset, rest[..c])]
                 + Records(compress, offset + c, params.Emitted(rest[c..], failed))
  {
    hide Params.FirstCut, Record;
  }

  /** What asking for the next chunk means, when `rest` is still to come and the stream ends in `ending`. */
  ghost predicate Outcome(compress: Compressor, params: Params, body: seq<Byte>, rest: seq<Byte>, ending: Ending,
                          r: NextResult, body': seq<Byte>, rest': seq<Byte>)
    requires params.Valid()
  {
    if ending.Failure? && |rest| < params.config.maximum then
      r == ReadFailed(ending) && body' == body
    else if rest == [] then
      r == EndOfStream && body' == body && rest' == []
    else
      var data := rest[..params.FirstCut(rest)];
      r == NextChunk(Record(compress, |body|, data)) && body' == body + data && rest' == rest[|data|..]
  }

  lemma OutcomeAhead(compress: Compressor, params: Params, body: seq<Byte>, rest: seq<Byte>, ending: Ending,
                     r: NextResult, body': seq<Byte>, rest': seq<Byte>)
    requires params.Valid() && Outcome(compress, params, body, rest, ending, r, body', rest')
    ensures Records(compress, |body|, params.Emitted(rest, ending.Failure?)) ==
            if r.NextChunk? then [r.chunk] + Records(compress, |body'|, params.Emitted(rest', ending.Failure?)) else []
  {
    hide Params.FirstCut, Record, Records, Params.Emitted, Params.Valid;
    EmittedNext(compress, params, |body|, rest, ending.Failure?);
    if r.NextChunk? {
      hide Outcome;
      OutcomeChunk(compress, params, body, rest, ending, r, body', rest');
    }
  }

  lemma OutcomeChunk(compress: Compressor, params: Params, body: seq<Byte>, rest: seq<Byte>, ending: Ending,
                     r: NextResult, body': seq<Byte>, rest': seq<Byte>)
    requires params.Valid() && Outcome(compress, params, body, rest, ending, r, body', rest') && r.NextChunk?
    ensures rest != [] && !(ending.Failure? && |rest| < params.config.maximum)
    ensures var c := params.FirstCut(rest);
            && r.chunk == Record(compress, |body|, rest[..c])
            && body' == body + rest[..c] && |body'| == |body| + c && rest' == rest[c..]
  {
    hide Params.FirstCut, Record, Params.Valid;
    assert |rest[..params.FirstCut(rest)]| == params.FirstCut(rest);
  }

  lemma OneTaken(before: seq<Chunk>, chunk: Chunk, after: seq<Chunk>)
    ensures (before + [chunk]) + after == before + ([chunk] + after)
  {
  }

  lemma OutcomeRest(compress: Compressor, params: Params, body: seq<Byte>, rest: seq<Byte>, ending: Ending,
                    r: NextResult, body': seq<Byte>, rest': seq<Byte>)
    requires params.Valid() && Outcome(compress, params, body, rest, ending, r, body', rest')
    ensures r.NextChunk? ==> |rest'| < |rest| && body' + rest' == body + rest
    ensures r.EndOfStream? ==> rest == rest' == [] && body' == body && !ending.Failure?
    ensures r.ReadFailed? ==> r.err == ending && ending.Failure?
  {
    hide Params.FirstCut, Record;
    if r.NextChunk? {
      hide Outcome;
      OutcomeChunk(compress, params, body, rest, ending, r, body', rest');
      Regrouped(body, rest, params.FirstCut(rest));
    }
  }

  lemma NothingHashed(table: GearTable, none: seq<Byte>)
    requires none == []
    ensures Gear(table, none) == 0
  {
  }

  lemma WindowExtended(b: seq<Byte>, b': seq<Byte>, lo: nat, mid: nat, hi: nat, left: seq<Byte>, left': seq<Byte>)
    requires lo <= mid <= hi <= |b| == |b'|
    requires b'[..mid] == b[..mid] && b'[mid..hi] + left' == left
    ensures b'[lo..hi] + left' == b[lo..mid] + left
  {
    SliceOfSlice(b, 0, mid, lo, mid);
    SliceOfSlice(b', 0, mid, lo, mid);
    assert b'[lo..hi] == b[lo..mid] + b'[mid..hi];
    assert (b[lo..mid] + b'[mid..hi]) + left' == b[lo..mid] + (b'[mid..hi] + left');
  }

  class Chunker {
    const params: Params
    const maskSmall: uint64
    const maskLarge: uint64
    const buffer: array<Byte>
    const bodyHasher: Hasher
    const bodyDigest: array<Byte>
    var reader: Reader
    var bufferStart: nat
    var bufferEnd: nat
    var totalSize: nat
    var chunkCount: nat
    var readEOF: bool
    var readError: Option<Ending>
    var finished: bool

    /** Everything handed out in chunks since the last reset. */
    ghost var body: seq<Byte>

    ghost const Own: set<object> := {this, buffer, bodyDigest} + bodyHasher.Repr

    /** What is still to be chunked: the window, then what the reader has left. */
    ghost function Rest(): seq<Byte>
      requires bufferStart <= bufferEnd <= buffer.Length
      reads this, buffer, reader
    {
      buffer[bufferStart..bufferEnd] + reader.Remaining()
    }

    ghost predicate Failing()
      reads this
    {
      reader.ending.Failure?
    }

    /** The chunks still to come before the stream ends or fails. */
    ghost function Ahead(): seq<Chunk>
      requires Shape()
      reads this, buffer, reader
    {
      Records(bodyHasher.compress, |body|, params.Emitted(Rest(), Failing()))
    }

    ghost predicate Shape()
      reads this
    {
      && params.Valid() && buffer.Length == 2 * params.config.maximum && bodyDigest.Length == DIGEST_LEN
      && bufferStart <= bufferEnd <= buffer.Length && bufferEnd - bufferStart <= params.config.maximum
      && buffer != bodyDigest && (reader as object) != buffer && (reader as object) != bodyDigest
    }

    ghost predicate Masks()
      requires params.Valid()
    {
      maskSmall == MaskForBits(params.SmallBits()) && maskLarge == MaskForBits(params.LargeBits())
    }

    /** The body hasher shares nothing with the buffers and the reader. */
    ghost predicate Apart()
      reads this
    {
      && buffer !in bodyHasher.Repr && bodyDigest !in bodyHasher.Repr
      && this !in bodyHasher.Repr && reader !in bodyHasher.Repr
    }

    ghost predicate Reading()
      requires Shape()
      reads this, buffer, reader
    {
      && |body| + |Rest()| < TWO_64
      && totalSize == |body|
      && (readEOF ==> !Failing() && reader.Remaining() == [])
      && (readError.Some? ==> Failing() && reader.Remaining() == [] && readError.value == reader.ending)
    }

    ghost predicate Finished()
      requires Shape()
      reads this, buffer, bodyDigest, reader
    {
      finished ==>
        && (readEOF || readError.Some?)
        && (readError.None? ==>
              Rest() == [] && bodyDigest[..] == HashBytes(Unkeyed(bodyHasher.compress), body, DIGEST_LEN))
    }

    ghost predicate Valid()
      reads Own, reader
    {
      && Shape() && Masks() && Apart() && Reading() && Finished()
      && bodyHasher.Valid() && bodyHasher.msg == body && bodyHasher.Setup() == Unkeyed(bodyHasher.compress)
    }

    constructor (compress: Compressor, params: Params, reader: Reader)
      requires params.Valid() && |reader.Remaining()| < TWO_64
      ensures fresh(Own) && Valid() && bodyHasher.compress == compress && this.params == params && this.reader == reader
      ensures body == [] && !finished && chunkCount == 0 && Rest() == reader.Remaining()
    {
      hide HashBytes, MaskForBits, Params.SmallBits, Params.LargeBits, Hasher.Valid, Reader.Remaining;
      this.params := params;
      maskSmall, maskLarge := MaskForBits(params.SmallBits()), MaskForBits(params.LargeBits());
      buffer := new Byte[2 * params.config.maximum];
      bodyHasher := new Hasher(compress, IV, 0);
      bodyDigest := new Byte[DIGEST_LEN];
      this.reader := reader;
      bufferStart, bufferEnd, totalSize, chunkCount := 0, 0, 0, 0;
      readEOF, readError, finished, body := false, None, false, [];
    }

    /** Starts over on another reader; whatever the buffer still holds no longer matters. */
    method Reset(reader: Reader)
      requires Valid() && reader !in Own && |reader.Remaining()| < TWO_64
      modifies Own
      ensures Valid() && this.reader == reader
      ensures forall i :: 0 <= i < DIGEST_LEN ==> bodyDigest[i] == 0
      ensures body == [] && !finished && chunkCount == 0 && Rest() == reader.Remaining()
    {
      hide HashBytes, Masks, MaskForBits, Params.SmallBits, Params.LargeBits, Hasher.Valid, Flatten, Reader.Remaining;
      ResetSummary(reader);
      bodyHasher.Reset();
      body := [];
    }

    method ResetSummary(reader: Reader)
      requires bodyDigest.Length == DIGEST_LEN && params.Valid()
      modifies this`reader, this`bufferStart, this`bufferEnd, this`totalSize, this`chunkCount
      modifies this`readEOF, this`readError, this`finished, bodyDigest
      ensures this.reader == reader && bufferStart == bufferEnd == totalSize == chunkCount == 0
      ensures !readEOF && readError == None && !finished
      ensures forall i :: 0 <= i < DIGEST_LEN ==> bodyDigest[i] == 0
    {
      this.reader := reader;
      bufferStart, bufferEnd := 0, 0;
      totalSize, chunkCount := 0, 0;
      forall i | 0 <= i < DIGEST_LEN {
        bodyDigest[i] := 0;
      }
      readEOF, readError, finished := false, None, false;
    }

    /** The loop form of `Params.CutLen`. */
    method FindChunkLength(data: seq<Byte>) returns (n: nat)
      requires params.Valid() && Masks() && |data| <= params.config.maximum
      ensures n == params.CutLen(data) && params.IsFirstCut(data, n)
    {
      params.CutLenIsFirstCut(data, params.CutLen(data));
      var limit := if |data| < params.config.maximum then |data| else params.config.maximum;
      var minimum := params.config.minimum;
      if limit <= minimum {
        return limit;
      }
      var normalSize := if params.config.average < limit then params.config.average else limit;
      var rollingHash, index := 0, minimum;
      NothingHashed(params.table, data[minimum..minimum]);
      var cut: Option<nat>;
      cut, rollingHash := ScanTo(data, maskSmall, rollingHash, index, normalSize);
      if cut.Some? {
        return cut.value;
      }
      index := if index < normalSize then normalSize else index;
      cut, rollingHash := ScanTo(data, maskLarge, rollingHash, index, limit);
      if cut.Some? {
        return cut.value;
      }
      NothingLeft(data);
      return limit;
    }

    /** One of the two scanning loops: on from byte `start` under one mask. */
    method ScanTo(data: seq<Byte>, mask: uint64, hash: uint64, start: nat, end: nat)
      returns (cut: Option<nat>, rollingHash: uint64)
      requires params.Valid() && params.config.minimum <= start && start <= |data| && end <= |data|
      requires hash == Gear(params.table, data[params.config.minimum..start])
      requires forall i: nat :: start <= i < end ==> params.Mask(i) == mask
      ensures cut.Some? ==> cut.value == params.Scan(data, start)
      ensures cut.None? ==>
                var index := if start < end then end else start;
                && params.Scan(data, start) == params.Scan(data, index)
                && rollingHash == Gear(params.table, data[params.config.minimum..index])
    {
      hide And, Gear, Params.Scan, Params.Mask;
      rollingHash := hash;
      var index := start;
      while index < end
        invariant start <= index <= |data| && (index <= end || index == start)
        invariant rollingHash == Gear(params.table, data[params.config.minimum..index])
        invariant params.Scan(data, start) == params.Scan(data, index)
      {
        GearStep(params.table, data, params.config.minimum, index);
        rollingHash := ((2 * rollingHash) % TWO_64 + params.table(data[index])) % TWO_64;
        params.ScanStep(data, index, rollingHash);
        if And(rollingHash, mask) == 0 {
          return Some(index + 1), rollingHash;
        }
        index := index + 1;
      }
      cut := None;
    }

    lemma NothingLeft(data: seq<Byte>)
      requires params.Valid() && params.config.minimum <= |data|
      ensures params.Scan(data, |data|) == |data|
    {
    }

    /** Moves the window to the front of the buffer. */
    method Compact()
      requires Shape()
      modifies this`bufferStart, this`bufferEnd, buffer
      ensures Shape() && bufferStart == 0
      ensures buffer[bufferStart..bufferEnd] == old(buffer[bufferStart..bufferEnd])
    {
      forall i | 0 <= i < bufferEnd - bufferStart {
        buffer[i] := buffer[bufferStart + i];
      }
      bufferEnd := bufferEnd - bufferStart;
      bufferStart := 0;
    }

    /** Tops the window up to the maximum, moving it to the front of the buffer if there is no room behind it. */
    method FillBuffer()
      requires Shape() && Reading()
      requires !readEOF && readError.None? && bufferEnd - bufferStart < params.config.maximum
      modifies this`bufferStart, this`bufferEnd, this`readEOF, this`readError, buffer, reader
      ensures Shape() && Reading() && Rest() == old(Rest())
      ensures bufferEnd - bufferStart == params.config.maximum || readEOF || readError.Some?
    {
      hide Params.Valid, Rest;
      var needed := params.config.maximum - (bufferEnd - bufferStart);
      ghost var rest := Rest();
      if buffer.Length - bufferEnd < needed {
        ghost var window := buffer[bufferStart..bufferEnd];
        RestIs(window);
        Compact();
        RestIs(window);
      }
      assert Rest() == rest;
      Fetch(needed);
    }

    lemma RestIs(window: seq<Byte>)
      requires bufferStart <= bufferEnd <= buffer.Length && buffer[bufferStart..bufferEnd] == window
      ensures Rest() == window + reader.Remaining()
    {
    }

    /** Reads up to `needed` bytes behind the window and notes how the reader ended, if it did. */
    method Fetch(needed: nat)
      requires Shape() && Reading() && !readEOF && readError.None?
      requires needed == params.config.maximum - (bufferEnd - bufferStart) > 0 && bufferEnd + needed <= buffer.Length
      modifies this`bufferEnd, this`readEOF, this`readError, buffer, reader
      ensures Shape() && Reading() && Rest() == old(Rest())
      ensures bufferEnd - bufferStart == params.config.maximum || readEOF || readError.Some?
    {
      hide Params.Valid, Reader.Remaining;
      ghost var before, left, rest := buffer[..], reader.Remaining(), Rest();
      var readCount, err := ReadFull(reader, buffer, bufferEnd, bufferEnd + needed);
      ghost var left' := reader.Remaining();
      WindowExtended(before, buffer[..], bufferStart, bufferEnd, bufferEnd + readCount, left, left');
      bufferEnd := bufferEnd + readCount;
      assert Rest() == rest;
      if err == None {
      } else if err.value == EOF || err.value == UnexpectedEOF {
        readEOF := true;
      } else {
        readError := err;
      }
    }

    /** The next chunk: the first cut of what is left, unless the reader failed before the window was full. */
    method Next() returns (r: NextResult)
      requires Valid()
      modifies Own, reader
      ensures Valid() && reader == old(reader)
      ensures old(finished) ==>
                && r == EndOfStream && finished && readError == old(readError)
                && body == old(body) && Rest() == old(Rest())
      ensures !old(finished) ==>
                && Outcome(bodyHasher.compress, params, old(body), old(Rest()), reader.ending, r, body, Rest())
                && Settled(r, old(chunkCount)) && Lends(r)
    {
      hide HashBytes, Masks, MaskForBits, Params.SmallBits, Params.LargeBits, Hasher.Valid, Flatten, Reader.Remaining;
      if finished {
        return EndOfStream;
      }
      if bufferEnd - bufferStart < params.config.maximum && !readEOF && readError == None {
        FillBuffer();
      }
      r := FromWindow();
    }

    /** The data of a returned chunk is the part of the buffer in front of the window. */
    ghost predicate Lends(r: NextResult)
      requires bufferStart <= buffer.Length
      reads this, buffer
    {
      r.NextChunk? ==>
        r.chunk.length <= bufferStart && r.chunk.data == buffer[bufferStart - r.chunk.length..bufferStart]
    }

    /** How the chunker remembers what it last returned. */
    ghost predicate Settled(r: NextResult, before: nat)
      reads this
    {
      && (finished <==> !r.NextChunk?)
      && (r.ReadFailed? ==> readError == Some(r.err))
      && (r.EndOfStream? ==> readError.None?)
      && chunkCount == before + if r.NextChunk? then 1 else 0
    }

    /** What the window, once it is as full as it gets, leads to. */
    method FromWindow() returns (r: NextResult)
      requires Valid() && !finished
      requires bufferEnd - bufferStart == params.config.maximum || readEOF || readError.Some?
      modifies Own
      ensures Valid() && reader == old(reader)
      ensures Outcome(bodyHasher.compress, params, old(body), old(Rest()), reader.ending, r, body, Rest())
      ensures Settled(r, old(chunkCount)) && Lends(r)
    {
      hide Record, Params.FirstCut, Masks, MaskForBits, Hasher.Valid, HashBytes, Flatten, Reader.Remaining;
      var available := bufferEnd - bufferStart;
      if available == 0 {
        if readError.Some? {
          finished := true;
          return ReadFailed(readError.value);
        }
        Finish();
        return EndOfStream;
      }
      if available < params.config.maximum && readError.Some? {
        finished := true;
        return ReadFailed(readError.value);
      }
      var chunk := TakeChunk(Rest());
      return NextChunk(chunk);
    }

    /** The record of the chunk at the front of the window. */
    method MakeChunk(ghost rest: seq<Byte>) returns (chunk: Chunk)
      requires Valid() && !finished && bufferStart < bufferEnd && rest == Rest()
      requires bufferEnd - bufferStart == params.config.maximum || reader.Remaining() == []
      ensures params.FirstCut(rest) == |chunk.data| == chunk.length <= bufferEnd - bufferStart
      ensures chunk == Record(bodyHasher.compress, |body|, rest[..params.FirstCut(rest)])
      ensures chunk.data == buffer[bufferStart..bufferStart + |chunk.data|]
    {
      hide HashBytes, Masks, MaskForBits, Hasher.Valid, Reader.Remaining, Params.CutLen, Hasher.Setup, Params.FirstCut;
      var window := buffer[bufferStart..bufferEnd];
      WindowOfRest();
      var chunkLength := FindChunkLength(window);
      var chunkData := buffer[bufferStart..bufferStart + chunkLength];
      RestAfter(chunkLength);
      var digest := Sum256(bodyHasher.compress, chunkData);
      chunk := Chunk(totalSize, chunkLength, digest, chunkData);
    }

    /** Cuts one chunk off the window; `rest` is what was still to be chunked. */
    method TakeChunk(ghost rest: seq<Byte>) returns (chunk: Chunk)
      requires Valid() && !finished && bufferStart < bufferEnd && rest == Rest()
      requires bufferEnd - bufferStart == params.config.maximum || reader.Remaining() == []
      modifies this`bufferStart, this`totalSize, this`chunkCount, this`body, bodyHasher.Repr
      ensures Valid()
      ensures chunk == Record(bodyHasher.compress, |old(body)|, rest[..params.FirstCut(rest)])
      ensures body == old(body) + rest[..params.FirstCut(rest)]
      ensures Rest() == rest[params.FirstCut(rest)..] && chunkCount == old(chunkCount) + 1
      ensures Lends(NextChunk(chunk))
    {
      hide HashBytes, Masks, MaskForBits, Hasher.Valid, Reader.Remaining, Params.CutLen, Hasher.Setup, Params.FirstCut;
      chunk := MakeChunk(rest);
      RestAfter(|chunk.data|);
      Advance(chunk.data);
    }

    /** Accounts for a chunk at the front of the window. */
    method Advance(chunkData: seq<Byte>)
      requires Valid() && !finished && bufferStart + |chunkData| <= bufferEnd
      requires chunkData == buffer[bufferStart..bufferStart + |chunkData|]
      modifies this`bufferStart, this`totalSize, this`chunkCount, this`body, bodyHasher.Repr
      ensures Valid()
      ensures body == old(body) + chunkData && bufferStart == old(bufferStart) + |chunkData|
      ensures chunkCount == old(chunkCount) + 1
    {
      hide HashBytes, Masks, MaskForBits, Hasher.Valid, Reader.Remaining, Hasher.Setup, Params.Valid, Unkeyed;
      ghost var rest := Rest();
      RestAfter(|chunkData|);
      assert |body| + |chunkData| < MESSAGE_LIMIT;
      bodyHasher.Write(chunkData);
      bufferStart := bufferStart + |chunkData|;
      totalSize := totalSize + |chunkData|;
      chunkCount := chunkCount + 1;
      body := body + chunkData;
      assert Rest() == rest[|chunkData|..];
      assert Shape() && Apart() && Reading();
    }

    lemma WindowOfRest()
      requires Shape()
      requires bufferEnd - bufferStart == params.config.maximum || reader.Remaining() == []
      ensures buffer[bufferStart..bufferEnd] == params.Window(Rest())
      ensures params.CutLen(buffer[bufferStart..bufferEnd]) == params.FirstCut(Rest())
    {
      hide Params.CutLen, Reader.Remaining;
      assert Rest()[..bufferEnd - bufferStart] == buffer[bufferStart..bufferEnd];
    }

    lemma RestAfter(n: nat)
      requires Shape() && bufferStart + n <= bufferEnd
      ensures buffer[bufferStart..bufferStart + n] == Rest()[..n]
      ensures buffer[bufferStart + n..bufferEnd] + reader.Remaining() == Rest()[n..]
    {
    }

    /** Writes the body digest into the summary, in place. */
    method Finish()
      requires Valid() && readEOF && Rest() == []
      modifies this`finished, bodyDigest, bodyHasher.Repr
      ensures Valid() && finished
    {
      hide HashBytes, Masks, Hasher.Valid, Hasher.Setup, Reader.Remaining, Params.Valid;
      finished := true;
      var output, start := Sum(bodyHasher, bodyDigest, 0, 0, DIGEST_LEN);
      assert output[start..start + DIGEST_LEN] == bodyDigest[..];
    }

    /** The totals, and whether they describe a complete stream. */
    method Summary() returns (summary: ChunkingSummary, complete: bool)
      requires Valid()
      ensures summary.totalSize == |body| && summary.chunkCount == chunkCount
      ensures complete <==> finished && readError.None?
      ensures complete ==> !Failing() && Rest() == []
      ensures complete ==> summary.bodyDigest == HashBytes(Unkeyed(bodyHasher.compress), body, DIGEST_LEN)
    {
      summary := ChunkingSummary(totalSize, chunkCount, bodyDigest[..]);
      complete := finished && readError.None?;
    }
  }

  datatype NewChunkerResult = Created(chunker: Chunker) | Rejected(error: ConfigError)

  method NewChunker(compress: Compressor, table: GearTable, reader: Reader, config: Config)
    returns (r: NewChunkerResult)
    requires |reader.Remaining()| < TWO_64
    ensures r.Created? <==> ValidConfig(config)
    ensures r.Created? ==>
              && fresh(r.chunker.Own) && r.chunker.Valid() && r.chunker.reader == reader
              && r.chunker.params == Params(config, table) && r.chunker.bodyHasher.compress == compress
              && r.chunker.body == [] && !r.chunker.finished && r.chunker.chunkCount == 0
              && r.chunker.Rest() == reader.Remaining()
    ensures r.Rejected? ==> Some(r.error) == ValidateChunkerConfig(config)
  {
    var error := ValidateChunkerConfig(config);
    if error.Some? {
      return Rejected(error.value);
    }
    var chunker := new Chunker(compress, Params(config, table), reader);
    r := Created(chunker);
  }

  /** Reads a chunker to its end: the chunks do not depend on how the reader cuts up the stream. */
  method CollectChunks(c: Chunker) returns (chunks: seq<Chunk>, err: Option<Ending>)
    requires c.Valid() && !c.finished
    modifies c.Own, c.reader
    ensures c.Valid() && c.finished && c.reader == old(c.reader)
    ensures chunks == old(c.Ahead())
    ensures err == if c.Failing() then Some(c.reader.ending) else None
    ensures c.readError == err
    ensures !c.Failing() ==> c.body == old(c.body) + old(c.Rest())
    ensures c.chunkCount == old(c.chunkCount) + |chunks|
  {
    hide Outcome, HashBytes, Records, Record, Unkeyed, Params.Emitted, Params.FirstCut, Params.Valid;
    hide Hasher.Valid, Hasher.Setup, Chunker.Apart, Chunker.Masks, Chunker.Reading, Chunker.Finished, Reader.Remaining;
    ghost var whole, stream := c.Ahead(), c.body + c.Rest();
    chunks, err := [], None;
    while true
      invariant c.Valid() && !c.finished && c.reader == old(c.reader)
      invariant chunks + c.Ahead() == whole
      invariant c.body + c.Rest() == stream
      invariant c.chunkCount == old(c.chunkCount) + |chunks|
      decreases |c.Rest()|
    {
      ghost var before, body, rest := chunks, c.body, c.Rest();
      var r := c.Next();
      OutcomeAhead(c.bodyHasher.compress, c.params, body, rest, c.reader.ending, r, c.body, c.Rest());
      OutcomeRest(c.bodyHasher.compress, c.params, body, rest, c.reader.ending, r, c.body, c.Rest());
      match r {
        case EndOfStream =>
          return chunks, None;
        case ReadFailed(e) =>
          return chunks, Some(e);
        case NextChunk(chunk) =>
          chunks := chunks + [chunk];
          OneTaken(before, chunk, c.Ahead());
      }
    }
  }
}
