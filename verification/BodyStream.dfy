/** The stream that hands a request body to the provider and copies it into a
    pipe for measurement on the way. */
module BodyStream {
  import opened Words
  import opened Readers

  /** The writing half of an in-memory pipe, one atomic step per call. */
  class Pipe {
    var accepted: seq<Byte>
    var ending: Option<Ending>
    /** How many more bytes the reading half takes before it closes; it may never close. */
    var room: Option<nat>
    ghost var closes: nat

    constructor (room: Option<nat>)
      ensures accepted == [] && ending == None && this.room == room && closes == 0
    {
      accepted, ending, this.room, closes := [], None, room, 0;
    }

    method Write(data: seq<Byte>) returns (ok: bool)
      modifies `accepted, `room
      ensures old(accepted) <= accepted <= old(accepted) + data
      ensures ok ==> accepted == old(accepted) + data
      ensures ending.Some? ==> !ok && accepted == old(accepted)
      ensures ending.None? && old(room).None? ==> ok
      ensures old(room).None? ==> room.None?
    {
      if ending.Some? {
        return false;
      }
      if room.None? || |data| <= room.value {
        accepted := accepted + data;
        room := if room.None? then None else Some(room.value - |data|);
        return true;
      }
      accepted := accepted + data[..room.value];
      room := Some(0);
      return false;
    }

    /** The first close decides what the reading half sees; a clean close reads as `EOF`. */
    method CloseWithError(e: Ending)
      modifies `ending, `closes
      ensures ending == if old(ending).Some? then old(ending) else Some(e)
      ensures closes == old(closes) + 1
    {
      ending := if ending.Some? then ending else Some(e);
      closes := closes + 1;
    }
  }

  /** A body is complete when it has the announced length, or, without one, when the source says so. */
  predicate Complete(expected: int, total: nat, err: Option<Ending>) {
    if expected >= 0 then total == expected else err == Some(EOF)
  }

  /** What a read closes the pipe with, if it does. */
  function ReadCloses(expected: int, total: nat, err: Option<Ending>): Option<Ending> {
    if Complete(expected, total, err) then Some(EOF)
    else if err == Some(EOF) then Some(UnexpectedEOF)
    else err
  }

  function CloseEnding(expected: int, total: nat): Ending {
    if Complete(expected, total, None) then EOF else UnexpectedEOF
  }

  class MeasuredBodyStream {
    const pipe: Pipe
    const expectedBytes: int
    var readBytes: nat
    var measurementWriteFailed: bool
    var closed: bool

    /** Every byte handed to the provider. */
    ghost var given: seq<Byte>

    ghost predicate Valid()
      reads this, pipe
    {
      && readBytes == |given|
      && pipe.accepted <= given
      && (!measurementWriteFailed ==> pipe.accepted == given)
      && (closed <==> pipe.ending.Some?)
      && pipe.closes == (if closed then 1 else 0)
    }

    constructor (pipe: Pipe, expectedBytes: int)
      requires pipe.accepted == [] && pipe.ending == None && pipe.closes == 0
      ensures Valid() && this.pipe == pipe && this.expectedBytes == expectedBytes
      ensures given == [] && !closed && !measurementWriteFailed
    {
      this.pipe, this.expectedBytes := pipe, expectedBytes;
      readBytes, measurementWriteFailed, closed, given := 0, false, false, [];
    }

    predicate HasCompleteBody(readErr: Option<Ending>)
      reads this
    {
      Complete(expectedBytes, readBytes, readErr)
    }

    /** One read; `data` and `err` are what the source returns, and what the provider sees. */
    method Read(data: seq<Byte>, err: Option<Ending>) returns (count: nat, result: Option<Ending>)
      requires Valid()
      modifies this, pipe
      ensures Valid() && count == |data| && result == err
      ensures given == old(given) + data
      ensures old(pipe.ending).Some? ==> pipe.ending == old(pipe.ending)
      ensures old(pipe.ending).None? ==> pipe.ending == ReadCloses(expectedBytes, |given|, err)
      ensures old(pipe.room).None? ==> pipe.room.None?
      ensures old(pipe.accepted) <= pipe.accepted
      ensures old(closed) || old(measurementWriteFailed) || data == [] ==> pipe.accepted == old(pipe.accepted)
      ensures old(measurementWriteFailed) ==> measurementWriteFailed
      ensures !old(closed) && !old(measurementWriteFailed) && old(pipe.room).None? ==>
                !measurementWriteFailed && pipe.accepted == given
    {
      count, result := |data|, err;
      readBytes := readBytes + count;
      given := given + data;
      if count != 0 && !measurementWriteFailed {
        var ok := pipe.Write(data);
        if !ok {
          measurementWriteFailed := true;
        }
      }
      if (err.Some? || HasCompleteBody(err)) && !closed {
        closed := true;
        if HasCompleteBody(err) {
          pipe.CloseWithError(EOF);
        } else if err.Some? && err != Some(EOF) {
          pipe.CloseWithError(err.value);
        } else {
          pipe.CloseWithError(UnexpectedEOF);
        }
      }
    }

    method Close()
      requires Valid()
      modifies this, pipe
      ensures Valid() && closed && given == old(given) && pipe.accepted == old(pipe.accepted)
      ensures pipe.ending ==
              if old(pipe.ending).Some? then old(pipe.ending) else Some(CloseEnding(expectedBytes, |given|))
    {
      if !closed {
        closed := true;
        if HasCompleteBody(None) {
          pipe.CloseWithError(EOF);
        } else {
          pipe.CloseWithError(UnexpectedEOF);
        }
      }
    }
  }

  datatype SourceRead = SourceRead(data: seq<Byte>, err: Option<Ending>)

  /** How the pipe ends and what has gone through it by then, when `total` bytes came before. */
  datatype PipeRun = PipeRun(ending: Ending, body: seq<Byte>)

  function RunOf(expected: int, total: nat, arrivals: seq<SourceRead>): PipeRun
    decreases |arrivals|
  {
    if arrivals == [] then PipeRun(CloseEnding(expected, total), [])
    else
      var data, total' := arrivals[0].data, total + |arrivals[0].data|;
      match ReadCloses(expected, total', arrivals[0].err)
      case Some(e) => PipeRun(e, data)
      case None =>
        var rest := RunOf(expected, total', arrivals[1..]);
        rest.(body := data + rest.body)
  }

  function AllData(arrivals: seq<SourceRead>): seq<Byte> {
    if arrivals == [] then [] else arrivals[0].data + AllData(arrivals[1..])
  }

  lemma AllDataStarts(arrivals: seq<SourceRead>)
    requires arrivals != []
    ensures AllData(arrivals) == arrivals[0].data + AllData(arrivals[1..])
  {
  }

  /** The provider reads as often as it likes, then the handler closes the stream. */
  method Drive(stream: MeasuredBodyStream, arrivals: seq<SourceRead>)
    requires stream.Valid()
    modifies stream, stream.pipe
    ensures stream.Valid() && stream.closed
    ensures stream.given == old(stream.given) + AllData(arrivals)
    ensures old(stream.closed) ==>
              stream.pipe.ending == old(stream.pipe.ending) && stream.pipe.accepted == old(stream.pipe.accepted)
    ensures !old(stream.closed) && !old(stream.measurementWriteFailed) && old(stream.pipe.room).None? ==>
              var run := RunOf(stream.expectedBytes, |old(stream.given)|, arrivals);
              && stream.pipe.ending == Some(run.ending)
              && stream.pipe.accepted == old(stream.pipe.accepted) + run.body
    decreases |arrivals|
  {
    if arrivals == [] {
      stream.Close();
      return;
    }
    ghost var given, accepted := stream.given, stream.pipe.accepted;
    hide Complete, AllData;
    AllDataStarts(arrivals);
    var _, _ := stream.Read(arrivals[0].data, arrivals[0].err);
    Drive(stream, arrivals[1..]);
    assert given + AllData(arrivals) == (given + arrivals[0].data) + AllData(arrivals[1..]);
    ghost var rest := RunOf(stream.expectedBytes, |given| + |arrivals[0].data|, arrivals[1..]).body;
    assert (accepted + arrivals[0].data) + rest == accepted + (arrivals[0].data + rest);
  }

  function FirstError(arrivals: seq<SourceRead>): Option<Ending> {
    if arrivals == [] then None else if arrivals[0].err.Some? then arrivals[0].err else FirstError(arrivals[1..])
  }

  /** What the source delivers up to its first error, the bytes that come with it included. */
  function UpToEnd(arrivals: seq<SourceRead>): seq<Byte> {
    if arrivals == [] then []
    else if arrivals[0].err.Some? then arrivals[0].data
    else arrivals[0].data + UpToEnd(arrivals[1..])
  }

  /** The pipe carries the beginning of what the source delivers, and all of it unless the
      announced length is reached. */
  lemma {:induction false} PipeCarriesTheSource(expected: int, total: nat, arrivals: seq<SourceRead>)
    ensures RunOf(expected, total, arrivals).body <= UpToEnd(arrivals) <= AllData(arrivals)
    ensures !(expected >= 0 && KeepsPromise(expected, total, arrivals)) ==>
              RunOf(expected, total, arrivals).body == UpToEnd(arrivals)
    decreases |arrivals|
  {
    if arrivals != [] {
      PipeCarriesTheSource(expected, total + |arrivals[0].data|, arrivals[1..]);
    }
  }

  /** Some read that no error precedes brings the count to exactly `expected`;
      without reads the count itself must match. */
  predicate Hits(expected: int, total: nat, arrivals: seq<SourceRead>)
    decreases |arrivals|
  {
    if arrivals == [] then total == expected
    else
      var total' := total + |arrivals[0].data|;
      total' == expected || (arrivals[0].err.None? && Hits(expected, total', arrivals[1..]))
  }

  /** The source kept its promise: the announced length, or an end of its own when none was announced. */
  predicate KeepsPromise(expected: int, total: nat, arrivals: seq<SourceRead>) {
    if expected >= 0 then Hits(expected, total, arrivals) else FirstError(arrivals) == Some(EOF)
  }

  /** The pipe ends cleanly exactly for a complete body. */
  lemma {:induction false} CleanCloseIsComplete(expected: int, total: nat, arrivals: seq<SourceRead>)
    ensures RunOf(expected, total, arrivals).ending == EOF <==> KeepsPromise(expected, total, arrivals)
    ensures expected >= 0 ==> (RunOf(expected, total, arrivals).ending == EOF <==>
                               total + |RunOf(expected, total, arrivals).body| == expected)
    decreases |arrivals|
  {
    if arrivals != [] {
      CleanCloseIsComplete(expected, total + |arrivals[0].data|, arrivals[1..]);
    }
  }

  /** The pipe ends with the source's own failure exactly when that comes before completion. */
  lemma {:induction false} FailureIsPassedOn(expected: int, total: nat, arrivals: seq<SourceRead>)
    ensures RunOf(expected, total, arrivals).ending.Failure? <==>
            && !KeepsPromise(expected, total, arrivals)
            && FirstError(arrivals).Some? && FirstError(arrivals).value.Failure?
    ensures RunOf(expected, total, arrivals).ending.Failure? ==>
              Some(RunOf(expected, total, arrivals).ending) == FirstError(arrivals)
    decreases |arrivals|
  {
    if arrivals != [] {
      FailureIsPassedOn(expected, total + |arrivals[0].data|, arrivals[1..]);
    }
  }
}
