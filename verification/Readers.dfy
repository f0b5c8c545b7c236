/** A reader that delivers its stream in pieces of any size, and `io.ReadFull` over it. */
module Readers {
  import opened Words

  /** How a stream ends. */
  datatype Ending = EOF | UnexpectedEOF | Failure(code: int)

  class Reader {
    /** What single reads will return, as long as the caller's buffer allows it. Pieces may be empty. */
    var pieces: seq<seq<Byte>>
    /** Reported from the end of the stream on. */
    const ending: Ending
    /** Whether the last bytes come together with the ending. */
    const eager: bool

    constructor (pieces: seq<seq<Byte>>, ending: Ending, eager: bool)
      ensures this.pieces == pieces && this.ending == ending && this.eager == eager
    {
      this.pieces, this.ending, this.eager := pieces, ending, eager;
    }

    ghost function Remaining(): seq<Byte>
      reads this
    {
      Flatten(pieces)
    }

    /** One read into a buffer of `room` bytes. */
    method Read(room: nat) returns (data: seq<Byte>, err: Option<Ending>)
      requires room > 0
      modifies this
      ensures |data| <= room && data + Remaining() == old(Remaining())
      ensures err.Some? ==> err.value == ending && Remaining() == []
      ensures err.None? ==> |Remaining()| + |pieces| < old(|Remaining()| + |pieces|)
    {
      if pieces == [] {
        return [], Some(ending);
      }
      var first, rest := pieces[0], pieces[1..];
      if |first| <= room {
        data, pieces := first, rest;
        err := if rest == [] && eager then Some(ending) else None;
      } else {
        data, pieces := first[..room], [first[room..]] + rest;
        assert first[..room] + (first[room..] + Flatten(rest)) == first + Flatten(rest);
        err := None;
      }
    }
  }

  lemma PieceAppended(before: seq<Byte>, after: seq<Byte>, lo: nat, count: nat, data: seq<Byte>,
                      left: seq<Byte>, left': seq<Byte>)
    requires lo + count + |data| <= |after| == |before|
    requires after[..lo + count] == before[..lo + count] && after[lo + count..lo + count + |data|] == data
    requires data + left' == left
    ensures after[lo..lo + (count + |data|)] + left' == before[lo..lo + count] + left
    ensures after[..lo] == before[..lo]
  {
    SliceOfSlice(after, 0, lo + count, lo, lo + count);
    SliceOfSlice(before, 0, lo + count, lo, lo + count);
    SliceOfSlice(after, 0, lo + count, 0, lo);
    SliceOfSlice(before, 0, lo + count, 0, lo);
    assert after[lo..lo + (count + |data|)] == before[lo..lo + count] + data;
    assert before[lo..lo + count] + (data + left') == (before[lo..lo + count] + data) + left';
  }

  /** Reads until `buffer[lo..hi]` is full or the reader ends. An ending that
      arrives together with the last byte wanted is dropped. */
  method ReadFull(reader: Reader, buffer: array<Byte>, lo: nat, hi: nat) returns (count: nat, err: Option<Ending>)
    requires lo < hi <= buffer.Length && (reader as object) != buffer
    modifies reader, buffer
    ensures count <= hi - lo
    ensures buffer[lo..lo + count] + reader.Remaining() == old(reader.Remaining())
    ensures buffer[..lo] == old(buffer[..lo])
    ensures err.None? <==> count == hi - lo
    ensures err.Some? ==> reader.Remaining() == []
    ensures err.Some? ==> err.value == if reader.ending == EOF && count > 0 then UnexpectedEOF else reader.ending
  {
    hide Reader.Remaining;
    count, err := 0, None;
    assert buffer[lo..lo] + reader.Remaining() == reader.Remaining();
    while count < hi - lo && err.None?
      invariant count <= hi - lo
      invariant buffer[lo..lo + count] + reader.Remaining() == old(reader.Remaining())
      invariant buffer[..lo] == old(buffer[..lo])
      invariant err.Some? ==> err.value == reader.ending && reader.Remaining() == []
      decreases err.None?, |reader.Remaining()| + |reader.pieces|
    {
      var data: seq<Byte>;
      ghost var before, left := buffer[..], reader.Remaining();
      data, err := reader.Read(hi - lo - count);
      ghost var left' := reader.Remaining();
      Put(buffer, lo + count, data);
      PieceAppended(before, buffer[..], lo, count, data, left, left');
      count := count + |data|;
    }
    if count >= hi - lo {
      err := None;
    } else if count > 0 && err == Some(EOF) {
      err := Some(UnexpectedEOF);
    }
  }
}
