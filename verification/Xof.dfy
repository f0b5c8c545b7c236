/** The extendable-output reader: a one-block cache over an unbounded stream of
    root compressions (section 2.6 of the BLAKE3 paper). */
module Xof {
  import opened Words
  import opened Bitwise
  import opened TreeSpec

  /** Block `i` of the output stream. The counter is a 64-bit word, so the stream repeats. */
  function StreamBlock(compress: Compressor, root: Node, i: int): (b: seq<Byte>)
    ensures |b| == BLOCK_LEN
  {
    ToBytes(compress(root.chain, root.block, i % TWO_64, root.blen, root.flags))
  }

  function StreamByte(compress: Compressor, root: Node, p: int): Byte {
    StreamBlock(compress, root, p / BLOCK_LEN)[p % BLOCK_LEN]
  }

  /** `n` bytes of the output stream from position `p`. */
  function Stream(compress: Compressor, root: Node, p: int, n: nat): (s: seq<Byte>)
    ensures |s| == n
  {
    seq(n, i requires 0 <= i < n => StreamByte(compress, root, p + i))
  }

  /** Reading in two goes is reading once. */
  lemma StreamSplits(compress: Compressor, root: Node, p: int, a: nat, b: nat)
    ensures Stream(compress, root, p, a) + Stream(compress, root, p + a, b) == Stream(compress, root, p, a + b)
  {
  }

  datatype Whence = SeekStart | SeekCurrent | SeekEnd | OtherWhence
  datatype SeekResult = Moved(position: int) | SeekFromEnd | BadWhence | BeforeStart

  const TWO_63: int := 0x8000_0000_0000_0000

  /** A signed 64-bit word with wrap-around. */
  function Signed64(x: int): (y: int)
    ensures -TWO_63 <= y < TWO_63
  {
    (x + TWO_63) % TWO_64 - TWO_63
  }

  lemma {:induction false} SignedIgnoresWraps(x: int, k: int)
    ensures Signed64(x + k * TWO_64) == Signed64(x)
  {
    var q, r := (x + TWO_63) / TWO_64, (x + TWO_63) % TWO_64;
    assert x + k * TWO_64 + TWO_63 == (q + k) * TWO_64 + r;
  }

  /** Wrapping the operands of a sum first makes no difference. */
  lemma {:induction false} SignedSums(x: int, y: int)
    ensures Signed64(x + Signed64(y)) == Signed64(x + y)
    ensures Signed64(x + y % TWO_64) == Signed64(x + y)
  {
    SignedIgnoresWraps(x + y, -((y + TWO_63) / TWO_64));
    SignedIgnoresWraps(x + y, -(y / TWO_64));
  }

  /** What a seek answers from `position`; only `Moved` changes the position. */
  function SeekOutcome(position: int, offset: int, whence: Whence): SeekResult {
    match whence
    case SeekEnd => SeekFromEnd
    case OtherWhence => BadWhence
    case SeekStart => if offset < 0 then BeforeStart else Moved(offset)
    case SeekCurrent => if Signed64(position + offset) < 0 then BeforeStart else Moved(Signed64(position + offset))
  }

  lemma NothingRead(compress: Compressor, root: Node, before: seq<Byte>, lo: nat, start: int)
    requires lo <= |before|
    ensures Splice(before, lo, Stream(compress, root, start, 0)) == before
  {
  }

  lemma ReadOn(compress: Compressor, root: Node, before: seq<Byte>, lo: nat, start: int, a: nat, b: nat)
    requires lo + a + b <= |before|
    ensures Splice(Splice(before, lo, Stream(compress, root, start, a)), lo + a, Stream(compress, root, start + a, b))
         == Splice(before, lo, Stream(compress, root, start, a + b))
  {
    hide Stream, Splice;
    SpliceTwice(before, lo, Stream(compress, root, start, a), Stream(compress, root, start + a, b));
    StreamSplits(compress, root, start, a, b);
  }

  class Digest {
    const compress: Compressor
    var counter: nat
    var chain: Chain
    var block: Block
    var blen: nat
    var flags: Word
    var buf: Block
    var bufn: nat

    /** How often the 64-bit counter has wrapped. */
    ghost var laps: nat

    ghost function Root(): Node
      reads `chain, `block, `blen, `flags
    {
      Node(chain, block, 0, blen, flags)
    }

    /** The number of the next output byte. */
    ghost function Position(): int
      reads this
    {
      BLOCK_LEN * (counter + TWO_64 * laps) - bufn
    }

    ghost predicate Valid()
      reads this
    {
      && counter < TWO_64 && bufn <= BLOCK_LEN && Position() >= 0
      && (bufn > 0 ==> ToBytes(buf) == StreamBlock(compress, Root(), counter + TWO_64 * laps - 1))
    }

    /** A reader of the output of `root`, at the block its counter names. */
    constructor (compress: Compressor, root: Node)
      requires root.counter < TWO_64
      ensures this.compress == compress && Root() == root.(counter := 0)
      ensures Valid() && Position() == BLOCK_LEN * root.counter
    {
      this.compress := compress;
      counter, bufn, laps := root.counter, 0, 0;
      chain, block, blen, flags := root.chain, root.block, root.blen, root.flags;
      buf := seq(16, i => 0);
    }

    /** Computes the block the counter names and moves past it. */
    method FillBuf()
      requires counter < TWO_64
      modifies this`counter, this`buf, this`bufn, this`laps
      ensures Valid() && bufn == BLOCK_LEN && Root() == old(Root())
      ensures Position() == BLOCK_LEN * (old(counter) + TWO_64 * old(laps))
    {
      hide ToBytes;
      LapsDoNotMatter(counter, laps);
      ghost var block' := counter + TWO_64 * laps;
      buf := compress(chain, block, counter, blen, flags);
      laps := if counter + 1 == TWO_64 then laps + 1 else laps;
      counter := (counter + 1) % TWO_64;
      bufn := BLOCK_LEN;
      assert counter + TWO_64 * laps == block' + 1;
    }

    /** The unread tail of the cached block is the next part of the stream. */
    lemma CachedBytes(n: nat)
      requires Valid() && n <= bufn
      ensures Stream(compress, Root(), Position(), n) == ToBytes(buf)[BLOCK_LEN - bufn..BLOCK_LEN - bufn + n]
    {
      hide ToBytes;
      var stream := Stream(compress, Root(), Position(), n);
      var cached := ToBytes(buf)[BLOCK_LEN - bufn..BLOCK_LEN - bufn + n];
      forall i: nat | i < n ensures stream[i] == cached[i] {
        var p := Position() + i;
        assert p / BLOCK_LEN == counter + TWO_64 * laps - 1 && p % BLOCK_LEN == BLOCK_LEN - bufn + i;
        assert stream[i] == StreamByte(compress, Root(), p);
      }
    }

    /** Copies unread bytes of the cached block to `output[lo..hi]`. */
    method SlowCopy(output: array<Byte>, lo: nat, hi: nat) returns (copied: nat)
      requires Valid() && bufn > 0 && lo <= hi <= output.Length
      modifies output
      ensures copied == (if hi - lo < bufn then hi - lo else bufn)
      ensures output[..] == Splice(old(output[..]), lo, Stream(compress, Root(), Position(), copied))
    {
      hide ToBytes, Stream, StreamBlock, Splice;
      var offset := (BLOCK_LEN - bufn) % BLOCK_LEN;
      var bytes := ToBytes(buf);
      copied := if hi - lo < BLOCK_LEN - offset then hi - lo else BLOCK_LEN - offset;
      CachedBytes(copied);
      Put(output, lo, bytes[offset..offset + copied]);
    }

    /** Fills `output[lo..hi]` from a block computed for it. */
    method CopyNextBlock(output: array<Byte>, lo: nat, hi: nat)
      requires Valid() && bufn == 0 && lo <= hi <= output.Length && hi - lo <= BLOCK_LEN
      modifies output, this`counter, this`buf, this`bufn, this`laps
      ensures Valid() && bufn == BLOCK_LEN - (hi - lo)
      ensures Position() == old(Position()) + (hi - lo) && Root() == old(Root())
      ensures output[..] == Splice(old(output[..]), lo, Stream(compress, Root(), old(Position()), hi - lo))
    {
      hide Stream, Splice, ToBytes, StreamBlock;
      FillBuf();
      var copied := SlowCopy(output, lo, hi);
      bufn := bufn - copied;
    }

    /** Fills `output[lo..hi]` with the next bytes of the output stream. */
    method Read(output: array<Byte>, lo: nat, hi: nat) returns (count: nat)
      requires Valid() && lo <= hi <= output.Length
      modifies output, this`counter, this`buf, this`bufn, this`laps
      ensures Valid() && count == hi - lo
      ensures Position() == old(Position()) + count && Root() == old(Root())
      ensures output[..] == Splice(old(output[..]), lo, Stream(compress, Root(), old(Position()), count))
    {
      hide Stream, Splice, ToBytes, StreamBlock;
      count := hi - lo;
      var at := lo;
      ghost var start, before, root := Position(), output[..], Root();
      NothingRead(compress, root, before, lo, start);
      if bufn > 0 {
        var copied := SlowCopy(output, at, hi);
        at := at + copied;
        bufn := bufn - copied;
      }
      while hi - at >= BLOCK_LEN
        invariant lo <= at <= hi && Valid() && (at < hi ==> bufn == 0)
        invariant Position() == start + (at - lo) && Root() == root
        invariant output[..] == Splice(before, lo, Stream(compress, root, start, at - lo))
      {
        CopyNextBlock(output, at, at + BLOCK_LEN);
        ReadOn(compress, root, before, lo, start, at - lo, BLOCK_LEN);
        at := at + BLOCK_LEN;
      }
      if hi == at {
        return;
      }
      CopyNextBlock(output, at, hi);
      ReadOn(compress, root, before, lo, start, at - lo, hi - at);
    }

    method SetPosition(position: nat)
      requires position / BLOCK_LEN < TWO_64
      modifies this`counter, this`buf, this`bufn, this`laps
      ensures Valid() && Position() == position && Root() == old(Root())
    {
      hide ToBytes, StreamBlock;
      counter := position / BLOCK_LEN;
      laps := 0;
      FillBuf();
      bufn := bufn - position % BLOCK_LEN;
    }

    /** Moves to another output position. An offset out of range is refused and changes nothing. */
    method Seek(offset: int, whence: Whence) returns (r: SeekResult)
      requires Valid() && -TWO_63 <= offset < TWO_63
      modifies this`counter, this`buf, this`bufn, this`laps
      ensures Valid() && Root() == old(Root())
      ensures r == SeekOutcome(old(Position()), offset, whence)
      ensures r.Moved? ==> Position() == r.position
      ensures !r.Moved? ==> counter == old(counter) && buf == old(buf) && bufn == old(bufn) && laps == old(laps)
      ensures whence == SeekStart ==>
                if offset >= 0 then r == Moved(offset) && Position() == offset else r == BeforeStart
      ensures whence == SeekEnd ==> r == SeekFromEnd
      ensures whence == OtherWhence ==> r == BadWhence
    {
      var target := offset;
      match whence {
        case SeekStart =>
        case SeekEnd => return SeekFromEnd;
        case SeekCurrent =>
          CurrentPosition(offset);
          target := Signed64(offset + Signed64(Signed64(BLOCK_LEN * counter % TWO_64) - bufn));
        case OtherWhence => return BadWhence;
      }
      if target < 0 {
        return BeforeStart;
      }
      SetPosition(target);
      return Moved(target);
    }

    lemma CurrentPosition(offset: int)
      ensures Signed64(offset + Signed64(Signed64(BLOCK_LEN * counter % TWO_64) - bufn))
           == Signed64(Position() + offset)
    {
      var c := BLOCK_LEN * counter;
      SignedSums(offset, Signed64(c % TWO_64) - bufn);
      SignedSums(offset - bufn, c % TWO_64);
      SignedSums(offset - bufn, c);
      SignedIgnoresWraps(offset - bufn + c, BLOCK_LEN * laps);
      assert Position() == c + BLOCK_LEN * laps * TWO_64 - bufn;
    }
  }

  lemma LapsDoNotMatter(counter: nat, laps: nat)
    requires counter < TWO_64
    ensures (counter + TWO_64 * laps) % TWO_64 == counter
  {
  }

  /** From any position a relative seek lands where it should exactly when that is a signed offset,
      and while the position is one, every other seek is refused. */
  lemma RelativeSeekIsExact(position: int, offset: int)
    requires position >= 0 && -TWO_63 <= offset < TWO_63
    ensures SeekOutcome(position, offset, SeekCurrent) == Moved(position + offset) <==>
            0 <= position + offset < TWO_63
    ensures position < TWO_63 ==>
              (SeekOutcome(position, offset, SeekCurrent) == BeforeStart <==> !(0 <= position + offset < TWO_63))
  {
  }

  /** Past the signed offsets a seek that should stay put is refused, and one lap
      of the position on it goes back to the start. */
  lemma RelativeSeekBeyondSignedOffsets()
    ensures SeekOutcome(TWO_63 + 1, 0, SeekCurrent) == BeforeStart
    ensures SeekOutcome(TWO_64, 0, SeekCurrent) == Moved(0)
  {
  }

  datatype Request = ReadNext(n: nat) | SeekTo(offset: int, whence: Whence)
  datatype Answer = Bytes(bytes: seq<Byte>) | Sought(result: SeekResult)

  /** Seek offsets are signed 64-bit words. */
  predicate OffsetFits(request: Request) {
    request.SeekTo? ==> -TWO_63 <= request.offset < TWO_63
  }

  predicate OffsetsFit(requests: seq<Request>) {
    forall i :: 0 <= i < |requests| ==> OffsetFits(requests[i])
  }

  /** The answer to a read or a seek, said of the stream and a position alone. */
  function AnswerAt(compress: Compressor, root: Node, position: int, request: Request): Answer {
    match request
    case ReadNext(n) => Bytes(Stream(compress, root, position, n))
    case SeekTo(offset, whence) => Sought(SeekOutcome(position, offset, whence))
  }

  function PositionAfter(position: int, request: Request): int {
    match request
    case ReadNext(n) => position + n
    case SeekTo(offset, whence) =>
      var r := SeekOutcome(position, offset, whence);
      if r.Moved? then r.position else position
  }

  function Answers(compress: Compressor, root: Node, position: int, requests: seq<Request>): seq<Answer>
    decreases |requests|
  {
    if requests == [] then []
    else
      [AnswerAt(compress, root, position, requests[0])]
      + Answers(compress, root, PositionAfter(position, requests[0]), requests[1..])
  }

  /** Where the read after a seek begins: at the offset itself when it counts from the start, and where
      the next read would have begun anyway when the seek is refused. */
  lemma ReadAfterSeek(compress: Compressor, root: Node, position: int, offset: int, n: nat)
    ensures offset >= 0 ==>
              Answers(compress, root, position, [SeekTo(offset, SeekStart), ReadNext(n)])
              == [Sought(Moved(offset)), Bytes(Stream(compress, root, offset, n))]
    ensures offset < 0 ==>
              Answers(compress, root, position, [SeekTo(offset, SeekStart), ReadNext(n)])
              == [Sought(BeforeStart), Bytes(Stream(compress, root, position, n))]
    ensures Answers(compress, root, position, [SeekTo(offset, SeekEnd), ReadNext(n)])
         == [Sought(SeekFromEnd), Bytes(Stream(compress, root, position, n))]
    ensures Answers(compress, root, position, [SeekTo(offset, OtherWhence), ReadNext(n)])
         == [Sought(BadWhence), Bytes(Stream(compress, root, position, n))]
    ensures 0 <= position + offset < TWO_63 ==>
              Answers(compress, root, position, [SeekTo(offset, SeekCurrent), ReadNext(n)])
              == [Sought(Moved(position + offset)), Bytes(Stream(compress, root, position + offset, n))]
  {
    hide Stream;
    var read := [ReadNext(n)];
    forall whence: Whence
      ensures Answers(compress, root, position, [SeekTo(offset, whence)] + read) ==
              [Sought(SeekOutcome(position, offset, whence))]
              + [Bytes(Stream(compress, root, PositionAfter(position, SeekTo(offset, whence)), n))]
    {
      SeekThenRead(compress, root, position, SeekTo(offset, whence), n);
    }
    assert [SeekTo(offset, SeekStart), ReadNext(n)] == [SeekTo(offset, SeekStart)] + read;
    assert [SeekTo(offset, SeekEnd), ReadNext(n)] == [SeekTo(offset, SeekEnd)] + read;
    assert [SeekTo(offset, OtherWhence), ReadNext(n)] == [SeekTo(offset, OtherWhence)] + read;
    assert [SeekTo(offset, SeekCurrent), ReadNext(n)] == [SeekTo(offset, SeekCurrent)] + read;
  }

  lemma SeekThenRead(compress: Compressor, root: Node, position: int, first: Request, n: nat)
    ensures Answers(compress, root, position, [first] + [ReadNext(n)]) ==
            [AnswerAt(compress, root, position, first)]
            + [Bytes(Stream(compress, root, PositionAfter(position, first), n))]
  {
    hide Stream, PositionAfter;
    var both, read := [first] + [ReadNext(n)], [ReadNext(n)];
    assert both[1..] == read && read[1..] == [];
    assert Answers(compress, root, PositionAfter(position, first), read)
        == [Bytes(Stream(compress, root, PositionAfter(position, first), n))];
  }

  method ReadBytes(d: Digest, n: nat) returns (bytes: seq<Byte>)
    requires d.Valid()
    modifies d`counter, d`buf, d`bufn, d`laps
    ensures d.Valid() && d.Root() == old(d.Root()) && d.Position() == old(d.Position()) + n
    ensures bytes == Stream(d.compress, d.Root(), old(d.Position()), n)
  {
    hide Stream, ToBytes, StreamBlock;
    var out := new Byte[n];
    var _ := d.Read(out, 0, n);
    bytes := out[..];
  }

  method ServeOne(d: Digest, request: Request) returns (answer: Answer)
    requires d.Valid() && OffsetFits(request)
    modifies d`counter, d`buf, d`bufn, d`laps
    ensures d.Valid() && d.Root() == old(d.Root())
    ensures answer == AnswerAt(d.compress, d.Root(), old(d.Position()), request)
    ensures d.Position() == PositionAfter(old(d.Position()), request)
  {
    hide Stream, ToBytes, StreamBlock;
    match request {
      case ReadNext(n) =>
        var bytes := ReadBytes(d, n);
        answer := Bytes(bytes);
      case SeekTo(offset, whence) =>
        var r := d.Seek(offset, whence);
        answer := Sought(r);
    }
  }

  /** Any sequence of reads and seeks, accepted or refused, on a reader in any state. */
  method Serve(d: Digest, requests: seq<Request>) returns (answers: seq<Answer>)
    requires d.Valid() && OffsetsFit(requests)
    modifies d`counter, d`buf, d`bufn, d`laps
    ensures d.Valid() && d.Root() == old(d.Root())
    ensures answers == Answers(d.compress, d.Root(), old(d.Position()), requests)
    decreases |requests|
  {
    hide Stream, ToBytes, StreamBlock;
    if requests == [] {
      return [];
    }
    var answer := ServeOne(d, requests[0]);
    assert OffsetsFit(requests[1..]);
    var rest := Serve(d, requests[1..]);
    answers := [answer] + rest;
  }
}
