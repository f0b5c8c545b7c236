/** Bytes, 32-bit words and the little-endian conversions between them. */
module Words {

  type Byte = bv8
  type Word = bv32

  /** Eight words: a key or a chaining value. */
  type Chain = s: seq<Word> | |s| == 8 witness [0, 0, 0, 0, 0, 0, 0, 0]

  /** Sixteen words: a message block or a full compression output. */
  type Block = s: seq<Word> | |s| == 16 witness [0, 0, 0, 0, 0, 0, 0, 0, 0, 0, 0, 0, 0, 0, 0, 0]

  const BLOCK_LEN: nat := 64
  const CHUNK_LEN: nat := 1024

  datatype Option<+T> = None | Some(value: T)

  /** The pieces one after the other. */
  function Flatten(pieces: seq<seq<Byte>>): seq<Byte> {
    if pieces == [] then [] else pieces[0] + Flatten(pieces[1..])
  }

  lemma SliceOfSlice<T>(s: seq<T>, a: nat, b: nat, lo: nat, hi: nat)
    requires a <= b <= |s| && lo <= hi <= b - a
    ensures s[a..b][lo..hi] == s[a + lo..a + hi]
  {
    var t, u := s[a..b][lo..hi], s[a + lo..a + hi];
    assert forall i :: 0 <= i < |t| ==> t[i] == u[i];
  }

  lemma Regrouped<T>(s: seq<T>, rest: seq<T>, n: nat)
    requires n <= |rest|
    ensures (s + rest[..n]) + rest[n..] == s + rest
  {
  }

  /** `s` with the elements from `lo` on replaced by those of `part`. */
  function Splice<T>(s: seq<T>, lo: nat, part: seq<T>): (r: seq<T>)
    requires lo + |part| <= |s|
    ensures |r| == |s|
  {
    s[..lo] + part + s[lo + |part|..]
  }

  lemma SpliceParts<T>(s: seq<T>, lo: nat, part: seq<T>)
    requires lo + |part| <= |s|
    ensures Splice(s, lo, part)[..lo + |part|] == s[..lo] + part
    ensures Splice(s, lo, part)[lo + |part|..] == s[lo + |part|..]
    ensures lo == 0 && |part| == |s| ==> Splice(s, lo, part) == part
  {
  }

  lemma SpliceTwice<T>(s: seq<T>, lo: nat, a: seq<T>, b: seq<T>)
    requires lo + |a| + |b| <= |s|
    ensures Splice(Splice(s, lo, a), lo + |a|, b) == Splice(s, lo, a + b)
  {
  }

  /** Copies bytes to a place in a buffer. */
  method Put(buffer: array<Byte>, at: nat, data: seq<Byte>)
    requires at + |data| <= buffer.Length
    modifies buffer
    ensures buffer[..at] == old(buffer[..at])
    ensures buffer[at..at + |data|] == data
    ensures buffer[..] == Splice(old(buffer[..]), at, data)
  {
    forall i | 0 <= i < |data| {
      buffer[at + i] := data[i];
    }
  }

  function ToWord(a: Byte, b: Byte, c: Byte, d: Byte): Word {
    (a as Word) | ((b as Word) << 8) | ((c as Word) << 16) | ((d as Word) << 24)
  }

  /** Byte `i` of a word, lowest first. */
  function ByteOf(w: Word, i: nat): Byte
    requires i < 4
  {
    match i
    case 0 => (w & 0xFF) as Byte
    case 1 => ((w >> 8) & 0xFF) as Byte
    case 2 => ((w >> 16) & 0xFF) as Byte
    case _ => ((w >> 24) & 0xFF) as Byte
  }

  function ToWords(bytes: seq<Byte>): (w: seq<Word>)
    requires |bytes| % 4 == 0
    ensures |w| == |bytes| / 4
  {
    seq(|bytes| / 4, i requires 0 <= i < |bytes| / 4 =>
      ToWord(bytes[4 * i], bytes[4 * i + 1], bytes[4 * i + 2], bytes[4 * i + 3]))
  }

  function ToBytes(words: seq<Word>): (b: seq<Byte>)
    ensures |b| == 4 * |words|
  {
    seq(4 * |words|, i requires 0 <= i < 4 * |words| => ByteOf(words[i / 4], i % 4))
  }

  lemma WordRoundTrip(w: Word)
    ensures ToWord(ByteOf(w, 0), ByteOf(w, 1), ByteOf(w, 2), ByteOf(w, 3)) == w
  {
  }

  lemma ByteRoundTrip(a: Byte, b: Byte, c: Byte, d: Byte)
    ensures ByteOf(ToWord(a, b, c, d), 0) == a && ByteOf(ToWord(a, b, c, d), 1) == b
    ensures ByteOf(ToWord(a, b, c, d), 2) == c && ByteOf(ToWord(a, b, c, d), 3) == d
  {
  }

  lemma ByteRoundTripAt(bytes: seq<Byte>, i: nat)
    requires |bytes| % 4 == 0 && i < |bytes|
    ensures ByteOf(ToWords(bytes)[i / 4], i % 4) == bytes[i]
  {
    var j := i / 4;
    ByteRoundTrip(bytes[4 * j], bytes[4 * j + 1], bytes[4 * j + 2], bytes[4 * j + 3]);
    assert i % 4 == 0 || i % 4 == 1 || i % 4 == 2 || i % 4 == 3;
  }

  lemma ByteAt(words: seq<Word>, i: nat, k: nat)
    requires i < |words| && k < 4
    ensures ToBytes(words)[4 * i + k] == ByteOf(words[i], k)
  {
    hide ByteOf;
    assert (4 * i + k) / 4 == i && (4 * i + k) % 4 == k;
  }

  lemma WordRoundTripAt(words: seq<Word>, i: nat)
    requires i < |words|
    ensures ToWords(ToBytes(words))[i] == words[i]
  {
    hide ByteOf, ToWord, ToBytes;
    ByteAt(words, i, 0);
    ByteAt(words, i, 1);
    ByteAt(words, i, 2);
    ByteAt(words, i, 3);
    WordRoundTrip(words[i]);
  }

  /** Reading words from bytes and writing them back are inverse to each other. */
  lemma ConversionsAreInverse(words: seq<Word>, bytes: seq<Byte>)
    requires |bytes| % 4 == 0
    ensures ToWords(ToBytes(words)) == words
    ensures ToBytes(ToWords(bytes)) == bytes
  {
    forall i: nat | i < |words| ensures ToWords(ToBytes(words))[i] == words[i] {
      WordRoundTripAt(words, i);
    }
    forall i: nat | i < |bytes| ensures ToBytes(ToWords(bytes))[i] == bytes[i] {
      ByteRoundTripAt(bytes, i);
    }
  }

  /** The words of a block; bytes past the end of the input are zero. */
  function ToBlock(bytes: seq<Byte>): Block
    requires |bytes| <= BLOCK_LEN
  {
    ToWords(bytes + seq(BLOCK_LEN - |bytes|, i => 0))
  }

  /** One more byte below the others. */
  function Below(low: Byte, high: Word): Word {
    low as Word + 0x100 * high
  }

  /** Bytes as a number, lowest first. */
  function LittleEndian(bytes: seq<Byte>): Word {
    if bytes == [] then 0 else Below(bytes[0], LittleEndian(bytes[1..]))
  }

  lemma FourBytes(a: Byte, b: Byte, c: Byte, d: Byte)
    ensures ToWord(a, b, c, d) == Below(a, Below(b, Below(c, Below(d, 0))))
  {
  }

  lemma LittleEndianOfFour(a: Byte, b: Byte, c: Byte, d: Byte)
    ensures LittleEndian([a, b, c, d]) == ToWord(a, b, c, d)
  {
    hide ToWord, Below;
    FourBytes(a, b, c, d);
    assert [a, b, c, d][1..] == [b, c, d] && [b, c, d][1..] == [c, d] && [c, d][1..] == [d] && [d][1..] == [];
    assert LittleEndian([d]) == Below(d, 0);
    assert LittleEndian([c, d]) == Below(c, LittleEndian([d]));
    assert LittleEndian([b, c, d]) == Below(b, LittleEndian([c, d]));
  }

  /** A word read from bytes has the first of its four bytes lowest. */
  lemma WordsAreLittleEndian(bytes: seq<Byte>, i: nat)
    requires |bytes| % 4 == 0 && i < |bytes| / 4
    ensures ToWords(bytes)[i] == LittleEndian(bytes[4 * i..4 * i + 4])
  {
    hide ToWord, LittleEndian;
    var four := bytes[4 * i..4 * i + 4];
    assert four == [bytes[4 * i], bytes[4 * i + 1], bytes[4 * i + 2], bytes[4 * i + 3]];
    LittleEndianOfFour(bytes[4 * i], bytes[4 * i + 1], bytes[4 * i + 2], bytes[4 * i + 3]);
  }

  /** A block holds the bytes it is made from, and zeros behind them. */
  lemma BlockHolds(bytes: seq<Byte>, i: nat)
    requires |bytes| <= BLOCK_LEN && i < BLOCK_LEN
    ensures ToBytes(ToBlock(bytes))[i] == if i < |bytes| then bytes[i] else 0
  {
    hide ToWords, ToBytes;
    ConversionsAreInverse([], bytes + seq(BLOCK_LEN - |bytes|, i => 0));
  }
}
