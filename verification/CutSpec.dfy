/** Content-defined chunking as a function of the whole byte stream ("FastCDC",
    USENIX ATC 2016, with the fastcdc-v1 parameters), and why it resynchronises. */
module CutSpec {
  import opened Words
  import opened Bitwise

  type GearTable = Byte -> uint64

  datatype Config = Config(minimum: int, average: int, maximum: int)

  const NORMALIZATION_LEVEL: int := 2
  const MAX_INT: int := 0x7FFF_FFFF_FFFF_FFFF

  predicate ValidConfig(c: Config) {
    c.minimum > 0 && c.average >= 8 && c.average >= c.minimum && c.maximum >= c.average && c.maximum <= MAX_INT / 2
  }

  /** `bits.Len(n) - 1`. */
  function Log2(n: nat): (k: nat)
    requires n > 0
    ensures Pow2(k) <= n < 2 * Pow2(k)
  {
    if n == 1 then 0 else 1 + Log2(n / 2)
  }

  function MaskForBits(bitCount: int): uint64 {
    var bits: int := if bitCount < 1 then 1 else bitCount;
    if bits >= 64 then TWO_64 - 1
    else MaskFits(bits); Pow2(bits) - 1
  }

  lemma MaskFits(bits: nat)
    requires bits <= 64
    ensures Pow2(bits) <= TWO_64
  {
    Pow2At32And64();
    if bits < 64 {
      Pow2Grows(bits, 64);
    }
  }

  /** One step of the rolling hash: shift left, add the byte's table entry. */
  function Rolled(hash: nat, entry: nat): uint64 {
    ((2 * hash) % TWO_64 + entry) % TWO_64
  }

  /** The rolling hash of the bytes seen so far. */
  function Gear(table: GearTable, bytes: seq<Byte>): uint64 {
    if bytes == [] then 0
    else Rolled(Gear(table, bytes[..|bytes| - 1]), table(bytes[|bytes| - 1]))
  }

  /** One more byte of a scan. */
  lemma GearStep(table: GearTable, w: seq<Byte>, lo: nat, i: nat)
    requires lo <= i < |w|
    ensures Gear(table, w[lo..i + 1]) == Rolled(Gear(table, w[lo..i]), table(w[i]))
  {
    hide Rolled;
    assert w[lo..i + 1][..i - lo] == w[lo..i];
  }

  /** Every byte's table entry, shifted by the number of bytes behind it. */
  function GearSum(table: GearTable, bytes: seq<Byte>): nat {
    if bytes == [] then 0 else table(bytes[0]) * Pow2(|bytes| - 1) + GearSum(table, bytes[1..])
  }

  lemma {:induction false} GearSumGrows(table: GearTable, bytes: seq<Byte>, last: Byte)
    ensures GearSum(table, bytes + [last]) == 2 * GearSum(table, bytes) + table(last)
  {
    if bytes == [] {
      assert [last][1..] == [] && Pow2(0) == 1;
    } else {
      var all := bytes + [last];
      assert Pow2(|bytes|) == 2 * Pow2(|bytes| - 1);
      hide Pow2;
      assert all[1..] == bytes[1..] + [last];
      assert GearSum(table, all) == table(bytes[0]) * Pow2(|bytes|) + GearSum(table, all[1..]);
      GearSumGrows(table, bytes[1..], last);
      Twice(Pow2(|bytes| - 1), table(bytes[0]));
    }
  }

  /** The rolling hash is that sum, modulo 2^64. */
  lemma {:induction false} GearIsSum(table: GearTable, bytes: seq<Byte>)
    ensures Gear(table, bytes) == GearSum(table, bytes) % TWO_64
  {
    if bytes != [] {
      var init, last := bytes[..|bytes| - 1], bytes[|bytes| - 1];
      GearLast(table, bytes);
      hide GearSum, Gear, Rolled;
      assert bytes == init + [last];
      GearIsSum(table, init);
      GearSumGrows(table, init, last);
      RolledRemainder(GearSum(table, init), table(last));
    }
  }

  lemma GearLast(table: GearTable, bytes: seq<Byte>)
    requires bytes != []
    ensures Gear(table, bytes) == Rolled(Gear(table, bytes[..|bytes| - 1]), table(bytes[|bytes| - 1]))
  {
    hide Rolled;
  }

  lemma {:induction false} RolledIs(hash: nat, entry: nat)
    ensures Rolled(hash, entry) == (2 * hash + entry) % TWO_64
  {
    var q, r := 2 * hash / TWO_64, 2 * hash % TWO_64;
    assert 2 * hash + entry == TWO_64 * q + (r + entry);
    AddMultiple(TWO_64, q, r + entry);
  }

  lemma {:induction false} RolledRemainder(sum: nat, entry: nat)
    ensures Rolled(sum % TWO_64, entry) == (2 * sum + entry) % TWO_64
  {
    var q, r := sum / TWO_64, sum % TWO_64;
    RolledIs(r, entry);
    assert 2 * sum + entry == TWO_64 * (2 * q) + (2 * r + entry);
    AddMultiple(TWO_64, 2 * q, 2 * r + entry);
  }

  datatype Params = Params(config: Config, table: GearTable) {

    predicate Valid() {
      ValidConfig(config)
    }

    function SmallBits(): nat
      requires Valid()
    {
      Log2(config.average) + NORMALIZATION_LEVEL
    }

    function LargeBits(): (k: nat)
      requires Valid()
      ensures 1 <= k == SmallBits() - 4
    {
      LogAtLeastThree(config.average);
      Log2(config.average) - NORMALIZATION_LEVEL
    }

    function Mask(i: nat): uint64
      requires Valid()
    {
      if i < config.average then MaskForBits(SmallBits()) else MaskForBits(LargeBits())
    }

    /** The scan stops after byte `i` of the window. */
    predicate Hit(w: seq<Byte>, i: nat)
      requires Valid() && config.minimum <= i < |w|
    {
      And(Gear(table, w[config.minimum..i + 1]), Mask(i)) == 0
    }

    function Scan(w: seq<Byte>, i: nat): (n: nat)
      requires Valid() && config.minimum <= i <= |w|
      ensures i <= n <= |w|
      ensures i < |w| ==> i < n
      ensures forall j: nat :: i <= j && j + 1 < n ==> !Hit(w, j)
      ensures n < |w| ==> Hit(w, n - 1)
      decreases |w| - i
    {
      if i == |w| then i else if Hit(w, i) then i + 1 else Scan(w, i + 1)
    }

    lemma ScanStep(w: seq<Byte>, i: nat, hash: nat)
      requires Valid() && config.minimum <= i < |w|
      requires hash == Gear(table, w[config.minimum..i + 1])
      ensures Scan(w, i) == if And(hash, Mask(i)) == 0 then i + 1 else Scan(w, i + 1)
    {
      hide And, Gear, Mask;
    }

    /** The length of the first chunk of a window of at most `maximum` bytes. */
    function CutLen(w: seq<Byte>): (n: nat)
      requires Valid()
      ensures n <= |w|
      ensures |w| > 0 ==> n > 0
      ensures n < |w| ==> n > config.minimum
    {
      if |w| <= config.minimum then |w| else Scan(w, config.minimum)
    }

    /** A cut is possible behind byte `i`: below the average size only when the two bits more than its
        logarithm at the low end of the hash are zero, from there on already when two bits less are. */
    predicate CutsAfter(w: seq<Byte>, i: nat)
      requires Valid() && config.minimum <= i < |w|
    {
      LogAtLeastThree(config.average);
      var h := Gear(table, w[config.minimum..i + 1]);
      if i < config.average then h % Pow2(Log2(config.average) + 2) == 0 else h % Pow2(Log2(config.average) - 2) == 0
    }

    /** `n` is the first place behind the minimum where a cut is possible, or the end. */
    ghost predicate IsFirstCut(w: seq<Byte>, n: nat)
      requires Valid()
    {
      if |w| <= config.minimum then n == |w|
      else
        && config.minimum < n <= |w|
        && (forall i: nat :: config.minimum <= i && i + 1 < n ==> !CutsAfter(w, i))
        && (n < |w| ==> CutsAfter(w, n - 1))
    }

    lemma HitsAreCuts(w: seq<Byte>, i: nat)
      requires Valid() && config.minimum <= i < |w|
      ensures Hit(w, i) <==> CutsAfter(w, i)
    {
      hide And, Gear, MaskForBits, Log2;
      LogAtLeastThree(config.average);
      SmallBitsFit(this);
      AndLowMask(Gear(table, w[config.minimum..i + 1]), SmallBits());
      AndLowMask(Gear(table, w[config.minimum..i + 1]), LargeBits());
    }

    /** Exactly one length is the first cut, and that is where the window is cut. */
    lemma CutLenIsFirstCut(w: seq<Byte>, n: nat)
      requires Valid()
      ensures IsFirstCut(w, n) <==> n == CutLen(w)
    {
      hide Hit, CutsAfter;
      forall i: nat | config.minimum <= i < |w| ensures Hit(w, i) <==> CutsAfter(w, i) {
        HitsAreCuts(w, i);
      }
    }

    /** What the chunker may look at before it cuts. */
    function Window(s: seq<Byte>): (w: seq<Byte>)
      requires Valid()
      ensures w <= s && |w| <= config.maximum
    {
      if |s| <= config.maximum then s else s[..config.maximum]
    }

    function FirstCut(s: seq<Byte>): (n: nat)
      requires Valid()
      ensures n <= |s| && n <= config.maximum
      ensures |s| > 0 ==> n > 0
      ensures n < |s| ==> n >= config.minimum
    {
      CutLen(Window(s))
    }

    /** The chunks of a stream. */
    function Chunks(s: seq<Byte>): (chunks: seq<seq<Byte>>)
      requires Valid()
      decreases |s|
    {
      if s == [] then [] else [s[..FirstCut(s)]] + Chunks(s[FirstCut(s)..])
    }

    /** A chunk of the stream ends after `n` bytes. */
    predicate BoundaryAt(s: seq<Byte>, n: nat)
      requires Valid()
      decreases |s|
    {
      n == 0 || (s != [] && FirstCut(s) <= n && BoundaryAt(s[FirstCut(s)..], n - FirstCut(s)))
    }

    /** Where the chunk that contains byte `n - 1` starts. */
    function LastBoundaryBefore(s: seq<Byte>, n: nat): (b: nat)
      requires Valid() && 0 < n <= |s|
      ensures b < n && BoundaryAt(s, b)
      decreases |s|
    {
      var c := FirstCut(s);
      if n <= c then 0 else c + LastBoundaryBefore(s[c..], n - c)
    }

    /** What is handed out when the reader stops after `s`: at a clean end every chunk,
        after a failure only those that a full window allows. */
    function Emitted(s: seq<Byte>, failed: bool): (chunks: seq<seq<Byte>>)
      requires Valid()
      decreases |s|
    {
      if s == [] || (failed && |s| < config.maximum) then []
      else [s[..FirstCut(s)]] + Emitted(s[FirstCut(s)..], failed)
    }

    lemma {:induction false} CleanEndEmitsAll(s: seq<Byte>)
      requires Valid()
      ensures Emitted(s, false) == Chunks(s)
      decreases |s|
    {
      hide CutLen, Window, FirstCut;
      if s != [] {
        CleanEndEmitsAll(s[FirstCut(s)..]);
      }
    }

    lemma FullWindowDecides(s: seq<Byte>, more: seq<Byte>)
      requires Valid() && |s| >= config.maximum
      ensures FirstCut(s + more) == FirstCut(s)
    {
      hide CutLen;
      assert Window(s + more) == Window(s);
    }

    /** What a failing reader lets through is right however the stream would have gone on. */
    lemma {:induction false} FailureEmitsPrefix(s: seq<Byte>, more: seq<Byte>)
      requires Valid()
      ensures Emitted(s, true) <= Chunks(s + more)
      decreases |s|
    {
      hide CutLen, Window, FirstCut;
      if s != [] && |s| >= config.maximum {
        FullWindowDecides(s, more);
        var c := FirstCut(s);
        FailureEmitsPrefix(s[c..], more);
        assert (s + more)[c..] == s[c..] + more;
        assert (s + more)[..c] == s[..c];
      }
    }

    /** Everything except less than one maximal chunk has been handed out by then. */
    lemma {:induction false} FailureKeepsBack(s: seq<Byte>)
      requires Valid()
      ensures Flatten(Emitted(s, true)) <= s
      ensures |s| - |Flatten(Emitted(s, true))| < config.maximum
      decreases |s|
    {
      hide CutLen, Window, FirstCut;
      if s != [] && |s| >= config.maximum {
        var c := FirstCut(s);
        FailureKeepsBack(s[c..]);
        assert s == s[..c] + s[c..];
      }
    }

    /** And nothing has that a full window was not left for. */
    lemma {:induction false} FailureNeedsFullWindows(s: seq<Byte>, i: nat)
      requires Valid() && i < |Emitted(s, true)|
      ensures |Flatten(Emitted(s, true)[..i])| + config.maximum <= |s|
      decreases |s|
    {
      hide CutLen, Window, FirstCut;
      if i > 0 {
        var c := FirstCut(s);
        FailureNeedsFullWindows(s[c..], i - 1);
        assert Emitted(s, true)[..i][1..] == Emitted(s[c..], true)[..i - 1];
      }
    }

    /** How many chunks end at or before a boundary. */
    function ChunksBefore(s: seq<Byte>, n: nat): (k: nat)
      requires Valid() && BoundaryAt(s, n)
      ensures n <= |s| && k <= |Chunks(s)|
      decreases |s|
    {
      if n == 0 then 0 else 1 + ChunksBefore(s[FirstCut(s)..], n - FirstCut(s))
    }

    /** From a boundary on, the chunks are those of the rest of the stream alone. */
    lemma {:induction false} ChunksFromBoundary(s: seq<Byte>, n: nat)
      requires Valid() && BoundaryAt(s, n)
      ensures n <= |s|
      ensures Chunks(s)[ChunksBefore(s, n)..] == Chunks(s[n..])
      decreases |s|
    {
      hide CutLen, Window, FirstCut;
      if n > 0 {
        var rest := s[FirstCut(s)..];
        ChunksFromBoundary(rest, n - FirstCut(s));
        assert rest[n - FirstCut(s)..] == s[n..];
        assert Chunks(s)[ChunksBefore(s, n)..] == Chunks(rest)[ChunksBefore(s, n) - 1..];
      }
    }

    /** Up to a boundary, the chunks are the bytes up to it. */
    lemma {:induction false} ChunksUpToBoundary(s: seq<Byte>, n: nat)
      requires Valid() && BoundaryAt(s, n)
      ensures n <= |s|
      ensures Flatten(Chunks(s)[..ChunksBefore(s, n)]) == s[..n]
      decreases |s|
    {
      hide CutLen, Window, FirstCut;
      if n > 0 {
        var c := FirstCut(s);
        var rest := s[c..];
        ChunksUpToBoundary(rest, n - c);
        assert Chunks(s)[..ChunksBefore(s, n)] == [s[..c]] + Chunks(rest)[..ChunksBefore(s, n) - 1];
        assert s[..c] + rest[..n - c] == s[..n];
      }
    }

    /** The chunks tile the stream, and their sizes obey the configuration. */
    lemma {:induction false} ChunksTile(s: seq<Byte>)
      requires Valid()
      ensures Flatten(Chunks(s)) == s
      ensures forall i :: 0 <= i < |Chunks(s)| ==> 0 < |Chunks(s)[i]| <= config.maximum
      ensures forall i :: 0 <= i < |Chunks(s)| - 1 ==> |Chunks(s)[i]| >= config.minimum
      decreases |s|
    {
      hide CutLen, Window, FirstCut;
      if s != [] {
        var c := FirstCut(s);
        ChunksTile(s[c..]);
        assert s[..c] + s[c..] == s;
      }
    }

    /** Every chunk ends at the first cut of what is left of the stream, up to the maximal size. */
    lemma {:induction false} ChunksAreFirstCuts(s: seq<Byte>, i: nat)
      requires Valid() && i < |Chunks(s)|
      ensures var rest := Flatten(Chunks(s)[i..]);
              IsFirstCut(if |rest| <= config.maximum then rest else rest[..config.maximum], |Chunks(s)[i]|)
      decreases |s|
    {
      hide CutLen, IsFirstCut, FirstCut;
      var c := FirstCut(s);
      if i == 0 {
        ChunksTile(s);
        assert Chunks(s)[0..] == Chunks(s) && |s[..c]| == c;
        FirstCutIsFirstCut(s);
      } else {
        ChunksAreFirstCuts(s[c..], i - 1);
        assert Chunks(s)[i..] == Chunks(s[c..])[i - 1..];
      }
    }

    lemma FirstCutIsFirstCut(s: seq<Byte>)
      requires Valid()
      ensures IsFirstCut(if |s| <= config.maximum then s else s[..config.maximum], FirstCut(s))
    {
      hide IsFirstCut;
      CutLenIsFirstCut(Window(s), CutLen(Window(s)));
    }

    /** At most one chunk is shorter than the minimum. */
    lemma {:induction false} ChunkCountBound(s: seq<Byte>)
      requires Valid()
      ensures |Chunks(s)| * config.minimum < |s| + config.minimum
      ensures |Chunks(s)| <= |s| / config.minimum + 1
      decreases |s|
    {
      hide CutLen, Window, FirstCut;
      if s != [] {
        hide Chunks;
        var rest := s[FirstCut(s)..];
        ChunkCountBound(rest);
        assert |Chunks(s)| == |Chunks(rest)| + 1 by { ChunksAfterFirst(s); }
        OneMoreTimes(|Chunks(rest)|, config.minimum);
      }
      CountFromProduct(|Chunks(s)|, config.minimum, |s|);
    }

    lemma ChunksAfterFirst(s: seq<Byte>)
      requires Valid() && s != []
      ensures |Chunks(s)| == 1 + |Chunks(s[FirstCut(s)..])|
    {
      hide FirstCut;
    }
  }

  lemma {:induction false} OneMoreTimes(n: nat, m: nat)
    ensures (n + 1) * m == n * m + m
  {
  }

  lemma {:induction false} CountFromProduct(n: nat, m: nat, total: nat)
    requires m > 0 && n * m < total + m
    ensures n <= total / m + 1
  {
    if n > total / m + 1 {
      AtLeastOneMore(m, total / m + 1, n);
    }
  }

  lemma LogAtLeastThree(n: nat)
    requires n >= 8
    ensures Log2(n) >= 3
  {
    if Log2(n) < 3 {
      Pow2Grows(Log2(n), 3);
    }
  }

  lemma SmallBitsFit(p: Params)
    requires p.Valid()
    ensures p.SmallBits() < 64
    ensures MaskForBits(p.SmallBits()) == Pow2(p.SmallBits()) - 1
    ensures MaskForBits(p.LargeBits()) == Pow2(p.LargeBits()) - 1
  {
    hide Log2;
    Log2Fits(p.config.average);
  }

  lemma Log2Fits(n: nat)
    requires 0 < n <= MAX_INT / 2
    ensures Log2(n) < 62
  {
    hide Pow2, Log2;
    Pow2At32And64();
    Pow2Adds(62, 2);
    assert Pow2(2) == 4 by { SmallPowers(); }
    if Log2(n) > 62 {
      Pow2Grows(62, Log2(n));
    }
  }

  lemma SmallPowers()
    ensures Pow2(1) == 2 && Pow2(2) == 4
  {
  }

  /** A mask of so many bits, clamped to one and the word, selects the remainder. */
  lemma MaskSelects(x: uint64, bitCount: int)
    ensures And(x, MaskForBits(bitCount)) ==
            x % Pow2(if bitCount < 1 then 1 else if bitCount >= 64 then 64 else bitCount)
  {
    hide And, Pow2;
    Pow2At32And64();
    assert Pow2(1) == 2 by { SmallPowers(); }
    AndLowMask(x, if bitCount < 1 then 1 else if bitCount >= 64 then 64 else bitCount);
  }
}
