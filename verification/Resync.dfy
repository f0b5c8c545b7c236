/** Why a local change to a stream leaves most of its chunks alone: whether the
    scan stops depends on few bytes, so streams that share bytes come to share cuts. */
module Resync {
  import opened Words
  import opened Bitwise
  import opened CutSpec

  /** One step of the rolling hash, seen through its low `k` bits. */
  lemma {:induction false} StepLowBits(h: nat, g: nat, k: nat)
    requires 0 < k <= 64
    ensures Rolled(h, g) % Pow2(k) == (2 * (h % Pow2(k - 1)) + g) % Pow2(k)
  {
    assert Pow2(k) == 2 * Pow2(k - 1);
    hide Pow2, Rolled;
    RolledIs(h, g);
    WordMod(2 * h + g, k);
    DoubledRemainder(h, g, Pow2(k - 1));
  }

  lemma {:induction false} DoubledRemainder(h: nat, g: nat, half: nat)
    requires half > 0
    ensures (2 * h + g) % (2 * half) == (2 * (h % half) + g) % (2 * half)
  {
    var q, lo := h / half, h % half;
    assert h == half * q + lo;
    Twice(half, q);
    AddMultiple(2 * half, q, 2 * lo + g);
  }

  /** The low `k` bits of the rolling hash depend on the last `k` bytes only. */
  lemma {:induction false} LowBitsAreLocal(table: GearTable, s: seq<Byte>, t: seq<Byte>, k: nat)
    requires k <= 64 && k <= |s| && k <= |t|
    requires s[|s| - k..] == t[|t| - k..]
    ensures Gear(table, s) % Pow2(k) == Gear(table, t) % Pow2(k)
  {
    if k > 0 {
      var s', t' := s[..|s| - 1], t[..|t| - 1];
      var sTail, tTail := s[|s| - k..], t[|t| - k..];
      assert s'[|s'| - (k - 1)..] == sTail[..k - 1];
      assert t'[|t'| - (k - 1)..] == tTail[..k - 1];
      assert sTail[k - 1] == s[|s| - 1] && tTail[k - 1] == t[|t| - 1];
      LowBitsAreLocal(table, s', t', k - 1);
      StepLowBits(Gear(table, s'), table(s[|s| - 1]), k);
      StepLowBits(Gear(table, t'), table(t[|t| - 1]), k);
    }
  }

  /** Bytes whose own rolling hash already passes the strict test. */
  predicate IsAnchor(p: Params, bytes: seq<Byte>)
    requires p.Valid()
  {
    |bytes| == p.SmallBits() && And(Gear(p.table, bytes), MaskForBits(p.SmallBits())) == 0
  }

  lemma {:induction false} DividesFactor(x: nat, a: nat, b: nat, ab: nat)
    requires a > 0 && b > 0 && ab == a * b && ab > 0 && x % ab == 0
    ensures x % a == 0
  {
    ModOfMultiple(x, a, b, ab);
  }

  lemma {:induction false} StrictImpliesLoose(h: nat, small: nat, large: nat)
    requires large <= small && And(h, Pow2(small) - 1) == 0
    ensures And(h, Pow2(large) - 1) == 0
  {
    hide And;
    AndLowMask(h, small);
    AndLowMask(h, large);
    Pow2Adds(large, small - large);
    DividesFactor(h, Pow2(large), Pow2(small - large), Pow2(small));
  }

  /** The strict test implies the loose one. */
  lemma SmallImpliesLarge(p: Params, h: nat)
    requires p.Valid() && And(h, MaskForBits(p.SmallBits())) == 0
    ensures And(h, MaskForBits(p.LargeBits())) == 0
  {
    hide And, Params.SmallBits, Params.LargeBits, MaskForBits;
    SmallBitsFit(p);
    StrictImpliesLoose(h, p.SmallBits(), p.LargeBits());
  }

  /** A scan that has hashed at least as many bytes as the strict mask has bits stops at an anchor. */
  lemma AnchorIsHit(p: Params, w: seq<Byte>, i: nat)
    requires p.Valid() && p.config.minimum + p.SmallBits() <= i + 1 <= |w|
    requires IsAnchor(p, w[i + 1 - p.SmallBits()..i + 1])
    ensures p.Hit(w, i)
  {
    hide And, Gear, Params.SmallBits, Params.LargeBits, MaskForBits;
    var k := p.SmallBits();
    assert p.Mask(i) == MaskForBits(k) || p.Mask(i) == MaskForBits(p.LargeBits());
    var hashed, anchor := w[p.config.minimum..i + 1], w[i + 1 - k..i + 1];
    assert hashed[|hashed| - k..] == anchor[|anchor| - k..];
    SameTailPassesStrict(p, hashed, anchor);
    SmallImpliesLarge(p, Gear(p.table, hashed));
  }

  lemma SameTailPassesStrict(p: Params, hashed: seq<Byte>, anchor: seq<Byte>)
    requires p.Valid() && p.SmallBits() <= |hashed| && IsAnchor(p, anchor)
    requires hashed[|hashed| - p.SmallBits()..] == anchor[|anchor| - p.SmallBits()..]
    ensures And(Gear(p.table, hashed), MaskForBits(p.SmallBits())) == 0
  {
    hide And, Gear, Params.SmallBits, MaskForBits;
    var k := p.SmallBits();
    SmallBitsFit(p);
    LowBitsAreLocal(p.table, hashed, anchor, k);
    AndLowMask(Gear(p.table, hashed), k);
    AndLowMask(Gear(p.table, anchor), k);
  }

  /** The anchor that ends at `e` lies far enough behind the start of its chunk. */
  predicate AnchoredAt(p: Params, s: seq<Byte>, e: nat)
    requires p.Valid()
  {
    && p.SmallBits() <= e <= |s| && 0 < e
    && IsAnchor(p, s[e - p.SmallBits()..e])
    && e - p.LastBoundaryBefore(s, e) >= p.config.minimum + p.SmallBits()
  }

  lemma AnchorEndsChunk(p: Params, s: seq<Byte>, e: nat)
    requires p.Valid() && p.config.minimum + p.SmallBits() <= e <= p.FirstCut(s)
    requires IsAnchor(p, s[e - p.SmallBits()..e])
    ensures p.FirstCut(s) == e
  {
    hide Params.SmallBits, Params.Hit, IsAnchor;
    var w, k := p.Window(s), p.SmallBits();
    assert w[e - k..e] == s[e - k..e];
    assert p.LargeBits() < k;
    AnchorIsHit(p, w, e - 1);
  }

  /** Such an anchor forces a cut, whatever the bytes before it are. */
  lemma {:induction false} AnchorForcesCut(p: Params, s: seq<Byte>, e: nat)
    requires p.Valid() && AnchoredAt(p, s, e)
    ensures p.BoundaryAt(s, e)
    decreases |s|
  {
    hide Params.SmallBits, Params.Hit, Params.Scan, Params.Chunks, IsAnchor;
    if e <= p.FirstCut(s) {
      AnchorEndsChunk(p, s, e);
    } else {
      hide AnchoredAt;
      AnchoredAfterFirstCut(p, s, e);
      AnchorForcesCut(p, s[p.FirstCut(s)..], e - p.FirstCut(s));
    }
  }

  lemma AnchoredAfterFirstCut(p: Params, s: seq<Byte>, e: nat)
    requires p.Valid() && AnchoredAt(p, s, e) && p.FirstCut(s) < e
    ensures s != [] && AnchoredAt(p, s[p.FirstCut(s)..], e - p.FirstCut(s))
  {
    hide Params.FirstCut, Params.SmallBits, Params.Chunks, Params.BoundaryAt, IsAnchor;
    var c, k := p.FirstCut(s), p.SmallBits();
    assert e - k >= p.LastBoundaryBefore(s, e) >= c;
    assert s[c..] == s[c..|s|];
    SliceOfSlice(s, c, |s|, e - c - k, e - c);
  }

  /** Anchors do occur: a one among zeros keeps the scan going until it has moved out of the strict mask. */
  lemma AnAnchor() returns (p: Params, s: seq<Byte>)
    ensures p.Valid() && AnchoredAt(p, s, |s|)
  {
    hide Log2, Gear, And, Params.Scan;
    p := Params(Config(1, 8, 64), b => if b == 1 then 1 else 0);
    s := [1, 1, 0, 0, 0, 0, 0];
    LogOfEight();
    assert Pow2(5) == 32 && MaskForBits(5) == 31;
    assert p.SmallBits() == 5;
    hide Pow2, MaskForBits;
    forall j: nat | 1 <= j < 6 ensures 0 < HashUpTo(p, s, j) < 32 {
      OneMovesUp(p, s, j);
    }
    NoEarlyHit(p, s);
    ZerosHashToZero(p, s[2..7]);
    AndLowMask(0, 5);
  }

  function HashUpTo(p: Params, s: seq<Byte>, j: nat): nat
    requires 1 <= j < |s|
  {
    Gear(p.table, s[1..j + 1])
  }

  lemma NoEarlyHit(p: Params, s: seq<Byte>)
    requires p.Valid() && p.config == Config(1, 8, 64) && |s| == 7
    requires p.SmallBits() == 5 && MaskForBits(5) == 31 && Pow2(5) == 32
    requires forall j: nat :: 1 <= j < 6 ==> 0 < HashUpTo(p, s, j) < 32
    ensures p.FirstCut(s) == 7
  {
    hide Params.Scan, Params.SmallBits, Params.LargeBits, MaskForBits, Gear, And, Pow2;
    assert p.Window(s) == s;
    forall j: nat | 1 <= j < 6 ensures !p.Hit(s, j) {
      AndLowMask(HashUpTo(p, s, j), 5);
    }
  }

  lemma LogOfEight()
    ensures Log2(8) == 3
  {
    assert Log2(4) == 2 by { assert Log2(2) == 1; }
  }

  lemma {:induction false} OneMovesUp(p: Params, s: seq<Byte>, j: nat)
    requires |s| == 7 && s[1] == 1 && (forall i :: 2 <= i < 7 ==> s[i] == 0) && 1 <= j < 6
    requires p.table(1) == 1 && p.table(0) == 0
    ensures HashUpTo(p, s, j) == Pow2(j - 1) < Pow2(5) == 32
  {
    hide Gear, Pow2, Rolled;
    PowersUpToFive(j - 1);
    if j == 1 {
      ZerosHashToZero(p, s[1..1]);
    } else {
      OneMovesUp(p, s, j - 1);
      PowersUpToFive(j - 2);
    }
    GearStep(p.table, s, 1, j);
    RolledIs(Gear(p.table, s[1..j]), p.table(s[j]));
  }

  lemma PowersUpToFive(k: nat)
    requires k < 5
    ensures Pow2(k) < Pow2(5) == 32 && Pow2(k + 1) == 2 * Pow2(k) && Pow2(0) == 1
  {
    assert Pow2(5) == 32;
    Pow2Grows(k, 5);
  }

  lemma {:induction false} ZerosHashToZero(p: Params, zeros: seq<Byte>)
    requires p.table(0) == 0 && forall i :: 0 <= i < |zeros| ==> zeros[i] == 0
    ensures Gear(p.table, zeros) == 0
  {
    if zeros != [] {
      ZerosHashToZero(p, zeros[..|zeros| - 1]);
    }
  }

  /** Two streams that end in the same bytes and cut at one common place among them
      have the same chunks from there on. */
  lemma SharedCutSharesChunks(p: Params, a: seq<Byte>, b: seq<Byte>, tail: seq<Byte>, e: nat)
    requires p.Valid() && e <= |tail|
    requires p.BoundaryAt(a + tail, |a| + e) && p.BoundaryAt(b + tail, |b| + e)
    ensures p.Chunks(a + tail)[p.ChunksBefore(a + tail, |a| + e)..]
         == p.Chunks(b + tail)[p.ChunksBefore(b + tail, |b| + e)..]
         == p.Chunks(tail[e..])
  {
    hide Params.Chunks, Params.BoundaryAt, Params.ChunksBefore;
    p.ChunksFromBoundary(a + tail, |a| + e);
    p.ChunksFromBoundary(b + tail, |b| + e);
    assert (a + tail)[|a| + e..] == tail[e..] == (b + tail)[|b| + e..];
  }

  /** Chunks are not empty, so fewer bytes are fewer chunks. */
  lemma {:induction false} FewerBytesFewerChunks(chunks: seq<seq<Byte>>, k: nat, l: nat)
    requires k <= |chunks| && l <= |chunks| && |Flatten(chunks[..l])| <= |Flatten(chunks[..k])|
    requires forall i :: 0 <= i < |chunks| ==> chunks[i] != []
    ensures l <= k
  {
    if l > 0 && k > 0 {
      assert chunks[..l][1..] == chunks[1..][..l - 1] && chunks[..k][1..] == chunks[1..][..k - 1];
      FewerBytesFewerChunks(chunks[1..], k - 1, l - 1);
    }
  }

  lemma {:induction false} FlattenAdds(a: seq<seq<Byte>>, b: seq<seq<Byte>>)
    ensures Flatten(a + b) == Flatten(a) + Flatten(b)
  {
    if a == [] {
      assert a + b == b;
    } else {
      assert (a + b)[1..] == a[1..] + b;
      FlattenAdds(a[1..], b);
    }
  }

  /** The chunks of a stream that continues `a` start with those that `a` decides, and between
      these and a boundary at `n` there are less than `maximum` bytes more than `a` lacks to `n`. */
  lemma MiddleIsShort(p: Params, a: seq<Byte>, more: seq<Byte>, n: nat) returns (middle: seq<seq<Byte>>)
    requires p.Valid() && p.BoundaryAt(a + more, n) && |a| <= n
    ensures p.Chunks(a + more)[..p.ChunksBefore(a + more, n)] == p.Emitted(a, true) + middle
    ensures |Flatten(middle)| < p.config.maximum + (n - |a|)
  {
    hide Params.Chunks, Params.BoundaryAt, Params.Emitted, Params.ChunksBefore;
    var s, left := a + more, p.Emitted(a, true);
    var chunks, k := p.Chunks(s), p.ChunksBefore(s, n);
    p.FailureEmitsPrefix(a, more);
    p.FailureKeepsBack(a);
    p.ChunksUpToBoundary(s, n);
    p.ChunksTile(s);
    assert chunks[..|left|] == left;
    FewerBytesFewerChunks(chunks, k, |left|);
    middle := chunks[|left|..k];
    assert chunks[..k] == left + middle;
    FlattenAdds(left, middle);
  }

  /** An edit is local: streams that differ only between `a` and `tail`, and both meet an anchor
      in the tail, have the chunks that `a` decides and all chunks from the anchor on in common.
      What they may not have in common is the edit, the tail up to the anchor, and less than one
      maximal chunk in front of them. */
  lemma EditIsLocal(p: Params, a: seq<Byte>, x: seq<Byte>, y: seq<Byte>, tail: seq<Byte>, e: nat)
    returns (oldMiddle: seq<seq<Byte>>, newMiddle: seq<seq<Byte>>)
    requires p.Valid() && e <= |tail|
    requires AnchoredAt(p, a + x + tail, |a + x| + e) && AnchoredAt(p, a + y + tail, |a + y| + e)
    ensures p.Chunks(a + x + tail) == p.Emitted(a, true) + oldMiddle + p.Chunks(tail[e..])
    ensures p.Chunks(a + y + tail) == p.Emitted(a, true) + newMiddle + p.Chunks(tail[e..])
    ensures |Flatten(oldMiddle)| < p.config.maximum + |x| + e
    ensures |Flatten(newMiddle)| < p.config.maximum + |y| + e
  {
    hide Params.Chunks, Params.BoundaryAt, Params.Emitted, Params.ChunksBefore, AnchoredAt;
    SharedTailResynchronises(p, a + x, a + y, tail, e);
    assert a + x + tail == a + (x + tail) && a + y + tail == a + (y + tail);
    oldMiddle := MiddleIsShort(p, a, x + tail, |a + x| + e);
    newMiddle := MiddleIsShort(p, a, y + tail, |a + y| + e);
    AtBoundary(p, a + x + tail, |a + x| + e);
    AtBoundary(p, a + y + tail, |a + y| + e);
  }

  lemma AtBoundary(p: Params, s: seq<Byte>, n: nat)
    requires p.Valid() && p.BoundaryAt(s, n)
    ensures var k := p.ChunksBefore(s, n); p.Chunks(s) == p.Chunks(s)[..k] + p.Chunks(s)[k..]
  {
    hide Params.Chunks, Params.ChunksBefore, Params.BoundaryAt;
  }

  /** Two streams that end in the same bytes and both meet an anchor there have the
      same chunks from that anchor on. */
  lemma SharedTailResynchronises(p: Params, a: seq<Byte>, b: seq<Byte>, tail: seq<Byte>, e: nat)
    requires p.Valid() && e <= |tail|
    requires AnchoredAt(p, a + tail, |a| + e) && AnchoredAt(p, b + tail, |b| + e)
    ensures p.BoundaryAt(a + tail, |a| + e) && p.BoundaryAt(b + tail, |b| + e)
    ensures p.Chunks(a + tail)[p.ChunksBefore(a + tail, |a| + e)..]
         == p.Chunks(b + tail)[p.ChunksBefore(b + tail, |b| + e)..]
         == p.Chunks(tail[e..])
  {
    hide Params.Chunks, Params.BoundaryAt, AnchoredAt, Params.ChunksBefore;
    AnchorForcesCut(p, a + tail, |a| + e);
    AnchorForcesCut(p, b + tail, |b| + e);
    SharedCutSharesChunks(p, a, b, tail, e);
  }
}
