/** The subtrees over a growing list of chunk chaining values, and how the
    subtrees named by the set bits of the chunk count make up the whole tree. */
module ChunkForest {
  import opened Words
  import opened Bitwise
  import opened TreeSpec
  import opened LazyStack

  ghost function Aligned(m: Mode, leaves: seq<Chain>, lo: nat, hi: nat): Chain {
    if lo < hi <= |leaves| then m.Join(leaves[lo..hi]) else m.key
  }

  /** The `i`-th aligned subtree of `2^k` chunks. */
  ghost function Subtree(m: Mode, leaves: seq<Chain>, k: nat, i: nat): Chain {
    Aligned(m, leaves, i * Pow2(k), (i + 1) * Pow2(k))
  }

  ghost function Subtrees(m: Mode, leaves: seq<Chain>): Forest {
    (k, i) => Subtree(m, leaves, k, i)
  }

  lemma JoinOfTwins(m: Mode, cvs: seq<Chain>, k: nat)
    requires |cvs| == 2 * Pow2(k)
    ensures m.Join(cvs) == m.CV(m.ParentNode(m.Join(cvs[..Pow2(k)]), m.Join(cvs[Pow2(k)..])))
  {
    LeftSizeUnique(|cvs|, k);
  }

  lemma Products(i: nat, p: nat)
    ensures (2 * i) * p == i * (2 * p)
    ensures (2 * i + 1) * p == i * (2 * p) + p
    ensures (2 * i + 2) * p == i * (2 * p) + 2 * p == (i + 1) * (2 * p)
  {
  }

  /** Twin subtrees have the subtree one level up as their parent. */
  lemma {:induction false} ParentOfTwins(m: Mode, leaves: seq<Chain>, k: nat, i: nat)
    requires (i + 1) * Pow2(k + 1) <= |leaves|
    ensures Subtree(m, leaves, k + 1, i) ==
            m.CV(m.ParentNode(Subtree(m, leaves, k, 2 * i), Subtree(m, leaves, k, 2 * i + 1)))
  {
    hide Mode.Join, Mode.ParentNode, Mode.CV;
    var p := Pow2(k);
    var lo := i * (2 * p);
    assert Pow2(k + 1) == 2 * p;
    Products(i, p);
    var all := leaves[lo..lo + 2 * p];
    JoinOfTwins(m, all, k);
    assert all[..p] == leaves[lo..lo + p];
    assert all[p..] == leaves[lo + p..lo + 2 * p];
  }

  lemma SubtreeOfExtension(m: Mode, leaves: seq<Chain>, more: seq<Chain>, k: nat, i: nat)
    requires (i + 1) * Pow2(k) <= |leaves|
    ensures Subtree(m, leaves, k, i) == Subtree(m, leaves + more, k, i)
  {
    var lo, hi := i * Pow2(k), (i + 1) * Pow2(k);
    assert lo < hi by {
      assert hi == lo + Pow2(k);
    }
    assert leaves[lo..hi] == (leaves + more)[lo..hi];
  }

  lemma ForestOfExtension(m: Mode, leaves: seq<Chain>, more: seq<Chain>)
    ensures Agree(Subtrees(m, leaves), Subtrees(m, leaves + more), |leaves|)
  {
    forall k: nat, i: nat | (i + 1) * Pow2(k) <= |leaves|
      ensures Subtrees(m, leaves)(k, i) == Subtrees(m, leaves + more)(k, i)
    {
      SubtreeOfExtension(m, leaves, more, k, i);
    }
  }

  lemma SubtreeOfOne(m: Mode, leaves: seq<Chain>, i: nat)
    requires i < |leaves|
    ensures Subtree(m, leaves, 0, i) == leaves[i]
  {
    assert leaves[i..i + 1] == [leaves[i]];
  }

  /** The chaining value of chunk `i`, a full one. */
  ghost function FullLeaf(m: Mode, input: seq<Byte>, i: nat): Chain
    requires CHUNK_LEN * (i + 1) <= |input|
  {
    m.CV(m.ChunkNode(input[CHUNK_LEN * i..CHUNK_LEN * (i + 1)], i))
  }

  /** The chaining values of the first `n` chunks, all of them full. */
  ghost function FullLeaves(m: Mode, input: seq<Byte>, n: nat): (cvs: seq<Chain>)
    requires CHUNK_LEN * n <= |input|
    ensures |cvs| == n
  {
    seq(n, i requires 0 <= i < n => FullLeaf(m, input, i))
  }

  lemma FullLeavesOfExtension(m: Mode, input: seq<Byte>, more: seq<Byte>, n: nat)
    requires CHUNK_LEN * n <= |input|
    ensures FullLeaves(m, input, n) == FullLeaves(m, input + more, n)
  {
    hide Mode.CV, Mode.ChunkNode;
    forall i: nat | i < n ensures FullLeaves(m, input, n)[i] == FullLeaves(m, input + more, n)[i] {
      assert input[CHUNK_LEN * i..CHUNK_LEN * (i + 1)] == (input + more)[CHUNK_LEN * i..CHUNK_LEN * (i + 1)];
    }
  }

  /** A run of full chunks is a tree of its own. */
  lemma {:induction false} RunOfChunks(m: Mode, input: seq<Byte>, n: nat, a: nat, b: nat)
    requires CHUNK_LEN * n <= |input| && a < b <= n
    ensures m.CV(m.TreeNode(input[CHUNK_LEN * a..CHUNK_LEN * b], a)) == m.Join(FullLeaves(m, input, n)[a..b])
  {
    var run := input[CHUNK_LEN * a..CHUNK_LEN * b];
    m.TreeIsJoin(run, a);
    assert m.Leaves(run, a) == FullLeaves(m, input, n)[a..b] by {
      RunOfLeaves(m, input, n, a, b);
    }
  }

  lemma {:induction false} RunOfLeaves(m: Mode, input: seq<Byte>, n: nat, a: nat, b: nat)
    requires CHUNK_LEN * n <= |input| && a < b <= n
    ensures m.Leaves(input[CHUNK_LEN * a..CHUNK_LEN * b], a) == FullLeaves(m, input, n)[a..b]
  {
    var run := input[CHUNK_LEN * a..CHUNK_LEN * b];
    assert ChunkCount(|run|) == b - a;
    hide Mode.Leaf, FullLeaf, ChunkCount;
    var own, all := m.Leaves(run, a), FullLeaves(m, input, n);
    forall i: nat | i < |own| ensures own[i] == all[a..b][i] {
      LeafOfRun(m, input, a, b, i);
      assert all[a..b][i] == all[a + i];
    }
  }

  lemma LeafOfRun(m: Mode, input: seq<Byte>, a: nat, b: nat, i: nat)
    requires CHUNK_LEN * b <= |input| && a + i < b
    ensures b - a == ChunkCount(CHUNK_LEN * (b - a))
    ensures m.Leaf(input[CHUNK_LEN * a..CHUNK_LEN * b], a, i) ==
            FullLeaf(m, input, a + i)
  {
    hide Mode.CV, Mode.ChunkNode;
    SliceOfSlice(input, CHUNK_LEN * a, CHUNK_LEN * b, CHUNK_LEN * i, CHUNK_LEN * (i + 1));
  }

  /** The left child holds the largest power of two of chunks strictly below the total. */
  lemma {:induction false} TreeSplits(m: Mode, input: seq<Byte>, counter: nat, k: nat)
    requires Pow2(k) < ChunkCount(|input|) <= 2 * Pow2(k)
    ensures CHUNK_LEN * Pow2(k) < |input|
    ensures m.TreeNode(input, counter) ==
            m.ParentNode(m.CV(m.TreeNode(input[..CHUNK_LEN * Pow2(k)], counter)),
                         m.CV(m.TreeNode(input[CHUNK_LEN * Pow2(k)..], counter + Pow2(k))))
  {
    hide Mode.CV, Mode.ChunkNode;
    LeftSizeUnique(ChunkCount(|input|), k);
  }

  /** Putting the subtree of a set bit to the left of what the lower bits cover. */
  lemma {:induction false} FoldStep(m: Mode, input: seq<Byte>, n: nat, covered: nat, k: nat)
    requires CHUNK_LEN * n < |input| <= CHUNK_LEN * (n + 1)
    requires Pow2(k) <= covered <= n && n - covered < Pow2(k)
    ensures m.TreeNode(input[CHUNK_LEN * (covered - Pow2(k))..], covered - Pow2(k)) ==
            m.ParentNode(m.Join(FullLeaves(m, input, n)[covered - Pow2(k)..covered]),
                         m.CV(m.TreeNode(input[CHUNK_LEN * covered..], covered)))
  {
    hide Mode.CV, Mode.ChunkNode, Mode.ParentNode, Mode.TreeNode;
    var p := Pow2(k);
    var a := covered - p;
    var rest := input[CHUNK_LEN * a..];
    assert ChunkCount(|rest|) == n + 1 - a;
    TreeSplits(m, rest, a, k);
    RunOfChunks(m, input, n, a, covered);
    assert rest[..CHUNK_LEN * p] == input[CHUNK_LEN * a..CHUNK_LEN * covered];
    assert rest[CHUNK_LEN * p..] == input[CHUNK_LEN * covered..];
  }

  /** `bits` is `n` with its lowest one digits cleared. */
  ghost predicate LowCleared(n: nat, bits: nat) {
    && bits <= n
    && forall k: nat :: Bit(bits, k) == 1 ==> n - bits < Pow2(k) && Bit(n, k) == 1
  }

  lemma {:induction false} TrailingZerosDivide(x: nat)
    requires x > 0
    ensures Pow2(TrailingZeros(x)) <= x && x % Pow2(TrailingZeros(x)) == 0
  {
    if x % 2 == 0 {
      TrailingZerosDivide(x / 2);
      LowDigits(x, TrailingZeros(x));
    }
  }

  lemma ClearAnother(n: nat, bits: nat)
    requires bits > 0 && LowCleared(n, bits)
    ensures Pow2(TrailingZeros(bits)) <= bits
    ensures n - bits < Pow2(TrailingZeros(bits))
    ensures Bit(n, TrailingZeros(bits)) == 1
    ensures ShiftRight(n, TrailingZeros(bits)) * Pow2(TrailingZeros(bits)) == bits
    ensures And(bits, bits - 1) == bits - Pow2(TrailingZeros(bits))
    ensures LowCleared(n, And(bits, bits - 1))
  {
    TrailingZerosDivide(bits);
    ClearsLowestDigit(bits);
    StillLowCleared(n, bits);
    RoundedDown(n, TrailingZeros(bits), bits);
  }

  lemma {:induction false} RoundedDown(n: nat, k: nat, bits: nat)
    requires bits % Pow2(k) == 0 && bits <= n < bits + Pow2(k)
    ensures ShiftRight(n, k) * Pow2(k) == bits
  {
    var p := Pow2(k);
    QuotientUnique(n, p, bits / p, n - bits);
    ShiftIsDivision(n, k);
    assert bits == p * (bits / p);
  }

  lemma StillLowCleared(n: nat, bits: nat)
    requires bits > 0 && LowCleared(n, bits) && Pow2(TrailingZeros(bits)) <= bits
    ensures LowCleared(n, bits - Pow2(TrailingZeros(bits)))
  {
    var k := TrailingZeros(bits);
    XorPow2(bits, k);
    var bits' := bits - Pow2(k);
    forall j: nat | Bit(bits', j) == 1 ensures n - bits' < Pow2(j) && Bit(n, j) == 1 {
      assert Bit(bits, j) == 1 && j > k;
      Pow2Grows(k, j);
    }
  }

  lemma NothingCleared(n: nat)
    ensures LowCleared(n, n)
  {
  }

  /** After a drain the slot of a set bit of the chunk count holds the subtree
      that ends where the lower bits begin. */
  lemma KeptInSlot(m: Mode, leaves: seq<Chain>, arrived: seq<nat>, occ: nat, slots: seq<Chain>, bits: nat)
    requires Inv(Subtrees(m, leaves), |leaves|, arrived, [], occ, slots) && arrived[0] == |leaves|
    requires bits > 0 && LowCleared(|leaves|, bits)
    ensures TrailingZeros(bits) < LEVELS && Pow2(TrailingZeros(bits)) <= bits <= |leaves|
    ensures slots[TrailingZeros(bits)] == m.Join(leaves[bits - Pow2(TrailingZeros(bits))..bits])
  {
    hide Mode.Join, Inv, Subtree, Pow2, And, Bit, TrailingZeros, ShiftRight;
    var n, k := |leaves|, TrailingZeros(bits);
    ClearAnother(n, bits);
    SlotHolds(Subtrees(m, leaves), n, arrived, occ, slots, k);
    LastSubtree(m, leaves, k, ShiftRight(n, k), bits);
  }

  lemma SlotHolds(tree: Forest, n: nat, arrived: seq<nat>, occ: nat, slots: seq<Chain>, k: nat)
    requires Inv(tree, n, arrived, [], occ, slots) && arrived[0] == n && Bit(n, k) == 1
    ensures k < LEVELS && ShiftRight(n, k) > 0 && slots[k] == tree(k, ShiftRight(n, k) - 1)
  {
    if k >= LEVELS {
      HighDigitsAreZero(n, k);
    }
    DigitOfShift(n, k);
    DrainedCounts(arrived, n, k);
    assert Kept(tree, arrived, slots, k);
  }

  lemma {:induction false} LastSubtree(m: Mode, leaves: seq<Chain>, k: nat, i: nat, bits: nat)
    requires i > 0 && i * Pow2(k) == bits <= |leaves|
    ensures Pow2(k) <= bits
    ensures Subtree(m, leaves, k, i - 1) == m.Join(leaves[bits - Pow2(k)..bits])
  {
    hide Mode.Join, Pow2;
    var p := Pow2(k);
    OneLess(i, p);
    assert Subtree(m, leaves, k, i - 1) == Aligned(m, leaves, (i - 1) * p, (i - 1 + 1) * p);
    assert Subtree(m, leaves, k, i - 1) == Aligned(m, leaves, bits - p, bits);
  }

  lemma {:induction false} OneLess(i: nat, p: nat)
    requires i > 0
    ensures (i - 1) * p == i * p - p && (i - 1 + 1) * p == i * p && p <= i * p
  {
  }
}
