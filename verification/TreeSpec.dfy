/** The BLAKE3 tree hash as the BLAKE3 paper defines it ("BLAKE3: one function,
    fast everywhere", sections 2.1 and 2.4 to 2.6), over an arbitrary compression
    function. Nothing in this module is incremental. */
module TreeSpec {
  import opened Words
  import opened Bitwise

  const IV: Chain := [0x6A09E667, 0xBB67AE85, 0x3C6EF372, 0xA54FF53A, 0x510E527F, 0x9B05688C, 0x1F83D9AB, 0x5BE0CD19]

  const CHUNK_START: Word := 1
  const CHUNK_END: Word := 2
  const PARENT: Word := 4
  const ROOT: Word := 8
  const KEYED_HASH: Word := 16
  const DERIVE_KEY_CONTEXT: Word := 32
  const DERIVE_KEY_MATERIAL: Word := 64

  /** How many bytes the 64-bit chunk counter can number. */
  const MESSAGE_LIMIT: nat := CHUNK_LEN * TWO_64

  /** `flags | flag`. */
  function With(flags: Word, flag: Word): Word {
    flags | flag
  }

  type Compressor = (Chain, Block, nat, nat, Word) -> Block

  /** The arguments of one compression, not yet carried out. */
  datatype Node = Node(chain: Chain, block: Block, counter: nat, blen: nat, flags: Word)

  /** Number of chunks that hold `n` bytes; the empty input is one empty chunk. */
  function ChunkCount(n: nat): (c: nat)
    ensures c >= 1
  {
    if n == 0 then 1 else (n + CHUNK_LEN - 1) / CHUNK_LEN
  }

  /** The largest power of two strictly below `n`. */
  function LeftSize(n: nat): (p: nat)
    requires n >= 2
    ensures p < n <= 2 * p
  {
    if n == 2 then 1 else 2 * LeftSize((n + 1) / 2)
  }

  lemma {:induction false} LeftSizeUnique(n: nat, k: nat)
    requires Pow2(k) < n <= 2 * Pow2(k)
    ensures n >= 2 && LeftSize(n) == Pow2(k)
  {
    if k > 0 {
      LeftSizeUnique((n + 1) / 2, k - 1);
    }
  }

  /** A keyed instance of the hash: compression function, key words and mode flags. */
  datatype Mode = Mode(compress: Compressor, key: Chain, flags: Word) {

    function Output(n: Node): Block {
      compress(n.chain, n.block, n.counter, n.blen, n.flags)
    }

    function CV(n: Node): Chain {
      Output(n)[..8]
    }

    /** The chaining value after the first `k` blocks of a chunk that has more of them. */
    function ChunkChain(chunk: seq<Byte>, counter: nat, k: nat): Chain
      requires BLOCK_LEN * k <= |chunk|
    {
      if k == 0 then key
      else
        CV(Node(ChunkChain(chunk, counter, k - 1),
                ToBlock(chunk[BLOCK_LEN * (k - 1)..BLOCK_LEN * k]),
                counter, BLOCK_LEN,
                if k == 1 then With(flags, CHUNK_START) else flags))
    }

    /** The compression of the last block of a chunk. */
    function ChunkNode(chunk: seq<Byte>, counter: nat): Node
      requires |chunk| <= CHUNK_LEN
    {
      var k := if |chunk| == 0 then 0 else (|chunk| - 1) / BLOCK_LEN;
      Node(ChunkChain(chunk, counter, k),
           ToBlock(chunk[BLOCK_LEN * k..]),
           counter, |chunk| - BLOCK_LEN * k,
           With(if k == 0 then With(flags, CHUNK_START) else flags, CHUNK_END))
    }

    function ParentNode(left: Chain, right: Chain): Node {
      Node(key, left + right, 0, BLOCK_LEN, With(flags, PARENT))
    }

    /** The node at the top of the tree over `input`, whose first chunk has index `counter`. */
    function TreeNode(input: seq<Byte>, counter: nat): Node
      decreases |input|
    {
      if |input| <= CHUNK_LEN then ChunkNode(input, counter)
      else
        var p := LeftSize(ChunkCount(|input|));
        ParentNode(CV(TreeNode(input[..CHUNK_LEN * p], counter)),
                   CV(TreeNode(input[CHUNK_LEN * p..], counter + p)))
    }

    /** The node whose compressions give the hash output. */
    function RootNode(input: seq<Byte>): Node {
      var top := TreeNode(input, 0);
      top.(flags := With(top.flags, ROOT))
    }

    /** Chunk `i` of the input, as a chaining value. */
    function Leaf(input: seq<Byte>, counter: nat, i: nat): Chain
      requires i < ChunkCount(|input|)
    {
      var hi := if CHUNK_LEN * (i + 1) <= |input| then CHUNK_LEN * (i + 1) else |input|;
      CV(ChunkNode(input[CHUNK_LEN * i..hi], counter + i))
    }

    function Leaves(input: seq<Byte>, counter: nat): (cvs: seq<Chain>)
      ensures |cvs| == ChunkCount(|input|)
    {
      seq(ChunkCount(|input|), i requires 0 <= i < ChunkCount(|input|) => Leaf(input, counter, i))
    }

    /** The tree over chaining values that are already known. */
    function Join(cvs: seq<Chain>): Chain
      requires |cvs| >= 1
      decreases |cvs|
    {
      if |cvs| == 1 then cvs[0]
      else
        var p := LeftSize(|cvs|);
        CV(ParentNode(Join(cvs[..p]), Join(cvs[p..])))
    }

    lemma LeafOfPrefix(input: seq<Byte>, counter: nat, n: nat, i: nat)
      requires n <= |input| && i < ChunkCount(|input|)
      requires CHUNK_LEN * (i + 1) <= n
      ensures Leaf(input, counter, i) == Leaf(input[..n], counter, i)
    {
      assert input[..n][CHUNK_LEN * i..CHUNK_LEN * (i + 1)] == input[CHUNK_LEN * i..CHUNK_LEN * (i + 1)];
    }

    lemma LeafOfSuffix(input: seq<Byte>, counter: nat, p: nat, i: nat)
      requires p <= i < ChunkCount(|input|) && CHUNK_LEN * p < |input|
      ensures i - p < ChunkCount(|input| - CHUNK_LEN * p)
      ensures Leaf(input, counter, i) == Leaf(input[CHUNK_LEN * p..], counter + p, i - p)
    {
      hide CV, ChunkNode;
      var rest := input[CHUNK_LEN * p..];
      var hi := if CHUNK_LEN * (i + 1) <= |input| then CHUNK_LEN * (i + 1) else |input|;
      assert rest == input[CHUNK_LEN * p..|input|];
      SliceOfSlice(input, CHUNK_LEN * p, |input|, CHUNK_LEN * (i - p), hi - CHUNK_LEN * p);
    }

    lemma LeavesOfPrefix(input: seq<Byte>, counter: nat, p: nat)
      requires 0 < p < ChunkCount(|input|)
      ensures Leaves(input, counter)[..p] == Leaves(input[..CHUNK_LEN * p], counter)
    {
      var all, left := Leaves(input, counter), Leaves(input[..CHUNK_LEN * p], counter);
      forall i: nat | i < p ensures all[i] == left[i] {
        LeafOfPrefix(input, counter, CHUNK_LEN * p, i);
      }
    }

    lemma LeavesOfSuffix(input: seq<Byte>, counter: nat, p: nat)
      requires 0 < p < ChunkCount(|input|)
      ensures Leaves(input, counter)[p..] == Leaves(input[CHUNK_LEN * p..], counter + p)
    {
      hide Mode.Leaf;
      var all, right := Leaves(input, counter), Leaves(input[CHUNK_LEN * p..], counter + p);
      assert |right| == |all| - p;
      forall i: nat | i < |right| ensures all[p..][i] == right[i] {
        LeafOfSuffix(input, counter, p, p + i);
      }
    }

    /** Hashing the tree is joining the chaining values of its chunks. */
    lemma {:induction false} TreeIsJoin(input: seq<Byte>, counter: nat)
      ensures CV(TreeNode(input, counter)) == Join(Leaves(input, counter))
      decreases |input|
    {
      if |input| <= CHUNK_LEN {
        assert input[0..|input|] == input;
      } else {
        var n := ChunkCount(|input|);
        var p := LeftSize(n);
        LeavesOfPrefix(input, counter, p);
        LeavesOfSuffix(input, counter, p);
        TreeIsJoin(input[..CHUNK_LEN * p], counter);
        TreeIsJoin(input[CHUNK_LEN * p..], counter + p);
      }
    }
  }
}
