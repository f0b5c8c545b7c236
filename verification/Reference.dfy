/** The hash once more, and differently: a chunk absorbs its blocks from the front, the values of
    the chunks are paired level by level, and everything is said of the bare compression function,
    with the numbers of the BLAKE3 paper (sections 2.1 and 2.4 to 2.6). It is the same hash. */
module Reference {
  import opened Words
  import opened Bitwise
  import opened TreeSpec
  import opened Xof
  import opened Hashing

  /** Byte `i`; zero behind the end. */
  function ByteAt(bytes: seq<Byte>, i: nat): Byte {
    if i < |bytes| then bytes[i] else 0
  }

  /** The first sixteen words of the bytes. */
  function BlockAt(bytes: seq<Byte>): Block {
    seq(16, j requires 0 <= j < 16 => LittleEndian(
      [ByteAt(bytes, 4 * j), ByteAt(bytes, 4 * j + 1), ByteAt(bytes, 4 * j + 2), ByteAt(bytes, 4 * j + 3)]))
  }

  function Or(flags: Word, more: Word): Word {
    flags | more
  }

  /** The last compression of a chunk of which `chain` has taken in what precedes `rest`. */
  function Absorb(compress: Compressor, flags: Word, chain: Chain, rest: seq<Byte>, counter: nat, start: Word): Node
    decreases |rest|
  {
    if |rest| <= 64 then Node(chain, BlockAt(rest), counter, |rest|, Or(Or(flags, start), 2))
    else
      var next := compress(chain, BlockAt(rest), counter, 64, Or(flags, start));
      Absorb(compress, flags, next[..8], rest[64..], counter, 0)
  }

  function Value(compress: Compressor, n: Node): Chain {
    compress(n.chain, n.block, n.counter, n.blen, n.flags)[..8]
  }

  /** The values of the chunks, the first of which has number `counter`. */
  function ChunkValues(compress: Compressor, key: Chain, flags: Word, msg: seq<Byte>, counter: nat): (vs: seq<Chain>)
    ensures |vs| >= 1 && (|msg| > 1024 ==> |vs| >= 2)
    decreases |msg|
  {
    if |msg| <= 1024 then [Value(compress, Absorb(compress, flags, key, msg, counter, 1))]
    else
      [Value(compress, Absorb(compress, flags, key, msg[..1024], counter, 1))]
      + ChunkValues(compress, key, flags, msg[1024..], counter + 1)
  }

  function Parent(key: Chain, flags: Word, left: Chain, right: Chain): Node {
    Node(key, left + right, 0, 64, Or(flags, 4))
  }

  /** One level up: neighbours become pairs, and an odd one out stays. */
  function PairUp(compress: Compressor, key: Chain, flags: Word, vs: seq<Chain>): (ps: seq<Chain>)
    ensures |ps| == (|vs| + 1) / 2
  {
    if |vs| < 2 then vs
    else [Value(compress, Parent(key, flags, vs[0], vs[1]))] + PairUp(compress, key, flags, vs[2..])
  }

  /** Level after level, until two values are left. */
  function LastTwo(compress: Compressor, key: Chain, flags: Word, vs: seq<Chain>): (two: seq<Chain>)
    requires |vs| >= 2
    ensures |two| == 2
    decreases |vs|
  {
    if |vs| == 2 then vs else LastTwo(compress, key, flags, PairUp(compress, key, flags, vs))
  }

  function Top(compress: Compressor, key: Chain, flags: Word, msg: seq<Byte>): Node {
    if |msg| <= 1024 then Absorb(compress, flags, key, msg, 0, 1)
    else
      var two := LastTwo(compress, key, flags, ChunkValues(compress, key, flags, msg, 0));
      Parent(key, flags, two[0], two[1])
  }

  /** Byte `k` of a word, by shifting out the bytes below it. */
  function ShiftedByte(w: Word, k: nat): Byte {
    if k == 0 then (w & 0xFF) as Byte else ShiftedByte(w >> 8, k - 1)
  }

  /** Byte `p` of the output: it lies in output block `p / 64`. */
  function OutputByte(compress: Compressor, key: Chain, flags: Word, msg: seq<Byte>, p: nat): Byte {
    var top := Top(compress, key, flags, msg);
    var block := compress(top.chain, top.block, p / 64 % TWO_64, top.blen, Or(top.flags, 8));
    ShiftedByte(block[p % 64 / 4], p % 4)
  }

  lemma BlockIsBlockAt(bytes: seq<Byte>, n: nat)
    requires n == if |bytes| <= 64 then |bytes| else 64
    ensures ToBlock(bytes[..n]) == BlockAt(bytes)
  {
    hide ToWord, LittleEndian;
    forall j: nat | j < 16 ensures ToBlock(bytes[..n])[j] == BlockAt(bytes)[j] {
      WordOfBlock(bytes, n, j);
    }
  }

  lemma WordOfBlock(bytes: seq<Byte>, n: nat, j: nat)
    requires n == (if |bytes| <= 64 then |bytes| else 64) && j < 16
    ensures ToBlock(bytes[..n])[j] == BlockAt(bytes)[j]
  {
    hide ToWord, LittleEndian;
    var padded := bytes[..n] + seq(BLOCK_LEN - n, i => 0);
    forall i: nat | i < 64 ensures padded[i] == ByteAt(bytes, i) {}
    LittleEndianOfFour(padded[4 * j], padded[4 * j + 1], padded[4 * j + 2], padded[4 * j + 3]);
  }

  lemma NoFlag(flags: Word)
    ensures flags | 0 == flags
  {
  }

  lemma StartFlags(flags: Word, start: Word, first: bool)
    requires start == if first then 1 else 0
    ensures Or(flags, start) == if first then With(flags, CHUNK_START) else flags
    ensures Or(Or(flags, start), 2) == With(if first then With(flags, CHUNK_START) else flags, CHUNK_END)
  {
    NoFlag(flags);
  }

  /** After `k` blocks of a chunk, absorbing the rest gives the compression that ends the chunk. */
  lemma {:induction false} AbsorbsTheRest(m: Mode, chunk: seq<Byte>, counter: nat, k: nat, start: Word)
    requires |chunk| <= CHUNK_LEN && 64 * k <= |chunk| && (k > 0 ==> 64 * k < |chunk|)
    requires start == if k == 0 then 1 else 0
    ensures Absorb(m.compress, m.flags, m.ChunkChain(chunk, counter, k), chunk[64 * k..], counter, start)
         == m.ChunkNode(chunk, counter)
    decreases |chunk| - 64 * k
  {
    hide ToBlock, BlockAt, With, Or, Mode.ChunkChain, Mode.ChunkNode, Mode.CV;
    var rest := chunk[64 * k..];
    StartFlags(m.flags, start, k == 0);
    if |rest| <= 64 {
      BlockIsBlockAt(rest, |rest|);
      assert rest[..|rest|] == rest;
      LastNode(m, chunk, counter, k);
    } else {
      BlockIsBlockAt(rest, 64);
      assert rest[..64] == chunk[64 * k..64 * (k + 1)] && rest[64..] == chunk[64 * (k + 1)..];
      NextChain(m, chunk, counter, k);
      AbsorbsTheRest(m, chunk, counter, k + 1, 0);
    }
  }

  lemma LastNode(m: Mode, chunk: seq<Byte>, counter: nat, k: nat)
    requires |chunk| <= CHUNK_LEN && 64 * k <= |chunk| <= 64 * (k + 1) && (k > 0 ==> 64 * k < |chunk|)
    ensures m.ChunkNode(chunk, counter) ==
            Node(m.ChunkChain(chunk, counter, k), ToBlock(chunk[64 * k..]), counter, |chunk| - 64 * k,
                 With(if k == 0 then With(m.flags, CHUNK_START) else m.flags, CHUNK_END))
  {
    hide ToBlock, With, Mode.ChunkChain;
    assert k == if |chunk| == 0 then 0 else (|chunk| - 1) / BLOCK_LEN;
  }

  lemma NextChain(m: Mode, chunk: seq<Byte>, counter: nat, k: nat)
    requires 64 * (k + 1) <= |chunk|
    ensures m.ChunkChain(chunk, counter, k + 1) ==
            m.compress(m.ChunkChain(chunk, counter, k), ToBlock(chunk[64 * k..64 * (k + 1)]), counter, 64,
                       if k == 0 then With(m.flags, CHUNK_START) else m.flags)[..8]
  {
    hide ToBlock, With;
  }

  lemma ChunkIsAbsorbed(m: Mode, chunk: seq<Byte>, counter: nat)
    requires |chunk| <= CHUNK_LEN
    ensures Absorb(m.compress, m.flags, m.key, chunk, counter, 1) == m.ChunkNode(chunk, counter)
  {
    AbsorbsTheRest(m, chunk, counter, 0, 1);
    assert chunk[64 * 0..] == chunk;
  }

  lemma {:induction false} ChunkValuesAreLeaves(m: Mode, msg: seq<Byte>, counter: nat)
    ensures ChunkValues(m.compress, m.key, m.flags, msg, counter) == m.Leaves(msg, counter)
    decreases |msg|
  {
    hide Absorb, Mode.ChunkNode;
    if |msg| <= 1024 {
      ChunkIsAbsorbed(m, msg, counter);
      assert msg[CHUNK_LEN * 0..|msg|] == msg;
      assert m.Leaves(msg, counter) == [m.Leaf(msg, counter, 0)];
    } else {
      ChunkIsAbsorbed(m, msg[..1024], counter);
      ChunkValuesAreLeaves(m, msg[1024..], counter + 1);
      m.LeavesOfSuffix(msg, counter, 1);
      FirstLeaf(m, msg, counter);
      var leaves := m.Leaves(msg, counter);
      assert leaves == [leaves[0]] + leaves[1..];
    }
  }

  lemma FirstLeaf(m: Mode, msg: seq<Byte>, counter: nat)
    requires |msg| > 1024
    ensures m.Leaves(msg, counter)[0] == m.CV(m.ChunkNode(msg[..1024], counter))
  {
    hide Mode.ChunkNode, Mode.CV;
    assert msg[CHUNK_LEN * 0..CHUNK_LEN * 1] == msg[..1024];
  }

  /** A level of pairs, up to an even place, is that of the values up to it. */
  lemma {:induction false} PairsSplit(m: Mode, vs: seq<Chain>, h: nat)
    requires 2 * h <= |vs|
    ensures var ps := PairUp(m.compress, m.key, m.flags, vs);
            && ps[..h] == PairUp(m.compress, m.key, m.flags, vs[..2 * h])
            && ps[h..] == PairUp(m.compress, m.key, m.flags, vs[2 * h..])
    decreases h
  {
    hide Value;
    if h == 0 {
      assert vs[2 * h..] == vs;
    } else {
      PairsSplit(m, vs[2..], h - 1);
      assert vs[2..][..2 * (h - 1)] == vs[..2 * h][2..];
      assert vs[2..][2 * (h - 1)..] == vs[2 * h..];
    }
  }

  /** Pairing neighbours does not change the tree above them. */
  lemma {:induction false} PairingKeepsJoin(m: Mode, vs: seq<Chain>)
    requires |vs| >= 1
    ensures m.Join(PairUp(m.compress, m.key, m.flags, vs)) == m.Join(vs)
    decreases |vs|
  {
    hide Mode.Join, PairUp;
    if |vs| == 1 {
      PairsOfFew(m, vs);
    } else if |vs| == 2 {
      PairsOfFew(m, vs);
      assert vs[..1] == [vs[0]] && vs[1..] == [vs[1]] && LeftSize(2) == 1;
      JoinIsParent(m, vs);
      JoinOfOne(m, vs[0]);
      JoinOfOne(m, vs[1]);
      JoinOfOne(m, m.CV(m.ParentNode(vs[0], vs[1])));
    } else {
      PairingKeepsHalves(m, vs);
      JoinIsParent(m, vs);
      JoinIsParent(m, PairUp(m.compress, m.key, m.flags, vs));
    }
  }

  lemma PairsOfFew(m: Mode, vs: seq<Chain>)
    requires 1 <= |vs| <= 2
    ensures PairUp(m.compress, m.key, m.flags, vs) == if |vs| == 1 then vs else [m.CV(m.ParentNode(vs[0], vs[1]))]
  {
    if |vs| == 2 {
      assert vs[2..] == [];
    }
  }

  lemma JoinIsParent(m: Mode, vs: seq<Chain>)
    requires |vs| >= 2
    ensures var p := LeftSize(|vs|); m.Join(vs) == m.CV(m.ParentNode(m.Join(vs[..p]), m.Join(vs[p..])))
  {
    hide Mode.CV, Mode.ParentNode;
  }

  /** Nor the two trees right below the top, which only get half as wide. */
  lemma {:induction false} PairingKeepsHalves(m: Mode, vs: seq<Chain>)
    requires |vs| > 2
    ensures var p, ps := LeftSize(|vs|), PairUp(m.compress, m.key, m.flags, vs);
            && |ps| >= 2 && LeftSize(|ps|) * 2 == p
            && m.Join(ps[..p / 2]) == m.Join(vs[..p]) && m.Join(ps[p / 2..]) == m.Join(vs[p..])
    decreases |vs|, 0
  {
    hide Value, Mode.Join, PairUp;
    var p := LeftSize(|vs|);
    PairsSplit(m, vs, p / 2);
    PairingKeepsJoin(m, vs[..p]);
    PairingKeepsJoin(m, vs[p..]);
  }

  /** Level by level, the last two values are those of the two trees below the top. */
  lemma {:induction false} LastTwoAreHalves(m: Mode, vs: seq<Chain>)
    requires |vs| >= 2
    ensures var p := LeftSize(|vs|);
            LastTwo(m.compress, m.key, m.flags, vs) == [m.Join(vs[..p]), m.Join(vs[p..])]
    decreases |vs|
  {
    hide PairUp, Mode.Join;
    if |vs| == 2 {
      assert vs[..1] == [vs[0]] && vs[1..] == [vs[1]] && LeftSize(2) == 1;
      JoinOfOne(m, vs[0]);
      JoinOfOne(m, vs[1]);
    } else {
      PairingKeepsHalves(m, vs);
      LastTwoAreHalves(m, PairUp(m.compress, m.key, m.flags, vs));
    }
  }

  lemma JoinOfOne(m: Mode, v: Chain)
    ensures m.Join([v]) == v
  {
  }

  lemma ParentsAgree(m: Mode, left: Chain, right: Chain)
    ensures Parent(m.key, m.flags, left, right) == m.ParentNode(left, right)
  {
  }

  lemma {:induction false} TopIsTree(m: Mode, msg: seq<Byte>)
    ensures Top(m.compress, m.key, m.flags, msg) == m.TreeNode(msg, 0)
  {
    hide Absorb, Mode.ChunkNode, Mode.Join, Mode.Leaves, LastTwo, ChunkValues, Parent, Mode.ParentNode;
    if |msg| <= 1024 {
      ChunkIsAbsorbed(m, msg, 0);
    } else {
      var p, leaves := LeftSize(ChunkCount(|msg|)), m.Leaves(msg, 0);
      ChunkValuesAreLeaves(m, msg, 0);
      LastTwoAreHalves(m, leaves);
      TreeIsParent(m, msg, p, leaves);
      ParentsAgree(m, m.Join(leaves[..p]), m.Join(leaves[p..]));
    }
  }

  lemma TreeIsParent(m: Mode, msg: seq<Byte>, p: nat, leaves: seq<Chain>)
    requires |msg| > CHUNK_LEN && p == LeftSize(ChunkCount(|msg|)) && leaves == m.Leaves(msg, 0)
    ensures m.TreeNode(msg, 0) == m.ParentNode(m.Join(leaves[..p]), m.Join(leaves[p..]))
  {
    hide Mode.ChunkNode, Mode.Join, Mode.Leaves, Mode.CV, Mode.ParentNode;
    m.LeavesOfPrefix(msg, 0, p);
    m.LeavesOfSuffix(msg, 0, p);
    m.TreeIsJoin(msg[..CHUNK_LEN * p], 0);
    m.TreeIsJoin(msg[CHUNK_LEN * p..], p);
  }

  lemma ShiftedByteIsByteOf(w: Word, k: nat)
    requires k < 4
    ensures ShiftedByte(w, k) == ByteOf(w, k)
  {
  }

  /** Every byte of the hash output, from the bytes of the message and the bare compression. */
  lemma {:induction false} HashIsReference(m: Mode, msg: seq<Byte>, n: nat, p: nat)
    requires p < n
    ensures HashBytes(m, msg, n)[p] == OutputByte(m.compress, m.key, m.flags, msg, p)
  {
    hide Top, Mode.TreeNode, ShiftedByte, ByteOf;
    TopIsTree(m, msg);
    var root := m.RootNode(msg);
    assert HashBytes(m, msg, n)[p] == StreamByte(m.compress, root, p);
    var block := m.compress(root.chain, root.block, p / 64 % TWO_64, root.blen, root.flags);
    ByteAt'(block, p % 64);
    ShiftedByteIsByteOf(block[p % 64 / 4], p % 4);
  }

  lemma ByteAt'(words: Block, i: nat)
    requires i < 64
    ensures ToBytes(words)[i] == ByteOf(words[i / 4], i % 4)
  {
    hide ByteOf;
  }
}
