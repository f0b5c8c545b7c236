/** The incremental hasher: a buffer of up to eight chunks in front of the lazy stack. */
module Hashing {
  import opened Words
  import opened Bitwise
  import opened TreeSpec
  import opened LazyStack
  import opened ChunkForest
  import opened HashPure
  import opened ChainStack
  import opened Xof

  const DIGEST_LEN: nat := 32

  /** The mode flags the constructors use; none of them is a node flag. */
  predicate ModeFlags(flags: Word) {
    flags == 0 || flags == KEYED_HASH || flags == DERIVE_KEY_CONTEXT || flags == DERIVE_KEY_MATERIAL
  }

  function ClearStart(flags: Word): Word {
    flags & !CHUNK_START
  }

  lemma StartCanBeCleared(flags: Word)
    requires ModeFlags(flags)
    ensures ClearStart(With(flags, CHUNK_START)) == flags && ClearStart(flags) == flags
  {
  }

  lemma OrCommutes(flags: Word, a: Word, b: Word)
    ensures (flags | a) | b == (flags | b) | a
  {
  }

  lemma WithCommutes(flags: Word, a: Word, b: Word, withA: Word, withB: Word)
    requires withA == flags | a && withB == flags | b
    ensures With(withA, b) == With(withB, a)
  {
    OrCommutes(flags, a, b);
  }

  lemma FlagsCommute(flags: Word, a: Word, b: Word)
    ensures With(With(flags, a), b) == With(With(flags, b), a)
  {
    WithCommutes(flags, a, b, With(flags, a), With(flags, b));
  }

  lemma AnotherBlock(m: Mode, input: seq<Byte>, k: nat)
    requires BLOCK_LEN * (k + 1) <= |input|
    ensures m.ChunkChain(input, 0, k + 1) ==
            m.CV(Node(m.ChunkChain(input, 0, k), ToBlock(input[BLOCK_LEN * k..BLOCK_LEN * (k + 1)]), 0, BLOCK_LEN,
                      if k == 0 then With(m.flags, CHUNK_START) else m.flags))
  {
    hide With, Mode.CV, ToBlock;
  }

  lemma ChunkRoot(m: Mode, input: seq<Byte>, k: nat)
    requires |input| <= CHUNK_LEN
    requires BLOCK_LEN * k <= |input| <= BLOCK_LEN * (k + 1) && (k > 0 ==> BLOCK_LEN * k < |input|)
    ensures m.RootNode(input) ==
            Node(m.ChunkChain(input, 0, k), ToBlock(input[BLOCK_LEN * k..]), 0, |input| - BLOCK_LEN * k,
                 With(With(if k == 0 then With(m.flags, CHUNK_START) else m.flags, CHUNK_END), ROOT))
  {
    hide With, Mode.CV, Mode.ChunkChain, ToBlock;
  }

  /** The block holds the last bytes of the chunk, those that no whole block before them took, and zeros. */
  ghost predicate EndsIn(block: Block, chunk: seq<Byte>) {
    var base := if |chunk| == 0 then 0 else (|chunk| - 1) / 64 * 64;
    forall i: nat :: i < 64 ==> ToBytes(block)[i] == if base + i < |chunk| then chunk[base + i] else 0
  }

  lemma BlockEndsIn(chunk: seq<Byte>)
    ensures var k := if |chunk| == 0 then 0 else (|chunk| - 1) / BLOCK_LEN;
            EndsIn(ToBlock(chunk[BLOCK_LEN * k..]), chunk)
  {
    hide ToBytes, ToBlock;
    var rest := chunk[BLOCK_LEN * (if |chunk| == 0 then 0 else (|chunk| - 1) / BLOCK_LEN)..];
    forall i: nat | i < 64 ensures ToBytes(ToBlock(rest))[i] == if i < |rest| then rest[i] else 0 {
      BlockHolds(rest, i);
    }
  }

  lemma ChunkNodeEndsIn(m: Mode, chunk: seq<Byte>, counter: nat)
    requires |chunk| <= CHUNK_LEN
    ensures EndsIn(m.ChunkNode(chunk, counter).block, chunk)
  {
    hide EndsIn, ToBlock, With, Mode.ChunkChain;
    BlockEndsIn(chunk);
  }

  /** The root node of an input that fits in one chunk. */
  method CompressAll(m: Mode, input: seq<Byte>) returns (root: Node)
    requires |input| <= CHUNK_LEN && ModeFlags(m.flags)
    ensures root == m.RootNode(input) && EndsIn(root.block, input)
  {
    ShortTree(m, input, 0);
    ChunkNodeEndsIn(m, input, 0);
    hide EndsIn;
    hide With, Mode.CV, Mode.ChunkChain, ToBlock, ClearStart, ModeFlags;
    var chain := m.key;
    var flags := With(m.flags, CHUNK_START);
    var rest := input;
    ghost var k := 0;
    StartCanBeCleared(m.flags);
    assert chain == m.ChunkChain(input, 0, 0) by { EmptyChain(m, input, 0); }
    while |rest| > BLOCK_LEN
      invariant BLOCK_LEN * k <= |input| && rest == input[BLOCK_LEN * k..|input|]
      invariant k > 0 ==> |rest| > 0
      invariant chain == m.ChunkChain(input, 0, k)
      invariant flags == if k == 0 then With(m.flags, CHUNK_START) else m.flags
    {
      AnotherBlock(m, input, k);
      SliceOfSlice(input, BLOCK_LEN * k, |input|, 0, BLOCK_LEN);
      SliceOfSlice(input, BLOCK_LEN * k, |input|, BLOCK_LEN, |rest|);
      chain := m.CV(Node(chain, ToBlock(rest[..BLOCK_LEN]), 0, BLOCK_LEN, flags));
      flags := ClearStart(flags);
      rest := rest[BLOCK_LEN..];
      k := k + 1;
    }
    ChunkRoot(m, input, k);
    root := Node(chain, ToBlock(rest), 0, |rest|, With(With(flags, CHUNK_END), ROOT));
  }

  /** Full chunks found in a batch are the next leaves of the message. */
  lemma BatchLeaves(m: Mode, msg: seq<Byte>, chunks: nat, input: seq<Byte>, length: nat, i: nat)
    requires CHUNK_LEN * chunks + length <= |msg| && length <= |input|
    requires input[..length] == msg[CHUNK_LEN * chunks..CHUNK_LEN * chunks + length]
    requires CHUNK_LEN * (i + 1) <= length
    ensures m.CV(m.ChunkNode(input[CHUNK_LEN * i..CHUNK_LEN * (i + 1)], chunks + i)) == FullLeaf(m, msg, chunks + i)
  {
    hide With, Mode.CV, Mode.ChunkNode;
    SliceOfSlice(input, 0, length, CHUNK_LEN * i, CHUNK_LEN * (i + 1));
    SliceOfSlice(msg, CHUNK_LEN * chunks, CHUNK_LEN * chunks + length, CHUNK_LEN * i, CHUNK_LEN * (i + 1));
  }

  lemma LeavesSplit(m: Mode, msg: seq<Byte>, n: nat, c: nat)
    requires CHUNK_LEN * (n + c) <= |msg|
    ensures FullLeaves(m, msg, n + c) == FullLeaves(m, msg, n) + FullLeaves(m, msg, n + c)[n..]
  {
    hide FullLeaf;
  }

  /** The last block of a chunk, as `finalizeDigest` cuts it. */
  lemma LastBlock(m: Mode, chunk: seq<Byte>, counter: nat)
    requires 0 < |chunk| <= CHUNK_LEN
    ensures var blen := if |chunk| % BLOCK_LEN == 0 then BLOCK_LEN else |chunk| % BLOCK_LEN;
            m.ChunkNode(chunk, counter) ==
            Node(EntryChain(m, chunk, counter), ToBlock(chunk[|chunk| - blen..]), counter, blen,
                 if |chunk| <= BLOCK_LEN then With(With(m.flags, CHUNK_END), CHUNK_START) else With(m.flags, CHUNK_END))
  {
    hide With, Mode.ChunkChain, ToBlock;
    FlagsCommute(m.flags, CHUNK_START, CHUNK_END);
  }

  lemma OneBlockChain(m: Mode, chunk: seq<Byte>, counter: nat)
    requires 0 < |chunk| <= BLOCK_LEN
    ensures EntryChain(m, chunk, counter) == m.key
  {
  }

  lemma LeafAt(m: Mode, msg: seq<Byte>, n: nat, c: nat, i: nat)
    requires CHUNK_LEN * (n + c) <= |msg| && i < c
    ensures FullLeaves(m, msg, n + c)[n..][i] == FullLeaf(m, msg, n + i)
  {
    hide FullLeaf;
    assert FullLeaves(m, msg, n + c)[n..][i] == FullLeaves(m, msg, n + c)[n + i];
  }

  lemma BufferExtended(b: seq<Byte>, b': seq<Byte>, msg: seq<Byte>, base: nat, len: nat, part: seq<Byte>)
    requires |b| == |b'| && len + |part| <= |b| && base <= |msg|
    requires b[..len] == msg[base..] && b'[..len] == b[..len] && b'[len..len + |part|] == part
    ensures b'[..len + |part|] == (msg + part)[base..]
  {
    assert b'[..len + |part|] == b'[..len] + b'[len..len + |part|];
  }

  lemma BufferMoved(b: seq<Byte>, msg: seq<Byte>, base: nat, len: nat, n: nat)
    requires n <= len <= |b| && base + len == |msg| && b[..len] == msg[base..]
    ensures b[n..len] == msg[base + n..]
  {
    assert b[..len][n..] == b[n..len] && msg[base..][n..] == msg[base + n..];
  }

  /** The last chunk in the buffer is what the message has after the complete ones. */
  lemma BufferedTail(b: seq<Byte>, msg: seq<Byte>, base: nat, len: nat, complete: nat)
    requires 0 < len <= |b| && complete == (len - 1) / CHUNK_LEN && base + len == |msg| && b[..len] == msg[base..]
    ensures ChunkOf(b, len, complete) == msg[base + CHUNK_LEN * complete..]
  {
    BufferMoved(b, msg, base, len, CHUNK_LEN * complete);
  }

  class Hasher {
    const compress: Compressor
    const stack: CvStack
    const buf: array<Byte>
    var len: nat
    var chunks: nat
    var flags: Word
    var key: Chain

    /** Everything written since the last reset. */
    ghost var msg: seq<Byte>

    ghost const Repr: set<object> := {this, buf} + stack.Repr

    function Setup(): Mode
      reads `flags, `key
    {
      Mode(compress, key, flags)
    }

    ghost predicate Parts()
      reads this
    {
      && buf.Length == BATCH_LEN
      && this !in stack.Repr && buf !in stack.Repr
      && ModeFlags(flags)
      && len <= BATCH_LEN && |msg| < MESSAGE_LIMIT
      && |msg| == CHUNK_LEN * chunks + len
    }

    /** The buffer holds what the stack does not; what lies past `len` is stale. */
    ghost predicate Consistent()
      reads Repr
    {
      && Parts()
      && buf[..len] == msg[CHUNK_LEN * chunks..]
      && stack.Valid(Setup())
      && stack.leaves == FullLeaves(Setup(), msg, chunks)
    }

    ghost predicate Valid()
      reads Repr
    {
      Consistent() && (chunks > 0 ==> len > 0)
    }

    /** A hasher that has been given nothing yet. */
    constructor (compress: Compressor, key: Chain, flags: Word)
      requires ModeFlags(flags)
      ensures fresh(Repr) && Valid() && msg == []
      ensures Setup() == Mode(compress, key, flags)
    {
      this.compress, this.key, this.flags := compress, key, flags;
      stack := new CvStack(Mode(compress, key, flags));
      buf := new Byte[BATCH_LEN];
      len, chunks, msg := 0, 0, [];
    }

    /** Hashes a full batch into the stack. */
    method Consume(input: seq<Byte>)
      requires |input| == BATCH_LEN && this !in stack.Repr && ModeFlags(flags)
      requires stack.Valid(Setup()) && |msg| < MESSAGE_LIMIT
      requires CHUNK_LEN * (chunks + 8) <= |msg|
      requires input == msg[CHUNK_LEN * chunks..CHUNK_LEN * (chunks + 8)]
      requires stack.leaves == FullLeaves(Setup(), msg, chunks)
      modifies stack, stack.lefts, stack.rights, stack.slots
      ensures stack.Valid(Setup())
      ensures stack.leaves == FullLeaves(Setup(), msg, chunks + 8)
    {
      hide With, Mode.CV, Mode.ChunkNode, Column, FullLeaf, FullLeaves, ModeFlags;
      var output := new Word[64];
      var _ := HashF(Setup(), input, BATCH_LEN, chunks, output, key);
      ghost var more := FullLeaves(Setup(), msg, chunks + 8)[chunks..];
      LeavesSplit(Setup(), msg, chunks, 8);
      forall i: nat | i < 8 ensures Column(output[..], i) == more[i] {
        BatchLeaves(Setup(), msg, chunks, input, BATCH_LEN, i);
        LeafAt(Setup(), msg, chunks, 8, i);
      }
      stack.PushN(Setup(), output, 8, more);
    }

    /** Copies as much of `input` into the buffer as fits. */
    method Buffer(input: seq<Byte>) returns (written: nat)
      requires Consistent() && len < BATCH_LEN && |msg| + |input| < MESSAGE_LIMIT
      modifies this`len, this`msg, buf
      ensures Consistent()
      ensures written == if BATCH_LEN - old(len) < |input| then BATCH_LEN - old(len) else |input|
      ensures len == old(len) + written && msg == old(msg) + input[..written]
    {
      hide FullLeaves, CvStack.Valid, ModeFlags;
      written := if BATCH_LEN - len < |input| then BATCH_LEN - len else |input|;
      FullLeavesOfExtension(Setup(), msg, input[..written], chunks);
      ghost var before := buf[..];
      Put(buf, len, input[..written]);
      BufferExtended(before, buf[..], msg, CHUNK_LEN * chunks, len, input[..written]);
      msg := msg + input[..written];
      len := len + written;
    }

    /** Consumes the batch that ends the message and leaves the buffer empty. */
    method TakeBatch(block: seq<Byte>)
      requires buf.Length == BATCH_LEN && this !in stack.Repr && buf !in stack.Repr && ModeFlags(flags)
      requires |msg| == CHUNK_LEN * chunks + BATCH_LEN < MESSAGE_LIMIT && block == msg[CHUNK_LEN * chunks..]
      requires stack.Valid(Setup()) && stack.leaves == FullLeaves(Setup(), msg, chunks)
      modifies stack, stack.lefts, stack.rights, stack.slots, `len, `chunks
      ensures Consistent() && len == 0
    {
      hide FullLeaves, CvStack.Valid, ModeFlags;
      assert msg[..|msg|] == msg;
      Consume(block);
      len := 0;
      chunks := chunks + 8;
    }

    /** Appends to the message, whatever is already buffered. */
    method Write(input: seq<Byte>)
      requires Valid() && |msg| + |input| < MESSAGE_LIMIT
      modifies Repr
      ensures Valid() && msg == old(msg) + input
      ensures key == old(key) && flags == old(flags)
    {
      hide FullLeaves, CvStack.Valid, ModeFlags;
      var rest := input;
      while |rest| > 0
        invariant Consistent() && (chunks > 0 ==> len > 0 || |rest| > 0)
        invariant |msg| + |rest| < MESSAGE_LIMIT
        invariant msg + rest == old(msg) + input
        invariant key == old(key) && flags == old(flags)
        decreases |rest|, len
      {
        var block: seq<Byte>;
        if len == 0 && |rest| > BATCH_LEN {
          block := rest[..BATCH_LEN];
          FullLeavesOfExtension(Setup(), msg, block, chunks);
          Regrouped(msg, rest, BATCH_LEN);
          assert CHUNK_LEN * chunks == |msg| && (msg + block)[|msg|..] == block;
          msg := msg + block;
          rest := rest[BATCH_LEN..];
        } else if len < BATCH_LEN {
          ghost var before := msg;
          var written := Buffer(rest);
          Regrouped(before, rest, written);
          rest := rest[written..];
          continue;
        } else {
          block := buf[..];
          assert buf[..len] == block;
        }
        TakeBatch(block);
      }
    }

    /** Pushes the hashed chunks of the buffer and moves what follows them to its front. */
    method PushComplete(hashed: array<Word>, complete: nat)
      requires Consistent() && hashed.Length == 64 && hashed !in Repr
      requires 0 < complete <= COLUMNS && CHUNK_LEN * complete < len
      requires forall i: nat :: i < complete ==>
                 Column(hashed[..], i) ==
                 Setup().CV(Setup().ChunkNode(buf[..][CHUNK_LEN * i..CHUNK_LEN * (i + 1)], chunks + i))
      modifies Repr
      ensures Consistent() && msg == old(msg) && key == old(key) && flags == old(flags)
      ensures chunks == old(chunks) + complete && len == old(len) - CHUNK_LEN * complete
    {
      hide With, Mode.CV, Mode.ChunkNode, FullLeaf, FullLeaves, ModeFlags, CvStack.Valid, Column;
      ghost var m := Setup();
      ghost var more := FullLeaves(m, msg, chunks + complete)[chunks..];
      LeavesSplit(m, msg, chunks, complete);
      forall i: nat | i < complete ensures Column(hashed[..], i) == more[i] {
        BatchLeaves(m, msg, chunks, buf[..], len, i);
        LeafAt(m, msg, chunks, complete, i);
      }
      stack.PushN(Setup(), hashed, complete, more);
      MoveDown(complete);
    }

    /** The copy within the buffer. */
    method MoveDown(complete: nat)
      requires Parts() && CHUNK_LEN * complete < len
      requires buf[..len] == msg[CHUNK_LEN * chunks..]
      modifies buf, `len, `chunks
      ensures Parts()
      ensures buf[..len] == msg[CHUNK_LEN * chunks..]
      ensures chunks == old(chunks) + complete && len == old(len) - CHUNK_LEN * complete
    {
      hide ModeFlags;
      var moved := len - CHUNK_LEN * complete;
      BufferMoved(buf[..], msg, CHUNK_LEN * chunks, len, CHUNK_LEN * complete);
      Put(buf, 0, buf[CHUNK_LEN * complete..len]);
      assert buf[..moved] == buf[0..moved];
      chunks := chunks + complete;
      len := moved;
    }

    /** The compression that ends the chunk in the buffer, given what enters its last block. */
    method EndChunk(chain: Chain) returns (node: Node)
      requires Consistent() && 0 < len <= CHUNK_LEN
      requires chain == EntryChain(Setup(), msg[CHUNK_LEN * chunks..], chunks)
      ensures node == Setup().ChunkNode(msg[CHUNK_LEN * chunks..], chunks)
      ensures EndsIn(node.block, msg[CHUNK_LEN * chunks..])
    {
      hide With, Mode.CV, Mode.ChunkNode, Mode.ChunkChain, EntryChain, FullLeaves, ToBlock, ModeFlags, CvStack.Valid;
      hide EndsIn;
      ChunkNodeEndsIn(Setup(), msg[CHUNK_LEN * chunks..], chunks);
      var dflags := With(flags, CHUNK_END);
      if len <= BLOCK_LEN {
        dflags := With(dflags, CHUNK_START);
      }
      var blen := len % BLOCK_LEN;
      var base := len / BLOCK_LEN * BLOCK_LEN;
      if len > 0 && blen == 0 {
        blen := BLOCK_LEN;
        base := base - BLOCK_LEN;
      }
      ghost var chunk := msg[CHUNK_LEN * chunks..];
      LastBlock(Setup(), chunk, chunks);
      assert buf[base..len] == chunk[len - blen..] by {
        SliceOfSlice(buf[..], 0, len, base, len);
      }
      node := Node(chain, ToBlock(buf[base..len]), chunks, blen, dflags);
    }

    /** Pushes every complete chunk before the last one and leaves the last one in the
        buffer; the result is the value that enters its last block. */
    method HashBuffered() returns (chain: Chain)
      requires Valid() && len > BLOCK_LEN
      modifies Repr
      ensures Valid() && msg == old(msg) && key == old(key) && flags == old(flags)
      ensures 0 < len <= CHUNK_LEN && chunks == old(chunks) + (old(len) - 1) / CHUNK_LEN
      ensures chain == EntryChain(Setup(), msg[CHUNK_LEN * chunks..], chunks)
    {
      hide With, Mode.CV, Mode.ChunkNode, Mode.ChunkChain, FullLeaves, ToBlock, ModeFlags, CvStack.Valid, EntryChain;
      var buffer := new Word[64];
      var complete := (len - 1) / CHUNK_LEN;
      BufferedTail(buf[..], msg, CHUNK_LEN * chunks, len, complete);
      chain := HashF(Setup(), buf[..], len, chunks, buffer, key);
      if len > CHUNK_LEN {
        PushComplete(buffer, complete);
      } else {
        assert complete == 0;
      }
    }

    /** Leaves only the last chunk in the buffer; the result is the compression that ends it. */
    method LastChunk() returns (node: Node)
      requires Valid() && (chunks > 0 || len > CHUNK_LEN)
      modifies Repr
      ensures Valid() && msg == old(msg) && key == old(key) && flags == old(flags)
      ensures chunks > 0 && len <= CHUNK_LEN
      ensures node == Setup().ChunkNode(msg[CHUNK_LEN * chunks..], chunks)
    {
      hide With, Mode.CV, Mode.ChunkNode, Mode.ChunkChain, FullLeaves, ToBlock, ModeFlags, CvStack.Valid, EntryChain;
      var chain := key;
      if len > BLOCK_LEN {
        chain := HashBuffered();
      } else {
        OneBlockChain(Setup(), msg[CHUNK_LEN * chunks..], chunks);
      }
      node := EndChunk(chain);
    }

    /** Computes every parent that still waits. */
    method Drain()
      requires Valid()
      modifies stack, stack.lefts, stack.rights, stack.slots
      ensures Valid()
      ensures stack.bufn == 0 && stack.occ == chunks
    {
      hide With, Mode.CV, FullLeaves, ModeFlags, Inv;
      while stack.bufn > 0
        invariant Valid()
        decreases stack.Work()
      {
        stack.Flush(Setup());
      }
      DrainedOccupancy(Subtrees(Setup(), stack.leaves), |stack.leaves|, stack.arrived, stack.occ, stack.slots[..]);
    }

    /** Folds the kept subtrees, lowest level first, over the last chunk. */
    method FoldUp(last: Node) returns (top: Node)
      requires Valid() && stack.bufn == 0 && stack.occ == chunks && chunks > 0 && len <= CHUNK_LEN
      requires last == Setup().TreeNode(msg[CHUNK_LEN * chunks..], chunks)
      ensures top == Setup().TreeNode(msg, 0)
      ensures top.counter == 0
    {
      hide With, Mode.TreeNode, FullLeaves, ModeFlags, LowCleared, Inv, And, TrailingZeros;
      top := last;
      NothingCleared(chunks);
      var occupied: nat := stack.occ;
      while occupied != 0
        invariant occupied <= chunks && LowCleared(chunks, occupied)
        invariant top == Setup().TreeNode(msg[CHUNK_LEN * occupied..], occupied)
        invariant occupied != stack.occ ==>
                    top == Node(key, top.block, 0, BLOCK_LEN, With(flags, PARENT))
        decreases occupied
      {
        FoldOnce(occupied);
        var column := TrailingZeros(occupied) % 64;
        var compressed := Setup().Output(top);
        top := top.(block := stack.slots[column] + compressed[..8]);
        if occupied == stack.occ {
          top := top.(chain := key, counter := 0, blen := BLOCK_LEN, flags := With(flags, PARENT));
        }
        occupied := And(occupied, occupied - 1);
      }
      assert msg[0..] == msg;
    }

    /** What one step of the fold has to produce. */
    lemma FoldOnce(occupied: nat)
      requires Valid() && stack.bufn == 0 && stack.occ == chunks && len <= CHUNK_LEN && chunks > 0
      requires 0 < occupied && LowCleared(chunks, occupied)
      ensures TrailingZeros(occupied) < 64 && And(occupied, occupied - 1) < occupied
      ensures LowCleared(chunks, And(occupied, occupied - 1))
      ensures var next := And(occupied, occupied - 1);
              Setup().TreeNode(msg[CHUNK_LEN * next..], next) ==
              Setup().ParentNode(stack.slots[TrailingZeros(occupied)],
                                 Setup().CV(Setup().TreeNode(msg[CHUNK_LEN * occupied..], occupied)))
    {
      hide With, Mode.CV, Mode.Join, Mode.TreeNode, Mode.ParentNode, FullLeaves, ModeFlags, Inv, And;
      KeptInSlot(Setup(), stack.leaves, stack.arrived, stack.occ, stack.slots[..], occupied);
      ClearAnother(chunks, occupied);
      FoldStep(Setup(), msg, chunks, occupied, TrailingZeros(occupied));
    }

    /** A reader of the hash of everything written so far. The hasher pushes chunks and
        moves its buffer, but goes on as if it had not been asked. */
    method FinalizeDigest() returns (digest: Digest)
      requires Valid()
      modifies Repr
      ensures Valid() && msg == old(msg) && key == old(key) && flags == old(flags)
      ensures fresh(digest) && digest.Valid() && digest.Position() == 0
      ensures digest.compress == compress && digest.Root() == Setup().RootNode(msg)
    {
      hide With, Mode.CV, Mode.ChunkNode, FullLeaves, ModeFlags, CvStack.Valid;
      var root: Node;
      RootCounter(Setup(), msg);
      if chunks == 0 && len <= CHUNK_LEN {
        assert buf[..len] == msg;
        root := CompressAll(Setup(), buf[..len]);
      } else {
        var last := LastChunk();
        ShortTree(Setup(), msg[CHUNK_LEN * chunks..], chunks);
        Drain();
        var top := FoldUp(last);
        root := top.(flags := With(top.flags, ROOT));
      }
      digest := new Digest(compress, root);
    }

    method Reset()
      requires Valid()
      modifies Repr
      ensures Valid() && msg == []
      ensures key == old(key) && flags == old(flags)
    {
      len, chunks, msg := 0, 0, [];
      stack.Reset(Setup());
    }

    /** Reuses an empty hasher under another key. */
    method SetKey(key: Chain, flags: Word)
      requires Valid() && msg == [] && ModeFlags(flags)
      modifies this
      ensures Valid() && msg == []
      ensures Setup() == Mode(compress, key, flags)
    {
      ghost var before := Setup();
      this.key, this.flags := key, flags;
      stack.EmptyServesAnyMode(before, Setup());
    }

    /** An independent snapshot. */
    constructor Clone(other: Hasher)
      requires other.Valid()
      ensures fresh(Repr) && Valid()
      ensures msg == other.msg && Setup() == other.Setup()
    {
      compress, key, flags := other.compress, other.key, other.flags;
      stack := new CvStack.Copy(other.Setup(), other.stack);
      buf := new Byte[BATCH_LEN](i requires 0 <= i < BATCH_LEN reads other.buf => other.buf[i]);
      len, chunks, msg := other.len, other.chunks, other.msg;
      new;
      assert buf[..] == other.buf[..];
    }
  }

  /** `n` bytes of hash output. */
  function HashBytes(m: Mode, msg: seq<Byte>, n: nat): (bytes: seq<Byte>)
    ensures |bytes| == n
  {
    Stream(m.compress, m.RootNode(msg), 0, n)
  }

  lemma RootCounter(m: Mode, msg: seq<Byte>)
    ensures m.RootNode(msg).counter == 0
  {
    hide Mode.CV;
  }

  lemma ShortTree(m: Mode, chunk: seq<Byte>, counter: nat)
    requires |chunk| <= CHUNK_LEN
    ensures m.TreeNode(chunk, counter) == m.ChunkNode(chunk, counter)
  {
    hide Mode.CV, Mode.ChunkNode;
  }
}
