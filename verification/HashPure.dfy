/** The portable batch hashing of up to eight chunks or eight parents. Results are
    transposed: word `j` of column `i` is element `i + 8 * j`. */
module HashPure {
  import opened Words
  import opened TreeSpec

  const COLUMNS: nat := 8
  const BATCH_LEN: nat := 8192

  function Column(v: seq<Word>, i: nat): Chain
    requires |v| == 64 && i < COLUMNS
  {
    [v[i], v[i + 8], v[i + 16], v[i + 24], v[i + 32], v[i + 40], v[i + 48], v[i + 56]]
  }

  /** Word `j` of column `i`. */
  function WordAt(v: seq<Word>, i: nat, j: nat): Word
    requires |v| == 64 && i < COLUMNS && j < 8
  {
    v[i + 8 * j]
  }

  method ReadChain(from: array<Word>, column: nat) returns (chain: Chain)
    requires from.Length == 64 && column < COLUMNS
    ensures chain == Column(from[..], column)
    ensures forall j: nat :: j < 8 ==> chain[j] == WordAt(from[..], column, j)
  {
    chain := [from[column], from[column + 8], from[column + 16], from[column + 24],
              from[column + 32], from[column + 40], from[column + 48], from[column + 56]];
  }

  function PutColumn(v: seq<Word>, i: nat, chain: Chain): (v': seq<Word>)
    requires |v| == 64 && i < COLUMNS
    ensures |v'| == 64
  {
    v[i := chain[0]][i + 8 := chain[1]][i + 16 := chain[2]][i + 24 := chain[3]]
     [i + 32 := chain[4]][i + 40 := chain[5]][i + 48 := chain[6]][i + 56 := chain[7]]
  }

  /** A column reads back what was written to it; the other columns keep their words. */
  lemma ColumnAfterPut(v: seq<Word>, i: nat, chain: Chain, j: nat)
    requires |v| == 64 && i < COLUMNS && j < COLUMNS
    ensures Column(PutColumn(v, i, chain), j) == if j == i then chain else Column(v, j)
  {
    assert Column(PutColumn(v, i, chain), i) == chain;
  }

  method WriteChain(chain: Chain, to: array<Word>, column: nat)
    requires to.Length == 64 && column < COLUMNS
    modifies to
    ensures to[..] == PutColumn(old(to[..]), column, chain)
    ensures forall i: nat, j: nat :: i < COLUMNS && j < 8 ==>
              WordAt(to[..], i, j) == if i == column then chain[j] else old(WordAt(to[..], i, j))
  {
    ghost var before := to[..];
    to[column] := chain[0];
    to[column + 8] := chain[1];
    to[column + 16] := chain[2];
    to[column + 24] := chain[3];
    to[column + 32] := chain[4];
    to[column + 40] := chain[5];
    to[column + 48] := chain[6];
    to[column + 56] := chain[7];
    WordsOfColumns(before, column, chain);
  }

  lemma WordsOfColumns(v: seq<Word>, column: nat, chain: Chain)
    requires |v| == 64 && column < COLUMNS
    ensures forall i: nat, j: nat :: i < COLUMNS && j < 8 ==>
              WordAt(PutColumn(v, column, chain), i, j) == if i == column then chain[j] else WordAt(v, i, j)
  {
    var v' := PutColumn(v, column, chain);
    forall i: nat, j: nat | i < COLUMNS && j < 8
      ensures WordAt(v', i, j) == if i == column then chain[j] else WordAt(v, i, j)
    {
      hide PutColumn, Column, WordAt;
      ColumnAfterPut(v, column, chain, i);
      WordOfColumn(v', i, j);
      WordOfColumn(v, i, j);
    }
  }

  lemma WordOfColumn(v: seq<Word>, i: nat, j: nat)
    requires |v| == 64 && i < COLUMNS && j < 8
    ensures Column(v, i)[j] == WordAt(v, i, j)
  {
  }

  method CopyChain(from: array<Word>, fromColumn: nat, to: array<Word>, toColumn: nat)
    requires from.Length == 64 && to.Length == 64 && from != to
    requires fromColumn < COLUMNS && toColumn < COLUMNS
    modifies to
    ensures to[..] == PutColumn(old(to[..]), toColumn, Column(from[..], fromColumn))
  {
    var chain := ReadChain(from, fromColumn);
    WriteChain(chain, to, toColumn);
  }

  /** Hashes the first `n` pairs of columns as parents. */
  method HashP(m: Mode, left: array<Word>, right: array<Word>, flags: Word, out: array<Word>, n: nat)
    requires left.Length == 64 && right.Length == 64 && out.Length == 64
    requires out != left && out != right
    modifies out
    ensures forall i :: 0 <= i < n && i < COLUMNS ==>
              Column(out[..], i) ==
              m.CV(Node(m.key, Column(left[..], i) + Column(right[..], i), 0, BLOCK_LEN, flags))
    ensures forall i :: n <= i < COLUMNS ==> Column(out[..], i) == old(Column(out[..], i))
  {
    hide With, Mode.CV, PutColumn, Column;
    var i := 0;
    while i < n && i < COLUMNS
      invariant i <= COLUMNS
      invariant forall j :: 0 <= j < i && j < n ==>
                  Column(out[..], j) ==
                  m.CV(Node(m.key, Column(left[..], j) + Column(right[..], j), 0, BLOCK_LEN, flags))
      invariant forall j :: i <= j < COLUMNS ==> Column(out[..], j) == old(Column(out[..], j))
      invariant i <= n
    {
      var block: seq<Word> := ReadChain(left, i);
      var r := ReadChain(right, i);
      block := block + r;
      var chain := m.CV(Node(m.key, block, 0, BLOCK_LEN, flags));
      ghost var before := out[..];
      WriteChain(chain, out, i);
      forall j: nat | j < COLUMNS ensures Column(out[..], j) == if j == i then chain else Column(before, j) {
        ColumnAfterPut(before, i, chain, j);
      }
      i := i + 1;
    }
  }

  /** The part of chunk `i` that lies within the first `length` bytes of a batch. */
  function ChunkOf(input: seq<Byte>, length: nat, i: nat): (chunk: seq<Byte>)
    requires length <= |input| && CHUNK_LEN * i < length
    ensures 0 < |chunk| <= CHUNK_LEN
  {
    input[CHUNK_LEN * i..if CHUNK_LEN * (i + 1) <= length then CHUNK_LEN * (i + 1) else length]
  }

  /** The chaining value that enters the last block of a chunk. */
  function EntryChain(m: Mode, chunk: seq<Byte>, counter: nat): Chain
    requires 0 < |chunk| <= CHUNK_LEN
  {
    m.ChunkChain(chunk, counter, (|chunk| - 1) / BLOCK_LEN)
  }

  lemma EmptyChain(m: Mode, chunk: seq<Byte>, counter: nat)
    ensures m.ChunkChain(chunk, counter, 0) == m.key
  {
  }

  /** One more whole block of a chunk: either the chain grows, or the chunk is complete. */
  lemma BlockStep(m: Mode, chunk: seq<Byte>, counter: nat, n: nat)
    requires |chunk| <= CHUNK_LEN && BLOCK_LEN * (n + 1) <= |chunk|
    ensures n + 1 < 16 ==>
              m.ChunkChain(chunk, counter, n + 1) ==
              m.CV(Node(m.ChunkChain(chunk, counter, n), ToBlock(chunk[BLOCK_LEN * n..BLOCK_LEN * (n + 1)]),
                        counter, BLOCK_LEN, if n == 0 then With(m.flags, CHUNK_START) else m.flags))
    ensures n + 1 == 16 ==>
              m.CV(m.ChunkNode(chunk, counter)) ==
              m.CV(Node(m.ChunkChain(chunk, counter, n), ToBlock(chunk[BLOCK_LEN * n..BLOCK_LEN * (n + 1)]),
                        counter, BLOCK_LEN, With(m.flags, CHUNK_END)))
  {
    hide With, Mode.CV, ToBlock;
    if n + 1 == 16 {
      assert chunk[BLOCK_LEN * n..] == chunk[BLOCK_LEN * n..BLOCK_LEN * (n + 1)];
    }
  }

  /** The blocks of one chunk. A last block that is cut short is hashed with
      whatever follows it in the buffer, so the result then means nothing. */
  method HashChunk(m: Mode, input: seq<Byte>, length: nat, i: nat, counter: nat, chain: Chain)
    returns (result: Chain, chain': Chain)
    requires |input| == BATCH_LEN && length <= BATCH_LEN && CHUNK_LEN * i < length
    ensures CHUNK_LEN * (i + 1) <= length ==>
              result == m.CV(m.ChunkNode(input[CHUNK_LEN * i..CHUNK_LEN * (i + 1)], counter))
    ensures chain' == if length <= CHUNK_LEN * (i + 1) then EntryChain(m, ChunkOf(input, length, i), counter) else chain
  {
    hide With, Mode.CV, Mode.ChunkNode, Mode.ChunkChain, ToBlock;
    ghost var chunk := ChunkOf(input, length, i);
    var start := CHUNK_LEN * i;
    var flags := With(m.flags, CHUNK_START);
    result := m.key;
    assert result == m.ChunkChain(chunk, counter, 0) by { EmptyChain(m, chunk, counter); }
    chain' := chain;
    var n := 0;
    while n < 16
      invariant n <= 16
      invariant n > 0 ==> BLOCK_LEN * (n - 1) < |chunk|
      invariant flags == if n == 0 then With(m.flags, CHUNK_START) else m.flags
      invariant n < 16 && BLOCK_LEN * n <= |chunk| ==> result == m.ChunkChain(chunk, counter, n)
      invariant n == 16 && |chunk| == CHUNK_LEN ==> result == m.CV(m.ChunkNode(chunk, counter))
      invariant chain' == if start + |chunk| == length && |chunk| <= BLOCK_LEN * n
                          then EntryChain(m, chunk, counter) else chain
    {
      if n == 15 {
        flags := With(flags, CHUNK_END);
      }
      if start + BLOCK_LEN * n >= length {
        break;
      }
      if start + BLOCK_LEN + BLOCK_LEN * n >= length {
        chain' := result;
      }
      var block := input[start + BLOCK_LEN * n..start + BLOCK_LEN * (n + 1)];
      if BLOCK_LEN * (n + 1) <= |chunk| {
        SliceOfSlice(input, start, start + |chunk|, BLOCK_LEN * n, BLOCK_LEN * (n + 1));
        BlockStep(m, chunk, counter, n);
      }
      result := m.CV(Node(result, ToBlock(block), counter, BLOCK_LEN, flags));
      flags := m.flags;
      n := n + 1;
    }
  }

  /** Hashes the chunks of the first `length` bytes. `chain'` is the value that
      enters the last block; bytes at or past `length` matter to neither result. */
  method HashF(m: Mode, input: seq<Byte>, length: nat, counter: nat, out: array<Word>, chain: Chain)
    returns (chain': Chain)
    requires |input| == BATCH_LEN && length <= BATCH_LEN && out.Length == 64
    modifies out
    ensures forall i :: 0 <= i < COLUMNS && CHUNK_LEN * (i + 1) <= length ==>
              Column(out[..], i) == m.CV(m.ChunkNode(input[CHUNK_LEN * i..CHUNK_LEN * (i + 1)], counter + i))
    ensures forall i :: 0 <= i < COLUMNS && length <= CHUNK_LEN * i ==> Column(out[..], i) == old(Column(out[..], i))
    ensures chain' == if length == 0 then chain
                      else var last := (length - 1) / CHUNK_LEN;
                           EntryChain(m, ChunkOf(input, length, last), counter + last)
  {
    hide With, Mode.CV, Mode.ChunkNode, EntryChain, PutColumn, Column;
    var i := 0;
    chain' := chain;
    while CHUNK_LEN * i < length && i < COLUMNS
      invariant i <= COLUMNS
      invariant forall j :: 0 <= j < i && CHUNK_LEN * (j + 1) <= length ==>
                  Column(out[..], j) == m.CV(m.ChunkNode(input[CHUNK_LEN * j..CHUNK_LEN * (j + 1)], counter + j))
      invariant forall j :: i <= j < COLUMNS ==> Column(out[..], j) == old(Column(out[..], j))
      invariant i > 0 ==> CHUNK_LEN * (i - 1) < length
      invariant chain' == if i == 0 || CHUNK_LEN * i < length then chain
                          else EntryChain(m, ChunkOf(input, length, i - 1), counter + (i - 1))
    {
      var column, next := HashChunk(m, input, length, i, counter + i, chain');
      chain' := next;
      ghost var before := out[..];
      WriteChain(column, out, i);
      forall j: nat | j < COLUMNS ensures Column(out[..], j) == if j == i then column else Column(before, j) {
        ColumnAfterPut(before, i, column, j);
      }
      i := i + 1;
    }
  }
}
