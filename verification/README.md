# Verified model of codex-dedup's hashing, chunking and measurement core

codex-dedup is a local proxy that cuts request bodies into content-defined chunks,
identifies every chunk and the whole body by BLAKE3-256, and keeps a simulated cache
of the chunks it has seen. This project models that core in Dafny and proves what it
is for:

- **The incremental BLAKE3 hasher is the BLAKE3 tree hash.** `Hashing` and `ChainStack`
  follow the source field by field: an 8 KiB buffer, a lazy stack whose merged pairs wait
  in an eight-column buffer at mixed levels, and a finalisation that really pushes chunks,
  moves the buffer and folds the set bits of the chunk count. `TreeSpec` is the tree of
  the BLAKE3 paper ("BLAKE3: one function, fast everywhere", sections 2.1, 2.4, 2.5), with
  nothing incremental in it, and `Reference` says the same hash a second time, front to back and level by
  level, on the bare compression function: every output byte of the two agrees. Any interleaving of writes, sums, resets, clones and digest
  reads and seeks, on any number of hashers and open digests, yields at each point the tree hash of
  exactly the bytes written to the one asked (`HasherPool.Replay`).
- **The compression function is a parameter.** The tree results hold for every compression
  function, so they cover the portable code and any assembly that meets its contract.
  `Compression` proves the hand-unrolled portable code against section 2.2, and that every
  implementation that meets its contract on machine words gives the same hash output
  (`EveryImplementationHashesAlike`). `KnownAnswer` works out the published key derivation of the
  empty input, round by round, and arrives at the published bytes.
- **The output reader is a window on an unbounded stream** (section 2.6), for every sequence
  of reads and seeks, including counter wrap-around and refused seeks (`Xof.Serve`).
- **The chunker refines a function of the byte stream**, however the reader cuts it up, and
  hands out a prefix of the right chunks when the reader fails. `Resync` proves that a local
  edit changes only the chunks around it (`EditIsLocal`).
- **The measurement pipeline** from tee stream over pipe and chunker to the store conserves
  bytes and does not depend on the order of requests. Unless digests collide, what is counted as new are
  exactly the distinct chunks not seen before. Only-complete-bodies is false of the
  code; the exact condition is proved.
- **Bounded sampling is exactly uniform and always ends**: every result comes from the same
  number of 32-bit draws, and from every state an accepted draw follows. The increment of the
  generator is even, so its states form two cycles of length 2^63, one for each parity, and not
  one of 2^64 (`PcgPeriod.CyclesAreParities`).

## Layout

| file | contents |
|---|---|
| `Bitwise.dfy` | `&`, `^`, bits and masks of unsigned words, on naturals |
| `Words.dfy` | bytes, words, little-endian conversion, splicing, flattening |
| `TreeSpec.dfy` | the BLAKE3 tree |
| `LazyStack.dfy`, `ChunkForest.dfy` | the meaning of the lazy stack; subtrees and the fold over set bits |
| `HashPure.dfy`, `ChainStack.dfy`, `Hashing.dfy`, `Blake3.dfy` | the imperative hasher, from transposed columns up to the package functions |
| `Xof.dfy` | the output reader |
| `HasherPool.dfy` | hashers and digests used side by side |
| `Reference.dfy` | the hash said a second time |
| `Compression.dfy`, `KnownAnswer.dfy` | seven unrolled rounds; a published hash worked out |
| `CutSpec.dfy`, `Resync.dfy` | chunking as a function; resynchronisation |
| `Readers.dfy`, `FastCdc.dfy` | readers and the streaming chunker |
| `DedupStore.dfy`, `BodyStream.dfy`, `Measuring.dfy` | store, tee stream and pipe, their composition |
| `Pcg.dfy`, `PcgPeriod.dfy`, `PcgGenerator.dfy` | step, output and uniformity; the cycles; the generator object |

Unsigned 64-bit words are naturals with explicit `% 2^64`; their bit operators are defined
digit by digit in `Bitwise`. Words of the hash are `bv32`. Where the code compares with the
documentation, the code is followed: the repository intends that only complete bodies are
measured, but a short body ends the pipe with `io.ErrUnexpectedEOF`, which the chunker takes
for a normal end of stream (see `Measuring.TruncatedBodyIsRecorded`).

## Model

| member | source | states |
|---|---|---|
| Words.ConversionsAreInverse | src/core/utils/blake3/blakeUtils/helpers.go:7-44 | reading words from bytes and writing bytes from words undo each other, both ways |
| Words.WordsAreLittleEndian | src/core/utils/blake3/blakeUtils/helpers.go:7-24 | a word has the first of its four bytes lowest |
| Words.BlockHolds | src/core/utils/blake3/helpers.go:170-176 | a block made from at most 64 bytes holds them, and zeros behind them |
| TreeSpec.LeftSizeUnique | src/core/utils/blake3/methods_hasher.go:156-180 | the left subtree size of the tree specification is the only power of two strictly below the chunk count and at least half of it |
| TreeSpec.Mode.TreeIsJoin | src/core/utils/blake3/methods_hasher.go:156-180 | hashing the recursive byte tree is joining the chaining values of its chunks with the same shape |
| Bitwise.ClearsLowestDigit | src/core/utils/blake3/methods_hasher.go:157-158 | `x & (x - 1)` removes exactly the digit that counting trailing zeros finds |
| Bitwise.XorPow2 | src/core/utils/blake3/methods_stack.go:18-29 | `x ^ (1 << k)` flips digit k and no other, and moves the population count by one accordingly |
| Bitwise.AndPow2 | src/core/utils/blake3/methods_stack.go:19 | `x & (1 << k)` is zero exactly when digit k is |
| Bitwise.AndLowMask | src/core/utils/fastCdc/helpers.go:57-66 | masking with k low ones is taking the remainder modulo 2^k |
| Bitwise.DigitByDigit | src/core/utils/pcgUtils/methods.go:124-127 | and, or and exclusive or work on each binary digit alone |
| LazyStack.Arrive | src/core/utils/blake3/methods_stack.go:17-30 | one arrival keeps the invariant: the odd one out goes to its slot, or the two twins it completes go to the back of the queue of waiting pairs |
| LazyStack.LevelsNeverWrap | src/core/utils/blake3/methods_stack.go:18-26 | with fewer than 2^64 chunks no pair ever forms on level 63, so the `& 63` masks never bite |
| LazyStack.NextDelivery | src/core/utils/blake3/methods_stack.go:46-48 | the oldest waiting pair of the shared queue is exactly the one its parent level expects next |
| LazyStack.MoreChunks | src/core/utils/blake3/methods_stack.go:8-15 | chunks pushed later change nothing the stack already holds |
| LazyStack.DrainedOccupancy | src/core/utils/blake3/methods_hasher.go:152-157 | once nothing waits, the occupancy word is the number of chunks pushed |
| ChunkForest.ParentOfTwins | src/core/utils/blake3/methods_stack.go:32-49 | the parent of aligned twins of 2^k chunks is the aligned subtree of 2^(k+1) chunks |
| ChunkForest.TreeSplits | src/core/utils/blake3/methods_hasher.go:156-180 | a tree of more than 2^k and at most 2^(k+1) chunks has exactly 2^k of them on the left |
| ChunkForest.KeptInSlot | src/core/utils/blake3/methods_hasher.go:157-169 | after a drain the slot of a set bit holds the subtree of the chunks that end where the lower bits begin |
| ChunkForest.FoldStep | src/core/utils/blake3/methods_hasher.go:160-170 | putting that subtree to the left of what the lower bits cover gives the tree over both |
| ChainStack.CvStack.PushL | src/core/utils/blake3/methods_stack.go:17-30 | keeps the stack invariant, never uses more than one further column, and adds exactly one to popcount plus twice the buffered pairs |
| ChainStack.CvStack.Flush | src/core/utils/blake3/methods_stack.go:32-49 | keeps the invariant across mixed levels, stays within the eight columns, and lowers that measure by the number of pairs flushed |
| ChainStack.CvStack.PushN | src/core/utils/blake3/methods_stack.go:8-15 | appends the pushed chunks to the leaves and leaves room in the buffer |
| ChainStack.CvStack.Reset | src/core/utils/blake3/methods_hasher.go:63-69 | makes the stack an empty one although slots and columns keep stale values |
| ChainStack.CvStack.Copy | src/core/utils/blake3/methods_hasher.go:30-32 | an independent stack with the same leaves |
| ChainStack.CvStack.EmptyServesAnyMode | src/core/utils/blake3/helpers.go:60-62 | an empty stack stays valid when key and flags are replaced |
| HashPure.ColumnAfterPut | src/core/utils/blake3/helpers.go:126-137 | writing one transposed column reads back as written and leaves every other column alone |
| HashPure.WordsOfColumns | src/core/utils/blake3/helpers.go:126-137 | writing column i changes exactly the elements i + 8j |
| HashPure.WriteChain | src/core/utils/blake3/helpers.go:126-137 | word j of a chaining value lands at index column + 8j and nothing else changes |
| HashPure.ReadChain | src/core/utils/blake3/helpers.go:113-124 | gathers the words of one column |
| HashPure.CopyChain | src/core/utils/blake3/helpers.go:99-111 | copies one column to another array, leaving its other columns alone |
| HashPure.HashP | src/core/utils/blake3/blakeHash/hashPure/helpers_hashp.go:5-38 | each of the first n columns becomes the parent of the two input columns; the rest keep their values |
| HashPure.HashChunk | src/core/utils/blake3/blakeHash/hashPure/helpers_hashf.go:16-43 | a complete chunk gives its chaining value; the last chunk reports the value entering its last block, whatever follows it in the buffer |
| HashPure.HashF | src/core/utils/blake3/blakeHash/hashPure/helpers_hashf.go:11-56 | for every length up to 8192, complete chunks get their chaining values with counter + i, and `chain` enters the last block; bytes at or past the length matter to neither |
| Hashing.CompressAll | src/core/utils/blake3/helpers.go:139-180 | the root node of an input of at most one chunk; its block holds the last bytes of the input, padded with zeros |
| Hashing.LastBlock | src/core/utils/blake3/methods_hasher.go:131-150 | the block length, base and flags cut off at the end are those of the chunk's last block, for every length |
| Hashing.Hasher.constructor | src/core/utils/blake3/helpers.go:13-37 | a fresh hasher holds the empty message |
| Hashing.Hasher.Consume | src/core/utils/blake3/methods_hasher.go:97-102 | a full batch becomes the next eight leaves |
| Hashing.Hasher.Write | src/core/utils/blake3/methods_hasher.go:75-95 | appends to the message from any state, including a chunk count that is no multiple of eight |
| Hashing.Hasher.PushComplete | src/core/utils/blake3/methods_hasher.go:123-128 | pushes the complete chunks and moves the rest to the front of the buffer without changing the message |
| Hashing.Hasher.EndChunk | src/core/utils/blake3/methods_hasher.go:131-150 | the node of the last chunk from the value entering its last block; its block holds the last bytes of the chunk, padded with zeros |
| Hashing.Hasher.LastChunk | src/core/utils/blake3/methods_hasher.go:116-150 | leaves at most one chunk buffered and yields its final compression |
| Hashing.Hasher.Drain | src/core/utils/blake3/methods_hasher.go:152-154 | terminates, and the occupancy word is then the chunk count |
| Hashing.Hasher.FoldUp | src/core/utils/blake3/methods_hasher.go:156-178 | folding the set bits over the last chunk gives the top node of the tree, with counter 0 |
| Hashing.Hasher.FinalizeDigest | src/core/utils/blake3/methods_hasher.go:110-181 | the digest reads the root node of the tree over the whole message from position 0, and the hasher still holds that message |
| Hashing.Hasher.Reset | src/core/utils/blake3/methods_hasher.go:63-69 | the hasher holds the empty message under the same key and flags |
| Hashing.Hasher.SetKey | src/core/utils/blake3/helpers.go:61-62 | an empty hasher becomes one for another key and other flags |
| Hashing.Hasher.Clone | src/core/utils/blake3/methods_hasher.go:29-32 | an independent hasher with the same message |
| Blake3.New | src/core/utils/blake3/helpers.go:12-20 | an unkeyed hasher of the empty message |
| Blake3.NewKeyed | src/core/utils/blake3/helpers.go:22-37 | exactly the 32-byte keys are accepted; key word i is the little-endian number of bytes 4i to 4i + 3, and the flag is 16 |
| Blake3.Sum | src/core/utils/blake3/methods_hasher.go:44-54 | appends the 32-byte hash to a slice anywhere in an array, in place exactly when its capacity allows, and does not disturb the hasher |
| Blake3.Finalize | src/core/utils/blake3/methods_hasher.go:104-108 | fills the slice with the hash of the message and nothing outside it |
| Blake3.ReadSome | src/core/utils/blake3/methods_hasher.go:56-61 | a digest read of any length is a prefix of the hash output, invisible to the hasher |
| Blake3.Clone | src/core/utils/blake3/methods_hasher.go:29-32 | an independent snapshot |
| Blake3.NewDeriveKey | src/core/utils/blake3/helpers.go:46-65 | one reused hasher performs the two phases of section 2.3 of the BLAKE3 paper: the key words are read from the 32-byte hash of the context under flag 32, and the material is hashed under flag 64 |
| Blake3.DeriveKey | src/core/utils/blake3/helpers.go:39-44 | the output is the hash of the material under the key the context derives |
| Blake3.SumSmall | src/core/utils/blake3/helpers.go:87-91 | the unkeyed hash of up to one chunk |
| Blake3.SumLarge | src/core/utils/blake3/helpers.go:93-97 | the unkeyed hash by way of the incremental hasher |
| Blake3.Sum256 | src/core/utils/blake3/helpers.go:67-75 | both branches give the first 32 bytes of the unkeyed hash, byte by byte those of the reference |
| Blake3.Sum512 | src/core/utils/blake3/helpers.go:77-85 | both branches give the first 64 bytes of the unkeyed hash, byte by byte those of the reference |
| Reference.ChunkIsAbsorbed | src/core/utils/blake3/blakeHash/hashPure/helpers_hashf.go:16-43 | absorbing the blocks of a chunk from the front, with the start flag on the first and the end flag on the last, ends in the node of the chunk |
| Reference.PairingKeepsJoin | src/core/utils/blake3/methods_stack.go:8-49 | making pairs of neighbours, an odd one out staying, leaves the tree above them as it is |
| Reference.TopIsTree | src/core/utils/blake3/methods_hasher.go:110-178 | pairing level by level, left before right, until two values are left gives the top node of the recursive tree |
| Reference.HashIsReference | src/core/utils/blake3/methods_hasher.go:104-181 | byte p of the hash output is byte p mod 64 of the bare compression of the top node with counter p / 64 and the root flag |
| HasherPool.Perform | src/core/utils/blake3/methods_hasher.go:12-61 | one operation on one hasher or digest of a pool delivers what its message says, and leaves what all others stand for alone |
| HasherPool.Replay | src/core/utils/blake3/methods_hasher.go:12-61 | every interleaving of writes, sums, resets, clones and digest reads and seeks over a pool of hashers and open digests, clones and originals going on, delivers what the bytes written to each since its last reset determine |
| Xof.StreamSplits | src/core/utils/blake3/methods_digest.go:13-45 | reading in two goes is reading once |
| Xof.Digest.FillBuf | src/core/utils/blake3/methods_digest.go:86-90 | caches the block the counter names and moves one block on, also when the counter wraps |
| Xof.Digest.CachedBytes | src/core/utils/blake3/methods_digest.go:72-84 | the unread tail of the cache is the next part of the stream |
| Xof.Digest.SlowCopy | src/core/utils/blake3/methods_digest.go:72-84 | copies as much of that tail as fits and nothing else |
| Xof.Digest.Read | src/core/utils/blake3/methods_digest.go:13-45 | delivers exactly the next bytes of the stream and advances by their number |
| Xof.Digest.SetPosition | src/core/utils/blake3/methods_digest.go:66-70 | the next byte is the one asked for |
| Xof.Digest.Seek | src/core/utils/blake3/methods_digest.go:47-64 | a seek from the start goes to its non-negative offset; for a relative one signed 64-bit arithmetic with wrap-around decides; a refused seek changes nothing |
| Xof.RelativeSeekIsExact | src/core/utils/blake3/methods_digest.go:53-62 | from every position a relative seek lands where it should if and only if that is a non-negative signed offset; while the position is one, every other seek is refused |
| Xof.RelativeSeekBeyondSignedOffsets | src/core/utils/blake3/methods_digest.go:53-62 | from position 2^63 + 1 a seek by 0 is refused, and from 2^64 it goes to 0 |
| Xof.ReadAfterSeek | src/core/utils/blake3/methods_digest.go:47-70 | after a seek from the start the next read begins at the offset; after a refused one where it would have begun anyway |
| Xof.Serve | src/core/utils/blake3/methods_digest.go:13-64 | every sequence of reads and seeks answers as the stream and a position alone say |
| Compression.RCompress | src/core/utils/blake3/blakeCompression/compressPure/helpers.go:40-135 | the unrolled rounds with pre-permuted message words are seven rounds with the permutation in between, and the feed-forward uses the original chaining value |
| Compression.FeedForwardInPlace | src/core/utils/blake3/blakeCompression/compressPure/helpers.go:118-134 | writing the upper half first still mixes in the chaining value of the lower half |
| Compression.SevenRounds | src/core/utils/blake3/blakeCompression/compressPure/helpers.go:55-116 | iterating round and permutation seven times is the composition that was unrolled |
| Compression.Compress | src/core/utils/blake3/blakeCompression/compressPure/helpers.go:9-26 | the array version computes the compression of section 2.2 of the BLAKE3 paper |
| Compression.SameWordsSameTree | src/core/utils/blake3/blakeCompression/helpers.go:9-15 | compressions that agree on machine words give the same tree over every input within the limit |
| Compression.SameWordsSameHash | src/core/utils/blake3/blakeCompression/helpers.go:9-15 | and the same output, however many bytes are read |
| Compression.EveryImplementationHashesAlike | src/core/utils/blake3/blakeCompression/helpers.go:9-15 | any implementation that computes the specified compression on machine words hashes every message as the portable code does |
| KnownAnswer.DerivedKey | tests/blake3Tests/vectors_test.go:18-22 | the key that the published test context derives, by seven rounds worked out one by one |
| KnownAnswer.PublishedDerivation | tests/blake3Tests/vectors_test.go:25-30 | the portable code derives the published first 64 bytes from the empty input |
| CutSpec.Params.Scan | src/core/utils/fastCdc/methods.go:101-114 | stops after the first byte that passes its mask, or at the end of the window |
| CutSpec.Params.FirstCut | src/core/utils/fastCdc/methods.go:91-115 | a non-empty first chunk of at most the maximum, and of at least the minimum unless it is the rest of the stream |
| CutSpec.GearIsSum | src/core/utils/fastCdc/methods.go:101-104 | the rolling hash is the sum of the table entries, each shifted by the number of bytes behind it, modulo 2^64 |
| CutSpec.MaskSelects | src/core/utils/fastCdc/helpers.go:57-66 | masking selects the remainder modulo two to the number of bits, clamped to 1 and 64 |
| CutSpec.Params.CutLenIsFirstCut | src/core/utils/fastCdc/methods.go:91-115 | a window is cut after n bytes if and only if n is the first place behind the minimum where the low log2(average) + 2 bits of the hash are zero, or from the average on log2(average) - 2 bits, or the end |
| CutSpec.Params.ChunksAreFirstCuts | src/core/utils/fastCdc/methods.go:48-62 | every chunk of a stream ends at that place of what is left, up to the maximal size |
| CutSpec.Params.ChunksTile | src/core/utils/fastCdc/methods.go:48-62 | the chunks concatenate to the stream, none is empty or above the maximum, none but the last is below the minimum |
| CutSpec.Params.ChunkCountBound | src/core/utils/fastCdc/methods.go:48-62 | at most total/minimum + 1 chunks |
| CutSpec.Params.FailureEmitsPrefix | src/core/utils/fastCdc/methods.go:33-46 | what is handed out before a failure is a prefix of the chunks of every continuation of the stream |
| CutSpec.Params.FailureKeepsBack | src/core/utils/fastCdc/methods.go:43-46 | a failure withholds less than one maximal chunk |
| CutSpec.Params.FailureNeedsFullWindows | src/core/utils/fastCdc/methods.go:43-46 | after a failure only chunks that begin with a full window left are handed out |
| CutSpec.Params.ChunksFromBoundary | src/core/utils/fastCdc/methods.go:91-115 | from a boundary on, the chunks are those of the rest of the stream |
| CutSpec.Params.ChunksUpToBoundary | src/core/utils/fastCdc/methods.go:91-115 | up to a boundary, the chunks are the bytes up to it |
| Resync.LowBitsAreLocal | src/core/utils/fastCdc/methods.go:101-112 | the low k bits of the rolling hash depend on the last k bytes only |
| Resync.SmallImpliesLarge | src/core/utils/fastCdc/helpers.go:24-30 | a hash that passes the strict mask passes the loose one |
| Resync.AnchorIsHit | src/core/utils/fastCdc/methods.go:97-112 | a scan that has hashed enough bytes stops at every strict window, before or after the target size |
| Resync.AnchorForcesCut | src/core/utils/fastCdc/methods.go:91-115 | such a window, at least minimum plus k bytes behind the last boundary, is a chunk boundary, whatever the bytes before it are |
| Resync.AnAnchor | src/core/utils/fastCdc/methods.go:91-115 | a concrete configuration, table and stream with such a window, so the theorems that ask for one are not empty |
| Resync.SharedCutSharesChunks | src/core/utils/fastCdc/methods.go:91-115 | streams with a common tail that cut at one place of it have the same chunks from there on |
| Resync.SharedTailResynchronises | src/core/utils/fastCdc/methods.go:91-115 | streams with a common tail that both reach a strict window of it have the same chunks from there on |
| Resync.MiddleIsShort | src/core/utils/fastCdc/methods.go:91-115 | between the chunks a prefix decides and a later boundary lies less than one maximal chunk more than the bytes from the prefix to the boundary |
| Resync.EditIsLocal | src/core/utils/fastCdc/methods.go:91-115 | replacing x by y between a prefix and a tail keeps the chunks the prefix decides and all chunks from a common strict window of the tail on; only the edit, the tail up to there and less than one maximal chunk may be cut differently |
| Readers.Reader.Read | src/core/utils/fastCdc/methods.go:79 | one read of a reader that may deliver any sizes, empty reads, and its end with or after the last bytes |
| Readers.ReadFull | src/core/utils/fastCdc/methods.go:79-88 | fills the range or consumes the whole stream, and says which ending applies |
| FastCdc.ValidateChunkerConfig | src/core/utils/fastCdc/helpers.go:37-55 | reports an error exactly for the configurations the chunker cannot run with |
| FastCdc.NewChunker | src/core/utils/fastCdc/helpers.go:19-35 | a valid configuration gives a chunker at the start of the reader, any other its error |
| FastCdc.Chunker.Reset | src/core/utils/fastCdc/methods.go:10-20 | from any state the chunker is as new on another reader, with a blank summary |
| FastCdc.Chunker.FindChunkLength | src/core/utils/fastCdc/methods.go:91-115 | the two loops find the first place where the remainder of the hash, under the strict bits below the average and the loose ones from there on, is zero |
| FastCdc.Chunker.Compact | src/core/utils/fastCdc/methods.go:73-77 | moving the window to the front keeps its bytes |
| FastCdc.Chunker.FillBuffer | src/core/utils/fastCdc/methods.go:71-89 | nothing of the stream is lost or repeated, and the window is full unless the reader has ended |
| FastCdc.Chunker.Next | src/core/utils/fastCdc/methods.go:22-63 | the next chunk is the first cut of what is left of the stream, and its data is the part of the buffer in front of the window; after a failure only while a full window remains |
| FastCdc.Chunker.Finish | src/core/utils/fastCdc/methods.go:117-121 | the digest in the summary is the hash of the whole body |
| FastCdc.Chunker.Summary | src/core/utils/fastCdc/methods.go:65-69 | complete exactly after a clean end, and then totals and digest are those of the whole stream |
| FastCdc.RecordsLocateChunks | src/core/utils/fastCdc/methods.go:48-60 | offsets are contiguous: each record names the range of the stream its data comes from |
| FastCdc.CollectChunks | src/localProxy/helpers_measurement.go:26-39 | reading to the end gives the chunks of the stream, whatever sizes the reader delivers; a failing reader gives the chunks decided before it failed |
| DedupStore.Store.RecordRequest | src/localProxy/methods_measurement.go:13-50 | the counters of the request and of the whole history are exact modulo 2^64: new is what was not known, once, and the rest is reusable |
| DedupStore.BodyBytesAreConserved | src/localProxy/methods_measurement.go:20-36 | new and reusable bytes of a request add up to the body, also as 64-bit words, when the chunks tile it |
| DedupStore.CumulativeBytesAreConserved | src/localProxy/methods_measurement.go:29-47 | in every state cache bytes are the total new bytes and the total length of distinct identities, and new and reusable bytes together are all body bytes when every request's chunks tiled its body |
| DedupStore.DistinctBytesAddUp | src/localProxy/methods_measurement.go:24-35 | the cached bytes are the plain sum of the lengths of the distinct identities |
| DedupStore.SnapshotCounts | src/localProxy/methods_measurement.go:38-47 | every cumulative counter, said of the requests and of all their chunks in one row |
| DedupStore.Accumulates | src/localProxy/methods_measurement.go:38-47 | adding a request's counters keeps the cumulative ones equal to those of the history |
| DedupStore.OrderDoesNotMatter | src/localProxy/methods_measurement.go:13-50 | every order of the same requests ends in the same cumulative snapshot |
| BodyStream.MeasuredBodyStream.Read | src/localProxy/methods_measurement.go:59-83 | the provider sees what the source returned, the pipe a prefix of it, and the pipe is closed once with the ending the counts decide |
| BodyStream.MeasuredBodyStream.Close | src/localProxy/methods_measurement.go:85-94 | an open pipe is closed, cleanly only for a complete body |
| BodyStream.Pipe.Write | src/localProxy/methods_measurement.go:62-66 | accepts the data, or a prefix of it with an error, and nothing after the end |
| BodyStream.Pipe.CloseWithError | src/localProxy/methods_measurement.go:71-78 | the first close decides the ending |
| BodyStream.Drive | src/localProxy/handlers.go:40-44 | a whole run of reads and the final close end the pipe as the arrivals alone determine |
| BodyStream.CleanCloseIsComplete | src/localProxy/methods_measurement.go:96-101 | the pipe ends cleanly exactly when the source kept its promise, which with a known length means exactly that many bytes |
| BodyStream.FailureIsPassedOn | src/localProxy/methods_measurement.go:74-77 | the pipe ends in a failure exactly when the source reports one before completing, and then in that one |
| Measuring.MeasuredChunksTileTheBody | src/localProxy/helpers_measurement.go:36-47 | the recorded chunk lengths add up to the body |
| Measuring.MeasureRequestBody | src/localProxy/helpers_measurement.go:17-48 | a stream that ends is recorded with the digest and length of every chunk, in order; a stream that fails leaves the store untouched |
| Measuring.RequestChunks | src/localProxy/helpers_measurement.go:26-39 | the request has, for every chunk of the body in order, its 32-byte unkeyed hash and its length |
| Measuring.NewDigestIsNew | src/localProxy/methods_measurement.go:24-36 | a chunk whose digest no chunk seen before has is counted as new |
| Measuring.NewChunksAreUnseen | src/localProxy/methods_measurement.go:24-36 | unless digests collide, the new chunks of a request are exactly its distinct chunks not seen before, all other chunks and bytes of the body are reusable, and the cache has what was seen and what came with the request |
| Measuring.CacheHoldsDistinctChunks | src/localProxy/methods_measurement.go:24-47 | unless digests collide, the cache holds one entry for every distinct chunk of all bodies measured |
| Measuring.MeasureStreamedBody | src/localProxy/helpers_measurement.go:50-72 | the store changes exactly when the pipe ends cleanly or short, and then by the request made of what went through the pipe |
| Measuring.TruncatedBodyIsRecorded | src/core/utils/fastCdc/methods.go:84-85 | five bytes announced and three delivered are recorded as a three-byte body |
| BodyStream.PipeCarriesTheSource | src/localProxy/methods_measurement.go:59-83 | the pipe carries the beginning of what the source delivers up to its first error, and all of it unless an announced length is reached |
| Measuring.RecordedOnlyWhenWhole | src/localProxy/methods_measurement.go:59-101 | the bytes recorded are a whole body (as many as announced from the front of the source, or without an announcement all up to the end it reports) if and only if the source keeps its promise or its first error is a genuine failure |
| Pcg.NextStateIsInjective | src/core/utils/pcgUtils/methods.go:112-117 | the state step is a permutation of the 64-bit states |
| Pcg.RotationMovesLowBits | src/core/utils/pcgUtils/methods.go:124-127 | the two shifted halves never overlap: the low bits move above the others, for every shift including zero |
| Pcg.OutputIs | src/core/utils/pcgUtils/methods.go:119-128 | a draw is the xor-shifted word below the top five digits of the state, rotated right by these |
| Pcg.ThresholdIsRemainder | src/core/utils/pcgUtils/methods.go:142-148 | negate, subtract and mod compute 2^32 mod n |
| Pcg.ResultBelowBound | src/core/utils/pcgUtils/methods.go:159 | every draw maps below the bound |
| Pcg.Uniform | src/core/utils/pcgUtils/methods.go:130-160 | for every n > 0 and k < n exactly floor(2^32 / n) of the 2^32 draws are accepted and give k |
| PcgGenerator.Generator.Uint32 | src/core/utils/pcgUtils/methods.go:119-128 | steps the state and returns its draw, both said in numbers |
| PcgPeriod.Jump | src/core/utils/pcgUtils/methods.go:112-117 | 2^k steps are one step with multiplier and increment squared up k times |
| PcgPeriod.CyclesAreParities | src/core/utils/pcgUtils/constants.go:4-7 | one state leads to another, in fewer than 2^63 steps, if and only if both are even or both odd; 2^63 steps lead back, and no fewer do |
| PcgPeriod.EveryDrawOccurs | src/core/utils/pcgUtils/methods.go:121-128 | every 32-bit word is the output of some even and of some odd state |
| PcgPeriod.SomeDrawIsAccepted | src/core/utils/pcgUtils/methods.go:150-157 | from every state some draw is accepted within one cycle, so the rejection loop ends |
| PcgGenerator.Generator.Uint32n | src/core/utils/pcgUtils/methods.go:130-160 | terminates, returns the high half of the product with the first draw whose low half reaches 2^32 mod n, and leaves the state right after it; zero for bound zero, without drawing |

## Left out

- Hashing.Hasher.Write: limited to messages below 2^74 bytes, as many as the source's 64-bit chunk counter numbers; what its wrap does to longer ones is not modelled.
- Readers.Reader.Read: after its ending a reader keeps reporting that ending; a reader that recovers from an error is not modelled.
- FastCdc.Chunker.Next: chunk data is a value that equals a range of the buffer when the call returns; what a caller sees in that range after later calls overwrite it is not modelled.
- BodyStream.MeasuredBodyStream.Read: the byte count is unbounded; the source's signed count wraps at 2^63 bytes of one body.
- FastCdc.NewChunker: streams of 2^64 bytes and more, where the source's 64-bit offsets wrap.
- Compression.RCompress: each unrolled round is a method of its own, with the source's message indices; the seven are called in turn.
- Xof.Digest.Read: whole blocks are copied by the same step as partial ones, where the source has a direct copy.
- Hashing.Hasher.FinalizeDigest: the steps of the source's one function are separate methods, and the digest is built at the end instead of being filled in field by field.
- The SSE4.1, AVX2 and NEON assembly and its dispatch: taken to meet the contracts of the portable functions.
- The little-endian fast path through `unsafe`: words and bytes are converted explicitly.
- Goroutines, blocking and locks: one streamed request is the sequence of its reads, the close and the measurement; a store call is atomic. The measuring half never closes the pipe first, because it stops only at the pipe's end.
- The concrete Gear table: any function from bytes to 64-bit words.
- The concurrent generator `PT`, seeding, and the floating-point methods of the generator.
- HTTP forwarding, configuration files, the command line and logging: input and output only.
- Collision resistance and other cryptographic claims.
