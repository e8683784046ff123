# Verification of the decoders, the task queue, the pools and the digests

This project models the parts of the emulator in which a fast, stateful piece of C is meant to
agree with a simple description, and proves that it does:

- **Task queue** (`ring.dfy`, `task_*.dfy`). The ring buffer and its counters are a class, whose critical
  sections refine three functions on a plain queue. Around them, a transition system with any number of
  workers, waiters, submitters and pool resizes: each step is one critical section or a spurious wakeup.
  Safety (first in first out, exactly once, a wait ends only when everything submitted has returned, a
  resize leaves as many workers as it was asked for), no lost wakeup, termination of every run without new
  work, and exactly which overlapping resizes can hang.
- **libchdr Huffman coder** (`bit_stream.dfy`, `huffman_*.dfy`). Canonical codes from the longest length
  down, the flat lookup table, decoding, the RLE tree import, tree building by merging, and the binary
  search over weight scales. Kraft sums tie the parts together, and the built code is proved optimal:
  no prefix code encodes the counted samples in fewer bits. Lengths that an encoder wrote are imported as
  they were.
- **Inflate** (`bit_reverse.dfy`, `canonical_codes.dfy`, `zlib_*.dfy`, `deflate_*.dfy`). From the bit
  buffer to the whole stream: tables, the two decoding paths, dynamic code descriptions, copies, stored
  blocks, headers, the loop over the blocks; against a description of RFC 1950 and RFC 1951 on bit positions,
  and against an encoder: any text, cut into blocks, literals and copies in any way, comes back, and nothing
  else inflates.
- **JPEG entropy decoding** (`jpeg_*.dfy`). Table construction, byte unstuffing, the acceleration table,
  the combined table for AC coefficients, and the loop over the coefficients of a block; against Annex C
  and section F.2.2 of ITU-T T.81, and against the coding of a block as section F.1.2.2 describes it.
- **PNG** (`png_*.dfy`): unfiltering in two alternating row buffers, the Paeth predictor, Adam7; against
  what the specification says about each byte.
- **GIF** (`gif_*.dfy`): the LZW table and the recursive output of prefix chains against a dictionary of
  strings, that against Appendix F of GIF89a, and both against an encoder; sub-blocks, code sizes, colours,
  and the interlaced drawing cursor.
- **String pools** (`string_*.dfy`, `unique_pool.dfy`, `pool_history.dfy`): open addressing with rehashing,
  and a sorted array with binary search, both against one map from strings to offsets.
- **Wildcard matching, integer text** (`wildcard.dfy`, `number_text.dfy`).
- **Digests** (`digest_*.dfy`): three ways to buffer and pad, one definition of padding, byte orders and
  initial values.

Objects whose fields change in place are classes; arrays stay arrays. A method that runs a loop of the
source is specified by a function or predicate on sequences, and what the source promises is proved about
that. `bits.dfy` and `bit_sequence.dfy` give shifts, masks and bit positions on unbounded numbers, and
`bit_writer.dfy` writes bits; where the source's word width matters, it is written out. Compression functions of the digests, and the contents
of a task, are parameters.

Some results are sharper than the comments in the source, or differ from them:

- `huffman_build_tree` needs one node per code and one per merge. `create_huffman_decoder` allocates one per code
  (`dep/libchdr/src/libchdr_huffman.c:137`), which is enough exactly for histograms with at most one used symbol
  (`HuffmanBuild.PoolSuffices`).
- The comparison function of its sort is right exactly for weights less than 2^31 apart (`HuffmanBuild.CompareExact`).
- `huffman_compute_tree_from_histo` ends exactly if there are at most `2^maxbits` used symbols
  (`HuffmanShape.SomeWeightFits`); otherwise no weight fits and its search never ends. From 2^31 samples on the search
  starts too low for the raw weights (`HuffmanBuild.ComputeTreeFromHisto`), and beyond 3 * 2^30 it need not end
  (`HuffmanBuild.WrappedSearchGoesOn`).
- Inflate accepts some truncated streams: those whose zero-extended expansion ends within the bits that were loaded
  together with the end of the data. `ZlibTruncated.OneByteStream` is one, `ZlibStream.ParseZlib` says exactly which
  are accepted, and that none of them ends more than 2328 bits behind the data.
- The zlib header is accepted with a window that RFC 1950 does not allow (`ZlibStream.HeaderExact`), and descriptions
  of up to 288 literal and length codes, of which RFC 1951 allows 286; a block cannot use the other two.
- The JPEG acceleration table is wrong for 256 codes with a short last code, because the entry of symbol
  255 is also the flag (`JpegCodes.FlagClash`; `JpegCodes.ClashingList` is such a table); it is right in every other
  case (`JpegCodes.LookupExact`).
- The GIF decoder deviates from Appendix F of GIF89a. It goes on numbering table entries beyond the 4096 that twelve
  bits can name, and fails after 8191; Appendix F leaves a full table as it is until the next clear code. It demands a
  clear code before the first string, which Appendix F only recommends. For minimum code sizes from 1 to 11 it meets
  Appendix F exactly on those data in which it refuses no string for one of these reasons, or which are invalid anyway
  (`GifReference.OutcomeExact`); `GifReference.FullTableFails` gives valid data on which it fails. For minimum size 12
  its first codes have 13 bits, which Appendix F does not know.
- GIF codes are just long enough for the next free code exactly if the minimum code size is not 0, which the decoder
  accepts (`GifLzw.CodeSizesExact`).
- SHA-1 admits updates of up to 2^32 - 1 bytes, but its block test wraps if buffered bytes and data reach
  2^32 together (`DigestSha1.GuardExact`). MD5 silently drops multiples of 2^32 bytes (`DigestMd5.TakenIsAll`).
- Two overlapping calls of `task_queue_set_worker_count` both return on every schedule exactly if there is no pool or
  both have count 0 (`TaskResizes.ResizesReturnExactly`).
- `string_pool_get` gives back an added string exactly if it has no NUL inside (`StringBuffer.ReadsBack`).

## Model

| member | source | states |
|---|---|---|
| Ring.MaskIsSlot | src/common/task_queue.c:114-115 | masking with capacity - 1 is the slot around the end of the ring, for every power of two |
| TaskQueue.TaskQueue.Grow | src/common/task_queue.c:103-112 | growing makes room and keeps contents, order and counter, wherever the head was |
| TaskQueue.TaskQueue.Submit | src/common/task_queue.c:98-123 | the entry goes to the back of the queue and the outstanding counter goes up by one; nothing else changes, with or without growth |
| TaskQueue.TaskQueue.Take | src/common/task_queue.c:34-37 | the front entry leaves the queue, the rest keeps its order, the counter stays |
| TaskQueue.TaskQueue.Finish | src/common/task_queue.c:43-45 | the counter goes down by one; waiters are signalled exactly when it reaches zero |
| TaskProtocol.StepInv | src/common/task_queue.c:32-146 | every critical section, in any thread, keeps all invariants of the protocol |
| TaskProtocol.StepCounted | src/common/task_queue.c:43-45 | outstanding is always queued plus running, and started is always finished plus running |
| TaskProtocol.StepRunsOnce | src/common/task_queue.c:32-46 | no step makes a task run in two threads or run again after it has returned |
| TaskProtocol.StepSignal | src/common/task_queue.c:121-144 | no step loses a wakeup: while a worker sleeps there is one awake idle worker per queued task |
| TaskProtocol.StepBroadcast | src/common/task_queue.c:43-58 | no step leaves a waiter asleep without outstanding work or without a thread that will come back to the queue |
| TaskProtocol.RunKeepsInv | src/common/task_queue.c:32-146 | every reachable state of every run satisfies the invariants |
| TaskProtocol.SubmissionOrder | src/common/task_queue.c:98-123 | in every reachable state, started tasks followed by queued tasks are the order of submission |
| TaskProtocol.EachTaskRunsOnce | src/common/task_queue.c:32-46 | in any run a task is started at most once, returns at most once, and starts before it returns |
| TaskProtocol.WaitMeansFinished | src/common/task_queue.c:50-68 | when a wait ends, exactly the tasks submitted so far have returned |
| TaskProtocol.NoWorkerOversleeps | src/common/task_queue.c:132-146 | a non-empty queue with a live pool always has a worker that is awake; once threads_done is set no worker sleeps or runs a task |
| TaskProtocol.WaitingIsNeverStuck | src/common/task_queue.c:50-59 | whenever a call has not returned and is not joining, some thread can take a step of its own |
| TaskProtocol.QuietDecreases | src/common/task_queue.c:32-146 | every step other than a new submission, a new call or a spurious wakeup lowers a well-founded measure |
| TaskProtocol.QuietRunsEnd | src/common/task_queue.c:32-146 | so no run goes on forever without new work |
| TaskProtocol.SettledMeansReturned | src/common/task_queue.c:50-96 | where a run comes to rest every wait has returned, and a live pool has finished all tasks |
| TaskResizes.AllCallsReturn | src/common/task_queue.c:61-96 | if resizes overlap at most with count 0, or two of them without a pool, a run comes to rest only when every call has returned |
| TaskResizes.PositiveCountStrands | src/common/task_queue.c:61-96 | on any live pool, a resize with a positive count that starts while another joins strands the old workers asleep, and the join never ends |
| TaskResizes.ResizesReturnExactly | src/common/task_queue.c:61-96 | two overlapping resizes without tasks both return on every schedule exactly if there is no pool or both have count 0 |
| TaskResizes.OverlappingResizesCanHang | src/common/task_queue.c:61-96 | for every pool size and all counts of which one is positive, a run from the start in which a call never returns |
| TaskPool.WorkersAfterResize | src/common/task_queue.c:61-96 | when resizes do not overlap: from the return of one until the next begins, the threads that exist are exactly those of the pool, and as many as the resize was asked for |
| TaskPool.ResizeWaits | src/common/task_queue.c:65-69 | between its beginning and its return a resize sees a moment at which all tasks submitted so far have returned |
| TaskPool.WorkerDoesOneThing | src/common/task_queue.c:132-146 | in every state a worker can do exactly one thing, the one its loop says |
| TaskPool.CallDoesOneThing | src/common/task_queue.c:50-69 | so can a call |
| TaskPool.StartWhenDone | src/common/task_queue.c:71-93 | a pool is started with exactly the number of new threads asked for, exactly where the call has finished waiting and joining |
| TaskPool.SubmitNeverBlocks | src/common/task_queue.c:98-123 | submitting is possible in every state, whichever sleepers the signal wakes |
| TaskPool.CallNeverBlocks | src/common/task_queue.c:61-63 | so is a call, for any thread that is in none |
| BitStream.BitStream.Fill | dep/libchdr/src/libchdr_bitstream.c:52-58 | the accumulator gets more than 24 bits, zeros past the end, without moving the position |
| BitStream.BitStream.Peek | dep/libchdr/src/libchdr_bitstream.c:44-63 | returns the next bits of the data, most significant first and zero-extended, and consumes none |
| BitStream.BitStream.Remove | dep/libchdr/src/libchdr_bitstream.c:72-76 | moves the position by exactly the given number of bits |
| BitStream.BitStream.Read | dep/libchdr/src/libchdr_bitstream.c:84-89 | returns and consumes the next bits, up to 25 at a time |
| BitStream.BitStream.ReadOffset | dep/libchdr/src/libchdr_bitstream.c:97-107 | the offset is the number of consumed bits, rounded up to bytes |
| BitStream.BitStream.Flush | dep/libchdr/src/libchdr_bitstream.c:115-124 | skips to the next byte boundary and returns its offset |
| BitStream.BitStream.Overflow | dep/libchdr/src/libchdr_bitstream.c:19 | reports exactly that more bits were consumed than there are |
| HuffmanCodes.SlotsDisjoint | dep/libchdr/src/libchdr_huffman.c:496-530 | no table position belongs to two symbols: the assigned codes are prefix-free |
| HuffmanCodes.SlotsBelowKraft | dep/libchdr/src/libchdr_huffman.c:496-530 | every slot lies below the Kraft sum |
| HuffmanCodes.SlotsTile | dep/libchdr/src/libchdr_huffman.c:496-530 | every position below the Kraft sum belongs to a symbol: the slots tile the table from index 0 |
| HuffmanCodes.StartIsAbove | dep/libchdr/src/libchdr_huffman.c:512-520 | scaled to the table, the first code of a length comes right after all longer codes |
| HuffmanCodes.KraftIsSymbolSum | dep/libchdr/src/libchdr_huffman.c:501-510 | the Kraft sum by lengths is the sum over the symbols |
| HuffmanCodes.CompleteIsConsistent | dep/libchdr/src/libchdr_huffman.c:512-520 | lengths with Kraft sum exactly one pass the evenness check of every length |
| HuffmanDecoder.HuffmanDecoder.CountLengths | dep/libchdr/src/libchdr_huffman.c:501-510 | counts the lengths, and fails exactly if one exceeds maxbits |
| HuffmanDecoder.HuffmanDecoder.FirstCodes | dep/libchdr/src/libchdr_huffman.c:512-520 | turns counts into first codes, and fails exactly if a count above is odd |
| HuffmanDecoder.HuffmanDecoder.HandOutCodes | dep/libchdr/src/libchdr_huffman.c:522-528 | every used symbol gets the first code of its length plus its rank |
| HuffmanDecoder.HuffmanDecoder.AssignCanonicalCodes | dep/libchdr/src/libchdr_huffman.c:496-530 | succeeds exactly on consistent lengths, and then every symbol has its canonical code |
| HuffmanDecoder.HuffmanDecoder.BuildLookupTable | dep/libchdr/src/libchdr_huffman.c:538-568 | fails exactly if the Kraft sum exceeds one; otherwise each slot holds its symbol's entry and the rest of the table is untouched |
| HuffmanDecoder.SlotInWords | dep/libchdr/src/libchdr_huffman.c:556-561 | inside the table the 32-bit slot bounds are exact and pass the bounds check |
| HuffmanDecoder.SlotAtEnd | dep/libchdr/src/libchdr_huffman.c:560-561 | with a Kraft sum above one some symbol fails the bounds check |
| HuffmanDecoder.OwnedBelowKraft | dep/libchdr/src/libchdr_huffman.c:543-565 | a table position has an owner exactly below the Kraft sum |
| HuffmanDecoder.HuffmanDecoder.DecodeOne | dep/libchdr/src/libchdr_huffman.c:162-173 | returns the symbol whose code comes next (modulo 2^11) and consumes exactly its length |
| HuffmanDecoder.CodeIsRecognised | dep/libchdr/src/libchdr_huffman.c:162-173 | a code at the front of the stream is recognised whatever follows it |
| HuffmanDecoder.DecodeInvertsEncode | dep/libchdr/src/libchdr_huffman.c:162-173 | decoding any concatenation of codes returns exactly the encoded symbols |
| HuffmanDecoder.DecodeSymbols | dep/libchdr/src/libchdr_huffman.c:162-173 | repeated calls return the encoded symbols (modulo 2^11) and consume exactly their codes |
| HuffmanImport.ReadEntry | dep/libchdr/src/libchdr_huffman.c:198-220 | one entry: a raw length, an escaped one, or a run, with its range check |
| HuffmanImport.ImportTreeRle | dep/libchdr/src/libchdr_huffman.c:181-239 | succeeds exactly if the description is valid, inside the data, consistent and not overfull; then the table decodes the described lengths |
| HuffmanExport.EntryBitsLeast | dep/libchdr/src/libchdr_huffman.c:187-193 | the fields are as wide as the longest length needs, but at least three bits, and no wider |
| HuffmanExport.ItemsRead | dep/libchdr/src/libchdr_huffman.c:196-223 | lengths written as single lengths and runs, in any way, are read back exactly, to the bit |
| HuffmanExport.ItemsAreThere | dep/libchdr/src/libchdr_huffman.c:196-223 | and only such lengths are read |
| HuffmanExport.PlainItems | dep/libchdr/src/libchdr_huffman.c:196-223 | every list of lengths can be written so |
| HuffmanExport.ImportWritten | dep/libchdr/src/libchdr_huffman.c:181-239 | any lengths whose codes fit the table, written so, are imported, and the table decodes them |
| HuffmanTree.BuildLeaves | dep/libchdr/src/libchdr_huffman.c:405-463 | sorting and merging lose and duplicate no symbol: each used symbol is exactly one leaf |
| HuffmanTree.InsertAtPlace | dep/libchdr/src/libchdr_huffman.c:454-461 | a merged tree goes behind all that weigh as much, before the first that weighs less |
| HuffmanTree.ScaledIsShare | dep/libchdr/src/libchdr_huffman.c:415-417 | a weight is the share of the total weight, rounded down, but at least one |
| HuffmanTree.TotalOfMerge | dep/libchdr/src/libchdr_huffman.c:439-463 | merging keeps every quantity that a node has as the sum of its two sides |
| HuffmanTree.PartsSumToOne | dep/libchdr/src/libchdr_huffman.c:439-463 | the leaves of any tree have Kraft sum exactly one |
| HuffmanTree.BuiltCodeIsComplete | dep/libchdr/src/libchdr_huffman.c:399-487 | for at least two used symbols the built lengths, if they fit, have Kraft sum exactly one and are consistent |
| HuffmanTree.FitsIsHeight | dep/libchdr/src/libchdr_huffman.c:465-486 | the returned maximum is at most maxbits exactly if the tree is no higher |
| HuffmanShape.BalancedIsHeavy | dep/libchdr/src/libchdr_huffman.c:439-463 | a merged tree of height h weighs at least Fib(h + 2) |
| HuffmanShape.LongCodesNeedWeight | dep/libchdr/src/libchdr_huffman.c:465-485 | with weights in 32 bits no code is longer than 45 bits, so the 8-bit length field never wraps |
| HuffmanShape.LongCodesNeedSamples | dep/libchdr/src/libchdr_huffman.c:10-64 | with the raw weights, a code of n bits needs at least Fib(n + 2) samples, for all n |
| HuffmanShape.PhasesStayFlat | dep/libchdr/src/libchdr_huffman.c:439-463 | merging n trees of nearly equal weight gives a tree no higher than the logarithm of n, rounded up |
| HuffmanShape.EqualWeightsFit | dep/libchdr/src/libchdr_huffman.c:346-347 | weight zero, where the search starts from below, fits whenever there are at most 2^maxbits used symbols |
| HuffmanShape.SomeWeightFits | dep/libchdr/src/libchdr_huffman.c:345-365 | some weight fits exactly if there are at most 2^maxbits used symbols, and then weight zero does |
| HuffmanBuild.SamePlace | dep/libchdr/src/libchdr_huffman.c:454-461 | the insertion loop on node pointers finds the place of the tree in the sorted list |
| HuffmanBuild.MergeArrays | dep/libchdr/src/libchdr_huffman.c:444-462 | one round on parent pointers, weights and the list is one round on trees |
| HuffmanBuild.StepsAreDepth | dep/libchdr/src/libchdr_huffman.c:476-478 | following parent pointers to the root takes as many steps as the leaf is deep |
| HuffmanBuild.CollectLeaves | dep/libchdr/src/libchdr_huffman.c:405-419 | the list holds one leaf per used symbol, in symbol order, with its scaled weight |
| HuffmanBuild.MergeAll | dep/libchdr/src/libchdr_huffman.c:439-463 | the node array ends up holding the tree that merging the two lightest gives, in exactly one new node for each merge |
| HuffmanBuild.MeasureCodes | dep/libchdr/src/libchdr_huffman.c:465-486 | the lengths are the depths (one for a lonely symbol, zero for an unused one) and their maximum is returned |
| HuffmanBuild.BuildTree | dep/libchdr/src/libchdr_huffman.c:399-487 | with exactly the room it needs, in-place building gives the lengths of the reference tree, and the histogram is kept |
| HuffmanBuild.NodesOfBuild | dep/libchdr/src/libchdr_huffman.c:440-450 | the tree uses the pool nodes from numcodes up to the needed number, and no others |
| HuffmanBuild.PoolSuffices | dep/libchdr/src/libchdr_huffman.c:137 | a pool holds the tree exactly if it has the needed number of nodes; one node per code is enough exactly for at most one used symbol |
| HuffmanBuild.CompareExact | dep/libchdr/src/libchdr_huffman.c:382-391 | the comparison function orders two nodes right exactly if their weights are less than 2^31 apart |
| HuffmanBuild.SortIsByCompare | dep/libchdr/src/libchdr_huffman.c:382-430 | the sorted list has heavier nodes first, and equally heavy ones by symbol |
| HuffmanBuild.FittingIsConsistent | dep/libchdr/src/libchdr_huffman.c:367-368 | lengths that fit are accepted by the code assignment, also for one symbol or none |
| HuffmanBuild.ComputeTreeFromHisto | dep/libchdr/src/libchdr_huffman.c:335-369 | the search ends, below 2^31 samples with the raw weights if they fit and otherwise with a weight whose successor does not, from there up to 3 * 2^30 with a weight below the wrapped upper bound; lengths at most maxbits, Kraft sum at most one, canonical codes assigned; it never reports an error |
| HuffmanBuild.WrappedSearchGoesOn | dep/libchdr/src/libchdr_huffman.c:346-365 | beyond 3 * 2^30 samples no round ends the search as long as every weight that is tried fits |
| HuffmanBuild.SearchRound | dep/libchdr/src/libchdr_huffman.c:348-365 | each round halves the gap between a weight that fits and one that does not, and the exit condition gives the answer |
| HuffmanOptimal.RoomForShorter | dep/libchdr/src/libchdr_huffman.c:439-463 | in a code within the space, a code longer than all others can be cut to the longest of these |
| HuffmanOptimal.EqualLast | dep/libchdr/src/libchdr_huffman.c:445-446 | any code can be changed, at no cost, so that the two lightest trees have equally long codes |
| HuffmanOptimal.MergeIsLightest | dep/libchdr/src/libchdr_huffman.c:439-463 | merging the two lightest first is best: no choice of code lengths for the trees in the list costs less |
| HuffmanOptimal.BuiltCodeIsOptimal | dep/libchdr/src/libchdr_huffman.c:399-487 | for any histogram and scale, no code lengths with Kraft sum at most one make the weighted data shorter than the built ones |
| HuffmanOptimal.RawWeightsAreOptimal | dep/libchdr/src/libchdr_huffman.c:345-365 | with the raw weights no prefix code encodes the samples of the histogram in fewer bits |
| BitReversal.BitReverse16IsRev | dep/stb/stb_image.h:4107-4114 | the four masked exchanges reverse the low 16 bits |
| BitReversal.BitReverseIsRev | dep/stb/stb_image.h:4116-4122 | the shifted form reverses any number of bits up to 16 |
| CanonicalCodes.MatchIsUnique | dep/stb/stb_image.h:4138-4149 | at most one code starts the input: the codes of section 3.2.2 of RFC 1951 are prefix-free |
| CanonicalCodes.MatchBelow | dep/stb/stb_image.h:4146-4150 | some code of at most a given length matches exactly below that length's preshifted threshold |
| CanonicalCodes.MatchOfLength | dep/stb/stb_image.h:4229-4235 | between two thresholds the matching symbol has that length, and its rank is the distance from the first code |
| CanonicalCodes.LengthRound | dep/stb/stb_image.h:4139-4149 | one round of the loop over lengths fails exactly when the code space up to there is overused |
| DeflateCodes.MatchesReversed | dep/stb/stb_image.h:4158-4164 | the input starts with a code exactly if the low buffered bits are that code reversed |
| ZlibHuffman.FastEntryMeaning | dep/stb/stb_image.h:4151-4167 | a nonzero fast entry belongs to a symbol whose code starts the index; a zero one rules all symbols out |
| ZlibHuffman.ZHuffman.BuildLengths | dep/stb/stb_image.h:4138-4150 | thresholds, first codes and symbol offsets of every length; fails exactly on oversubscribed lengths |
| ZlibHuffman.ZHuffman.PlaceSymbols | dep/stb/stb_image.h:4151-4167 | size, value and fast tables describe the canonical code of every symbol |
| ZlibHuffman.ZHuffman.Build | dep/stb/stb_image.h:4124-4169 | all tables are right, and building fails exactly if the lengths oversubscribe the code space |
| ZlibReader.ZBuf.FillBits | dep/stb/stb_image.h:4202-4212 | loads whole bytes, zero past the end; no bits ever lie above num_bits, so the early exit is never taken |
| ZlibReader.ZBuf.Receive | dep/stb/stb_image.h:4214-4222 | returns and consumes the next bits, least significant first and zero-extended |
| ZlibReader.ZBuf.Ensure16 | dep/stb/stb_image.h:4246-4262 | sixteen bits are there, or the position is past the limit of what was loaded |
| ZlibReader.ZBuf.GuardIsLimit | dep/stb/stb_image.h:4326 | the guard at the end of a block fires exactly if the position is past the limit |
| ZlibReader.FastLookup | dep/stb/stb_image.h:4263-4269 | a nonzero fast entry names the next symbol and its length; a zero one means its code is longer than nine bits or there is none |
| ZlibReader.ZBuf.DecodeSlow | dep/stb/stb_image.h:4224-4241 | returns the symbol whose code comes next and consumes its length, or -1 exactly if no code matches; neither consistency guard ever fires |
| ZlibReader.ZBuf.Decode | dep/stb/stb_image.h:4243-4271 | both paths together return the one symbol whose code starts the input and consume exactly its length; -1 only if no code matches or the position is past the limit |
| ZlibInflate.CopyRepeats | dep/stb/stb_image.h:4348-4354 | an overlapping copy keeps what was there, and each new byte equals the one dist positions before it |
| ZlibInflate.Output.Expand | dep/stb/stb_image.h:4273-4293 | makes room and preserves every byte written; refuses, with the buffer as it was, only if growing is not allowed or passes 2^31 |
| ZlibInflate.Output.Copy | dep/stb/stb_image.h:4348-4354 | the run of one byte and the byte loop both append the reference copy, for any distance |
| ZlibInflate.CopyLengthBound | dep/stb/stb_image.h:4295-4301 | the length tables give 3 to 258 |
| ZlibInflate.CopyDistanceBound | dep/stb/stb_image.h:4303-4307 | the distance tables give 1 to 32768 |
| DeflateSymbols.LengthsTile | dep/stb/stb_image.h:4295-4301 | the lengths of one symbol end where those of the next begin |
| DeflateSymbols.LengthsFromTo | dep/stb/stb_image.h:4295-4301 | they begin at 3, and symbol 285 stands for 258 alone |
| DeflateSymbols.LengthBitsRule | dep/stb/stb_image.h:4300-4301 | no extra bits for the first eight lengths, then one more every four |
| DeflateSymbols.DistancesTile | dep/stb/stb_image.h:4303-4307 | the distances of one symbol end where those of the next begin |
| DeflateSymbols.DistancesFromTo | dep/stb/stb_image.h:4303-4307 | from 1 to 32768 |
| DeflateSymbols.DistanceBitsRule | dep/stb/stb_image.h:4306-4307 | no extra bits for the first four distances, then one more every two |
| DeflateSymbols.LengthCodedOnce | dep/stb/stb_image.h:4295-4301 | each length from 3 to 257 has exactly one symbol and extra value, those of the highest bits |
| DeflateSymbols.DistanceCodedOnce | dep/stb/stb_image.h:4303-4307 | so has each distance from 1 to 32768 |
| ZlibInflate.DecodesOnce | dep/stb/stb_image.h:4309-4357 | compressed data of a block have at most one expansion |
| ZlibInflate.ParseDistance | dep/stb/stb_image.h:4339-4342 | decodes a distance symbol and its extra bits |
| ZlibInflate.ParseCopy | dep/stb/stb_image.h:4336-4354 | a length symbol, its extra bits, a distance and the copy are one step of the reference |
| ZlibInflate.ParseSymbol | dep/stb/stb_image.h:4313-4354 | one symbol is one step of the reference; at an end symbol, accepted exactly if the position is within the limit |
| ZlibInflate.ParseHuffmanBlock | dep/stb/stb_image.h:4309-4357 | a block that decodes and has room is accepted exactly if it ends within the limit, with the decoding to the byte and to the bit; refused for room only if it does not fit in the largest output buffer that could be had |
| DeflateWriter.BodyDecodes | dep/stb/stb_image.h:4309-4357 | any cut of a text into literals and copies, coded with any two codes that serve it, decodes to the text, to the bit |
| DeflateWriter.DecodedIsBody | dep/stb/stb_image.h:4309-4357 | and only that decodes: compressed data that are accepted are some cut of the text, with length 258 in either of its two codes |
| ZlibCodes.ReadLength | dep/stb/stb_image.h:4381-4401 | one code length or one repeat (symbols 16, 17, 18), with its checks |
| ZlibCodes.ReadLengths | dep/stb/stb_image.h:4379-4403 | the lengths are those that section 3.2.7 of RFC 1951 describes, for any announced number of them; failure means there are none within the limit |
| ZlibCodes.ComputeHuffmanCodes | dep/stb/stb_image.h:4359-4407 | the dynamic code description is read exactly, with up to 288 and 32 codes, and both tables are built for it; failure means there is none within the limit |
| DeflateLengths.DezigzagIsOrder | dep/stb/stb_image.h:4361 | the lengths of the code length code come as 16, 17, 18, 0, then alternately up and down from 8 |
| DeflateLengths.OrderIsPermutation | dep/stb/stb_image.h:4361 | each of them comes once |
| DeflateLengths.DescriptionReads | dep/stb/stb_image.h:4359-4407 | a description of two codes, written with any cut of the lengths into plain ones and runs, is read as these codes, to the bit |
| DeflateLengths.CodesAreDescription | dep/stb/stb_image.h:4359-4407 | and only that is read: codes that are accepted were described so |
| ZlibStream.FixedCodesComplete | dep/stb/stb_image.h:4452-4478 | the fixed codes use up the code space exactly |
| ZlibStream.BuildFixed | dep/stb/stb_image.h:4498-4500 | building the fixed tables never fails |
| ZlibStream.BlockOnce | dep/stb/stb_image.h:4489-4506 | a block has at most one meaning |
| ZlibStream.InflatesOnce | dep/stb/stb_image.h:4489-4506 | a stream has at most one expansion |
| ZlibStream.ParseUncompressedBlock | dep/stb/stb_image.h:4409-4436 | a stored block is aligned, checked and copied, part of its header from the bit buffer and part from the bytes |
| ZlibStream.ParseBlock | dep/stb/stb_image.h:4490-4505 | a block of any type has its reference meaning; type 3 is rejected |
| ZlibStream.ParseZlibHeader | dep/stb/stb_image.h:4438-4450 | accepts exactly the two-byte headers with method 8, a right check number and no dictionary, followed by something |
| ZlibStream.HeaderExact | dep/stb/stb_image.h:4438-4450 | this is what RFC 1950 asks exactly if the header is refused or names a window of at most 32768 bytes; one that names a larger window is accepted |
| ZlibStream.ParseZlib | dep/stb/stb_image.h:4481-4508 | a stream that has an expansion and room is accepted exactly if it ends within the limit, which is never below the end of the data; no accepted stream ends more than 2328 bits behind the data; refused for room only if the expansion does not fit in any buffer that could be had |
| DeflateStream.FixedLength | dep/stb/stb_image.h:4472-4475 | the fixed length of each literal and length symbol, as section 3.2.6 of RFC 1951 has it |
| DeflateStream.EveryTextCompresses | dep/stb/stb_image.h:4481-4508 | every text can be written as a stream |
| DeflateStream.HeaderIsOk | dep/stb/stb_image.h:4438-4450 | a header is accepted exactly if an encoder writes it: method 8, any window and level, no dictionary, and a check value that makes a multiple of 31 |
| DeflateStream.InflateInvertsDeflate | dep/stb/stb_image.h:4481-4508 | any cut of a text into stored, fixed and dynamic blocks, written as bits and packed into bytes, inflates to the text |
| DeflateStream.InflatesExactly | dep/stb/stb_image.h:4481-4508 | data inflate to a text exactly if they hold such a stream of blocks |
| DeflateStream.InflateDeflated | dep/stb/stb_image.h:4481-4508 | the decoder returns the text that was written so, unless there is no room for it |
| ZlibBound.SameSymbolPastEnd | dep/stb/stb_image.h:4197-4200 | past the end of the data every symbol is the same one |
| ZlibBound.EndsNearEnd | dep/stb/stb_image.h:4309-4357 | a block that ends at all ends at most 62 bits past the end of the data, or 15 bits past its start |
| ZlibBound.CodesAreNear | dep/stb/stb_image.h:4359-4407 | the description of two codes takes at most 2311 bits, wherever it lies, and gives lengths of at most 15 |
| ZlibTruncated.OneByteStream | dep/stb/stb_image.h:4481-4508 | the single byte 3 expands to nothing and ends at bit 10, past its end |
| ZlibTruncated.AcceptOneByteStream | dep/stb/stb_image.h:4481-4508 | the decoder accepts that stream |
| JpegCodes.SizeListCounts | dep/stb/stb_image.h:2007-2014 | the size list has the announced number of codes of each length |
| JpegCodes.CodesOfAnnexC | dep/stb/stb_image.h:2016-2030 | the codes start at zero, go up by one, and shift where the length grows, as Annex C of ITU-T T.81 says |
| JpegCodes.LookupIsCanonical | dep/stb/stb_image.h:2097-2146 | if the flag is free the tables agree with Annex C on every 16 bits of input |
| JpegCodes.FlagClash | dep/stb/stb_image.h:2034-2042 | otherwise symbol 255 is never decoded right |
| JpegCodes.LookupExact | dep/stb/stb_image.h:2034-2042 | for lists that are accepted, the tables are right on all 16-bit inputs exactly if there are at most 255 codes or the last one has more than nine bits |
| JpegCodes.ClashingList | dep/stb/stb_image.h:2034-2042 | 255 codes of eight bits and one of nine are accepted, and the flag is not free |
| JpegHuffman.JHuffman.AssignCodes | dep/stb/stb_image.h:2016-2031 | codes, offsets and thresholds; fails exactly on oversubscribed lengths |
| JpegHuffman.JHuffman.Build | dep/stb/stb_image.h:2003-2046 | all tables are right, and building fails exactly on more than 256 codes or oversubscribed lengths |
| JpegFastAc.FastAcAgrees | dep/stb/stb_image.h:2050-2073 | a nonzero combined entry is the run, the extended value, and the length of code and value together, of the canonical decoding |
| JpegFastAc.BuildFastAc | dep/stb/stb_image.h:2050-2073 | the loop fills the table with these entries |
| JpegReader.RotateSplits | dep/stb/stb_image.h:2161-2163 | rotating and masking splits a word into its top bits and the rest |
| JpegReader.JReader.NextByte | dep/stb/stb_image.h:2078-2087 | the next byte of the entropy-coded data without stuffing and fill bytes, or the news that a marker ends them |
| JpegReader.JReader.GrowBuffer | dep/stb/stb_image.h:2075-2091 | more than 24 bits are buffered, or all that there are |
| JpegReader.JReader.Decode | dep/stb/stb_image.h:2097-2146 | returns the value of the code the tables find and consumes its length; -1 only if there is none or it passes the end |
| JpegReader.JReader.ExtendReceive | dep/stb/stb_image.h:2153-2166 | RECEIVE and EXTEND of section F.2.2.1 in one, or zero if the bits run out |
| JpegBlock.RoundIsStep | dep/stb/stb_image.h:2231-2261 | one round, by either path, is one step of Figure F.13 |
| JpegBlock.DecodeOne | dep/stb/stb_image.h:2234-2258 | for all tables, the one-lookup path and the two-call path give the same run, value and position, those of the decoding by the tables |
| JpegBlock.DecodeAc | dep/stb/stb_image.h:2229-2262 | for all tables, a block that lies within the data is decoded to exactly its dequantized coefficients, and rejected exactly on an invalid code |
| JpegBlock.RunIsCanonical | dep/stb/stb_image.h:2229-2262 | with the flag free, the coefficients that the tables give are those of Annex C |
| JpegWriter.ZigzagWalks | dep/stb/stb_image.h:2194-2206 | the order goes along the anti-diagonals, up and down in turn |
| JpegWriter.ZigzagIsFigure | dep/stb/stb_image.h:2194-2206 | it is the permutation of Figure A.6 of ITU-T T.81 |
| JpegWriter.ZigzagEnds | dep/stb/stb_image.h:2194-2206 | it starts at 0, and positions past the end stay at 63 |
| JpegWriter.ExtendInverts | dep/stb/stb_image.h:2153-2166 | EXTEND gives back every value from its category and low bits |
| JpegWriter.BlockDecodes | dep/stb/stb_image.h:2229-2262 | the coefficients of a block, coded as section F.1.2.2 says, decode to themselves, to the bit |
| JpegWriter.CoefficientPlaced | dep/stb/stb_image.h:2244-2258 | a coefficient lands, dequantized, where Figure A.6 has its position |
| JpegWriter.PlaceKept | dep/stb/stb_image.h:2244-2258 | a place that no coefficient has keeps what it holds |
| JpegWriter.ShortIsWord | dep/stb/stb_image.h:2245-2258 | products are kept in sixteen bits, with the sign |
| JpegWriter.UnstuffInverts | dep/stb/stb_image.h:2078-2087 | taking out the stuffing gives the entropy-coded data, up to the marker |
| PngFilter.PaethIsPredictor | dep/stb/stb_image.h:4657-4668 | the branch-free form is the predictor of section 9.4 of the PNG specification |
| PngFilter.FirstRow | dep/stb/stb_image.h:4648-4655 | the first-row filters do what the general ones do under a row of zeros |
| PngFilter.UnfilterInvertsFilter | dep/stb/stb_image.h:4754-4785 | reconstruction inverts each filter, for any row, row above and pixel size |
| PngFilter.ReconstructAt | dep/stb/stb_image.h:4754-4785 | each byte is the stored one plus the prediction from the finished row |
| PngRows.OnePrediction | dep/stb/stb_image.h:4754-4785 | the predictions are exactly the numbers that the filter types ask for: zero, a neighbour, the half of a sum rounded down, the nearest neighbour |
| PngRows.LinesAgree | dep/stb/stb_image.h:4754-4785 | each byte of the image differs from the stored one by the prediction from its neighbours, zero at the edges |
| PngFilter.ImageRoundTrip | dep/stb/stb_image.h:4737-4787 | any image comes back from its scan lines, whatever filter each row used |
| PngUnfilter.UnfilterSub | dep/stb/stb_image.h:4759-4763 | Sub in place; the rest of the buffer is kept |
| PngUnfilter.UnfilterUp | dep/stb/stb_image.h:4764-4767 | Up in place |
| PngUnfilter.UnfilterAvg | dep/stb/stb_image.h:4768-4773 | Average in place |
| PngUnfilter.UnfilterPaeth | dep/stb/stb_image.h:4774-4779 | Paeth in place, with the shortcut at the left edge |
| PngUnfilter.UnfilterAvgFirst | dep/stb/stb_image.h:4780-4784 | Average without a row above |
| PngUnfilter.NextRow | dep/stb/stb_image.h:4737-4785 | the alternating halves hold the current and the previous row |
| PngUnfilter.CreateRows | dep/stb/stb_image.h:4722-4787 | fails exactly on short data or an invalid filter; otherwise each byte of each row is the stored one plus what section 9 of the PNG specification predicts |
| PngUnfilter.DecodeEncoded | dep/stb/stb_image.h:4722-4787 | what an encoder wrote, with any filters and with bytes behind, decodes to the image |
| PngInterlace.ExactlyOnce | dep/stb/stb_image.h:4873-4895 | the seven passes together write every pixel of any image exactly once, and nothing outside |
| PngInterlace.PassIsAdam7 | dep/stb/stb_image.h:4873-4876 | the pass of each pixel is that of the eight-by-eight pattern of section 8.2 of the PNG specification |
| PngInterlace.Deinterlace | dep/stb/stb_image.h:4873-4901 | every pixel of the result comes from its own place in its own pass |
| GifInterlace.RowOrderIsPermutation | dep/stb/stb_image.h:6874-6880 | both drawing orders reach each row of the frame exactly once |
| GifInterlace.RowsInOrder | dep/stb/stb_image.h:6874-6880 | interlaced rows come in four groups, every eighth, the fourth ones between, the second ones between, the odd ones, and rise within each |
| GifInterlace.EachPixelOnce | dep/stb/stb_image.h:6677-6688 | the cursor's path visits each pixel of the frame exactly once |
| GifLzw.RunStays | dep/stb/stb_image.h:6718-6773 | the outcome of decoding is unique |
| GifReference.RefEnds | dep/stb/stb_image.h:6718-6773 | decoding by Appendix F ends for all data |
| GifReference.RefDecodesOnce | dep/stb/stb_image.h:6718-6773 | and in one way only |
| GifReference.StepAgrees | dep/stb/stb_image.h:6744-6768 | one step of the decoder is one step of Appendix F, whose full table is a prefix of the decoder's, unless the decoder refuses the string |
| GifReference.OutcomeExact | dep/stb/stb_image.h:6744-6768 | the decoder fails where it refuses a string (without a first clear code, or beyond 8191 - 2^size strings since the last one), and otherwise has the outcome of Appendix F |
| GifReference.FullTableFails | dep/stb/stb_image.h:6749-6753 | a clear code and enough zeros: valid by Appendix F, and the decoder fails |
| GifWriter.LzwInverts | dep/stb/stb_image.h:6691-6774 | indices cut into words in any way, each an index or an earlier word and the index behind it, written as codes, decode by Appendix F to the indices |
| GifWriter.DecoderInverts | dep/stb/stb_image.h:6691-6774 | so do they by the decoder, if no more than 8191 - 2^size codes come between two clear codes |
| GifWriter.EveryImageCompresses | dep/stb/stb_image.h:6691-6774 | all indices can be written as codes, with clear codes as often as one likes |
| GifWriter.DeblockInverts | dep/stb/stb_image.h:6719-6727 | sub-blocks cut from data in any way are read as the data |
| GifLzw.CodeSizesExact | dep/stb/stb_image.h:6699-6766 | in every state of every run codes have just the bits that the next free code needs, up to twelve, exactly if the minimum code size is not 0 |
| GifRaster.AddEntry | dep/stb/stb_image.h:6749-6757 | a new table entry spells the last string and one more element, and keeps all other entries |
| GifRaster.LoadMore | dep/stb/stb_image.h:6719-6727 | sub-blocks are read as one sequence of bytes, up to the terminator |
| GifRaster.ReadCode | dep/stb/stb_image.h:6729-6731 | a code is the next codesize bits, least significant first |
| GifRaster.Gif.constructor | dep/stb/stb_image.h:6858-6880 | the cursor starts at the first pixel of the drawing order; with width zero nothing is drawn |
| GifRaster.Gif.NextRow | dep/stb/stb_image.h:6679-6688 | at the end of a row the cursor goes to the next row in the drawing order, skipping empty passes |
| GifRaster.Gif.EmitPixel | dep/stb/stb_image.h:6664-6688 | one index is drawn at the next pixel, unless transparent or past the frame |
| GifRaster.Gif.OutGifCode | dep/stb/stb_image.h:6654-6689 | the recursion ends, and draws exactly the string of the code |
| GifRaster.Gif.DefineEntry | dep/stb/stb_image.h:6749-6757 | also a code that names the entry being created gets the right string, from the first element just written |
| GifRaster.Gif.ObeyCode | dep/stb/stb_image.h:6733-6771 | clear, end, string and invalid codes are one step of the reference decoder |
| GifRaster.Gif.Round | dep/stb/stb_image.h:6718-6772 | one round loads a byte or is one step of the reference, with picture, cursor, table and bit buffer in step |
| GifRaster.Gif.DecodeRaster | dep/stb/stb_image.h:6691-6774 | the picture is the indices of the string dictionary drawn along the path; fails exactly if that does |
| GifRaster.Gif.ProcessRaster | dep/stb/stb_image.h:6691-6774 | for minimum code sizes 1 to 11, succeeds exactly if the data are valid by Appendix F and no string is refused, and the picture is then the indices of Appendix F drawn along the path |
| GifColors.ParseColorTable | dep/stb/stb_image.h:6597-6606 | the table holds the colours of the file, blue first, and one of them may be transparent |
| GifColors.PixelOfFile | dep/stb/stb_image.h:6667-6675 | a pixel that is drawn gets red, green and blue as the file gives them for its index; a transparent one stays |
| Wildcard.RetryIsLater | src/common/string_util.c:63-66 | giving up all stars but the last loses no match |
| Wildcard.EmptyMatch | src/common/string_util.c:70-71 | only stars match the empty rest |
| Wildcard.WildcardMatch | src/common/string_util.c:40-103 | terminates, and returns true exactly if the recursive definition of star and question mark holds, in both case modes |
| Wildcard.MatchIsCut | src/common/string_util.c:40-103 | that is: exactly if the string can be cut into one piece for each character of the mask, anything for a star, one character for the others |
| Wildcard.SameMeans | src/common/string_util.c:49-64 | only the case of the letters A to Z may differ, and only in the insensitive mode |
| Wildcard.PlainMask | src/common/string_util.c:40-103 | a mask without stars and question marks matches itself alone, or what differs from it in the case of letters |
| StringBuffer.Reserve | src/common/string_pool.c:15-22 | makes room by doubling and keeps what is there |
| StringBuffer.PoolAdd | src/common/string_pool.c:305-309 | a string stored behind everything else keeps all others, and gets an offset of its own |
| StringBuffer.ReadsBack | src/common/string_pool.c:318-327 | reading a C string gives back an added string exactly if it has no NUL inside |
| StringPool.HashFnv1a | src/common/string_pool.c:25-33 | the loop is 64-bit FNV-1a |
| StringPool.HashVectors | src/common/string_pool.c:25-33 | two published values |
| StringTable.InsertKeeps | src/common/string_pool.c:245-257 | filling the first free slot keeps every bucket reachable from its home |
| StringTable.InsertNoGrow | src/common/string_pool.c:245-257 | probing ends, and adds one bucket to a table that stays well formed |
| StringTable.Grow | src/common/string_pool.c:259-273 | rehashing keeps exactly the same buckets |
| StringTable.FreeSlot | src/common/string_pool.c:300-303 | below the load factor there is a free slot, which ends every probe |
| StringPool.StringPool.ProbeMeaning | src/common/string_pool.c:277-290 | a match is the string; a free slot before any match proves it absent |
| StringPool.StringPool.Lookup | src/common/string_pool.c:277-290 | finds a string exactly if it was added, with its offset, whatever the hashes collide on |
| StringPool.StringPool.MakeRoom | src/common/string_pool.c:300-303 | after the check one more string stays below the load factor |
| StringPool.StringPool.Add | src/common/string_pool.c:292-316 | the pool behaves as a map from strings to offsets; bytes written before never change |
| StringPool.StringPool.Clear | src/common/string_pool.c:337-344 | forgets all strings and leaves a valid pool |
| StringPool.StringPool.Get | src/common/string_pool.c:318-327 | the string at an offset; whole exactly if it has no NUL inside |
| StringPool.StringPool.GetN | src/common/string_pool.c:329-335 | any added string, by its length |
| UniquePool.CompareByParts | src/common/string_pool.c:125-127 | memcmp over the common length, then the lengths, is lexicographic order |
| UniquePool.CompareIsLexicographic | src/common/string_pool.c:125-127 | the order is that of a dictionary: the first difference decides, and a prefix comes first |
| UniquePool.CompareTransitive | src/common/string_pool.c:125-127 | this order is transitive |
| UniquePool.FoundAtPlace | src/common/string_pool.c:135-141 | in a sorted list a string can only be where the search ends |
| UniquePool.InsertSorted | src/common/string_pool.c:169-176 | inserting there keeps the list strictly sorted |
| UniquePool.UniqueStringPool.LowerBound | src/common/string_pool.c:115-143 | binary search finds the place, and the string exactly if it is there |
| UniquePool.UniqueStringPool.InsertRef | src/common/string_pool.c:169-176 | shifting by one place inserts the reference and keeps the others in order |
| UniquePool.UniqueStringPool.Add | src/common/string_pool.c:154-179 | the sorted pool behaves as the same map from strings to offsets |
| UniquePool.UniqueStringPool.Clear | src/common/string_pool.c:200-204 | forgets all strings and leaves a valid pool |
| PoolHistory.RunDisjoint | src/common/string_pool.c:305-315 | after any history the strings lie one behind the other, without overlap |
| PoolHistory.OffsetStays | src/common/string_pool.c:292-316 | between clears a string keeps its offset |
| PoolHistory.SameOffsetIffSameString | src/common/string_pool.c:292-344 | in any history, two adds without a clear between them return the same offset exactly for the same string |
| NumberText.ValueOfDigits | src/common/string_util.c:360-377 | the digits written for a number read back as that number, in every base |
| NumberText.DigitsOfTable | src/common/string_util.c:360-377 | digits are written 0 to 9 and a to z, and read in both cases |
| NumberText.NoLeadingZero | src/common/string_util.c:360-377 | only zero itself starts with a zero |
| NumberText.DigitsAreShortest | src/common/string_util.c:360-377 | no string of digits for the same number is shorter |
| NumberText.FormatUint | src/common/string_util.c:360-377 | writes these digits, and never passes the 65 characters of its buffer |
| NumberText.OverflowExact | src/common/string_util.c:194-196 | the overflow test by division is exact |
| NumberText.ParseUint | src/common/string_util.c:179-203 | reads the longest run of digits, and fails exactly if there is none or it exceeds the maximum |
| NumberText.FormatSint | src/common/string_util.c:379-388 | the sign and the magnitude, also of the smallest number |
| NumberText.ParseSint | src/common/string_util.c:205-227 | reads a signed number, and fails exactly outside the given range |
| NumberText.SignedRoundTrip | src/common/string_util.c:205-227 | a written number reads back and is consumed exactly, before any text that does not go on with a digit |
| DigestBlocks.BlocksOfConcat | src/common/sha256_digest.c:102-121 | cutting a message into blocks undoes putting blocks together |
| DigestBlocks.PadOneBlock | src/common/sha256_digest.c:127-154 | with at most 55 bytes left, the padded message has one block more |
| DigestBlocks.PadTwoBlocks | src/common/sha256_digest.c:134-154 | with more, it has two blocks more |
| DigestBlocks.CounterMeaning | src/common/md5_digest.c:129-135 | two words with a carry count the bits modulo 2^64, and tell how much of a block is filled |
| DigestBytes.DigestByte | src/common/sha256_digest.c:156-168 | the bytes of a digest: each state word with its highest byte first for SHA, with its lowest byte first for MD5 |
| DigestBytes.PaddingInBits | src/common/sha256_digest.c:123-154 | the padded message in bits, as section 5.1 of FIPS 180-4 has it: a one, the fewest zeros, the length |
| DigestBytes.PaddingOfMd5 | src/common/md5_digest.c:166-192 | the same for MD5, with the lowest byte of the length first |
| DigestBytes.Md5Start | src/common/md5_digest.c:110-113 | the initial words are the bytes of section 3.3 of RFC 1321 |
| DigestBytes.Sha1Start | src/common/sha1_digest.c:154-158 | the initial words are those of MD5 and one more of the same kind |
| DigestBytes.Sha256Start | src/common/sha256_digest.c:91-98 | the initial words are the first 32 bits behind the point of the square roots of the first eight primes |
| DigestSha256.Sha256Digest.Update | src/common/sha256_digest.c:102-121 | appends to the message, however it is cut into calls |
| DigestSha256.Sha256Digest.Final | src/common/sha256_digest.c:123-169 | the result is the fold of the compression function over the padded message of section 5.1 of FIPS 180-4 |
| DigestMd5.Md5Digest.Update | src/common/md5_digest.c:119-164 | appends the data, but their length only modulo 2^32 |
| DigestMd5.TakenIsAll | src/common/md5_digest.c:124-127 | this is all of the data exactly below 2^32 bytes |
| DigestMd5.Md5Digest.LengthField | src/common/md5_digest.c:189-191 | the two counter words are the length field of section 3.2 of RFC 1321 |
| DigestMd5.Md5Digest.Final | src/common/md5_digest.c:166-195 | the result is the fold over the padded message of sections 3.1 and 3.2 of RFC 1321 |
| DigestSha1.GuardExact | src/common/sha1_digest.c:177-188 | the 32-bit block test is right exactly if buffered bytes and data stay below 2^32 together |
| DigestSha1.CounterMask | src/common/sha1_digest.c:202 | the mask 504 takes the filled part of the block from the counter |
| DigestSha1.Sha1Digest.WholeBlocks | src/common/sha1_digest.c:181-182 | the loop over whole blocks stops at the last block boundary; its 32-bit test never wraps |
| DigestSha1.Sha1Digest.Update | src/common/sha1_digest.c:163-190 | appends to the message, if buffered bytes and data stay below 2^32 together |
| DigestSha1.Sha1Digest.PadZeros | src/common/sha1_digest.c:202-206 | the loop of one-byte updates ends with 56 bytes in the block |
| DigestSha1.Sha1Digest.Final | src/common/sha1_digest.c:192-211 | padding by updates gives the fold over the padded message of section 5.1 of FIPS 180-4 |

## Left out

Contracts that say less than the whole truth about the source:

- TaskQueue.TaskQueue.Submit: assumes fewer than 2^31 queued and 2^32 - 1 outstanding tasks; the 32-bit counters are not followed beyond.
- TaskProtocol.StepInv: the mutex may change hands between the end of a task and the next look at the queue, which the source does not allow; so every run of the source is covered, and some others too.
- TaskProtocol.QuietRunsEnd: a task's own body is one step that ends; tasks that submit are covered, each submission being a step that starts new work.
- BitStream.BitStream.Fill: the offset is unbounded; the wrap of doffset after 2^32 bytes is not modelled.
- HuffmanDecoder.HuffmanDecoder.DecodeOne: says nothing where no code starts the input; there the source returns whatever the table held before, which is uninitialised memory after the first build.
- HuffmanBuild.BuildTree: needs room for the inner nodes, weights whose sum stays below 2^32, and weights that the comparison function orders right; qsort is modelled by insertion, which gives the same order because all keys differ.
- HuffmanBuild.ComputeTreeFromHisto: needs at most 3 * 2^30 samples, and at most 2^maxbits used symbols; HuffmanShape.SomeWeightFits and HuffmanBuild.WrappedSearchGoesOn show why the search need not end otherwise.
- ZlibInflate.ParseHuffmanBlock: the limit is a count that the reader keeps, not a function of the data alone; it depends on where the last refill before the end of the data began.
- ZlibInflate.Output.Expand: allocation itself never fails; only the source's own limit, near 2^31 bytes, is modelled.
- JpegReader.JReader.Decode: a code that passes the end of the data may be rejected or decoded with zeros; within the data it is exact.
- JpegBlock.DecodeAc: a block that passes the end of the data may give anything.
- PngUnfilter.CreateRows: stops at the unfiltered bytes of each row; see below for what follows.
- PngInterlace.Deinterlace: takes the pictures of the passes as given; slicing the inflated data into passes is plumbing.
- GifRaster.Gif.ProcessRaster: counts positions in pixels where the source counts bytes; what the source skips after the end code is not followed, and bytes past the end of the file read as zero. Minimum code sizes 0 and 12, which Appendix F does not have, are compared with the string dictionary only.
- StringPool.StringPool.Add: size_t does not wrap; the two special offsets at its upper end are never reached.
- NumberText.ParseUint: the maximum is at least 35, as for all integer types of the source.
- DigestMd5.Md5Digest.Update: what is dropped beyond 2^32 bytes is stated, not prevented.
- DigestSha1.Sha1Digest.Update: nothing is stated for buffered bytes and data of 2^32 and more together, where the source's copy overruns its buffer.

Not modelled:

- PNG: expansion of packed bits, alpha insertion, 16-bit samples, palettes, chunk parsing, the size checks.
- JPEG: DC prediction, progressive scans, restart intervals, IDCT, upsampling, colour conversion, marker parsing.
- GIF: headers, the choice of the colour table, frame disposal, animation.
- libchdr: huffman_import_tree_huffman, the histogram encoder side, FLAC and LZMA.
- The compression rounds of MD5, SHA-1 and SHA-256; they are arbitrary functions of state and block.
- Base64, hexadecimal, UTF-8 and UTF-16 text, splitting and replacing, floating-point text.
- The bump_string_pool without deduplication, whose add is the tail of the two others.
- Threads as such (creation, join, affinity): only what the mutex and the condition variables promise.
- memcpy, memcmp, strlen and realloc as such: they are sequence operations here; allocation always succeeds.
- CPU, GPU, recompiler, SDL frontend, file system, settings: no part of this model.
