# Verification of the zstd entropy coders, thread pool and XXH64

A Dafny model of the entropy layer of the vendored zstd library (`libzstd/common`, `libzstd/compress`), of its
thread pool and of its streaming hash, with proofs of the properties that the code is relied on for.  The
platform is fixed: 64-bit, little-endian, 64-bit bit containers.  Words are natural numbers; wraps,
truncations and shifts of the C code are written out where values can reach them.

`dafny verify dfyconfig.toml` checks the whole project.

| file | what it holds |
|---|---|
| `Bits`, `Counting`, `Kraft`, `Results` | shifts and masks, ranks and sums, Kraft sums, error codes |
| `BitStream` | the two-ended bit stream as a stack of bits; writer and reader classes |
| `FseSpread`, `FseTable`, `FseBuild`, `FseDefault` | symbol spreading, the encoding and decoding tables, their builders, and the default table for offset codes |
| `FseCodec`, `FseDecoder`, `FseBound` | the two-state FSE stream, its round trip, and how long it gets |
| `Normalize`, `Shares` | scaling a histogram to a power of two; rounding |
| `NCount`, `NCountWriter`, `NCountWrap`, `NCountReader` | the header of normalised counts; what its reader does after the last bit |
| `HufSort`, `HufTree`, `HufOptimal`, `HufHeight`, `HufCodes`, `HufBuild` | Huffman tables from a histogram |
| `HufStream`, `HufEncoder` | the Huffman bit writer and its unrolled loops |
| `HufWeights`, `HufHeader` | the description of a Huffman table |
| `Sequences`, `SeqValues`, `SeqDecoder` | the sequence section: stream, codes and repeated offsets, decoder |
| `PoolModel`, `PoolProofs`, `Pool` | the thread pool: steps, invariants, and the class that takes the steps |
| `Xxh64`, `XxhFacts`, `XxhAnswers` | XXH64, one-shot and streaming; its steps are one to one; known hashes |
| `FormatAnswers` | small examples of the formats with all their bits |

The imperative parts are classes and methods over arrays, each proved against a function or a relation on values;
the properties are lemmas about those functions.

What the proofs found out about the code:

* `HUF_setMaxHeight` leaves open why its last loop cannot run out of symbols of full length.  `HufHeight.EnoughFull`
  is the reason: an overshoot happens only when the ranks between are empty, and then the number of full-length
  symbols is the debt plus a multiple of `2^k`, and more than the debt.
* A stream of a table that one symbol owns never ends (`FseCodec.SoleSymbolNeverEnds`), so the FSE round trip holds
  if and only if no symbol owns the table (`FseCodec.RoundTripExactly`).
* `FSE_readNCount` wraps its bit count modulo 32 when a field would start after the last byte.  `NCountWrap.WrapHeader`
  is the reader with that wrap, and the code is equal to it on every buffer.  It is the plain reader at one bit position
  whenever that does not overrun (`NCountWrap.PlainUnlessOverrun`).  When it does, the code reads on in the last four
  bytes alone, from the bit where it overran modulo 32, and accepts exactly when these, read round and round, hand out
  the cells still owed to no more symbols than are left (`NCountWrap.OverrunAccepted`).  The bytes
  `f2 c9 b2 c4 54 14 2e 82` are such a header: the plain reader ends at bit 65 of 64 with seven cells owed, and the code
  accepts 19 symbols and takes six bytes (`NCountReader.AcceptedBytes`).
* `FSE_compress_usingCTable` stops checking its bounds from `FSE_BLOCKBOUND` on, where `fse.h` promises 0 if the data
  does not fit.  The bound holds for every source when every symbol in use has at least one cell in 256, so for all
  tables of up to 256 cells.  Up to table log 10 it holds for no other table, and above for none with a symbol that is
  two cells short of that (`FseBound.BlockBoundHolds`).  At one cell in 512 or less, 64 of the symbol exceed it
  (`FseCodec.RareSymbolsOverflow`).  Between the two a long run does, because a step of eight bits leads to a cell of
  higher rank, so that there must be nine sometimes (`FseBound.Climb`).  With 7 cells of 2048 or 15 of 4096 a run of
  the symbol exceeds the bound exactly when all its cells climb (`FseBound.RunsOverflowExactly`).
* `HUF_readStats` has a workspace for twelve counts at table log 6, and refuses a packed description that asks for more,
  though its counts are valid: for instance the header bytes `01 f6 fd 0c` with thirteen (`HufHeader.ThirteenRefused`).
  So packed weights come back exactly when their counts fit (`HufHeader.PackedBack`).  What `HUF_writeCTable` keeps
  always does, because it keeps nothing shorter than two bytes and packs six weights and more with table log 5.
* `FSE_normalizeM2` cannot fail: its answer `GENERIC` for a share rounded to zero is never given, because each symbol
  left for the interpolation occurs often enough (`Normalize.FirstPassFair`, `Normalize.SecondPassFair`).
* The check `position != 0` of `FSE_buildDTable` tells wrong counters from right ones only if they do not make whole
  turns of the ordinary cells (`FseSpread.SpreadSkipping`).
* The decoder finds the offset that the encoder meant exactly when that is not zero, which the third repeated offset of
  a sequence without literals can be (`SeqValues.ResolveBack`).
* The interpolation of `FSE_normalizeM2` rounds twice, in its step and at its start.  The sum so far is never more than
  half a cell short of the exact share, but may be up to a cell beyond it (`Shares.NearPoint`).
* `FSE_optimalTableLog` subtracts two from the bits of the source; for up to four bytes this wraps, and the table is not
  made smaller at all (`Normalize.TinySource`).
* `HUF_buildTree` joins made nodes before symbols of the same count; with this rule the counts alone determine which of
  the best codes is built (`HufTree.LengthsDetermined`).
* In `FSE_normalizeM2` the test for nothing left to hand out never succeeds (`Normalize.SomeLeft`).
* The comment on `RANK_POSITION_DISTINCT_COUNT_CUTOFF` says 166; the expression is 165, and 165 is what is modelled.
* `HUF_mergeIndex1` says that it clears the second container; the code leaves it, and the next use clears it.
* The fast form of `HUF_addBits` asks for four free bits; the variant for table logs up to 6 leaves three, which is
  enough because those lengths have three bits (`HufEncoder.Variants`).

## Model

| member | source | states |
|---|---|---|
| BitStream.WrittenIsRead | libzstd/common/bitstream.h:51-76 | fields added with any spread of flushes and closed are what reads with any spread of reloads give, in reverse order, and the stream is then at its end |
| BitStream.WriteFields | libzstd/common/bitstream.h:165-242 | a whole run of the writer leaves the sealed stack of its fields, or 0 exactly when it does not fit |
| BitStream.ReadFields | libzstd/common/bitstream.h:254-452 | a whole run of the reader gives the fields as far as there are bits, on every source; the end is reported exactly when all bits were read |
| BitStream.LastInFirstOut | libzstd/common/bitstream.h:51-56 | the stack behind both: any list of bit fields comes back whole, in reverse order, with nothing left over |
| BitStream.OpenSealed | libzstd/common/bitstream.h:236-300 | opening what the writer closed gives back exactly the bits that were written: the end mark is found and removed |
| BitStream.CStream.AddBits | libzstd/common/bitstream.h:180-188 | only the low bits of the value go on the stack, and the register stays consistent with the bytes flushed |
| BitStream.CStream.FlushBitsFast | libzstd/common/bitstream.h:205-214 | the unchecked flush writes the whole bytes and loses no bit |
| BitStream.CStream.FlushBits | libzstd/common/bitstream.h:221-231 | the clamped flush keeps the same stack; once the pointer is clamped it stays so |
| BitStream.CStream.CloseCStream | libzstd/common/bitstream.h:236-242 | the result is 0 exactly when the whole bytes would reach `endPtr`, and otherwise the sealed stream |
| FormatAnswers.SealedByte | libzstd/common/bitstream.h:236-242 | three bits, four bits and the end mark make one byte, from the low end up |
| BitStream.InitDStream | libzstd/common/bitstream.h:254-300 | a source is accepted exactly when its last byte has an end mark; below eight bytes too, the unread bits are those of the stream |
| BitStream.DStream.ReadBits | libzstd/common/bitstream.h:362-367 | a read pops the stack, or overflows for good when fewer bits are left |
| BitStream.DStream.ReadBitsFast | libzstd/common/bitstream.h:371-377 | the shift pair picks the same field as the mask, for at least one bit |
| BitStream.DStream.Reload | libzstd/common/bitstream.h:412-444 | a reload changes no unread bit; "unfinished" means at least 57 readable bits, "completed" that all are read, "overflow" that too many were asked for |
| BitStream.DStream.EndOfDStream | libzstd/common/bitstream.h:449-452 | true exactly when every bit was read, and no more |
| FseSpread.VisitInjective | libzstd/common/fse.h:623 | stepping by `T/2 + T/8 + 3` visits no cell twice in `T` steps |
| FseSpread.VisitSurjective | libzstd/common/fse.h:623 | and visits every cell |
| FseSpread.SpreadUnique | libzstd/compress/fse_compress.c:115-167 | the rules of spreading leave one table, so all builders place identical symbols |
| FseSpread.SpreadCounts | libzstd/compress/fse_compress.c:115-167 | every symbol gets exactly as many cells as its counter says, and every cell a symbol |
| FseSpread.SpreadFast | libzstd/compress/fse_compress.c:116-153 | laying down eight bytes at a time and unrolling by two fills the table by the same rules, and the walk ends at position 0 |
| FseSpread.SpreadSkipping | libzstd/compress/fse_compress.c:154-167 | skipping the low-probability area terminates and fills every other cell once; for any counters it ends at position 0 exactly when they make whole turns of the ordinary cells |
| FseSpread.WholeTurns | libzstd/common/fse_decompress.c:136-146 | the walk is back at its start exactly after whole turns |
| FseTable.TablesAgree | libzstd/compress/fse_compress.c:169-173 | the encoder's states of a symbol are the decoder's cells of that symbol, in the same order |
| FseTable.BitsOut | libzstd/common/fse.h:454-461 | the one addition of `deltaNbBits` picks the shift that brings any state into `[n, 2n)` |
| FseTable.StepInverse | libzstd/common/fse.h:454-461 | for every used symbol and state, the next state decodes to the symbol, asks for as many bits as were shed, and with them gives the state back; states stay in range |
| FseTable.FirstState | libzstd/common/fse.h:443-452 | the starting state decodes to its symbol and asks for no bits only if the symbol owns the table |
| FseTable.DecodeInRange | libzstd/common/fse.h:540-549 | any bits an entry asks for lead to a state again, whatever the stream |
| FseTable.FastExactly | libzstd/common/fse_decompress.c:78-90 | fast mode is set exactly when every symbol has a cell that asks for two bits or more, that is, when none has half of the table |
| FseDefault.OffsetTable | libzstd/decompress/zstd_decompress_block.c:402-421 | for the default distribution of offset codes every decoding table that the relation allows has the 32 entries that the source lists: next state, code and bits |
| FseDefault.OffsetNormValid | libzstd/common/zstd_internal.h:157-164 | that distribution is one that the builders take |
| FseBuild.BuildCTable | libzstd/compress/fse_compress.c:68-214 | the built table satisfies the relation that all encoding lemmas use |
| FseBuild.BuildDTable | libzstd/common/fse_decompress.c:58-159 | the built table satisfies the relation that all decoding lemmas use; the three error cases are exact, wrong counters that the walk notices among them |
| FseBuild.BuildCTableRle | libzstd/compress/fse_compress.c:528-548 | the table of a single symbol is one that the encoder can use: its state stays where it is and sheds no bits |
| FseCodec.RoundTripExactly | libzstd/compress/fse_compress.c:551-608 | for every source of at least two symbols, decoding the two-state encoding gives the source if and only if no symbol owns the table |
| FseCodec.SoleSymbolNeverEnds | libzstd/common/fse_decompress.c:217-234 | when one symbol owns the table the decoder never finds the end, whatever the bits |
| FseCodec.StreamStarts | libzstd/common/fse_decompress.c:193-205 | a reader meets the state of the first symbol, then that of the second, then the bits that lead from the first to the third |
| FseCodec.ChainsName | libzstd/compress/fse_compress.c:583-604 | and so on for every symbol: the two states take turns |
| FseCodec.CState.EncodeSymbol | libzstd/common/fse.h:454-461 | the state moves and the bits are shed as the specification says |
| FseCodec.CompressUsingCTable | libzstd/compress/fse_compress.c:551-620 | 0 for at most two bytes or when the stream does not fit, exactly; otherwise the sealed encoding, unrolled by four |
| FseCodec.LengthByShare | libzstd/common/fse.h:454-461 | a stream has at most `k` bits a symbol if all symbols have one cell in `2^k`, and at least `k` if none has more |
| FseCodec.SingleCellLength | libzstd/common/fse.h:454-461 | a symbol of one cell costs exactly the table log each time |
| FseCodec.RareSymbolsOverflow | libzstd/common/fse.h:236-236 | at `FSE_BLOCKBOUND` the unchecked flushes leave the buffer for 64 and more symbols of at most one cell in 512 |
| FseBound.BlockBoundHolds | libzstd/common/fse.h:125-130 | when the bound is one: for all sources if every symbol has one cell in 256; exactly then up to table log 10, and above not if a symbol is two cells short of that |
| FseBound.ScarceBreaks | libzstd/compress/fse_compress.c:612-620 | a symbol below one cell in 256 breaks the bound, unless it is one cell short in a table of 2048 or 4096 and does not climb |
| FseBound.WhichClimb | libzstd/common/fse.h:623-623 | the spreading makes the cells of such symbols climb: wherever coding takes eight bits, the next cell has a higher rank |
| FseBound.NinthBits | libzstd/common/fse.h:454-461 | so a run of the symbol takes a ninth bit at least once in as many steps as it has cells |
| FseBound.RunsOverflowExactly | libzstd/compress/fse_compress.c:551-620 | between one cell in 512 and one in 256, runs of the symbol exceed the bound at some length exactly when its cells climb |
| FseDecoder.DecompressUsingDTable | libzstd/common/fse_decompress.c:173-236 | on every source, fast or slow, the unrolled decoder gives what the one-symbol reader gives, errors included |
| FseDecoder.StreamRoundTrip | libzstd/common/fse_decompress.c:173-236 | the bytes of a stream decode to its source if and only if no symbol owns the table |
| Normalize.NormalizeCount | libzstd/compress/fse_compress.c:465-525 | past the sanity checks it always succeeds: 0 for a single symbol, otherwise cells that add up to `2^tableLog`, a count of 0 exactly for absent symbols, and -1 only for rare symbols and only if allowed. The shares are those of the direct scaling, with all that is left or owed put on the first of the largest, if that takes less than half of it; otherwise those of the second method |
| Normalize.ScaleAll | libzstd/compress/fse_compress.c:489-507 | a rare symbol gets one cell, and every other its share rounded; `largest` is the first of the largest of these |
| Normalize.ProbaRounded | libzstd/compress/fse_compress.c:493-498 | with one division for all symbols, each share is the exact one rounded: up from 0.451, 0.481, 0.497, 0.525, 0.668, 0.715 and 0.792 on above 1 to 7 cells, and down above 8, to a thousandth of a cell |
| Shares.RoundedNear | libzstd/compress/fse_compress.c:489-500 | so with `n` cells, `(n - 1) * total <= count * 2^tableLog < (n + 2) * total` |
| Normalize.ProbaPositive | libzstd/compress/fse_compress.c:489-500 | the rounded scaling never drops a symbol above the threshold |
| Normalize.SomeCommon | libzstd/compress/fse_compress.c:484-507 | the minimum table log leaves some symbol above the threshold, so correction always has a target |
| Normalize.SomeLeft | libzstd/compress/fse_compress.c:410-413 | the second method always has a cell left to hand out |
| Normalize.NormalizeM2 | libzstd/compress/fse_compress.c:379-463 | every branch conserves the cells, terminates, and succeeds; it says which symbols get one cell in which pass, when there is a second pass, and how the cells left are handed out: to the first of the most frequent, in turns, or by interpolation |
| Normalize.InterpolatedNear | libzstd/compress/fse_compress.c:446-460 | in the interpolation `norm[s] * rest` and `count[s] * cells` differ by less than one and a half `rest` |
| Shares.NearPoint | libzstd/compress/fse_compress.c:446-460 | and the cells handed out after any number of symbols are at most half a cell too few and less than one too many |
| Normalize.WholeStep | libzstd/compress/fse_compress.c:446-460 | a symbol that occurs at least as often as a cell's share of what is left gets a cell |
| Normalize.FirstPassFair | libzstd/compress/fse_compress.c:397-413 | every symbol that the first pass leaves does, if the average is not above its limit |
| Normalize.SecondPassFair | libzstd/compress/fse_compress.c:415-426 | and every one that the coarser pass leaves |
| Normalize.ManyRare | libzstd/compress/fse_compress.c:415-426 | the coarser pass is taken only when more than a third of the cells went to rare symbols, and never with more symbols than half the table |
| Normalize.EndsExactly | libzstd/compress/fse_compress.c:446-460 | the interpolation ends exactly at the number of cells left |
| Normalize.OptimalTableLog | libzstd/compress/fse_compress.c:348-374 | the chosen table log is supported and always passes the check against the minimum |
| Normalize.WishGranted | libzstd/compress/fse_compress.c:357-369 | a wish that the source and the format support is granted |
| Normalize.ShortSource | libzstd/compress/fse_compress.c:357-369 | a source with fewer bits gets the larger of its bits, less `minus`, and the minimum |
| Normalize.TinySource | libzstd/compress/fse_compress.c:357-369 | for up to four bytes the subtraction wraps, and the default is not reduced |
| Normalize.NormalisedIsValid | libzstd/compress/fse_compress.c:465-525 | what normalisation leaves is what the table builders and the header writer ask for |
| NCount.RoundTrip | libzstd/common/entropy_common.c:42-187 | a number that starts with the header of valid counts is read back as those counts, their table log and length |
| NCount.TrailingZerosUnwritten | libzstd/compress/fse_compress.c:260-260 | zeros after the last count change nothing in the header |
| NCount.CountBack | libzstd/common/entropy_common.c:131-142 | a field of either length is recognised and gives the count back |
| FormatAnswers.Values157 | libzstd/compress/fse_compress.c:310-322 | where values up to 157 can follow, those up to 97 take seven bits and the others eight, as in the example of RFC 8878 |
| FormatAnswers.HeaderOfEight | libzstd/compress/fse_compress.c:262-333 | the header of 14, 0, 0, 0, 0, 9, -1, 8 at table log 5 is `f0 62 14 0f` |
| NCountWriter.EmitAdd | libzstd/compress/fse_compress.c:251-253 | the 32-bit accumulator never overflows |
| NCountWriter.WriteNCount | libzstd/compress/fse_compress.c:233-340 | the bytes written are the header, padded; the writer runs out of room exactly when the pairs of bytes do not fit |
| NCountReader.ReadNCount | libzstd/common/entropy_common.c:42-187 | the moving 32-bit window is the reader at one bit position with the wrap, on every buffer, errors included; what is accepted adds up |
| NCountWrap.PlainUnlessOverrun | libzstd/common/entropy_common.c:81-178 | that is the plain reader on every buffer where no count, and no piece of a run, starts after the last bit |
| NCountWrap.OverrunAccepted | libzstd/common/entropy_common.c:169-178 | otherwise it goes on in the last four bytes alone, at the overrun modulo 32, and accepts exactly when they hand out the cells still owed |
| NCountWrap.RunInPieces | libzstd/common/entropy_common.c:88-108 | reading a run twelve pairs at a time changes nothing unless the last whole piece ends with the buffer |
| NCountReader.AcceptedBytes | libzstd/common/entropy_common.c:169-178 | eight bytes in which the plain reader overruns and which are accepted, with what comes out |
| NCountReader.HeaderRoundTrip | libzstd/common/entropy_common.c:42-187 | whatever follows a header, reading it gives the same counts, table log, largest symbol and size |
| HufSort.Sort | libzstd/compress/huf_compress.c:620-665 | one node for every symbol, with its count, and the counts in falling order |
| HufSort.SimpleQuickSort | libzstd/compress/huf_compress.c:591-607 | the half-iterative quicksort orders its range and changes nothing outside |
| HufSort.SlotsApart | libzstd/compress/huf_compress.c:633-653 | no two symbols are put into the same slot of the buckets |
| HufOptimal.BestSplit | libzstd/compress/huf_compress.c:700-706 | splitting a best code for the merged weights gives a best code: merging the two lightest loses nothing |
| HufOptimal.KraftInequality | libzstd/compress/huf_compress.c:708-713 | every prefix-free set of words has lengths that the optimality is proved against |
| HufOptimal.BestAmongWords | libzstd/compress/huf_compress.c:670-680 | best lengths are best among all prefix codes written out as words |
| HufTree.BuildTree | libzstd/compress/huf_compress.c:681-718 | for sorted counts the lengths are complete, rise as counts fall, and no prefix code makes the message shorter; the longest is bounded by Fibonacci; of equally light nodes made ones are joined before symbols |
| HufTree.LengthsDetermined | libzstd/compress/huf_compress.c:700-713 | with that rule nothing but the counts decides which best lengths are built |
| HufTree.TakeLighter | libzstd/compress/huf_compress.c:701-702 | the two marks are never taken, what is taken is a lightest node, and a symbol only if it is lighter than all made nodes |
| HufTree.BestFrom | libzstd/compress/huf_compress.c:708-713 | before every merge the final depths are a best code for the nodes without a parent |
| HufTree.FullFrom | libzstd/compress/huf_compress.c:708-713 | and fill the code space exactly |
| HufTree.DeepIsHeavy | libzstd/compress/huf_compress.c:699-713 | a symbol at depth `d` takes a total count of at least Fibonacci number `d + 2` |
| HufTree.BlockDepth | libzstd/compress/huf_compress.c:378-396 | a block of 128 KB gives a tree no deeper than 24, so the height limiter's shifts stay in 32 bits |
| HufHeight.SetMaxHeight | libzstd/compress/huf_compress.c:376-498 | the lengths come back complete, in order, none above the target and the rarest symbol at it; a tree that fits is left alone; otherwise they are what cutting, repaying rank by rank at the lower price, and giving back lead to (`LimitedBy`); for any depth at which the cost fits an `int` |
| HufHeight.Pick | libzstd/compress/huf_compress.c:424-445 | what is lengthened is the last symbol of a rank that costs no more than two of the next rank, and every higher rank costs more than that; if there is none, the nearest rank in use |
| HufHeight.Repay | libzstd/compress/huf_compress.c:446-469 | one symbol gets one bit longer, the debt falls by half of its rank, and `rankLast` is set right |
| HufHeight.EnoughFull | libzstd/compress/huf_compress.c:472-493 | an overshooting repayment leaves enough symbols of full length to take it back |
| HufHeight.RepayRanks | libzstd/compress/huf_compress.c:446-469 | `rankLast` names the last symbol of every rank after every repayment |
| HufHeight.IntRange | libzstd/compress/huf_compress.c:385-396 | the running cost stays inside an `int` up to depth 31, and up to 23 above the limit |
| HufCodes.Halve | libzstd/compress/huf_compress.c:741-746 | halving never drops a set bit, and the next rank starts at the right place |
| HufCodes.CodeFits | libzstd/compress/huf_compress.c:747-750 | every word fits its length |
| HufCodes.PrefixFree | libzstd/compress/huf_compress.c:747-750 | no string starts with two words |
| HufCodes.Covered | libzstd/compress/huf_compress.c:747-750 | every string of full length starts with some word |
| HufCodes.AssignValues | libzstd/compress/huf_compress.c:749-750 | the words are those of the reference order, longer first and then by symbol |
| FormatAnswers.WordsOfSix | libzstd/compress/huf_compress.c:741-750 | lengths 1, 2, 3, none, 4, 4 get the words 1, 01, 001, 0000 and 0001, as in RFC 8878 |
| HufBuild.BuildCTableFromTree | libzstd/compress/huf_compress.c:730-753 | the table holds the canonical words of the node lengths, scattered to their symbols |
| HufBuild.BuildCTable | libzstd/compress/huf_compress.c:755-791 | from a histogram: exactly the symbols in use get words of a complete prefix code within the limit; the code is a best one whenever the unlimited one respects the limit, and otherwise what the limiter makes of that; both errors are exact |
| HufBuild.BlockManageable | libzstd/compress/huf_compress.c:681-700 | a block of 128 KB meets what the builder asks of the total |
| HufStream.RoundTrip | libzstd/compress/huf_compress.c:984-988 | a plain prefix-code reader gives back what was encoded, for every source |
| HufStream.ShiftIn | libzstd/compress/huf_compress.c:877-909 | a dirty element never reaches the bits in use while enough bits stay free |
| HufStream.HufCStream.AddBits | libzstd/compress/huf_compress.c:877-909 | either container takes the word; the second keeps a bound on its dirty bits |
| HufStream.HufCStream.MergeIndex1 | libzstd/compress/huf_compress.c:921-928 | the merged stream is the first followed by the second |
| HufStream.HufCStream.FlushBits | libzstd/compress/huf_compress.c:937-957 | the whole bytes are written, what is left is still at the top; the unchecked form is used only where it fits |
| HufStream.HufCStream.CloseCStream | libzstd/compress/huf_compress.c:973-982 | 0 exactly when the whole bytes would reach `endPtr`, otherwise the sealed stream |
| HufEncoder.Variants | libzstd/compress/huf_compress.c:1072-1114 | every unrolling that is chosen fits the 64-bit register with its dirty bits |
| HufEncoder.CompressLoop | libzstd/compress/huf_compress.c:990-1042 | groups of any unrolling, through both containers, give the one-symbol-at-a-time encoding |
| HufEncoder.Compress1X | libzstd/compress/huf_compress.c:1055-1118 | the sealed encoding for every variant; 0 exactly when it does not fit; the unchecked flush stays inside the buffer |
| HufEncoder.StreamRoundTrip | libzstd/compress/huf_compress.c:1055-1118 | a non-zero size is a stream that decodes to the source |
| HufWeights.LastWeightFound | libzstd/common/entropy_common.c:281-302 | the omitted last weight and the table log are found from the other weights of any complete code |
| FormatAnswers.WeightsOfSix | libzstd/common/entropy_common.c:270-302 | weights 4, 3, 2, 0, 1 leave 1 for the last symbol, at table log 4 |
| HufWeights.StatsFill | libzstd/common/entropy_common.c:270-302 | accepted weights fill the code space, whatever bytes they came from |
| HufHeader.PackedBack | libzstd/common/fse_decompress.c:243-290 | weights packed through FSE come back exactly when their counts fit the reader's workspace; otherwise they are refused |
| HufHeader.ReadableExactly | libzstd/common/huf.h:181-182 | that is up to 92 counts at table log 5, and up to 12 at 6 |
| HufHeader.ThirteenRefused | libzstd/common/fse_decompress.c:273-273 | four header bytes with thirteen counts, refused whatever follows |
| HufHeader.Unpack | libzstd/common/fse_decompress.c:243-290 | every answer of the unpacking, the size of the workspace included |
| HufHeader.NibblesBack | libzstd/compress/huf_compress.c:285-287 | weights written as nibbles come back |
| FormatAnswers.NibblesOfFive | libzstd/compress/huf_compress.c:285-287 | and the first of a byte is the high one: `43 20 10` |
| HufHeader.CompressWeights | libzstd/compress/huf_compress.c:146-186 | which answer is given: by how often the most frequent weight occurs, and packed whenever there is ample room; between 5 and 256 weights in a form that the reader can take |
| HufHeader.WriteCTable | libzstd/compress/huf_compress.c:248-289 | up to 128 weights and enough room always succeed, more exactly when the packed form is smaller, and each error has its cause; a successful write describes the weights of all symbols but the last, in one of the two forms |
| HufHeader.ReadStats | libzstd/common/entropy_common.c:242-306 | the weights named by the description, completed, with their counts; every error case, that of the fixed workspace too |
| HufHeader.ReadCTable | libzstd/compress/huf_compress.c:292-343 | an error, or the canonical table of a complete code |
| HufHeader.DescriptionRoundTrip | libzstd/compress/huf_compress.c:248-343 | reading a written description gives the same table: lengths, words, table log, largest symbol and size |
| Sequences.AddExtra | libzstd/compress/zstd_compress_sequences.c:345-366 | with the two conditional flushes the register never takes more than 63 bits |
| Sequences.EncodeSequences | libzstd/compress/zstd_compress_sequences.c:290-382 | the sealed reference stream for any number of sequences, or an error exactly when it does not fit; for any mixture of tables, those of a single repeated code among them |
| SeqDecoder.RoundTrip | libzstd/decompress/zstd_decompress_block.c:1229-1346 | every sequence comes back with its three codes and its extra bits, and the stream is then at its end |
| SeqDecoder.StatesFirst | libzstd/decompress/zstd_decompress_block.c:1253-1256 | a reader meets first the states of literal lengths, offsets and match lengths, and they name the codes of the first sequence |
| SeqDecoder.FieldsInOrder | libzstd/decompress/zstd_decompress_block.c:1278-1345 | then for each sequence the bits of offset, match length and literal length, and those that lead to the next literal length, match length and offset code |
| SeqDecoder.DecodeSequences | libzstd/decompress/zstd_decompress_block.c:1229-1346 | with its reload schedule the decoder gives the lengths and offsets of what the reference reader gives, on every source, and leaves its history |
| SeqDecoder.Compute | libzstd/decompress/zstd_decompress_block.c:1253-1327 | base values and raw bits make the lengths, and the history the offset; the history moves as `SeqValues.DecoderMoves` says |
| SeqDecoder.StreamRoundTrip | libzstd/compress/zstd_compress_sequences.c:290-382 | the bytes of a section decode to its sequences |
| SeqDecoder.ValuesRoundTrip | libzstd/compress/zstd_compress_sequences.c:290-382 | a decoder with the encoder's tables and history executes the lengths and offsets that were stored |
| SeqValues.LitLengthBack | libzstd/compress/zstd_compress_internal.h:584-596 | the code of a literal length and its bits give the length back, and code 0 is length 0 |
| SeqValues.MatchLengthBack | libzstd/compress/zstd_compress_internal.h:601-615 | and so for match lengths |
| SeqValues.UpdateInPlace | libzstd/compress/zstd_compress_internal.h:817-836 | the encoder's history of offsets moves as the specification says, which is what `SeqValues.HistoryMoves` says |
| SeqValues.HistoryMoves | libzstd/compress/zstd_compress_internal.h:817-836 | a new offset pushes the oldest out; a repeated one goes to the front and the others keep their order; without literals the codes 1 to 3 name the second, the third, and one less than the first |
| SeqValues.RepeatReorders | libzstd/compress/zstd_compress_internal.h:817-836 | so a repeated offset leaves the same three offsets |
| SeqValues.MeantOffset | libzstd/compress/zstd_compress_internal.h:817-836 | which offset each code means, with and without literals |
| SeqValues.DecoderMoves | libzstd/decompress/zstd_decompress_block.c:1278-1313 | the decoder's history moves in the same way, and which offset its codes mean |
| SeqValues.OffsetBack | libzstd/decompress/zstd_decompress_block.c:1278-1313 | the decoder finds the offset meant and the same history, exactly when that offset is not zero |
| SeqValues.ResolveAllBack | libzstd/decompress/zstd_decompress_block.c:1278-1313 | both histories stay the same over any number of sequences |
| PoolProofs.StepKeeps | libzstd/common/pool.c:67-310 | every step of every thread keeps the invariant |
| PoolProofs.RunSafety | libzstd/common/pool.c:67-310 | in every run no queued job is overwritten, jobs start in the order they were accepted, and each runs at most once |
| PoolProofs.JoinedMeansDone | libzstd/common/pool.c:165-178 | when all workers have left, the queue is empty and every accepted job has run exactly once |
| PoolProofs.NoLostWakeUp | libzstd/common/pool.c:74-101 | with a job queued and a thread allowed to run it, some worker is not asleep |
| PoolProofs.ShutdownProgress | libzstd/common/pool.c:74-104 | after the broadcast of the join every worker step brings the end closer |
| PoolProofs.ShutdownNotStuck | libzstd/common/pool.c:165-178 | and until all have left some worker's step is enabled |
| PoolProofs.FullExactly | libzstd/common/pool.c:261-268 | a pool with a queue is full exactly when as many jobs wait as were asked for; one without, exactly when a job waits or as many run as may |
| PoolProofs.TakesExactly | libzstd/common/pool.c:74-92 | a worker that looks takes the oldest job exactly when one waits and fewer run than may |
| PoolProofs.AddsLast | libzstd/common/pool.c:271-284 | an added job is the last of the waiting ones, unless the pool is shutting down |
| PoolProofs.NeverTooMany | libzstd/common/pool.c:67-104 | in every run no job starts while as many run as may |
| PoolProofs.ResizeLimits | libzstd/common/pool.c:215-253 | a resize sets the limit exactly if all missing threads could be started, keeps all threads, jobs and runs, and leaves nobody asleep |
| Pool.PoolCtx.ThreadCheck | libzstd/common/pool.c:74-92 | the worker takes the oldest job, sleeps, or leaves: one step of the model |
| Pool.PoolCtx.AddInternal | libzstd/common/pool.c:271-284 | one job enters the ring, or is dropped on shutdown: one step of the model |
| Pool.PoolCtx.TryAdd | libzstd/common/pool.c:299-310 | the answer is 1 exactly when there is room: fewer jobs wait than asked for, or, without a queue, none waits and fewer run than may |
| Pool.PoolCtx.Resize | libzstd/common/pool.c:215-253 | threads are added, the limit set or kept, and all sleepers woken: one step of the model |
| Xxh64.ConsumeAppend | libzstd/common/xxhash.h:3496-3501 | whole blocks can be consumed in two goes |
| Xxh64.XXH64 | libzstd/common/xxhash.h:3482-3516 | the one-shot loops compute the reference hash, which the next rows say more about |
| XxhAnswers.HashOfNothing | libzstd/common/xxhash.h:3410-3419 | the known hash of nothing |
| XxhAnswers.HashOfZeros | libzstd/common/xxhash.h:3487-3507 | of 32 zeros: one block and no rest |
| XxhAnswers.SeededHashOfZeros | libzstd/common/xxhash.h:3490-3493 | and with a seed, which enters all four lanes |
| XxhAnswers.HashOfMessage | libzstd/common/xxhash.h:3439-3462 | of the 39 bytes of "Nobody inspects the spammish repetition": a block, four bytes, and three single ones |
| XxhAnswers.HashOfEight | libzstd/common/xxhash.h:3443-3449 | of "abcdefgh": eight bytes after the last block |
| XxhAnswers.SeededHashOfEight | libzstd/common/xxhash.h:3509-3511 | and with a seed |
| XxhFacts.RoundInjective | libzstd/common/xxhash.h:3376-3399 | no round forgets the lane or the input: it is one to one in either |
| XxhFacts.MergeRoundInjective | libzstd/common/xxhash.h:3401-3407 | nor does a merge |
| XxhFacts.AvalancheInjective | libzstd/common/xxhash.h:3410-3419 | nor the last mixing |
| XxhFacts.SeedsApart | libzstd/common/xxhash.h:3482-3516 | two seeds never give an input below 32 bytes one hash |
| XxhFacts.EightApart | libzstd/common/xxhash.h:3482-3516 | and no two inputs of eight bytes have one hash |
| Xxh64.State.Update | libzstd/common/xxhash.h:3573-3620 | for every way of cutting the input the state stands for all of it; `memsize` is the length modulo 32 |
| Xxh64.State.Digest | libzstd/common/xxhash.h:3624-3641 | the digest is the one-shot hash of everything added, and changes nothing |

## Left out

- FseCodec.CompressUsingCTable: requires that the unchecked flushes stay in the buffer when the fast form is chosen (`FitsUnchecked`), because otherwise the code writes past it; `FseBound.BlockBoundHolds` says when that is so for every source.
- FseBound.BlockBoundHolds: decides nothing when the scarcest symbols have 7 cells of 2048 or 15 of 4096 and do not climb; a run of one of them then costs eight bits each, and whether a mixture costs more depends on the cells of all symbols.
- FseBuild.BuildDTable: requires counters that add up or that the walk notices, because with others the code goes on with a table that is not one; `FSE_readNCount` never delivers them (`NCountReader.Sound`).
- HufBuild.BuildCTable: how far a limited code is from the best one is not bounded; histograms with fewer than two symbols, or more than the limit has words for, are excluded, because the source does not check for them; so are totals with trees deeper than the limiter's `int` can take (`Manageable`).
- Sequences.EncodeSequences: 32-bit flushes are not modelled.
- SeqDecoder.DecodeSequences: the execution of sequences, the copying of literals and matches, is not modelled.
- Pool.PoolCtx.Add: liveness of threads that wait to push a job or to join jobs is not claimed, because both wait on one condition variable.
- C structs in arrays are one array per field; read-only sources and pieces of a destination buffer that functions receive by pointer are values, joined afterwards.
- Casts to `U16`, `short` and `BYTE` fields that only ever hold smaller values are not written out.
- Workspaces and their alignment, and the size checks that do not depend on the input: allocation only.
- `FSE_NCountWriteBound` and the writer that trusts it: the checked writer is modelled.
- 32-bit, big-endian and bmi2 variants, de Bruijn bit scans, prefetching: the same functions by other means.
- `deltaNbBits` of absent symbols: used for cost estimates.
- Four-stream Huffman blocks and their jump table, literal headers, histograms of literals, `HUF_optimalTableLog`: composition around the modelled functions.
- Huffman decoding tables: decoding is specified by a plain prefix-code reader.
- Match finders, block splitting, frames, dictionaries and streaming contexts: outside the entropy layer.
- XXH32 and XXH3: XXH32 is the same machine with other constants, XXH3 is disabled in this build.
- Thread creation failures other than in a resize, `POOL_sizeof`, memory management: plumbing.
