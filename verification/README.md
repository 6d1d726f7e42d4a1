# Proofs beside myPS2

A Dafny model of the parts of the myPS2 repository that hold its hardest logic, with proofs of what they
promise.  `dafny verify dfyconfig.toml` checks all of it.

**JPEG compression** (`lib/libjpg`).  The Huffman entropy coder of ITU-T T.81: the bit accumulator with byte
stuffing (`BitWriter`, `Stuffing`), canonical code tables (`DerivedTable`), blocks and whole scans with restart
intervals together with the decoder of section F.2.2 as reference (`BlockCode`, `BlockCoder`, `ScanModel`,
`ScanIntervals`, `HuffEncoder`), the generation of optimal tables (`HuffmanCost`, `MergeTree`, `LengthLimit`,
`OptimalTable`, `TableOrder`, `DeepestCode`) and the statistics pass, with what it saves (`GatherPass`,
`CountBound`, `TwoPass`, `ScanCost`).  Around it the coefficient
controller with its two paths (`McuGeometry`, `CoefBuffer`, `CoefController`), whole scans of one or two passes
(`Compression`, `OptimizedScan`), the way of scanlines to whole iMCU rows (`RowModel`, `RowFeeder`) and both
together (`ScanlineScan`).

**Smooth bitmap scaler** (`src/imgscale.c`).  Weights as overlaps (`ScaleWeights`, `ScaleAxis`), one filter
that both directions refine (`BitmapFilter`), and the code (`BitmapShrink`, `BitmapEnlarge`, `BitmapScaler`).

**Video memory** (`lib/gsLib/gsCore.c`).  First fit on a sequence of blocks (`VramMap`) and the doubly linked
list that implements it (`VramAllocator`).

**Streaming radio** (`src/mp3.c`).  The ICY demultiplexer (`IcyDemux`), the buffer between the two threads
(`StreamFifo`) and the noise-shaping dither (`Dither`).

**FTP server** (`irx/ps2ftpd`).  A client's states (`FtpSession`) and the server's circular list (`FtpServer`).

**Configuration file** (`src/sysconf.c`).  The text (`ConfigText`) and the list (`SysConf`).

Methods change arrays and object fields as the C code does; each is tied to a specification function, and the
lemmas are about those functions.  ERREXIT is an outcome or a result; system calls, the forward DCT, the
colour conversion and downsampling of a row group, and the decisions of a destination or compressor to refuse
are parameters.  Where a claim turns out to hold only under a condition, the condition is proved to be exact
and a failing input is given: `CoefficientsComplete` with `LongLineFails`, `GenOptimalTable` and `SizesOptimal`
with `TwoRootsLeft`, `OneTooFrequent`, `EqualCountsWrap` and `FibonacciOverlong`, `StepTracks` and `RunTracks` with
`OverlapAfterHeadFreed` and `EmptyAtBottom`, `RoundedEnough`, `StepAgrees` with `UploadBroken`, `SurvivesReload`
with `EmptiedPath`.  `Bits`, `Answers`, `DistinctSeq` and `Wrappers` hold what several models share.

Where code and comments disagree the model follows the code.  `imgscale.c` says that both sides should be larger
or both smaller, but equal sides are accepted.  "Just write out all pairs" in `sysconf.c` leaves out those with
an empty value.  `jchuff.c` says that symbol 256 comes last among the longest codes; nothing here rests on that,
only the length counts matter.

## Model

| member | source | states |
|---|---|---|
| BitWriter.Destination.EmptyOutputBuffer | lib/libjpg/jchuff.c:279-290 | either takes the whole buffer or refuses and changes nothing; the refusing destination of output suspension |
| BitWriter.WorkingState.DumpBuffer | lib/libjpg/jchuff.c:279-290 | a refusal leaves the destination as it was; an acceptance keeps the stream and gives room |
| BitWriter.WorkingState.EmitByte | lib/libjpg/jchuff.c:272-277 | adds exactly one byte to the stream, or is refused only when that byte fills the last of a refusing buffer |
| BitWriter.MergeBits | lib/libjpg/jchuff.c:311-321 | mask, shift and or on the low 24 bits of the accumulator append exactly the bits of the code to the pending bits |
| BitWriter.WorkingState.EmitWholeBytes | lib/libjpg/jchuff.c:323-334 | the whole bytes at the front of the accumulator go out, each 0xFF followed by a stuffed zero; at most seven bits stay |
| BitWriter.WorkingState.EmitBits | lib/libjpg/jchuff.c:303-338 | the stream grows by the packed form of pending bits and code, the accumulator holds what is left over, a size of zero is JERR_HUFF_MISSING_CODE, and it suspends only without room |
| BitWriter.WorkingState.Put | lib/libjpg/jchuff.c:303-338 | one symbol of an MCU takes it one step nearer to a fixed final stream and amount of spare room |
| Stuffing.PackConcat | lib/libjpg/jchuff.c:323-334 | packing bits piecewise, carrying what does not fill a byte, gives the same bytes as packing them at once |
| Stuffing.UnstuffPack | lib/libjpg/jchuff.c:327-331 | removing stuffed zeros from the packed bytes gives back the bits, up to the last whole byte, and stops at the next marker |
| Stuffing.PackedAndPending | lib/libjpg/jchuff.c:323-334 | what has been packed, read back, followed by the pending bits is exactly the bits given: none is lost, repeated or moved |
| Stuffing.NoMarkerInData | lib/libjpg/jchuff.c:327-331 | every data byte 0xFF is followed by 0x00 |
| Stuffing.PackLength | lib/libjpg/jchuff.c:327-331 | packing takes a byte for each eight bits, and one more for each eight that are all ones |
| Stuffing.SevenOnesPad | lib/libjpg/jchuff.c:341-350 | seven one bits, cut to whole bytes, are exactly the ones that fill the last byte, and nothing when it is already full |
| HuffEncoder.FlushBits | lib/libjpg/jchuff.c:341-350 | writes the pending bits filled with ones to a byte boundary, and clears the accumulator |
| DerivedTable.ListSizes | lib/libjpg/jchuff.c:212-221 | lists the code length of every symbol in order of length, or reports more than 256 of them |
| DerivedTable.ListCodes | lib/libjpg/jchuff.c:223-241 | assigns the canonical codes of Annex C, and refuses exactly the length counts whose codes do not fit their lengths |
| DerivedTable.FillTable | lib/libjpg/jchuff.c:243-265 | stores code and length by symbol, refusing a symbol out of range or listed twice |
| DerivedTable.MakeDerived | lib/libjpg/jchuff.c:180-266 | accepts exactly the acceptable tables, and derives the canonical code of every listed symbol and no other |
| DerivedTable.FitsIffKraftBelowOne | lib/libjpg/jchuff.c:229-241 | the codes of every length fit, all ones being kept free, if and only if the Kraft sum is below one |
| DerivedTable.AcceptedTables | lib/libjpg/jchuff.c:212-262 | in numbers: a table is accepted if and only if its 16 counts add up to at most 256, weighted with 2^15 down to 1 to less than 65536, and the symbols are different and at most 15 for DC tables, 255 for AC tables |
| DerivedTable.CodesConsecutive | lib/libjpg/jchuff.c:229-241 | the first code is zero; each further one is one more than the code before, shifted up by the difference of their lengths |
| DerivedTable.AsManyOfEach | lib/libjpg/jchuff.c:212-221 | a position has a code of length l exactly if it lies among the counts of that length |
| DerivedTable.DecodeCode | lib/libjpg/jchuff.c:256-265 | the reference decoder reads the code of a symbol, followed by anything, as that symbol |
| DerivedTable.PrefixFree | lib/libjpg/jchuff.c:223-265 | no code of a derived table begins another |
| DerivedTable.NeverAllOnes | lib/libjpg/jchuff.c:229-241 | no code consists of ones only |
| BlockCode.OrdersInverse | lib/libjpg/jutils.c:53-64 | the zigzag order is a permutation of the 64 coefficients, given with its inverse |
| BlockCode.CodedInDiagonals | lib/libjpg/jutils.c:53-64 | the order is the walk of figure A.6, stated without the tables: coefficient (r, c) is coded at place d(d+1)/2 + (r if d = r + c is odd, else c) in the upper left half, and the lower right half mirrors it |
| BlockCode.RawBitsDecode | lib/libjpg/jchuff.c:363-373 | the extra bits of a value, a negative one having been decreased by one, are read back as that value by EXTEND of section F.2.2.1 |
| BlockCode.RawBitsValue | lib/libjpg/jchuff.c:363-389 | the raw bits as a number: a positive value itself, a negative one plus 2^n - 1, n being the bits of its magnitude |
| BlockCode.RangeOfValues | lib/libjpg/jchuff.c:379-384 | the range check in values: DC differences up to 2047 and AC coefficients up to 1023 in magnitude, and no others, can be coded |
| BlockCode.BlockRoundTrip | lib/libjpg/jchuff.c:355-445 | for every block in range and tables that cover its symbols, the bits decode to exactly the block, zero runs over 15, missing EOB and negative values included, leaving what follows unread |
| BlockCode.NoWaste | lib/libjpg/jchuff.c:395-442 | EOB comes once, at the end, exactly if the last coefficient is zero; otherwise the last symbol is that of a coefficient, so no ZRL is wasted |
| BlockCode.LegalTablesReadable | lib/libjpg/jchuff.c:180-266 | codes derived from acceptable tables can be read by the reference decoder |
| BlockCoder.CountBits | lib/libjpg/jchuff.c:373-378 | the loop finds the number of bits of a magnitude |
| BlockCoder.EmitToken | lib/libjpg/jchuff.c:385-393 | symbol code and raw bits of one token |
| BlockCoder.EncodeDc | lib/libjpg/jchuff.c:363-393 | the DC difference of a block, or the range error |
| BlockCoder.EncodeZeroRuns | lib/libjpg/jchuff.c:403-408 | one ZRL for every sixteen zeros of the run, and the rest of the run is left |
| BlockCoder.EncodeCoefficient | lib/libjpg/jchuff.c:402-434 | run, size and raw bits of a coefficient; fails exactly if it is out of range or a code is missing |
| BlockCoder.EncodeAc | lib/libjpg/jchuff.c:395-442 | the tokens of all 63 AC coefficients in zigzag order, EOB only after trailing zeros |
| BlockCoder.EncodeOneBlock | lib/libjpg/jchuff.c:354-445 | exactly the bits of the block are added; it fails with JERR_BAD_DCT_COEF only for a coefficient out of range, with JERR_HUFF_MISSING_CODE only for a symbol without a code, and not otherwise; it suspends only without room |
| BlockCoder.HtestOneBlock | lib/libjpg/jchuff.c:573-638 | each symbol is counted as often as the coding pass emits it for the same block; fails exactly for blocks out of range |
| BlockCoder.TallyBlock | lib/libjpg/jchuff.c:573-638 | the symbols counted for a block are the DC symbol and the AC symbols of the same token sequence that is coded |
| ScanModel.McuRoundTrip | lib/libjpg/jchuff.c:496-513 | the bits of an MCU decode to its blocks, with DC predictions carried per component |
| ScanModel.EncodableIff | lib/libjpg/jchuff.c:478-527 | an MCU can be coded if and only if its coefficients are in range and all its symbols have codes |
| ScanIntervals.LastOfComponent | lib/libjpg/jchuff.c:496-513 | the prediction of a block is the DC coefficient of the last earlier block of its component, in its MCU or the one before; zero if there is none in the interval |
| ScanIntervals.IntervalsInTurn | lib/libjpg/jchuff.c:452-527 | the data of a scan is cut every restart interval: the blocks of that many MCUs, predicted afresh and padded to whole bytes, then 0xFF and 0xD0 plus the number of the interval modulo 8, and so on; without an interval it is all one |
| ScanModel.ScanRoundTrip | lib/libjpg/jchuff.c:478-557 | for every MCU sequence that can be encoded and every restart interval, the bytes of the scan decode to the MCUs |
| HuffEncoder.EmitRestart | lib/libjpg/jchuff.c:452-470 | flush, marker 0xFF 0xD0+n, predictions cleared |
| HuffEncoder.EncodeBlocks | lib/libjpg/jchuff.c:496-513 | the blocks of an MCU in turn, each with the prediction of its component |
| HuffEncoder.Encoder.EncodeMcu | lib/libjpg/jchuff.c:477-527 | done: exactly the bytes of this MCU are added and the state moves on; not done: saved bits, predictions, restart counters and a refusing destination are unchanged; a failure names its cause, and an encodable MCU is refused only by a destination without room for all of it |
| HuffEncoder.Encoder.Commit | lib/libjpg/jchuff.c:509-524 | output position and working state are kept, restart counters stepped modulo 8 |
| HuffEncoder.Encoder.FinishPass | lib/libjpg/jchuff.c:534-557 | adds the padding of the last byte; a refusal here is JERR_CANT_SUSPEND |
| HuffEncoder.EncodableExtend | lib/libjpg/jchuff.c:478-527 | a run of MCUs can be extended by exactly the MCUs the encoder accepts next |
| HuffEncoder.RunIsScan | lib/libjpg/jchuff.c:478-557 | MCUs written one after the other, and the final padding, are the scan laid out restart interval by restart interval |
| HuffmanCost.MergeStep | lib/libjpg/jchuff.c:731-778 | any feasible code lengths can be changed, at no more cost, so that the two lightest weights are siblings, and then reduced to lengths for the merged weights |
| HuffmanCost.SelectTwo | lib/libjpg/jchuff.c:731-755 | the two searches find the two lightest counts, both within the search limit, so that a merged count fits 32 bits; or all counts but one are above the limit |
| HuffmanCost.MergeCostLeast | lib/libjpg/jchuff.c:731-778 | no feasible code lengths cost less than merging the two lightest weights again and again, for any counts |
| HuffmanCost.LightEnough | lib/libjpg/jchuff.c:731-755 | a total within the search limit merges into one tree |
| HuffmanCost.OneTreeTotal | lib/libjpg/jchuff.c:731-755 | a total above twice the limit does not |
| HuffmanCost.HeavyStays | lib/libjpg/jchuff.c:731-755 | a count above the limit is never merged |
| HuffmanCost.KraftInequality | lib/libjpg/jchuff.c:721-778 | the code lengths of any prefix code are feasible |
| HuffmanCost.NoPrefixCodeCheaper | lib/libjpg/jchuff.c:721-778 | no prefix code for the used symbols is cheaper than the merging procedure, for any counts |
| MergeTree.FindSmallest | lib/libjpg/jchuff.c:734-755 | the last of the least nonzero counts not above the search limit, or -1 |
| MergeTree.BumpChain | lib/libjpg/jchuff.c:760-776 | every symbol threaded from a root gets one bit longer, and the end of the thread is found |
| MergeTree.LinkChains | lib/libjpg/jchuff.c:760-776 | the two threads become one, and each depth in them grows by one |
| MergeTree.JoinThreaded | lib/libjpg/jchuff.c:756-776 | linking keeps the threads of the roots acyclic and a partition of the used symbols |
| MergeTree.JoinCoded | lib/libjpg/jchuff.c:756-776 | merging puts one bit in front of the code of every symbol of both trees: code sizes stay code lengths, and no two codes of one tree begin one another |
| MergeTree.JoinSlender | lib/libjpg/jchuff.c:734-776 | a symbol at depth d stands in a tree counted at least as often as the Fibonacci number F(d+2), and no other tree is lighter than F(d+1) |
| MergeTree.MergeAll | lib/libjpg/jchuff.c:721-778 | for any counts the loops end with the roots and the code sizes of the merging procedure |
| MergeTree.SizesCost | lib/libjpg/jchuff.c:721-778 | the code sizes cost exactly what merging costs |
| MergeTree.RootsKraft | lib/libjpg/jchuff.c:721-778 | their Kraft sum is the number of roots left |
| MergeTree.SizesOptimal | lib/libjpg/jchuff.c:721-778 | for any counts: the code sizes are the lengths of a prefix code if and only if a single root is left, and then no prefix code has a smaller sum of count times length |
| MergeTree.ShortEnough | lib/libjpg/jchuff.c:785-786 | with a total count below 9227465, the reserved symbol included, no code is longer than 32 bits |
| LengthLimit.CountLengths | lib/libjpg/jchuff.c:780-790 | the number of codes of each length as far as a byte can hold it; fails exactly if one is longer than 32 |
| LengthLimit.TallyRight | lib/libjpg/jchuff.c:780-790 | if no byte wraps, the length counts have the number of the codes and their Kraft sum |
| LengthLimit.WholeKraft | lib/libjpg/jchuff.c:721-790 | the Kraft sum of the sizes is the number of roots left less those that were never merged, a whole number |
| LengthLimit.LongestPaired | lib/libjpg/jchuff.c:803-812 | the number of codes of the longest length is even, so subtracting two never underflows |
| LengthLimit.DonorExists | lib/libjpg/jchuff.c:805-807 | a shorter length to take a code from exists: the search ends at a length of at least one |
| LengthLimit.AdjustKeeps | lib/libjpg/jchuff.c:809-812 | one adjustment keeps the Kraft sum and the number of symbols, up to 257, and no count leaves the range of a byte |
| LengthLimit.Adjust | lib/libjpg/jchuff.c:805-812 | one such step: the donor is the longest nonempty length at least two shorter, and the four counts named in the figure change as it says, no other |
| LengthLimit.LimitLengths | lib/libjpg/jchuff.c:803-814 | ends with no code above 16 bits by steps of figure K.3 only: each takes two codes off the longest length, gives one to the length below, and splits a code of the longest shorter length in use into two of the next; Kraft sum and number of symbols stay, and nothing changes if no code was too long |
| LengthLimit.DropReserved | lib/libjpg/jchuff.c:816-819 | one code of the longest length in use is removed; or there is none, and the search runs below bits[0] |
| OptimalTable.ListSymbols | lib/libjpg/jchuff.c:824-835 | lists each used symbol once, by increasing code size and then by value |
| OptimalTable.TableAcceptable | lib/libjpg/jchuff.c:821-840 | length counts of Kraft sum one less the reserved code, with the listed symbols, make an acceptable table that covers every counted symbol |
| OptimalTable.Wrapped | lib/libjpg/jchuff.c:781-790 | if 256 codes share a length, what else there is can only be one code of one bit |
| OptimalTable.GenOptimalTable | lib/libjpg/jchuff.c:706-840 | for any counts: the table is acceptable and covers exactly the symbols counted if and only if some symbol is counted, one tree is left, no code size exceeds 32 bits and no 256 codes share a length; the symbols are in order of code size, the length counts are those figure K.3 makes of the code sizes, less one code of the longest length, and the sizes themselves if none exceeds 16; JERR_HUFF_CLEN_OVERFLOW comes exactly for a size above 32; the search runs below bits[0] exactly if no byte counts a code |
| TableOrder.ShorterFirst | lib/libjpg/jchuff.c:824-835 | of two counted symbols, the one with the smaller code size never has the longer code in the table, limited or not |
| TableOrder.FrequentHigher | lib/libjpg/jchuff.c:731-778 | and a symbol counted more often never has the larger code size |
| TableOrder.NoLonger | lib/libjpg/jchuff.c:816-835 | while no size exceeds 16, no symbol has a longer code in the table than its code size |
| TableOrder.TableEconomical | lib/libjpg/jchuff.c:706-840 | so the codes of the table, used as often as counted, take no more bits than those of any prefix code for the counts and the reserved symbol |
| OptimalTable.OverlongIsHeavy | lib/libjpg/jchuff.c:785-786 | JERR_HUFF_CLEN_OVERFLOW takes at least 9227464 counted symbols |
| OptimalTable.TotalBounds | lib/libjpg/jchuff.c:731-755 | one tree is left for every total below 10^9, and for none from 2 * 10^9 on |
| OptimalTable.FewSymbols | lib/libjpg/jchuff.c:781-790 | with at most 254 symbols no 256 codes share a length |
| OptimalTable.TooFrequent | lib/libjpg/jchuff.c:731-755 | a symbol counted more than 10^9 times gets no code |
| OptimalTable.AtTheLimit | lib/libjpg/jchuff.c:731-755 | a count of exactly 10^9 still gets its code |
| OptimalTable.TwoRootsLeft | lib/libjpg/jchuff.c:731-778 | counts of 1000000001 and 5: two roots are left, the first symbol has no code and the second has one bit |
| OptimalTable.OneTooFrequent | lib/libjpg/jchuff.c:817-819 | a count of 1000000001 alone: no symbol gets a code, and the search for the longest length in use runs below bits[0] |
| OptimalTable.EqualCountsWrap | lib/libjpg/jchuff.c:781-819 | 255 symbols counted once each and the reserved one all get eight bits, which no byte can count, and the same search fails |
| DeepestCode.FibonacciDepth | lib/libjpg/jchuff.c:731-776 | counts F(1) to F(n) on the symbols from 255 down put the reserved symbol at depth n, for every n within the limit |
| DeepestCode.FibonacciOverlong | lib/libjpg/jchuff.c:785-786 | with n = 33 they reach JERR_HUFF_CLEN_OVERFLOW, with a total of 9227464, the least that can |
| GatherPass.ScanPossible | lib/libjpg/jchuff.c:573-638 | only 12 DC and 162 AC symbols can ever be counted, so the sequential coder keeps within 254 |
| GatherPass.Gatherer.EncodeMcu | lib/libjpg/jchuff.c:646-675 | the counts grow by what this MCU would emit; restart counters and predictions move as in the coding pass |
| GatherPass.Gather | lib/libjpg/jchuff.c:646-675 | over any MCU sequence and restart interval the counts equal the number of times the coding pass emits each symbol |
| GatherPass.EncodableIfCounted | lib/libjpg/jchuff.c:574-675 | every MCU can be encoded with tables that have a code for each symbol counted |
| GatherPass.BuildTable | lib/libjpg/jchuff.c:846-882 | the table generated from a count array is accepted, has a code for every counted symbol, the short ones where they are needed, and can be read back; it fails if and only if some code size exceeds 32 bits |
| CountBound.ScanBound | lib/libjpg/jchuff.c:573-675 | a scan counts at most 64 symbols of a table for each of its blocks |
| TwoPass.NoMissingCode | lib/libjpg/jchuff.c:478-527 | coding with the generated tables never reaches JERR_HUFF_MISSING_CODE |
| TwoPass.FewBlocks | lib/libjpg/jchuff.c:573-840 | no table of a scan of up to 144179 blocks can need a code of more than 32 bits |
| TwoPass.TablesFrom | lib/libjpg/jchuff.c:846-882 | the tables of a scan in range let every MCU be coded, each in the fewest code bits; they fail if and only if one of them has a code size above 32, which a scan of up to 144179 blocks does not |
| TwoPass.OptimizeScan | lib/libjpg/jchuff.c:646-882 | both passes: a coefficient out of range is reported exactly when there is one, otherwise a code over 32 bits exactly when a table needs one, never up to 144179 blocks; in all other cases the scan can be coded, each table taking the fewest code bits, and decodes to its MCUs |
| ScanCost.ScanTakes | lib/libjpg/jchuff.c:478-675 | the data of a scan under any tables: the raw bits of its coefficients, and for each symbol counted in the statistics pass the length of its code |
| ScanCost.DataInIntervals | lib/libjpg/jchuff.c:452-527 | these are the bits of the restart intervals one after the other, before padding |
| ScanCost.NoTablesShorter | lib/libjpg/jchuff.c:646-882 | what optimisation is for: unless a length had to be limited, no acceptable tables under which the scan can be coded make its data more than 16 bits shorter for each table in use |
| McuGeometry.RealRow | lib/libjpg/jcmaster.c:334-377 | a block row exists exactly if it is not in the last iMCU row or is below last_row_height |
| McuGeometry.RealCol | lib/libjpg/jcmaster.c:334-377 | a block column of an MCU exists exactly if it is below the column count the controller uses |
| McuGeometry.CeilTwice | lib/libjpg/jcmaster.c:100-106 | a size rounded up to blocks of a component and then to its MCUs is the size rounded up to MCUs at once |
| McuGeometry.SetUpValid | lib/libjpg/jcmaster.c:79-123 | the block and MCU numbers computed from image size and sampling factors: each component is a whole number of MCUs after padding, and as many as any other |
| McuGeometry.SetUpInPixels | lib/libjpg/jcmaster.c:100-123 | the same numbers in pixels: a component has just enough blocks for its share of eight times the greatest sampling factor, in both directions, and so have iMCU rows and MCU columns |
| McuGeometry.RightOfEdge | lib/libjpg/jccoefct.c:282-295 | a block beyond the right edge has the DC coefficient of the last real block of its row, and no other |
| McuGeometry.BelowEdge | lib/libjpg/jccoefct.c:301-320 | a block below the image has that of the last block of its MCU in the last real row |
| McuGeometry.DummiesAreFree | lib/libjpg/jccoefct.c:282-320 | each dummy block follows a block of its component in the same MCU and codes as a zero difference and EOB, the least a block can cost |
| McuGeometry.BlockInMcu | lib/libjpg/jcmaster.c:334-377 | an MCU holds the blocks of the components one after the other, each row by row |
| McuGeometry.InterleavedOrder | lib/libjpg/jccoefct.c:142-200 | the MCUs of an interleaved scan come row by row |
| McuGeometry.EveryBlockOnce | lib/libjpg/jccoefct.c:142-200 | every real block is in exactly one place of exactly one of them |
| McuGeometry.SingleOrder | lib/libjpg/jccoefct.c:142-200 | a scan of one component is its real blocks row by row, and no others |
| CoefController.MembershipAt | lib/libjpg/jcmaster.c:331-378 | MCU_membership has each component in turn as often as it has blocks in an MCU |
| CoefBuffer.FillRealRow | lib/libjpg/jccoefct.c:175-188 | a row of an MCU: real blocks, then dummy blocks with the DC value of the last real one |
| CoefBuffer.FillDummyRow | lib/libjpg/jccoefct.c:189-196 | a row below the image: dummy blocks with the DC value of the last block of the row above |
| CoefBuffer.FillMcu | lib/libjpg/jccoefct.c:167-200 | the block buffer holds exactly the MCU of the padded image |
| CoefBuffer.ImageRealRow | lib/libjpg/jccoefct.c:271-295 | a block row of a component, filled up to whole MCUs |
| CoefBuffer.ImageDummyRow | lib/libjpg/jccoefct.c:301-320 | a dummy block row, MCU by MCU, from the row above |
| CoefBuffer.FirstPassComponent | lib/libjpg/jccoefct.c:258-320 | loads the strip of one iMCU row of the padded image and leaves earlier strips alone |
| CoefController.Controller.StartIMCURow | lib/libjpg/jccoefct.c:71-92 | MCU rows of the coming iMCU row: one if interleaved, otherwise the component's rows or what the last has |
| CoefController.Controller.McuFromImage | lib/libjpg/jccoefct.c:368-379 | the blocks collected from the arrays are the MCU of the padded image |
| CoefController.Submit | lib/libjpg/jccoefct.c:201-209 | an MCU is written after all the others or, refused, nothing has changed and there was no room for it |
| CoefController.Controller.WriteIMCURow | lib/libjpg/jccoefct.c:143-218 | from any position in an iMCU row: finishes it, or stops at a later or the same MCU with exactly the MCUs before it written and no room for the next |
| CoefController.Controller.CompressData | lib/libjpg/jccoefct.c:142-218 | each call keeps: the MCUs written are those before the position, each once, in row-major order |
| CoefController.Controller.CompressOutput | lib/libjpg/jccoefct.c:340-395 | the same for a pass over the stored image |
| CoefController.Controller.CompressFirstPass | lib/libjpg/jccoefct.c:244-327 | loads the strip, again if the call before was suspended, and writes the same MCUs as the single-pass path |
| Compression.CompressCall | lib/libjpg/jccoefct.c:142-218 | one call: a suspension has written at least one MCU, or the destination had no more room than the next MCU takes |
| Compression.CompressPass | lib/libjpg/jccoefct.c:142-218 | over any sequence of supplies and refusals the MCUs of the image are written each exactly once and in order; when the supplies run out, exactly those before the position have been; it does not stop short if nothing is refused, or if every call has more room than any one MCU takes and there are as many calls as MCUs |
| Compression.CompressScan | lib/libjpg/jccoefct.c:142-395 | a completed scan could be encoded and is the same bytes for every pattern of suspensions and for both kinds of buffering, and decodes to the image's MCUs; a suspended one is the bytes of the MCUs before some place; an encodable one completes with nothing refused, and also with refusals if each call has more room than any one MCU takes |
| Compression.NothingRejected | lib/libjpg/jccoefct.c:142-218 | if the MCUs of the image can be encoded as a run, no MCU is rejected where the controller submits it |
| OptimizedScan.GatherImage | lib/libjpg/jccoefct.c:244-327 | compress_first_pass over the image with the counting entropy coder: the image is stored and the counts are those of the coding pass; fails exactly for a coefficient out of range |
| OptimizedScan.SecondPass | lib/libjpg/jccoefct.c:340-395 | the coding pass by compress_output over the stored image writes the same scan, and completes under the same conditions |
| OptimizedScan.ImageCountable | lib/libjpg/jchuff.c:573-840 | an image of up to 144179 blocks meets every limit of table generation |
| OptimizedScan.CompressOptimized | lib/libjpg/jchuff.c:646-882 | the image is stored and counted, tables are made, and the stored image is coded with them: it fails for a coefficient out of range exactly, or else for a code size above 32 in some table exactly, which up to 144179 blocks does not occur; otherwise it completes as CompressScan does and decodes to the image's MCUs |
| RowFeeder.Feeder.ConvertRows | lib/libjpg/jcprepct.c:138-151 | absorbs as many rows as there are and as fit the conversion buffer |
| RowFeeder.Feeder.CompleteGroup | lib/libjpg/jcprepct.c:152-183 | a full buffer, or the last rows repeated to fill it, becomes a row group; the last iMCU row is padded with copies of its bottom row |
| RowFeeder.Feeder.PreProcessData | lib/libjpg/jcprepct.c:127-186 | stops with a full iMCU row or with the input used up, having counted exactly the rows absorbed |
| RowFeeder.Feeder.OfferRow | lib/libjpg/jcmainct.c:136-156 | a refusal takes one row back from the count, once; the acceptance that follows gives it back |
| RowFeeder.Feeder.ProcessData | lib/libjpg/jcmainct.c:112-158 | rows counted are rows absorbed, less one exactly while an iMCU row waits; the count never underflows |
| RowFeeder.Feeder.WriteScanlines | lib/libjpg/jcapistd.c:76-111 | next_scanline equals rows absorbed less one if suspended, and reaches image_height exactly when the last iMCU row has been accepted |
| RowFeeder.WriteImage | lib/libjpg/jcapistd.c:76-111 | for any batch sizes and any refusals the compressor accepts the iMCU rows of the image, each once and in order, and in every call is offered the row that follows those accepted |
| ScanlineScan.BlockInRow | lib/libjpg/jccoefct.c:167-183 | a block of the image depends only on the iMCU row that the main buffer holds |
| ScanlineScan.CompressScanlines | lib/libjpg/jcapistd.c:76-111 | scanlines in, bytes out: for any batches and refusals a completed scan has taken all scanlines, each call of the controller was at the iMCU row the main buffer held, and the bytes are the scan of the MCUs of the image's blocks |
| RowModel.Image.StartInside | lib/libjpg/jcmaster.c:121-123 | row groups and total_iMCU_rows fit together: a group begins inside the image exactly if it is one of its groups |
| RowModel.Image.RowsInGroups | lib/libjpg/jcmaster.c:121-123 | as many groups and iMCU rows as it takes to hold all rows, and no more |
| RowModel.Image.GroupsInRows | lib/libjpg/jcprepct.c:138-183 | an iMCU row is eight groups of rows in order; the last row is repeated to fill its group, and the last group padded to fill its iMCU row |
| ScaleWeights.CreateCoeffInt | src/imgscale.c:274-304 | the running sums give, for each sample, the length of its overlap with its cell and the next as 12-bit fractions, and -1 where a cell ends |
| ScaleWeights.WeightIsOverlap | src/imgscale.c:280-300 | a weight is 4096 times the length that sample and cell have in common, over the denominator |
| ScaleWeights.CoefficientsComplete | src/imgscale.c:286-302 | exactly as many second coefficients are nonzero as there are cells, the last being -1, if and only if the smaller length divides the larger or 4096 times their common divisor reaches the denominator; otherwise fewer, and the scaler would run past the table |
| ScaleWeights.SmallIsExact | src/imgscale.c:286-302 | lengths up to 4096 always meet that condition |
| ScaleWeights.LongLineFails | src/imgscale.c:289-292 | 4097 pixels onto 2 do not |
| ScaleWeights.ShrinkWeights | src/imgscale.c:280-300 | when shrinking the weights into one output sum to at most 4096 and to more than 4096 less the number of contributors |
| ScaleWeights.EnlargeWeights | src/imgscale.c:280-300 | when enlarging each pair sums to 4095 or 4096 |
| ScaleAxis.AxisValid | src/imgscale.c:286-302 | walking a table and moving on at each nonzero second coefficient visits the cells in order and meets every nonzero weight |
| BitmapFilter.PartialBounds | src/imgscale.c:116-139 | no partial sum exceeds 255 times 2 to the 24th, so no 32-bit accumulator overflows |
| BitmapFilter.ChannelBounds | src/imgscale.c:159-160 | a channel lies between what the weights leave of its smallest contributor and its largest |
| BitmapFilter.OnePixelSpread | src/imgscale.c:116-160 | of a picture with one nonzero channel, each new pixel gets row weight times column weight times its value in the same channel, and nothing in the others |
| BitmapShrink.AddTriple | src/imgscale.c:116-125 | adds a weighted pixel to three sums in 32-bit arithmetic, inside the line, without wrapping |
| BitmapShrink.AddPixel | src/imgscale.c:116-140 | one old pixel counts in at most two columns of the current and, if its row crosses over, of the next line |
| BitmapShrink.ShrinkRow | src/imgscale.c:105-151 | one old row: stops with exactly all its pixels used, both line buffers holding the partial sums |
| BitmapShrink.FinishRow | src/imgscale.c:153-173 | a complete line is written as the top byte of each sum, the buffers change places, and the new next line is empty |
| BitmapShrink.ShrinkData | src/imgscale.c:80-181 | every channel is the sum over all old pixels of column weight times row weight times value, shifted right 24; exactly all rows are used and the padding is untouched |
| BitmapEnlarge.FourTerms | src/imgscale.c:233-257 | the four products the code adds are the whole double sum |
| BitmapEnlarge.EnlargePixel | src/imgscale.c:226-260 | reads only inside the source; the lower pointer is read only where it has kept up |
| BitmapEnlarge.EnlargeRow | src/imgscale.c:206-263 | a new row has exactly the new width |
| BitmapEnlarge.EnlargeData | src/imgscale.c:183-272 | every channel is the same kind of double sum, with old and new exchanged; the padding is untouched |
| BitmapEnlarge.EnlargedBounds | src/imgscale.c:233-260 | each enlarged channel lies between the smallest of its contributing channels, less one, and the largest |
| BitmapScaler.ScaleBitmap | src/imgscale.c:50-77 | 0 exactly for a mixed request; otherwise the filtered bitmap |
| BitmapScaler.ColumnWeights | src/imgscale.c:274-304 | for both directions: with old and new columns laid over the same length, the weight of one in the other is 4096 times what they share, over the length of a new column |
| BitmapScaler.RowWeights | src/imgscale.c:274-304 | the same for rows |
| BitmapScaler.SameSize | src/imgscale.c:71-72 | scaling to the same size changes nothing, for every size |
| VramMap.RoundedEnough | lib/gsLib/gsCore.c:127 | rounding up loses nothing exactly up to 0xFFFFE000; above it a request wraps to empty |
| VramMap.SizesInBytes | lib/gsLib/gsCore.c:127-143 | in bytes: requests are rounded up to 8192, and of four megabytes one request gets at most 4186112 |
| VramMap.AllocIsFirstFit | lib/gsLib/gsCore.c:127-184 | refused exactly if as large as memory or fitting nowhere; otherwise at the lowest address of all where it fits |
| VramMap.LowestPlace | lib/gsLib/gsCore.c:127-184 | in addresses: what is placed lies inside memory and beside every block, and no lower address has that room |
| VramMap.AllocKeepsLayout | lib/gsLib/gsCore.c:127-184 | blocks stay address-ordered, aligned, disjoint and inside memory |
| VramMap.FreeKeepsLayout | lib/gsLib/gsCore.c:187-208 | freeing keeps the layout |
| VramMap.FreeUndoesAlloc | lib/gsLib/gsCore.c:122-208 | freeing what has just been allocated restores the list |
| VramMap.StepTracks | lib/gsLib/gsCore.c:122-208 | one call keeps list and callers in agreement if and only if it is no empty or overlong request and does not free the bottom block while others live |
| VramMap.RunTracks | lib/gsLib/gsCore.c:122-208 | the list holds exactly the blocks in use, none empty, before and after every call of a run if and only if each call is such |
| VramMap.InUseDisjoint | lib/gsLib/gsCore.c:122-208 | in such a run any two blocks in use are disjoint, aligned and inside memory |
| VramMap.HeadFreedEarly | lib/gsLib/gsCore.c:199-200 | after the bottom block is freed early the next request is put at address 0, over a live block exactly if it is longer than the gap below it |
| VramMap.OverlapAfterHeadFreed | lib/gsLib/gsCore.c:199-200 | malloc 8192, malloc 8192, free the first, malloc 16384: two blocks in use overlap |
| VramMap.EmptyRequestShares | lib/gsLib/gsCore.c:127-184 | a request of zero bytes is placed right behind the bottom block; the next request is given the same address if and only if there is room for it there, and freeing that address then drops the empty block and keeps the other |
| VramMap.EmptyAtBottom | lib/gsLib/gsCore.c:127-208 | with nothing allocated the empty block is the bottom one, shares its address with the next, and freeing it forgets both |
| VramAllocator.Allocator.FindGap | lib/gsLib/gsCore.c:145-171 | walks the list to the first gap with room |
| VramAllocator.Allocator.Insert | lib/gsLib/gsCore.c:153-161 | splices a node in; next and prev stay inverse |
| VramAllocator.Allocator.Alloc | lib/gsLib/gsCore.c:122-185 | list and result are those of first fit |
| VramAllocator.Allocator.Unlink | lib/gsLib/gsCore.c:193-197 | takes a node out; next and prev stay inverse |
| VramAllocator.Allocator.Free | lib/gsLib/gsCore.c:187-208 | drops the first block at the address; freeing the head forgets the list |
| VramAllocator.AllocAndFree | lib/gsLib/gsCore.c:122-208 | allocating and freeing leaves the list as it was |
| IcyDemux.Receiver.Take | src/mp3.c:1359-1390 | one byte of the stream: audio, length or metadata; the title becomes what is read from a block of metadata with its last byte, and only then changes; buffers are written in bounds |
| IcyDemux.Receiver.Receive | src/mp3.c:1357-1394 | the audio of a chunk is appended to the stream buffer, and title and position move on |
| IcyDemux.DemuxConcat | src/mp3.c:1354-1390 | taking a stream apart piecewise is taking it apart at once |
| IcyDemux.ReceiveAll | src/mp3.c:1334-1395 | audio appended, title and position do not depend on how the stream is split into chunks |
| IcyDemux.DemuxUndoesInterleave | src/mp3.c:1354-1390 | the receiver undoes the sender: all audio, and every nonempty block of metadata, in order |
| IcyDemux.InterleaveFrame | src/mp3.c:1354-1390 | what a sender does: audio, one byte with a sixteenth of the length of the metadata, and the metadata |
| IcyDemux.AudioAt | src/mp3.c:1374-1381 | each frame's audio is in its place |
| IcyDemux.ReceiveStation | src/mp3.c:1334-1395 | from the start and for any chunks, all audio arrives, and the title is what is read from the last frame with metadata, or empty if there has been none |
| IcyDemux.NoInterval | src/mp3.c:1377-1388 | without a positive interval no audio is ever found |
| StreamFifo.StreamBuffer.AddBuffer | src/mp3.c:1409-1431 | appends to the contents |
| StreamFifo.StreamBuffer.PollBuffer | src/mp3.c:1437-1446 | the number of bytes buffered |
| StreamFifo.StreamBuffer.GetBuffer | src/mp3.c:1452-1475 | moves up to n bytes from the front to the caller, and no more |
| StreamFifo.Conserved | src/mp3.c:1409-1475 | over every interleaving up to a flush, bytes delivered followed by bytes left are the bytes that were there and were added |
| StreamFifo.PolledBytes | src/mp3.c:826-847 | the decoder gets exactly the bytes it polled, whatever has been added in between |
| Dither.AudioDither.Linear | src/mp3.c:1628-1678 | no 32-bit sum overflows, the errors stay bounded, and the result is a signed 16-bit number |
| Dither.OneSample | src/mp3.c:1633-1677 | one sample in numbers: noise shaping, half a quantum, the difference of two random numbers, clipping, rounding down to a quantum, and the error kept |
| Dither.PrngBackwards | src/mp3.c:1623-1626 | the random numbers are those of the stated recurrence, which can be run backwards, so no state is ever reached from two |
| Dither.StepStable | src/mp3.c:1638-1677 | one step keeps the stored error in [-12287, 12286] through both clip branches |
| Dither.RunStable | src/mp3.c:1638-1677 | the bound holds over every run of samples up to 2 to the 30th in magnitude |
| Dither.ErrorsCancel | src/mp3.c:1639-1674 | sums of output and input differ by what was clipped and by the errors still held |
| Dither.NoDrift | src/mp3.c:1639-1674 | over a run of any length the output keeps within two and a quarter quanta of the input, clipping apart |
| FtpServer.Client.Create | irx/ps2ftpd/FtpClient.c:66-100 | a fresh session, and a container linked to itself |
| FtpServer.Client.OnDataCleanup | irx/ps2ftpd/FtpClient.c:773-793 | no socket, no remote port, idle |
| FtpServer.Client.OnDataConnect | irx/ps2ftpd/FtpClient.c:384-449 | the new connection: failed, pending or running |
| FtpServer.Client.OnDataConnected | irx/ps2ftpd/FtpClient.c:451-497 | running, in the direction of the action |
| FtpServer.Client.HandleDataConnect | irx/ps2ftpd/FtpClient.c:795-815 | uses a running connection, connects to the client's port, or waits for the client; otherwise the transfer fails |
| FtpServer.Client.OnCmdPasv | irx/ps2ftpd/FtpCommands.c:102-187 | listening on a new socket, or cleaned up |
| FtpServer.Client.OnCmdUser | irx/ps2ftpd/FtpCommands.c:53-71 | logged in if anonymous logins are allowed, otherwise waiting for a password, also after a wrong name |
| FtpServer.Client.OnCmdPort | irx/ps2ftpd/FtpCommands.c:189-208 | the port is kept if it is at least 1024 |
| FtpServer.Client.OnCmdList | irx/ps2ftpd/FtpCommands.c:225-243 | sets the action before it knows whether the directory opens |
| FtpServer.Client.OnCmdTransfer | irx/ps2ftpd/FtpCommands.c:273-318 | RETR, STOR and APPE |
| FtpServer.Client.OnDataReady | irx/ps2ftpd/FtpServer.c:282-333 | connect, accept, read or write, by the client's state |
| FtpServer.Server.OnCmdPass | irx/ps2ftpd/FtpCommands.c:73-100 | logs in only after the right name; a fourth failure disconnects |
| FtpServer.Server.OnCommand | irx/ps2ftpd/FtpClient.c:138-382 | what a command does is what the session allows; every other client is left alone |
| FtpServer.RoundInSteps | irx/ps2ftpd/FtpServer.c:233-335 | a round of events is first the step of the control connection and then, if the client is still there, that of the data socket |
| FtpServer.Server.Attach | irx/ps2ftpd/FtpServer.c:371-377 | the container goes to the end of the circular list; next and prev stay inverse |
| FtpServer.Server.Detach | irx/ps2ftpd/FtpServer.c:394-400 | the container leaves the list and is linked to itself |
| FtpServer.Server.OnClientConnect | irx/ps2ftpd/FtpServer.c:340-384 | refused exactly if no slot is free; otherwise a fresh session at the end of the list |
| FtpServer.Server.OnClientDisconnect | irx/ps2ftpd/FtpServer.c:386-405 | off the list, the slot free again |
| FtpServer.Server.AtMostFour | irx/ps2ftpd/FtpServer.c:340-384 | at most four clients are linked |
| FtpServer.Server.HandleClients | irx/ps2ftpd/FtpServer.c:233-335 | every client on the list is handled exactly once, though clients leave the list on the way |
| FtpServer.Server.HandleEvents | irx/ps2ftpd/FtpServer.c:165-338 | accepts a connection if a slot is free, and handles every client, the new one included |
| FtpServer.Server.Stop | irx/ps2ftpd/FtpServer.c:122-136 | terminates with an empty list, every slot free |
| FtpServer.Serve | irx/ps2ftpd/FtpServer.c:122-136 | from any valid server over any rounds of events to a stop with an empty list |
| FtpSession.RunSound | irx/ps2ftpd/FtpClient.c:384-497 | over every sequence of commands and socket events: idle exactly without a data socket, data only while running, at most three failed logins, nothing but the login changed before it |
| FtpSession.TransferStarts | irx/ps2ftpd/FtpClient.c:384-497 | RETR, STOR, APPE and LIST of something that opens, with action, direction and connection spelled out: running over an open connection or one made to the port, connecting, listening after PASV, or over |
| FtpSession.TransferRefused | irx/ps2ftpd/FtpCommands.c:225-318 | of something that does not open: only the restart marker and, for a listing, the action change |
| FtpSession.PassiveListens | irx/ps2ftpd/FtpCommands.c:102-187 | PASV drops connection and port and listens if all calls succeed |
| FtpSession.PlainCommands | irx/ps2ftpd/FtpCommands.c:189-384 | PORT from 1024 on, REST and RNFR set what they set; the commands of the login are ignored after it |
| FtpSession.LoginSteps | irx/ps2ftpd/FtpCommands.c:53-100 | before login: names, passwords, and the end after three forgiven failures |
| FtpSession.ConnectionMade | irx/ps2ftpd/FtpServer.c:282-333 | a connection that comes about runs in the direction of its action |
| FtpSession.ConnectionFailed | irx/ps2ftpd/FtpServer.c:282-333 | a failed connect ends the transfer, a failed accept goes on waiting |
| FtpSession.DataMoves | irx/ps2ftpd/FtpClient.c:499-771 | a transfer goes on, ends with its action kept, or fails |
| FtpSession.LoginNeeded | irx/ps2ftpd/FtpCommands.c:53-100 | nobody is logged in who has not given the right name and after it the right password, or been let in anonymously |
| FtpSession.StepAgrees | irx/ps2ftpd/FtpCommands.c:225-243 | the direction of a transfer fits its action after a step exactly unless the step is a listing that fails during an upload, which the next data then breaks off |
| FtpSession.UploadBroken | irx/ps2ftpd/FtpCommands.c:225-243 | such a run |
| ConfigText.ParseUndoesLineOf | src/sysconf.c:137-181 | reading a saved line gives back key and value |
| ConfigText.ParseUndoesPrint | src/sysconf.c:217-237 | parsing a printed list gives its pairs with a value, in order |
| ConfigText.NoPair | src/sysconf.c:137-148 | exactly the lines that begin with '#' or a line end, and those without an equals sign, give no pair |
| ConfigText.BlanksIgnored | src/sysconf.c:150-181 | blanks around the key and before the value, and blanks and line ends after it, do not count |
| SysConf.ReadBufLine | src/sysconf.c:416-431 | a line with its newline; an unterminated last line is not returned |
| SysConf.ReadPair | src/sysconf.c:132-182 | the pair on a line, or none for a comment, an empty line or one without an equals sign |
| SysConf.EmptyKey | src/sysconf.c:150-156 | the key is empty exactly if only blanks come before the equals sign |
| SysConf.SavedKeyKept | src/sysconf.c:137-181 | no line of a saved configuration is such a line |
| SysConf.WriteLine | src/sysconf.c:223-234 | key, tabs to the third tab stop, equals sign, value, line end |
| ConfigText.LineShape | src/sysconf.c:223-234 | in characters: the key, as many tabs as bring it to column 24, an equals sign, a space, the value, carriage return and line feed |
| SysConf.Config.SetValue | src/sysconf.c:337-378 | replaces the value of a key or adds the pair at the end |
| SysConf.SetAt | src/sysconf.c:337-378 | the first pair with the key keeps its place |
| SysConf.SetNew | src/sysconf.c:337-378 | a new key comes last |
| SysConf.Config.GetValue | src/sysconf.c:272-287 | the value a key has |
| SysConf.Config.LoadConfig | src/sysconf.c:79-190 | the defaults, then every pair of the file |
| SysConf.Config.SaveConfig | src/sysconf.c:199-241 | writes every pair with a value |
| SysConf.LoadUndoesSave | src/sysconf.c:79-241 | loading what was saved gives the defaults overlaid by the pairs with a value, no key twice |
| SysConf.SurvivesReload | src/sysconf.c:79-241 | a configuration survives saving and loading exactly if no default is missing or emptied and no other key is empty |
| SysConf.EmptiedPath | src/sysconf.c:218-221 | an emptied path comes back as its default |
| SysConf.SaveAndLoad | src/sysconf.c:79-241 | save, start again with an empty list, load |

## Left out

- OptimalTable.GenOptimalTable: what the C code does after it has read below bits[0]; the model stops there with an outcome of its own.  Behind the symbols it lists the C table keeps what it held before; here there are zeros.
- TwoPass.OptimizeScan: asks that every component has a block in an MCU and that its counts merge into one tree, as those of every total below 10^9 do; `GenOptimalTable` says what becomes of others.
- OptimizedScan.CompressOptimized: asks the same of the counts.
- BitmapShrink.ShrinkData: asks for the exact lengths of `CoefficientsComplete`; for others the C loop reads past its coefficient table.
- BitmapEnlarge.EnlargeData: asks for the exact lengths as well.
- BitmapScaler.ScaleBitmap: asks for the exact lengths of both sides, as the two methods it calls do.
- HuffEncoder.Encoder.FinishPass: on failure nothing is said of the encoder, as ERREXIT does not return.
- SysConf.ReadPair: a key of blanks only is read as empty, where the C code would step before its buffer; `EmptyKey` says exactly for which lines.
- ScanlineScan.CompressScanlines: the calls of the controller and the offers of the main buffer are matched one by one, by the answers given, and not interleaved in one loop.
- CoefController.Controller.WriteIMCURow: compress_data and compress_output have the same loop, which is written once; they differ in where an MCU's blocks come from.
- The 32 bits of put_buffer are kept as a number modulo 2^32, of which only the low 24 bits matter.
- The progressive coder (`jcphuff.c`), marker writing, quantisation, the DCT kernels, colour conversion and downsampling themselves.
- The context-row variant of the preprocessor and the raw-data entry point.
- Reading the title out of a block of ICY metadata is a parameter of the demultiplexer.
- The size that `_mp3_stream_getBuffer` reads before it takes the semaphore: buffer operations are atomic in the model.
- The playback cancel and stop handshake, where a clean claim about all runs does not hold.
- FTP replies, path handling, file transfer contents, and the framing of command lines, of which one is handled per receive.
- The FTP commands that change nothing of the session (CWD, DELE, MKD, RMD, SIZE, SITE, PWD, SYST, TYPE, MODE, STRU, RNTO) are one command without effect.
- The prev and next pointers of the configuration list, which is a sequence here; those of the video-memory and client lists are modelled.
- Failure of malloc and memalign, the capacity of C string buffers, and pointer aliasing.
- gsCore.c allocates too few bytes for a block put between two others; every block is a whole record in the model.
- GUI, skins, remote procedure calls, DMA and GS registers, module loading and input devices.
