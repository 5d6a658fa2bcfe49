# MiniMem: a verified model

MiniMem compresses memory that applications do not use at the moment. Page codecs
turn a 4096-byte page into a shorter byte stream; a kernel module replaces the
page-table entries of cold pages by markers, keeps the streams in a zsmalloc pool and
brings pages back on a fault; a scanner thread looks for cold pages; and a user-space
registry does the same for buffers of AI weights. The files here model those four
parts in Dafny, in the form the C code has (loops over buffers, objects updated in
place), and prove what the code promises.

Reading order, each file one module:

| files | what they are about |
|---|---|
| `Bits`, `Buffers`, `Packing` | bit views of numbers, writes into buffers, little-endian words, packing of fields that straddle bytes |
| `ByteBlocks`, `BlockStreams` | one 32- or 64-byte block: its type, its encoding, its decoding; headers and rows of blocks |
| `BlockClass`, `AiWeights`, `Wkdm`, `Bdi` | the codecs: a recursive specification, the loops that refine it, the round trip |
| `BlockLaws`, `AiWeightLaws`, `WkdmLaws`, `BdiLaws` | the layout and the size of what the codecs write, said of the bytes, words and bits of input and stream |
| `PageCodec` | the kernel's choice of codec for a page, and the page that comes back |
| `PteMarker` | the marker that replaces a page-table entry |
| `StoreSpec`, `Transparency`, `PageStore` | the store as a state machine, what it means to a process, and the in-place code |
| `ScanSpec`, `ScanLaws`, `ScanResume`, `ScanRuns`, `Scanner` | the walk over all pages, what a sweep does with each, stopping it and resuming it from a cursor, runs of cycles that perform it piece by piece, and the scanner itself |
| `Vram` | the weight registry |

Each codec has a specification on byte sequences, methods over arrays proved equal to
it, and a round-trip lemma on the specification; `RoundTrip` methods put the three
together. A round trip does not say what is written, and an equation with a specification
says no more than the specification does: beside each stands a law in terms of the bytes
and bits themselves, of counts of index sets and of the constants of the format, which
leaves the specification no choice. Machine integers are written out where they matter: BDI deltas and the idle
cutoff are taken modulo 2^64, block deltas modulo 256, swap entries are 64-bit.

What the environment decides is a parameter of the operation that depends on it:
allocation results, the handle zsmalloc returns, whether a page-table lock is taken
again and what is found then, the page states each round of the scanner meets, clock
readings, the order in which a map is iterated,
the LZ4 of the kernel (a pair of functions; where its losslessness is needed, the
lemma says so).

## Where the code and its documents disagree

The model follows the code.

- README.md:274 and docs/recovery.md:62 of the repository promise that compression is
  always lossless. BDI is not: its encoder accepts deltas below 256 in magnitude, its
  decoder reads them as signed bytes. `Bdi.LosslessIff` says exactly for which buffers
  it is lossless, `PageCodec.DispatchLosesAPage` gives a page that the kernel would alter,
  and `Transparency.StepView` carries the condition to the memory a process sees.
- docs/feature-registry.md:48 and docs/roadmap.md:48 speak of a 54-bit index in the
  marker. Four of the fifty offset bits hold flags: `PteMarker.IndexSurvivesIff` shows
  that exactly the indices below 2^46 survive.
- The head comment of src/kernel/minimem_shrinker.c says that the shrinker decompresses
  pages back to memory. Its callback frees the object and leaves the page-table entry.
  `Transparency.ShrinkView` shows that a page is lost whenever the shrinker is asked for
  one and there is one.
- docs/recovery.md:62 also rules out a path to data corruption. Besides BDI and the
  shrinker there are faults and drains that do not find their entry as it was, restores,
  removals and bare stores: `Transparency.StepView` gives the exact condition of each, on
  the state before the step and on what the environment does during it (allocations,
  locks, what is found under them), never on the outcome. `Transparency.LosesAPage`,
  `Transparency.FindsAPage` and `Transparency.StoresAPage` show them all at a state that
  two steps reach.
- docs/roadmap.md:62 and the head comment of src/kernel/minimem_scanner.c say that a pass
  cut short resumes from its cursor. The cursor skips by process number what the pass walks
  in the order of the process list, so after process numbers have wrapped around, a
  resumed pass can leave out one process and walk another twice
  (`ScanResume.WrappedNumbers`). `ScanResume.Ended` says exactly when it does not.
- src/kernel/minimem_scanner.c calls its skip list a Bloom filter. It is a bitmap with
  one bit per index, so pages whose numbers agree modulo 16384 share their fate, and no
  others do (`ScanLaws.SweepIs`).

## Model

| member | source | states |
|---|---|---|
| Packing.PackRoundTrip | src/lib/compressors/block_class.c:50-68 | any field of any packed list, at any width, reads back as the value packed, whatever surrounds the packed bytes and also across a byte boundary |
| Packing.ExtractIsField | src/lib/compressors/ai_weights.c:54-61 | the shift-and-mask reader, with its case for a field that straddles two bytes, returns that field |
| Packing.PackUnique | src/lib/compressors/ai_weights.c:42-52 | bytes that agree with the list of fields bit by bit are the packed bytes, padding bits included |
| Packing.PackedFields | src/lib/compressors/ai_weights.c:42-52 | bit b of field i of packed bytes is bit i·w+b of the bytes, lowest bit first |
| Buffers.LittleEndian | src/lib/compressors/wkdm.c:86-98 | bit b of byte k of a number written in n bytes is bit 8k+b of the number |
| Packing.SetField | src/lib/compressors/wkdm.c:21-27 | ORing a field in changes no bit outside the field and no byte it does not reach |
| Packing.PackFields | src/lib/compressors/ai_weights.c:42-52 | clearing only the bytes needed and ORing each field in writes the packed list and nothing else, whatever the buffer held |
| Packing.PackBits | src/lib/compressors/ai_weights.c:130-142 | the bit-at-a-time delta loop writes the packed list |
| Packing.UnpackBits | src/lib/compressors/ai_weights.c:392-403 | ORing the bits of a field together gives the field |
| ByteBlocks.Classify | src/lib/compressors/ai_weights.c:63-95 | one pass with running minimum, maximum and counts gives the block's type, uniform value, minimum and range |
| ByteBlocks.WriteBlock | src/lib/compressors/ai_weights.c:97-151 | writes the block's encoding at the cursor, nothing else, and advances the cursor by its length |
| ByteBlocks.WriteSparse | src/lib/compressors/block_class.c:126-139 | bitmap and non-zero bytes in order |
| ByteBlocks.WriteRange | src/lib/compressors/block_class.c:141-163 | minimum, range and deltas packed at the width chosen from the range |
| ByteBlocks.EncodeBlockSize | src/lib/compressors/ai_weights.c:97-151 | worst-case length of a block's encoding |
| ByteBlocks.ReadBlock | src/lib/compressors/ai_weights.c:357-413 | decodes one block of a given type with every end-of-input test, succeeding exactly when the specification does; then block and cursor are the specified ones, and nothing outside the block's place is touched |
| ByteBlocks.ReadSparse | src/lib/compressors/block_class.c:220-233 | scatters the values the bitmap asks for, failing where the input ends |
| ByteBlocks.ReadRange | src/lib/compressors/block_class.c:235-265 | minimum plus unpacked delta, modulo 256 |
| ByteBlocks.BlockRoundTrip | src/lib/compressors/block_class.c:115-170 | wherever a block's encoding stands in a stream, decoding it under its type returns the block and leaves the cursor behind the encoding |
| ByteBlocks.SparseRoundTrip | src/lib/compressors/block_class.c:126-139 | bitmap and values decode to the block |
| ByteBlocks.RangeRoundTrip | src/lib/compressors/block_class.c:141-163 | packed deltas decode to the block |
| BlockLaws.ZeroBlock | src/lib/compressors/ai_weights.c:63-103 | a block of zeros has type 0 and is written as nothing |
| BlockLaws.UniformBlock | src/lib/compressors/ai_weights.c:63-107 | a block of one non-zero value has type 2 and is written as that value |
| BlockLaws.SparseBlock | src/lib/compressors/block_class.c:126-139 | a block that is not constant with at most 16 non-zero bytes has type 1 and costs one bit per byte and one byte for each of these: the bits say which they are, and the k-th follows as k-th |
| BlockLaws.RangeBlock | src/lib/compressors/block_class.c:141-163 | more than 16 non-zero bytes whose range has w bits, 1 to 6: type 3, smallest value, range, and the distances in w bits each |
| BlockLaws.DenseBlock | src/lib/compressors/block_class.c:165-168 | more than 16 non-zero bytes and a range above 63: type 4, the block itself |
| BlockStreams.RowsRoundTrip | src/lib/compressors/block_class.c:204-277 | the decoder's input cursor at every row is the encoder's output cursor, so rows of different encoded lengths all come back |
| BlockStreams.HeaderRoundTrip | src/lib/compressors/block_class.c:106-113 | the types read from the header are the types written |
| BlockStreams.StreamRoundTrip | src/lib/compressors/block_class.c:178-280 | header, types and rows: every stream parses and decodes to the rows it was made from |
| BlockStreams.WriteStream | src/lib/compressors/block_class.c:95-172 | classify, header, rows: the two passes write exactly the stream, every write inside the compress bound |
| BlockStreams.RowStreamSize | src/lib/compressors/block_class.c:282-285 | the stream of n rows never exceeds its input by more than the bound allows |
| BlockLaws.StreamLayout | src/lib/compressors/block_class.c:106-172 | number of rows and size of the type list in two bytes each, three bits for the type of each row, and each row's encoding where the ones before it end |
| BlockClass.Compress | src/lib/compressors/block_class.c:83-176 | non-zero exactly when the input is whole blocks and the stream is shorter than it and fits; then the stream has been written at the start of the buffer; in every case nothing at or behind the compress bound is touched |
| BlockClass.Decompress | src/lib/compressors/block_class.c:178-280 | for streams that contain their type list: non-zero exactly when the stream decodes; then that result has been written and nothing behind it |
| BlockClass.Lossless | src/lib/compressors/block_class.c:83-280 | every input of 1 to 64 blocks comes back from its stream |
| BlockClass.RoundTrip | src/lib/compressors/block_class.c:83-280 | compress, then decompress what was written: the input |
| AiWeightLaws.BlockClassStream | src/lib/compressors/block_class.c:83-176 | that layout over the 64-byte blocks of the input, and the input is compressible exactly if it is whole blocks and the stream is shorter and fits |
| AiWeights.RebuildDeltas | src/lib/compressors/ai_weights.c:571-581 | rebuilding each row from the row rebuilt before it undoes the XOR deltas, for every number of rows |
| AiWeights.BuildDeltaRows | src/lib/compressors/ai_weights.c:259-278 | the first row as it is; every other row, byte by byte and bit by bit, XOR the row of the input before it |
| AiWeights.DeltaRowsAre | src/lib/compressors/ai_weights.c:259-268 | the same of the specification: row 0 is the first 64 bytes, row b bytes 64b to 64b+63 XOR the 64 bytes before them |
| AiWeights.RebuiltBytes | src/lib/compressors/ai_weights.c:571-581 | of any rows: the first 64 bytes rebuilt are the first row, every further 64 their row XOR the 64 bytes rebuilt before them |
| AiWeights.UndoDelta | src/lib/compressors/ai_weights.c:571-580 | writes the row XOR the previous one, which becomes the previous row |
| AiWeights.CompressInt8 | src/lib/compressors/ai_weights.c:244-319 | non-zero exactly when the delta stream is shorter than the input and fits; then it has been written, as AiWeightLaws.Int8Stream says of the input's own bytes; in every case nothing at or behind the compress bound is touched |
| AiWeights.DecompressInt8 | src/lib/compressors/ai_weights.c:484-584 | refines the decoding of the delta stream, for streams that contain their type list |
| AiWeights.ReadDeltaRows | src/lib/compressors/ai_weights.c:510-583 | the row loop with its previous-row buffer rebuilds the rows: each 64 bytes of the output are their delta XOR the 64 bytes before them |
| AiWeights.LosslessInt8 | src/lib/compressors/ai_weights.c:244-584 | every input of 1 to 64 rows comes back from its INT8 stream |
| AiWeightLaws.Int8Stream | src/lib/compressors/ai_weights.c:244-319 | the stream is the layout over rows of which the first is the first 64 bytes and each other the XOR of two successive ones; the input is compressible exactly if it is whole rows and that is shorter and fits |
| AiWeightLaws.Int8Decodes | src/lib/compressors/ai_weights.c:484-584 | whatever a stream decodes to, each of its rows is the decoded delta XOR the row before it |
| AiWeightLaws.EqualRow | src/lib/compressors/ai_weights.c:259-303 | a row equal to the one before it adds no byte behind the type list |
| AiWeightLaws.EqualRows | src/lib/compressors/ai_weights.c:244-319 | so equal rows cost the header and one row together |
| AiWeights.JoinSplit | src/lib/compressors/ai_weights.c:473-478 | interleaving low and high halves undoes their separation |
| AiWeights.SplitSizeBound | src/lib/compressors/ai_weights.c:192-225 | the split stream never exceeds its input by more than 100 bytes |
| AiWeightLaws.Split16Stream | src/lib/compressors/ai_weights.c:153-230 | two type lists of which half is written, then for each block the encoding of its even bytes and of its odd bytes |
| AiWeightLaws.Split16Decodes | src/lib/compressors/ai_weights.c:473-478 | whatever a stream decodes to, bytes 2i and 2i+1 of a block are bytes i of its low and its high half |
| AiWeights.CompressSplit16 | src/lib/compressors/ai_weights.c:153-230 | what is written is the split stream whose header gaps hold what the buffer held before; in every case nothing at or behind the compress bound is touched |
| AiWeights.WriteTypeHeader | src/lib/compressors/ai_weights.c:200-201 | only half of each type header is written, the rest is left stale |
| AiWeights.DecompressSplit16 | src/lib/compressors/ai_weights.c:324-482 | refines the decoding of the split stream, for streams that contain their type lists |
| AiWeights.ReadDelta | src/lib/compressors/ai_weights.c:510-580 | one row: its delta decoded, then undone against the previous row |
| AiWeights.ReadHalves | src/lib/compressors/ai_weights.c:350-478 | one block: low half, then high half from where the low one ended, interleaved |
| AiWeights.ReadSplitRows | src/lib/compressors/ai_weights.c:350-481 | two blocks per turn, interleaved into the output |
| AiWeights.LosslessSplit16 | src/lib/compressors/ai_weights.c:153-482 | for any contents of the two header gaps the decoder steps over them and returns the input |
| AiWeights.Compress | src/lib/compressors/ai_weights.c:586-602 | dispatch on the weight format; 0 for any other format; nothing at or behind the compress bound is touched |
| AiWeightLaws.FormatCodec | src/lib/compressors/ai_weights.c:586-602 | formats 0 and 1 are split, format 2 is compressed by rows, no other format is compressed |
| AiWeights.Decompress | src/lib/compressors/ai_weights.c:604-617 | dispatch on the weight format; 0 for any other format; for streams that contain their type lists |
| AiWeights.Lossless | src/lib/compressors/ai_weights.c:586-622 | in all three formats, for every input of 1 to 64 blocks and any prior contents of a destination of input length plus 256, a non-zero result decodes to the input |
| AiWeights.RoundTrip | src/lib/compressors/ai_weights.c:586-617 | compress, then decompress what was written: the input |
| Wkdm.EncodeFits | src/lib/compressors/wkdm.c:54-77 | every tag has two bits, every exact index is a slot of the dictionary, every partial word fits half a word; tags and counters agree |
| Wkdm.ReadEmitted | src/lib/compressors/wkdm.c:155-189 | reading what one word emitted returns the word, consumes exactly what was emitted from each area, and changes the dictionary as the encoder did |
| Wkdm.DecodeEncode | src/lib/compressors/wkdm.c:147-191 | encoder and decoder stay in lockstep from any position: the remaining areas decode to the remaining words |
| Wkdm.EncodeWord | src/lib/compressors/wkdm.c:54-77 | one turn of the word loop: tag buffer, three areas, counters and dictionary |
| Wkdm.EncodeAll | src/lib/compressors/wkdm.c:39-77 | the word loop fills the scratch areas with the specified fields, whatever they held before |
| Wkdm.WriteStream | src/lib/compressors/wkdm.c:86-98 | header and four areas, each at its place |
| Wkdm.Compress | src/lib/compressors/wkdm.c:29-99 | computes 12 + ceil(n/4) + e + 2p + 4m (8m and 4p for 64-bit words) first and leaves the destination untouched when it returns 0; otherwise the stream has been written; e, p and m are what WkdmLaws.CompressibleIff counts in the input |
| Wkdm.Decompress | src/lib/compressors/wkdm64.c:101-192 | refines the decoding, with every capacity and end-of-input test, for streams whose exact indices lie inside the dictionary |
| Wkdm.DecodeAll | src/lib/compressors/wkdm64.c:155-189 | the word loop with its dictionary and three indices |
| Wkdm.CountMissTags | src/lib/compressors/wkdm.c:136-140 | the number of missed words is found from the tags |
| Wkdm.ParseRoundTrip | src/lib/compressors/wkdm.c:104-145 | the four areas of a stream are found where they were written |
| Wkdm.Lossless | src/lib/compressors/wkdm64.c:29-192 | WKdm and WKdm-64: every page of whole words comes back from its stream |
| Wkdm.RoundTrip | src/lib/compressors/wkdm.c:194-212 | compress, then decompress what was written: the input |
| Wkdm.Pigeonhole | src/lib/compressors/wkdm.c:54-84 | without hash collisions partials and misses never outnumber the dictionary slots, and every other non-zero word is EXACT; WkdmLaws.ApartCost says it of the bits of the words |
| Wkdm.NoCollisionSize | src/lib/compressors/wkdm64.c:54-84 | the size bound that follows, so a full page without collisions always compresses |
| WkdmLaws.SlotIff | src/lib/compressors/wkdm64.c:10 | two words share a slot of the dictionary if and only if they agree in bits 4 to 7, 64-bit words in bits 3 to 7 |
| WkdmLaws.WordBecomes | src/lib/compressors/wkdm.c:54-77 | what each word of a page becomes: tag 0 if zero, 1 if it is the last word of those that agree with it in these bits, 2 if its upper half is zero, else 3; and the slot bits, the half word or the word stand in their area at the number of earlier words with the same tag |
| WkdmLaws.CompressibleIff | src/lib/compressors/wkdm.c:79-84 | a page is compressible if and only if it is whole words and 12 + ceil(n/4) plus one, half a word or a word for each word of tag 1, 2 or 3, counted as above in the page, is less than its length and fits; and that is the length of the stream |
| WkdmLaws.StreamLayout | src/lib/compressors/wkdm.c:86-98 | three counts, two bits for each tag, slots, half words and words: every one at its place, little-endian |
| WkdmLaws.ApartDoNotCollide | src/lib/compressors/wkdm64.c:57-68 | a page has no collisions if and only if no two different non-zero words of it agree in those bits |
| WkdmLaws.ApartCost | src/lib/compressors/wkdm64.c:54-84 | on such a page at most 16 (32) words are partials or misses, every other non-zero word is EXACT, the size is bounded accordingly, and a full page always compresses |
| Bdi.ClassifyLine | src/lib/compressors/bdi.c:15-61 | the line's type from one pass over its words |
| Bdi.Compress | src/lib/compressors/bdi.c:63-146 | non-zero exactly when the stream fits and is shorter than the input; then it has been written, with each write tested before it is made |
| Bdi.WriteDeltas | src/lib/compressors/bdi.c:115-126 | the delta loop writes the low byte of each delta |
| Bdi.Decompress | src/lib/compressors/bdi.c:148-244 | refines the decoding of lines |
| Bdi.ReadDeltas | src/lib/compressors/bdi.c:210-225 | each delta byte is sign-extended from bit 7 and added to the base modulo 2^64 |
| Bdi.WordLoss | src/lib/compressors/bdi.c:118-124 | a word comes back exactly if and only if its signed delta is in [-128,127]; otherwise it comes back 256 too small or too large modulo 2^64 |
| Bdi.LineReturned | src/lib/compressors/bdi.c:164-241 | every encoded line decodes, to a line that is known |
| Bdi.LineExactness | src/lib/compressors/bdi.c:195-229 | a line comes back unchanged if and only if all its deltas lie in the window or it is of another type |
| BdiLaws.ZeroLineForm | src/lib/compressors/bdi.c:86-91 | a line of zeros is written as one byte |
| BdiLaws.RepeatedLineForm | src/lib/compressors/bdi.c:93-100 | one non-zero word eight times: a type byte and that word |
| BdiLaws.DeltaLineForm | src/lib/compressors/bdi.c:102-129 | words less than 256 from the first and not all equal: type byte, first word, and of each word the difference of the lowest bytes modulo 256 |
| BdiLaws.RawLineForm | src/lib/compressors/bdi.c:131-140 | any other line: a type byte and the line |
| BdiLaws.BdiStream | src/lib/compressors/bdi.c:63-146 | the number of lines and the lines back to back; compressible exactly if the input is whole lines and that is shorter and fits |
| Bdi.Returns | src/lib/compressors/bdi.c:148-244 | every stream decodes to a buffer of the original size |
| Bdi.LosslessIff | src/lib/compressors/bdi.c:63-244 | the whole round trip is the identity if and only if every delta of every base-and-delta line is in [-128,127] |
| PageCodec.Classify | src/kernel/minimem_compress.c:113-161 | counting zeros, extremes and small words gives the page's class; for a page, the one PageCodec.RouteIs states |
| PageCodec.CompressPage | src/kernel/minimem_compress.c:175-233 | the algorithm is the one the page's bytes ask for; OK exactly when what that codec makes of the page has 0 < size < 4096; then the buffer begins with it and the size is its length |
| PageCodec.RouteIs | src/kernel/minimem_compress.c:113-161 | SAME_PAGE if and only if all bytes are equal; otherwise, with at least 2048 zero bytes, BDI if no byte exceeds 32 and WKDM if one does; otherwise WKDM64 if and only if more than 256 of the 512 words have a zero upper half; LZ4 for the rest |
| PageCodec.PackedIs | src/kernel/minimem_compress.c:193-233 | what a page is packed into and whether it is, by that route, with the sizes counted in the page |
| PageCodec.ApartAccepted | src/kernel/minimem_compress.c:139-157 | a page routed to a WKdm codec, in which no two different non-zero words agree in the bits of the slot, is always accepted |
| PageCodec.BlockClassUnpacks | src/kernel/minimem_compress.c:235-283 | a page's block stream unpacks to the page under its own algorithm number, 8 |
| PageCodec.DecompressPage | src/kernel/minimem_compress.c:235-283 | OK exactly when the destination is a page and the recorded codec unpacks a whole page; then that page has been written; a destination of another size is left alone |
| PageCodec.PackUnpack | src/kernel/minimem_compress.c:175-283 | every accepted page unpacks under its recorded algorithm: to itself unless it was routed to BDI |
| PageCodec.RestoredIff | src/kernel/minimem_compress.c:139-145 | a page survives if and only if it was not routed to BDI or all its BDI deltas lie in the window |
| PageCodec.BdiPageBytes | src/kernel/minimem_compress.c:139-144 | all bytes of a page routed to BDI are at most 32 |
| PageCodec.BdiDeltas | src/lib/compressors/bdi.c:54-58 | on such a page a delta is at most 32 in magnitude and exact, or between 224 and 255 and lost; nothing in between |
| PageCodec.DispatchLosesAPage | src/kernel/minimem_compress.c:139-145 | a concrete page that is accepted and comes back changed |
| PteMarker.MarkerRoundTrip | src/kernel/minimem_pte.h:81-144 | every marker is non-present, non-zero, of type 31 with the three low flags clear, recognised as MiniMem's, and yields its index modulo 2^46 |
| PteMarker.MarkerBit | src/kernel/minimem_pte.h:81-110 | the marker bit by bit: bits 59 to 63 set, bit 12 clear and bits 9 to 11 set, bits 13 to 58 the complement of index bits 0 to 45, all others clear |
| PteMarker.MarkerIff | src/kernel/minimem_pte.h:112-144 | an entry is taken for a marker if and only if bits 59 to 63 are set and bits 0, 8 and 12 are clear; its index is the complement of bits 13 to 58 |
| PteMarker.IndexSurvivesIff | src/kernel/minimem_pte.h:106-128 | the index comes back if and only if it is below 2^46 |
| PteMarker.VaddrRoundTrip | src/kernel/minimem_pte.h:166-177 | address to index to marker to index to address is the identity for page-aligned addresses below 2^58 |
| StoreSpec.StepKeeps | src/kernel/minimem_zswap.c:85-262 | every operation, roll-backs included, keeps the conservation law and the agreement of entries, objects and pages |
| StoreSpec.StoreKeeps | src/kernel/minimem_map.c:53-81 | a store under a fresh handle keeps the law; a store to an occupied key orphans one handle, which is counted |
| StoreSpec.DropKeeps | src/kernel/minimem_map.c:112-128 | an entry's handle is live and no other entry's, so freeing it keeps the law |
| StoreSpec.ReplaceKeeps | src/kernel/minimem_hook.c:764-854 | compressing a page in place keeps the law on every exit |
| StoreSpec.FaultKeeps | src/kernel/minimem_hook.c:244-363 | both fault handlers keep the law on every exit |
| StoreSpec.DrainOneKeeps | src/kernel/minimem_zswap.c:382-490 | one page of the drain keeps the law on every exit |
| StoreSpec.ShrinkIs | src/kernel/minimem_map.c:145-180 | the shrinker erases exactly the first n keys of the iteration and changes no entry, object or page-table entry beside |
| StoreSpec.Statistics | src/kernel/minimem_zswap.c:166-172 | every operation changes the number of stored pages as it changes the map's counter, except compression in place, faults and the shrinker, which leave it alone |
| StoreSpec.CountedRun | src/kernel/minimem_zswap.c:95-99 | so over every run without those three the number compared with the pool limit is the number of live objects |
| StoreSpec.LoadOrigin | src/kernel/minimem_hook.c:310-321 | the object behind an entry decodes to the page it was made from, as the codec returns it |
| StoreSpec.HandleConservation | src/kernel/minimem_map.c:53-180 | over every serial run: the counter is the number of live handles, entries have distinct live handles, and live handles exceed entries by exactly the stores that hit an occupied key |
| StoreSpec.SavingsExact | src/kernel/minimem_zswap.c:128-138 | passing the truncating percentage test means saving the percentage |
| StoreSpec.SavesIff | src/kernel/minimem_zswap.c:128-138 | a stream passes the test if and only if it is shorter than a page and saves the percentage, without truncation |
| StoreSpec.RunSavings | src/kernel/minimem_hook.c:764-783 | over every run with a fixed minimum p, each entry has 0 < len < 4096 and 100 len <= 4096 (100 - p) |
| StoreSpec.TotalSavings | src/kernel/minimem_zswap.c:121-138 | in every reachable state 100 times the stored bytes is at most 4096 (100 - p) times the number of entries |
| Transparency.ReplaceView | src/kernel/minimem_hook.c:681-854 | a successful replacement shows the process the page its codec returns; one that finds the entry changed leaves what it found; any other failure changes nothing the process sees |
| Transparency.FaultView | src/kernel/minimem_hook.c:244-363 | a fault is handled exactly at a marker whose allocations and pool read succeed; then, if the lock is taken again and the entry is unchanged, the page is mapped, and otherwise what is there stays: markers and map still agree if and only if that is no marker, and the process sees what it saw if and only if it is the page |
| Transparency.DrainView | src/kernel/minimem_zswap.c:320-495 | a drain keeps the agreement of markers and map if and only if no page it gets to is left as a marker, and what the process sees if and only if each of them is mapped, by the drain or by whoever changed the entry before it |
| Transparency.DrainedClean | src/kernel/minimem_zswap.c:307-502 | a drain over all slots with all allocations succeeding leaves no marker and no entry, and the mapped pages are what the process saw before |
| Transparency.UnmapView | src/kernel/minimem_zswap.c:504-533 | an unmap with its zap removes the slot and nothing else |
| Transparency.RestoreView | src/kernel/minimem_zswap.c:180-243 | a restore to a caller's page hides the page from the process if and only if it finds an entry and its allocation and pool read succeed |
| Transparency.RemoveView | src/kernel/minimem_zswap.c:245-262 | a removal without an unmap hides a page if and only if the key is stored |
| Transparency.ShrinkView | src/kernel/minimem_shrinker.c:27-60 | the shrinker loses a page if and only if it is asked for one and there is one |
| Transparency.LosesAPage | src/kernel/minimem_hook.c:329-351 | at a reachable state with one compressed page, each of these loses it: a fault or a drain that does not get the lock again, a restore to a caller's page, a removal, the shrinker |
| Transparency.FindsAPage | src/kernel/minimem_hook.c:335-347 | at that state, a fault that finds a page in its entry keeps markers and map in agreement, and what the process sees exactly if it is the same page |
| Transparency.StoresAPage | src/kernel/minimem_zswap.c:85-178 | at that state, a bare store changes what the process sees under the marker's key, and leaves an entry without a marker under any other |
| Transparency.StoreView | src/kernel/minimem_zswap.c:85-178 | a bare store that gets to the map leaves an entry without a marker if and only if the key was free, and on an occupied key keeps what the process sees if and only if the new object decodes to what the old one did |
| Transparency.StepView | src/kernel/minimem_hook.c:681-854 | for all ten operations, by conditions on the state before the step and on what the environment does during it: markers and map stay in agreement if and only if the operation is orderly, and the visible memory changes only as the process asked if and only if it is harmless |
| Transparency.TransparentIff | src/kernel/minimem_zswap.c:85-533 | over every run: markers and map agree throughout if and only if every operation is orderly at its turn, and then the visible memory follows the process's own writes, mappings and unmaps, step by step, if and only if every operation is harmless |
| Transparency.Transparent | src/kernel/minimem_hook.c:244-854 | over every serial run a slot is a marker exactly if it is in the map, and the visible memory follows the process's own writes, mappings and unmaps if and only if no page is compressed that its codec alters and none is replaced by others while its compression is being tried |
| PageStore.Store.MapStore | src/kernel/minimem_map.c:53-81 | the map entry and the counter, or nothing on either failure |
| PageStore.Store.MapLookup | src/kernel/minimem_map.c:83-100 | finds an entry exactly for a stored key; the object behind it is live, of the recorded length, decodable under the recorded algorithm, and no other entry's, so the finder may read it and free it |
| PageStore.Store.MapRemove | src/kernel/minimem_map.c:112-128 | the key leaves the map, and the counter falls only if it was there |
| PageStore.Store.ZsFree | src/kernel/minimem_zswap.c:237 | may only be called on a live handle: no operation frees one twice |
| PageStore.Store.CompressBytes | src/kernel/minimem_hook.c:754-796 | compressed bytes copied out of the CPU's buffer, exactly if they save enough |
| PageStore.Store.CompressAndStore | src/kernel/minimem_zswap.c:85-178 | the new state and the error code are those of the state machine, and those PageStore.StoredIs states |
| PageStore.StoredIs | src/kernel/minimem_zswap.c:85-178 | which code for which cause: full pool, page not worth storing, no memory; otherwise one entry, one object and both statistics, and nothing at all on failure |
| PageStore.Store.CompressAndReplacePte | src/kernel/minimem_hook.c:681-854 | the new state and the error code are those of the state machine, roll-backs included, and those PageStore.ReplacedIs states |
| PageStore.ReplacedIs | src/kernel/minimem_hook.c:681-854 | OK if and only if a page is mapped there that is worth it, everything can be allocated and the entry is still the same; then a marker, an entry and an object; otherwise no object and no count remain |
| PageStore.Store.FaultIn | src/kernel/minimem_hook.c:270-341 | the common course of both fault handlers performs the fault step, with the answers PageStore.AnswersIs states |
| PageStore.AnswersIs | src/kernel/minimem_hook.c:270-341 | not a marker, out of memory, unreadable object or handled, each by its exact cause in the order the code tests them; a handled fault takes entry and object away and, if nothing came between, maps the page |
| PageStore.Store.VmFaultHandler | src/kernel/minimem_hook.c:244-363 | NOPAGE exactly when a marker in the map was found, both allocations and the pool read succeeded and the object decoded; OOM exactly when one of the allocations failed; otherwise SIGBUS |
| PageStore.Store.HandleSwapFault | src/kernel/minimem_hook.c:365-473 | 1 exactly under the same conditions |
| PageStore.Store.DecompressAndRestore | src/kernel/minimem_zswap.c:180-243 | OK exactly if the entry is there, the allocation and the pool read succeed and the object decodes; then the caller's page, or without one the buffer of the CPU, holds the decoded object, which with a lossless LZ4 is the page stored as its codec returns it, and entry, object and statistics are gone; ENOENT and ENOMEM by their causes; otherwise nothing changes |
| PageStore.Store.ZswapRemove | src/kernel/minimem_zswap.c:245-262 | entry, object and statistics go together, or nothing changes |
| PageStore.Store.ZapCb | src/kernel/minimem_zswap.c:504-533 | entry, object and statistics go together, or nothing changes |
| PageStore.Store.RestoreOne | src/kernel/minimem_zswap.c:382-490 | one page of the drain performs the drain step, as PageStore.DrainedIs states |
| PageStore.DrainedIs | src/kernel/minimem_zswap.c:382-490 | a marker in the map whose allocations and pool read succeed loses entry, object and statistics, is counted if its object decodes, and is then mapped if nothing came between; any other is left alone |
| PageStore.Store.DrainAndRestore | src/kernel/minimem_zswap.c:307-502 | the loop performs the drain; with a lossless LZ4 its result is the number of entries that left the map |
| PageStore.Store.ShrinkScan | src/kernel/minimem_shrinker.c:43-60 | erases the first entries of the iteration and frees their objects; returns their number, or SHRINK_STOP for an empty map |
| PageStore.Store.EraseFirst | src/kernel/minimem_map.c:156-175 | one round of the drain callback loop |
| ScanSpec.WalkIs | src/kernel/minimem_scanner.c:648-711 | from any cursor, the walk meets exactly the pages of the scanned areas that are numerically at or behind it, none twice, in the order of the process list and of addresses |
| ScanSpec.FullPass | src/kernel/minimem_scanner.c:648-767 | an uninterrupted pass visits each wanted page of each scanned area exactly once, in that order, and no other page |
| ScanLaws.PassVisits | src/kernel/minimem_scanner.c:363-608 | a pass visits, in order, exactly the pages of anonymous areas that are no device's, not locked and not shared, which are mapped, present, small, anonymous, on the LRU list, not locked and not referenced elsewhere; a sweep those of them that are idle and not young |
| ScanSpec.PiecesVisit | src/kernel/minimem_scanner.c:717-724 | however a pass is cut into cycles, and whatever page states each of them finds: if together they walk everything, each page was walked by one cycle, and visited if and only if that cycle found it wanted |
| ScanResume.Resumes | src/kernel/minimem_scanner.c:659-683 | a cursor leaves exactly the rest of its process and the processes behind it in the list, if the busy processes before it in the list have smaller numbers and those behind it larger ones |
| ScanResume.Strays | src/kernel/minimem_scanner.c:659-683 | if not, a page has been left behind for good or one that comes next is out of turn |
| ScanResume.SortedKeeps | src/kernel/minimem_scanner.c:659 | in a list sorted by process number every stop meets that condition |
| ScanResume.Cut | src/kernel/minimem_scanner.c:713-751 | a cycle cut short keeps the law of its pass: as long as every stop met the condition, what was walked and what is left make up the full walk, afterwards nothing can repair it; and it comes closer to the end either way |
| ScanResume.Ended | src/kernel/minimem_scanner.c:770-778 | a pass that completes has walked everything once and visited what it was after if and only if each of its stops met the condition |
| ScanResume.WrappedNumbers | src/kernel/minimem_scanner.c:659 | with two processes of which the newer has the smaller number, one stop leaves out a process and another walks one twice |
| ScanRuns.CycleOn | src/kernel/minimem_scanner.c:770-778 | one more cycle keeps the laws of a run: phases follow the outcomes, completed passes have visited everything exactly if their stops met the condition, no pass takes more cycles than there are pages |
| ScanRuns.SortedCompletes | src/kernel/minimem_scanner.c:770-778 | in every run over a sorted process list, every completed pass has walked each page of the scanned areas in one of its cycles and visited it exactly if that cycle found it wanted |
| ScanRuns.PhaseEnds | src/kernel/minimem_scanner.c:770-778 | in every run a mark phase completes within as many cycles as there are pages to walk, and one more, and so does a sweep phase that the kernel stays ready for |
| ScanSpec.MmResume | src/kernel/minimem_scanner.c:704-711 | a cursor saved inside an area leaves exactly the rest of the area and the areas behind it |
| ScanSpec.SweepCounts | src/kernel/minimem_scanner.c:575-595 | each cold page is one attempt or one skip-list hit; attempts succeed or are skipped; skip bits stay set |
| ScanLaws.SweepIs | src/kernel/minimem_scanner.c:575-595 | over any cold pages: one is a hit if and only if the bit at its page number modulo 16384 was set before, or an earlier one with an equal number modulo 16384 could not be compressed; any other is attempted, compressed if and only if it can be, and otherwise sets that bit; hits, attempts, successes and failures are counted, no other bit changes |
| ScanSpec.FailedIsSkipped | src/kernel/minimem_scanner.c:273-285 | a page whose compression failed, and every page whose number agrees with its number modulo 16384, is skipped from then on |
| ScanSpec.AccountedThen | src/kernel/minimem_scanner.c:713-724 | budgets and counters of successive areas add up |
| Scanner.Scanner.MarkVma | src/kernel/minimem_scanner.c:363-469 | logs exactly the markable pages of the range it walks, in order; marked plus remaining is the budget; it stops early only for budget or clock, never before the first page, and within 256 pages of the clock running out |
| Scanner.Scanner.SweepPage | src/kernel/minimem_scanner.c:575-595 | one cold page is a skip-list hit, a compression, or a failure that enters the skip list |
| Scanner.Scanner.SweepPages | src/kernel/minimem_scanner.c:508-600 | the loop over one area performs the sweep of the cold pages it walks, and stops early only for batch or clock |
| Scanner.Scanner.SweepVma | src/kernel/minimem_scanner.c:471-608 | which cold pages are hits, which are compressed and which bits are set, as ScanLaws.SweepIs states of their numbers; log, counters and skip list follow; attempts, hits and remaining batch add up; at most 64 attempts between clock readings |
| Scanner.Scanner.ScanArea | src/kernel/minimem_scanner.c:704-749 | one area and the look at budget and clock behind it: unless they are used up, the area has been walked to its end |
| Scanner.Scanner.ScanMm | src/kernel/minimem_scanner.c:676-759 | one process: walked in full, or cut short at a cursor from which the rest of its walk continues |
| Scanner.Scanner.ScanProcs | src/kernel/minimem_scanner.c:648-767 | the process list, sorted or not: walked to its end, or stopped in a process behind the last page walked, with the rest of the walk still to come |
| Scanner.Scanner.Finish | src/kernel/minimem_scanner.c:770-778 | a cut-short cycle keeps its position and its phase; a completed pass has visited everything exactly if its stops met the condition, and flips the phase |
| Scanner.Scanner.RunPass | src/kernel/minimem_scanner.c:610-790 | a cycle logs the wanted pages of what it walks; if it does not complete its pass it has advanced and was stopped by budget or clock; if it does, the cycles of the pass have visited everything exactly if its stops met the condition |
| Scanner.Scanner.ScanBatchVma | src/kernel/minimem_scanner.c:610-790 | the cycle of the pass at hand with its budget; a sweep without marker support hands over and keeps its position |
| Scanner.Scanner.Adapt | src/kernel/minimem_scanner.c:832-851 | eight empty cycles in a row clear the skip list; empty cycles stretch the interval, others reset it |
| Scanner.Scanner.ScanCycle | src/kernel/minimem_scanner.c:813-854 | all of this for one round of the thread, together with what an empty round does to the skip list |
| Scanner.Scanner.Round | src/kernel/minimem_scanner.c:813-854 | the same round as a step of a run |
| Scanner.Scanner.ScannerThread | src/kernel/minimem_scanner.c:804-858 | over any number of rounds, under any clock, any pattern of readiness and any page states in each round: the log grows by what the cycles visit; phases follow their outcomes, a handover being a sweep that was not ready; whenever a pass completes, its cycles have walked each page once, in order, and visited those they found wanted, if and only if each of its stops met the condition; and no pass is cut short more often than there are pages |
| Scanner.Scanner.SetEnabled | src/kernel/minimem_scanner.c:145-154 | enabling starts over: mark phase, no cursors, empty skip list |
| Scanner.Scanner.SetMarkBudgetPages | src/kernel/minimem_scanner.c:254-261 | the budget is clamped to [4096, 524288], so it is never 0 |
| Scanner.Scanner.SetIntervalMs | src/kernel/minimem_scanner.c:156-164 | the interval is clamped to [100, 60000] |
| Vram.SwapRemovedKeeps | src/vram/minimem_vram.c:130-135 | swap-remove takes one record away and keeps all others |
| Vram.SwapRemovedSums | src/vram/minimem_vram.c:127-135 | what swap-remove does to the sums of sizes and copies |
| Vram.CutoffMeaning | src/vram/minimem_vram.c:229 | the idle test is the intended one up to an uptime's worth of threshold; beyond it the subtraction wraps |
| Vram.Context.Register | src/vram/minimem_vram.c:80-115 | appends one hot record, growing the array when it is full; nothing changes on failure |
| Vram.Context.Grow | src/vram/minimem_vram.c:86-96 | twice the capacity, records kept, the new half zeroed |
| Vram.Context.BufIndex | src/vram/minimem_vram.c:243-254 | the first record of the buffer, or SIZE_MAX exactly if there is none |
| Vram.Context.Unregister | src/vram/minimem_vram.c:117-141 | the first record of the buffer is swap-removed with its copy; totals and ledger follow, the compression statistics stay |
| Vram.Context.CompressBuf | src/vram/minimem_vram.c:143-184 | for records the codec has room for: succeeds exactly for a hot record whose contents get shorter, by rows for INT8 and split for every other format, and whose tier is allowed; the copy decodes to those contents; the registry stays tidy if and only if the call failed or the target is not HOT |
| Vram.PackableShrinks | src/vram/minimem_vram.c:38-54 | INT8 weights are compressed by rows, all others as split 16-bit values, and only what gets shorter is kept |
| Vram.CopyForm | src/vram/minimem_vram.c:143-184 | the copy is the INT8 stream or a split stream of the contents |
| Vram.Context.DecompressBuf | src/vram/minimem_vram.c:186-220 | succeeds exactly outside the hot tier and restores the contents at compression time, whatever the buffer holds by then |
| Vram.Context.CompressIfIdle | src/vram/minimem_vram.c:233-237 | one turn of the loop, with its share of the statistics |
| Vram.Context.CompressAllIdle | src/vram/minimem_vram.c:222-241 | exactly the hot buffers that are idle, by the threshold itself or beyond an uptime's worth of it by the wrapped one, and whose contents get shorter are compressed, all others keep their records; the result and the statistics are the sums over the chosen ones |
| Vram.Context.Touch | src/vram/minimem_vram.c:265-270 | only the access time changes |
| Vram.Context.Ledger | src/vram/minimem_vram.c:178-216 | compressions are decompressions plus buffers outside the hot tier plus buffers released while compressed |
| Vram.Context.constructor | src/vram/minimem_vram.c:48-64 | an empty registry of the asked capacity, 64 if none is asked |

## Left out

- Interleavings inside the kernel paths: each exported call is one atomic step, apart from
  what it finds in its own page-table entry when it takes the lock again. The lock is
  dropped between reading a page and replacing its entry (src/kernel/minimem_hook.c:737-829),
  and finer-grained versions of transparency and conservation do not hold.
- Page-table entries have contents but no flags: whether an entry that maps a page has
  changed (`pte_same`) is the environment's word. Mapping a page of the kernel for access
  is taken to succeed.
- Transparency.TransparentIff: one address space only, because the map is keyed by page
  number alone (src/kernel/minimem_map.c:58); the conservation law covers several.
- Scanner.Scanner.ScanBatchVma: the processes and their areas do not change, page states do
  not change within one round, and the trylocks of process memory succeed. The stop
  request of the thread, the counters of skipped areas and pages and the registration with
  the MMU notifier are not modelled, nor is the effect of a mark on the idle and young
  flags: what each round finds is arbitrary.
- The scanner's physical-page mode, which uses no cursor into address spaces.
- Vram.Context.CompressBuf: hot buffers of more than 64 whole blocks, for which the codec's
  tables have no room, may be registered but not compressed. The compressed copy is a byte string owned by the record rather than
  a separately allocated buffer; times spent compressing are not kept.
- StoreSpec.StepKeeps: counts of faults, zaps and saved bytes, page reference counts and
  resident-set counters are not part of the state.
- PageCodec.PackUnpack: LZ4 is an abstract pair of functions assumed to be inverse; LZSSE8 and
  Zstandard and the stand-alone same-page and delta codecs are not modelled.
- Wkdm.Decompress: streams with an exact index outside the dictionary, which no encoder
  produces, are excluded by a precondition.
- BlockClass.Decompress: streams whose type list reaches behind their end, which no encoder
  produces, are excluded by a precondition.
- AiWeights.Decompress: the same holds for its one or two type lists.
- PageCodec.DecompressPage: the same holds for the codec recorded with the stream.
- Inputs of the codecs are byte sequences, so an output buffer that overlaps the input is
  not considered. Inputs are at most 4096 bytes where the code's local arrays require it.
- Rows of a block codec are computed once and kept; the code computes them again for its
  second pass.
- BDI's own compress bound, which is too small for raw lines; every write is shown to be
  tested before it is made instead.
- NULL arguments other than a NULL buffer in the registry, and per-CPU buffers that could
  not be allocated.
- StoreSpec.CountedRun: the stored-pages statistic is a count of live objects only in runs
  without compression in place, faults and the shrinker; these change the map without
  changing it (`StoreSpec.Statistics`), so no such law holds of all runs.
- The parallel compression module and reference counts of address spaces.
- Compatibility checks, symbol resolution, sysfs and debugfs files, process statistics,
  names of tiers and formats, tier advice: they would only add easy members.
