# LZW chunk archiver — a Dafny model

This project models the core of a small C++ LZW archiver (`main.cpp`) and
proves properties of it.

The archiver works like this:
- It cuts a text into 16 chunks.
- It compresses every chunk on its own with LZW. The dictionary is seeded with
  the 256 single bytes, and the codes are 32-bit integers.
- It writes each chunk's codes as raw 4-byte groups into one artifact per chunk.
- Decompression reads the 16 artifacts, decodes each one into a per-index slot,
  and joins the slots in index order.
- Both directions hand out the chunk indices to 1, 2, 4, 8 or 16 worker threads
  in equal consecutive blocks.

Modules, following the program's structure:

- `Base`: bytes, 32-bit codes, the `Result`/`Option` types, `Concat`, and the
  repeated-addition index `Offset` that the dispatch loop uses (the splitter
  multiplies; `Base.OffsetIsProduct` shows the two agree).
- `Dictionary`: the two seeds of the dictionary, and the `WellFormed` shape of
  a code stream.
- `Encoder`: `compress` as a step function over the input (`Step`, `Run`), the
  final flush (`Compress`), and the dictionary invariant `Valid`.
- `Decoder`: `decompress`, with the unchecked first code, the KwKwK case and
  the `InvalidCompressedData` error.
- `RoundTrip`: the lock-step simulation of encoder and decoder, and the
  round-trip theorem for one chunk.
- `Artifact`: `save_compressed_data` / `read_compressed_data` as pure functions
  on byte sequences, little-endian.
- `Splitter`: the 16-way chunk split of `archive`.
- `Dispatch`:
  - the accepted thread counts;
  - the per-thread index ranges;
  - the per-index result slots, filled in any completion order.
- `Archive`: the two pipelines end to end (`CompressFile`, `DecompressFile`),
  and the archiver's round trip.
- `Example`: the classic "TOBEORNOTTOBEORTOBEORNOT" traced through both the
  encoder and the decoder.

Behaviour of the code that the model keeps as written:

- **The decoder does not check its first code.**
  - It reads `dictionary[prev_code]` with `operator[]`.
  - So a first code outside 0..255 inserts an empty string under itself and
    decodes to nothing (`Decoder.First`, `Decoder.FirstCodeUnchecked`).
  - Every later code is checked against the dictionary and its size.
- **A decoding error is not caught.**
  - The error is thrown inside a worker thread, and nothing catches it there.
  - So the whole decompression ends without output.
  - `Archive.DecompressFile` therefore fails as a whole as soon as any chunk
    fails to decode. The code does not isolate errors per chunk.
- **A missing, empty or shorter-than-4-byte artifact is not an error.**
  - It leaves its slot as the empty string (`Archive.DecompressChunk`).
  - The joined text then silently lacks that chunk.
- **`prev_str[0]` and `str[0]` read the terminating `'\0'` of an empty string.**
  - `Base.Head` models this read.
  - It can only matter after an unchecked first code.
- **`dictionary[next] = dictionary.size()` reads the size before insertion.**
  - This is C++17 sequencing of the assignment.
  - So the new string gets the old size as its code, and codes stay gapless: 256, 257, ….
- **Codes are 32-bit.**
  - A chunk of n bytes uses codes below 256 + n − 1.
  - So codes fit `int32_t` for chunks up to `Archive.MaxChunk` bytes.
  - `Archive.Wrap` models the conversion of larger sizes.

## Model

| member | source | states |
|---|---|---|
| Dictionary.SeedCodesBelowShape | main.cpp:39-41 | after n rounds of the seeding loop the dictionary has n entries; each is a single byte below n, stored under its own value; every byte below n is present |
| Dictionary.SingleBytesShape | main.cpp:39-41 | the strings the seeding loop inserts are exactly the single-byte strings below n, and there are n of them |
| Dictionary.SeedLoop | main.cpp:39-41 | the seeding loop builds the same map as the reference definition: single byte w maps to w[0] |
| Dictionary.SeedCodes | main.cpp:39-41 | the encoder's seed has exactly 256 entries; every key is one byte stored under its own value, and every byte is a key |
| Dictionary.SeedStringsBelowSize | main.cpp:173-175 | the decoder's seed after n rounds has n entries |
| Dictionary.SeedStrings | main.cpp:173-175 | the decoder's seed maps exactly the codes 0..255, each to its single-byte string |
| Encoder.Init | main.cpp:36-44 | the encoder starts with the seed, an empty prefix and no codes, and satisfies the invariant `Valid` (seed kept, codes 0 .. size-1 used once each, one entry per emitted code) |
| Encoder.LearnKeepsInvariant | main.cpp:51 | adding a new string under code size-of-dictionary keeps the seed, keeps every code below the size, and keeps codes unique |
| Encoder.Step | main.cpp:45-54 | one loop iteration keeps `Valid` and changes no existing entry; when prefix+c is known it only extends the prefix to prefix+c; when it is unknown it emits exactly one code, that of the (non-empty) prefix, learns prefix+c under the old size and restarts the prefix at [c]; earlier codes are kept |
| Encoder.Run | main.cpp:43-54 | after the loop the invariant holds, so the dictionary has 256 + (codes emitted) entries with gapless codes; the prefix is empty exactly when the chunk is empty; codes plus pending bytes never exceed the chunk length |
| Encoder.Compress | main.cpp:35-61 | the output is empty exactly when the chunk is empty; it has at most one code per byte; the code at position i is below 256 + i |
| Encoder.EmittedCodesKnown | main.cpp:50 | every code the loop has emitted is the code of a string still in the dictionary |
| Encoder.StepKeepsCodesKnown | main.cpp:45-54 | one iteration keeps every emitted code among the dictionary's codes |
| Encoder.CompressFlushesOnce | main.cpp:56-58 | for a non-empty chunk the output is the loop's codes followed by exactly one more code, that of the pending prefix, which is in the dictionary |
| Decoder.First | main.cpp:177-179 | the first code is looked up unchecked: a byte value gives its one-byte string over the seed; any other value adds an empty entry under itself, giving 257 entries and no text; the seed survives either way |
| Decoder.Step | main.cpp:181-196 | a later code fails exactly when it is neither a key nor the dictionary size; otherwise it resolves to the entry, or to prev + first byte of prev for the size; the string is appended to the text; prev + first byte of the string is learned under the old size; all other entries are kept and nothing else is added |
| Decoder.Decompress | main.cpp:169-199 | a stream whose first code is a byte value decodes without error exactly when every code at position i lies in 0 .. 255 + i, so a code that is neither known nor the next one aborts; an empty input is excluded, as the caller guards it |
| Decoder.LearnKeepsValid | main.cpp:194 | learning a non-empty string under the next code keeps the decoder's dictionary shape and grows it by one |
| Decoder.StepKeepsValid | main.cpp:185-195 | on a well-shaped dictionary a step succeeds exactly for codes 0 .. dictionary size, and then grows the dictionary by exactly one entry and keeps its shape |
| Decoder.DecodesIffWellFormed | main.cpp:181-196 | a stream starting with a byte value decodes exactly when the code at each position i is in 0..255+i; the dictionary then holds 255 + (number of codes) entries |
| Decoder.SeedSurvives | main.cpp:173-196 | in every decoding that has not failed, codes 0..255 still map to their single-byte strings |
| Decoder.FirstCodeUnchecked | main.cpp:177-179 | a single first code outside 0..255, negative included, decodes without error to the empty text |
| Decoder.NegativeCodeFails | main.cpp:185-191 | after a byte-valued first code, a negative code anywhere in the stream makes decoding fail |
| RoundTrip.ResolvesCurrent | main.cpp:185-188 | when the two sides are in lock step, the decoder resolves the code the encoder emits for its prefix to that prefix, in both the known and the KwKwK case |
| RoundTrip.InvertsAfterLearning | main.cpp:194 | when the encoder learns a string and the decoder learns the encoder's previous newest entry, the decoder's dictionary stays inverse to the encoder's, one entry behind |
| RoundTrip.ExtendKeepsLockstep | main.cpp:47-48 | extending the prefix changes neither side's dictionary or output, so lock step is kept |
| RoundTrip.EmitKeepsLockstep | main.cpp:49-53 | an emission, matched by the decoder reading that code, keeps the two sides in lock step |
| RoundTrip.Simulation | main.cpp:45-54 | after any non-empty input the encoder's state is matched by a decoder state that has read the emitted codes and rebuilt the input minus the pending prefix |
| RoundTrip.Flush | main.cpp:56-58 | flushing the pending prefix makes the decoder rebuild the whole input |
| RoundTrip.DecompressCompress | main.cpp:35-199 | for every non-empty chunk, decoding its codes gives the chunk back, and the error branch is never taken |
| Artifact.Unsigned | main.cpp:71 | the bit pattern of a 32-bit code is the number below 2^32 congruent to it modulo 2^32 (two's complement) |
| Artifact.CodeOfCodeBytes | main.cpp:71 | decoding the four bytes written for a code gives the code back |
| Artifact.CodeBytesCodeOf | main.cpp:161 | every 4-byte group read is exactly the bytes of the code it reads as |
| Artifact.Save | main.cpp:70-72 | k codes are written as 4k bytes |
| Artifact.SaveGroup | main.cpp:70-72 | bytes 4i..4i+3 of the artifact are the bytes of code i |
| Artifact.Read | main.cpp:159-163 | reading n bytes yields n / 4 codes: whole groups only |
| Artifact.ReadGroup | main.cpp:161-163 | code i read back is the code of bytes 4i..4i+3 |
| Artifact.ReadSave | main.cpp:161-163 | reading an artifact that was written from codes gives exactly those codes |
| Artifact.SaveRead | main.cpp:161-163 | reading and rewriting an artifact reproduces all its whole groups, and exactly its trailing partial group is lost |
| Artifact.ReadDropsPartialGroup | main.cpp:161-163 | a trailing group of fewer than 4 bytes makes no difference to what is read |
| Base.OffsetIsProduct | main.cpp:133 | advancing an index i times by `step` reaches i * step |
| Splitter.Substr | main.cpp:112 | `substr(pos, len)` from inside the string gives the len bytes from pos, or fewer when the string ends first |
| Splitter.Split | main.cpp:108-117 | the splitter yields exactly 16 chunks |
| Splitter.PieceAt | main.cpp:111-113 | piece i of the loop is the chunk-size bytes from `Offset(chunk size, i)`, which is i * chunk size by `Base.OffsetIsProduct`, and they lie inside the text |
| Splitter.SplitChunk | main.cpp:111-113 | each of chunks 0..14 is the chunk-size bytes starting at its offset |
| Splitter.LastOffset | main.cpp:115-116 | for a text of n bytes the 16 whole chunks end n % 16 bytes before the end of the text |
| Splitter.SplitLast | main.cpp:115-116 | the last chunk runs from its offset to the end of the text, remainder included |
| Splitter.SplitLengths | main.cpp:108-117 | for a text of n bytes, chunks 0..14 have n / 16 bytes; the last has n / 16 + n % 16 |
| Splitter.SplitShort | main.cpp:108-117 | a text shorter than 16 bytes leaves chunks 0..14 empty and lands whole in the last chunk |
| Splitter.SplitCovers | main.cpp:108-117 | concatenating the 16 chunks in index order gives the text back |
| Dispatch.ValidThreadCountValues | main.cpp:282-285 | the accepted thread counts 1, 2, 4, 8, 16 are exactly the counts from 1 to 16 that divide 16 |
| Dispatch.RangesFrom | main.cpp:130-134 | the dispatch loop gives thread k the range [index + Offset(per, k), index + Offset(per, k) + per), where Offset(per, k) is k*per by `Base.OffsetIsProduct` |
| Dispatch.Ranges | main.cpp:120-134 | there are w ranges; thread k's range runs from the sum of k blocks of 16/w to the sum of k+1 such blocks, as the loop adds them up (equal to k*(16/w) by `Base.OffsetIsProduct`) |
| Dispatch.RangesPartition | main.cpp:120-134 | for an accepted count the ranges are non-empty; they start at 0, follow each other without gap or overlap, and end at 16 |
| Dispatch.CoversIffValid | main.cpp:120-134 | the ranges of w >= 1 threads reach chunk 16 exactly when w is an accepted count |
| Dispatch.OwnerContains | main.cpp:236-240 | for an accepted thread count w, every chunk index j in 0..15 lies in the range of thread j / (16/w) |
| Dispatch.OwnerUnique | main.cpp:236-240 | for an accepted thread count, a chunk index lies in the range of no other thread |
| Dispatch.JobsUpToPrefix | main.cpp:236-240 | the first k threads together process the indices 0 .. Offset(16/w, k)-1, each once, in increasing order; Offset(16/w, k) is k*(16/w) by `Base.OffsetIsProduct` |
| Dispatch.JobsCover | main.cpp:236-240 | for an accepted count the threads together process every chunk index 0..15 exactly once |
| Dispatch.FillSlot | main.cpp:211-214 | slot j holds what chunk j wrote if chunk j ran and wrote something, and its initial value otherwise; no chunk writes another chunk's slot |
| Dispatch.FillAnyOrder | main.cpp:242-244 | once every chunk has run, the slots are the same whatever the order of completion |
| Dispatch.CompletionOrderCovers | main.cpp:236-240 | any order that runs each of the threads' jobs once runs every chunk index and only chunk indices |
| Dispatch.FillCompletion | main.cpp:236-252 | filling the 16 slots in any completion order of an accepted count gives every slot its own chunk's result |
| Archive.Wrap | main.cpp:51 | converting a size to `int32_t` gives a value congruent modulo 2^32 that is unchanged when it fits |
| Archive.CodesFit | main.cpp:51 | the codes of a chunk of at most `MaxChunk` bytes fit 32 bits, so none wraps |
| Archive.CompressChunk | main.cpp:77-80 | a chunk's artifact has 4 bytes per code, and is empty exactly when the chunk is empty |
| Archive.DecompressChunk | main.cpp:201-209 | an artifact with no whole group leaves the slot untouched; otherwise the chunk fails exactly when decoding its codes fails, and else yields the decoded text |
| Archive.DecompressChunkCompressChunk | main.cpp:201-209 | a chunk's artifact decodes back to the chunk; an empty chunk's artifact leaves its slot untouched |
| Archive.CompressFile | main.cpp:108-138 | in every completion order artifact j is the compressed chunk j of the split |
| Archive.DecompressFile | main.cpp:217-252 | the run fails exactly when some chunk fails to decode; otherwise its result is the decoded slots joined in index order, whatever the completion order |
| Archive.RestoresChunks | main.cpp:249-252 | for a text of at most `MaxChunk` bytes, decompressing its artifacts gives its chunks joined in index order, for any accepted thread counts and completion orders |
| Archive.ArchiveRoundTrip | main.cpp:89-252 | decompressing the artifacts of any text of at most `MaxChunk` bytes gives the text back, for any accepted thread counts and completion orders on either side |
| Example.EncoderExtend | main.cpp:47-48 | a byte that extends the prefix to a learned string leaves the learned strings and the codes as they were (prefixes of at most three bytes, as in the example) |
| Example.EncoderEmit | main.cpp:49-53 | a byte that makes the prefix unknown emits the prefix's code and learns prefix + byte under the next code (prefixes of at most three bytes, as in the example) |
| Example.DecoderStep | main.cpp:181-196 | a code resolves to its string, which continues the text, and the decoder learns prev + its first byte (strings and previous strings of at most three bytes, as in the example) |
| Example.EncodesExample | main.cpp:35-61 | "TOBEORNOTTOBEORTOBEORNOT" encodes to 84 79 66 69 79 82 78 79 84 256 258 260 265 259 261 263 |
| Example.DecodesExample | main.cpp:169-199 | those 16 codes decode back to the same 24 bytes |

## Left out

- File and directory I/O is not modelled. This covers opening, reading and writing files, creating `output/`, writing `output.txt`, and the file-size reports. An artifact is the byte sequence its file holds, and a file that cannot be opened is an empty one (`read_compressed_data` returns no codes for it).
- Threads and `join` are not modelled. The concurrency is reduced to a completion order: any order that runs each of the threads' jobs once (`Dispatch.CompletionOrder`). This covers every interleaving of the threads' job lists.
- Timing (`std::chrono`) and the console menu are not modelled: prompts, messages and the mode selection. Only the thread-count check is kept.
- The artifact's byte order is fixed to little-endian two's complement. The source copies the integer's bytes in native order.
- Artifact file names (`compressed_part_<i>.bin`) are not modelled. Artifacts are addressed by index.
- Archive.DecompressChunkCompressChunk assumes the chunk is at most `Archive.MaxChunk` bytes, so that every code fits `int32_t`. The codes of a longer chunk may wrap (see `Archive.Wrap`); this is not modelled further.
- Archive.ArchiveRoundTrip and Archive.RestoresChunks assume the whole text is at most `Archive.MaxChunk` bytes. The reason is the source's `int` arithmetic on sizes and offsets (main.cpp:109, 112, 116), which overflows near 2^31 bytes; codes depend only on chunk length and would fit for longer texts. Texts beyond this bound are not modelled.
- Decoder.Decompress requires a non-empty code sequence. The source indexes `compressed_data[0]` unguarded, and its only caller checks for emptiness first.
- Splitter.Substr is modelled only for a start inside the string. The splitter never passes a start past the end, so the `std::out_of_range` path of `substr` is not modelled.
- The way the C++ runtime ends the process after an uncaught exception in a worker is not modelled. It appears only as `DecompressFile` failing as a whole.
