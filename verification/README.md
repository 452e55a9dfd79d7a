# Verified model of lgz_compress

This project models the reversible compression pipeline of `lgz_compress` and its two archive formats, and
proves that unpacking gives back exactly what was packed.

* **UCOMP01** holds one file. The encoder splits it along its ELF sections, tries many preprocessing types on the
  pieces and on the whole, lets a multi-block and a single-blob layout compete, and writes the shorter one. For
  types 3, 4 and 6 the decoder finds the code ranges again by parsing the ELF tables out of the *transformed* file.
* **UCOMP02** holds a tree. Every file is normalized, the blobs are clustered and laid out in one solid blob, the blob
  is compressed once as an opaque UCOMP01 image, and the places and code ranges are stored in an entry table. The
  unpacker denormalizes every file where it lies in the shared blob.

## How to read it

One module per file; modules follow the Rust source files. A function gives the meaning of an operation; where the
source works step by step, a method with the source's loop is proved equal to that function, and lemmas prove what
the source promises of the function.

| Rust source | modules |
|---|---|
| `src/normalize.rs`, `src/delta.rs`, `src/planes.rs` | `Normalize`, `Delta`, `Planes`, and `Transforms`, which composes them over lists of ranges |
| `src/elf.rs` | `Elf`, `CodeSections` |
| `src/lzma.rs`, `src/format.rs` | `Lzma`, `Format` |
| `src/chunk.rs`, `src/compress.rs` | `Selection`, `OptimizerRace`, `Chunking`, `ChunkSearch`, `Compress`, `EncoderLaws` |
| `src/decompress.rs` | `Decompress`, `ParallelDecode` |
| `src/pack.rs` | `ContainerFormat`, `ContainerCodec`, `ContainerRoundTrip`, `ContainerFraming`, `ContainerExact`, `Cluster`, `SolidLayout`, `Packing`, `SolidOrder`, `Unpacking`, `Ucomp02`, `PackedTable` |
| results across files | `WireLayout` for both formats byte by byte, `Variants` for the preprocessing byte by byte, `Ucomp01`, `Ucomp02RoundTrip`, and the counterexample `OverlappingSections` |
| shared | `Bytes`, `Sorting` |

The main results are `Ucomp02RoundTrip.PackThenUnpack` and `Ucomp02RoundTrip.SingleFileThenUnpack`,
`Ucomp01.FileRoundTrip`, `Ucomp01.BlobRoundTrip` with `Ucomp01.ReparseStable` over `Elf.ParseFrame`,
`Transforms.InOrderUndoExact`, `OptimizerRace.ScheduleIndependent`, `ParallelDecode.ParallelRefinesSequential`,
`ContainerExact.AcceptedExact` and `ContainerFraming.ExactFraming`. What is written, and when, is fixed by
`EncoderLaws.CompressSucceeds`, `PackedTable.PackSucceeds`, `PackedTable.PackedImageSays` and
`SolidOrder.SolidInClusterOrder`. A round trip alone says nothing about which bytes are in between, so the parsers, the
transforms and both formats are also stated on bytes, without their defining functions: `Elf.ParseExact`,
`Normalize.RebaseArmBits`, `Normalize.X86Bytes`, `Transforms.PlanedBytes`, `Variants.VariantBytes`,
`Variants.UndoInverts`, `Format.HeaderExact` and the lemmas of `WireLayout`.

## Conventions and hypotheses

* **LZMA2** is a parameter. The type `Lzma.Codec` holds every encoder and decoder pair for which a stream decodes, under
  the dictionary it was made with, to its input, and is shorter than 4 GiB with its props byte. The type's witness, a codec
  that stores its input, shows that the hypothesis can be met. The encoder may fail on any input; where a result is that something is
  written, it says up to which size the codec encodes (`EncoderLaws.EncodesUpTo`), which the witness does.
* **Widths.** `usize` is 64 bits. Casts and wrapping arithmetic are written out as remainders; bit fields of a word are
  quotients and remainders by powers of two; checked additions are comparisons with the 64-bit maximum.
* **Strings** are byte strings; the UTF-8 test is a parameter, and so is the lowercase mapping used for clustering.
* **Errors** keep their kind (`src/error.rs`) and lose their text.
* **Overlap.** `build_chunks` and the in-order undo rely on sections that do not overlap, as the System V ABI (gABI) asks in
  chapter 4, "Sections", and do not check it. No result here assumes it; each says what happens.
  * Undoing ranges in the order in which they were transformed is right exactly when the order does not matter:
    transforming them from the last to the first gives the same bytes (`Transforms.InOrderUndoExact`). The encoder could
    check that before it writes.
  * A packed tree always unpacks without error, and every file comes back exactly when that holds for its code sections.
    Where it does not hold, other bytes of the same length come back (`Ucomp02RoundTrip.PackThenUnpack`).
  * A single file comes back from a multi-block image exactly when no two sections overlap, from a single blob of type 0 or 5
    always, and from one of type 3, 4 or 6 that still parses to the same sections exactly when their order does not matter
    (`Ucomp01.FileRoundTrip`).
  * `OverlappingSections` is a 198-byte ELF file with two code sections that share four bytes, which the code does not restore.

## Where the documentation and the code differ

The model follows the code.

* The README puts each payload after its chunk record; the code writes the whole chunk table before all payloads (`src/format.rs:90-105`, `src/format.rs:135-180`).
* The decoder's output cap is 2 GiB (`src/format.rs:48`), while the encoder accepts up to 4 GiB (`src/compress.rs:309`). So an image
  can be written that is then refused: `EncoderLaws.WrittenThenRefused`; the round-trip results state both sides of that limit.
* The parser accepts at most 10,000,000 entries and rejects empty paths, which the encoder does not check (`src/pack.rs:268-337`, `src/pack.rs:495-593`).
  `ContainerRoundTrip.ContainerBack` and `Ucomp02RoundTrip.PackThenUnpack` state exactly when a written container is accepted.
* The head comment of `src/elf.rs` lists the 386 machine as x86; the code accepts only x86-64 and AArch64 (`src/elf.rs:80-87`).

## Model

| member | source | states |
|---|---|---|
| Normalize.RebaseArmInverse | src/normalize.rs:14-91 | On every 32-bit word and address, denormalizing an ARM64 instruction undoes normalizing it, and the other way round |
| Normalize.ClassesDisjoint | src/normalize.rs:20-51 | No word is both a B/BL and an ADRP |
| Normalize.RebaseLowBits | src/normalize.rs:22-46 | Sign extension and the 32-bit wrap vanish under the 26-bit and 21-bit masks |
| Normalize.RebaseArmMoves | src/normalize.rs:14-91 | A branch field moves by its word offset modulo 2^26, a page field by its page modulo 2^21, and no other bit changes |
| Normalize.RebaseArmBits | src/normalize.rs:14-91 | On numbers: words whose top six bits are those of B or BL get their low 26 bits moved and keep the rest; ADRP words get their 21-bit page field moved; all other words stay |
| Normalize.ArmInverse | src/normalize.rs:14-91 | ARM64 normalize and denormalize are mutually inverse on every byte string; an incomplete last word stays |
| Normalize.ArmWordAt | src/normalize.rs:14-91 | Word k of a section is rebased at its own offset and page |
| Normalize.ArmTail | src/normalize.rs:14-91 | Bytes after the last whole word are kept |
| Normalize.X86Rewrites | src/normalize.rs:95-123 | Exactly the operands of visited opcodes are rebased, each at the address after it, where an opcode is visited unless it lies in the operand of a visited one |
| Normalize.X86Bytes | src/normalize.rs:95-123 | On bytes: 0xE8 and 0xE9 outside the operand of an earlier one, with room for an operand, are the visited opcodes, and the operand becomes the sum with its address modulo 2^32 |
| Normalize.SameVisits | src/normalize.rs:95-123 | Both scans visit the same opcodes: an offset is visited before the rewrite if and only if it is visited after it |
| Normalize.X86Inverse | src/normalize.rs:95-123 | x86 normalize and denormalize are mutually inverse on every byte string |
| Normalize.Arm64Normalize | src/normalize.rs:14-52 | The indexed in-place loop (page `i >> 12`) changes its window to the specified rebasing and nothing else |
| Normalize.Arm64Denormalize | src/normalize.rs:58-91 | The chunked in-place loop (page `idx >> 10`) does the reverse rebasing of the same specification |
| Normalize.X86Rebase | src/normalize.rs:95-123 | The in-place opcode scan equals the specified rebasing of its window, in either direction |
| Delta.SumsOfDifferences | src/delta.rs:9-29 | Running sums modulo 256 undo differences, from any starting value |
| Delta.DifferencesOfSums | src/delta.rs:9-29 | Differences undo running sums |
| Delta.DifferenceAt | src/delta.rs:9-16 | Each byte becomes its difference modulo 256 from its original predecessor |
| Delta.SumAt | src/delta.rs:21-29 | Each byte becomes its own value plus the decoded predecessor modulo 256 |
| Delta.Encode | src/delta.rs:9-16 | The backward in-place loop yields exactly the differences |
| Delta.Decode | src/delta.rs:21-29 | The forward accumulator loop yields exactly the running sums |
| Planes.PlaneAt | src/planes.rs:9-22 | Item i of plane k is byte k of instruction i |
| Planes.InterleaveAt | src/planes.rs:28-49 | Byte k of instruction i is item i of plane k |
| Planes.MergeSplit | src/planes.rs:9-49 | Merging the planes of any byte string, tail included, restores it |
| Planes.SplitMerge | src/planes.rs:9-49 | Splitting a merged byte string restores the planes |
| Planes.Encode | src/planes.rs:9-22 | The indexed loop writes byte 3, 2, 1, 0 planes and then the tail |
| Planes.Decode | src/planes.rs:28-49 | The loop over output words reassembles every instruction and copies the tail |
| Transforms.PerPlaneInverse | src/chunk.rs:68-74 | Delta coding of four planes is undone plane by plane for every length |
| Transforms.ApplyInverse | src/chunk.rs:65-77 | Each of the three section transforms is undone by its reverse on every byte string, in both orders |
| Transforms.PlanedBytes | src/chunk.rs:65-77 | Byte by byte: the transform of ARM64 code into planes is, for each of the four byte positions from the last to the first, that byte of every normalized instruction less the same byte of the one before, then the tail |
| Transforms.CodePlanes | src/compress.rs:191-206 | In place, each plane is delta coded or summed and the tail is untouched, also for fewer than two instructions |
| Transforms.PlaneSection | src/compress.rs:191-206 | Normalize, split and delta code one section where it lies |
| Transforms.UnplaneSection | src/decompress.rs:20-51 | Sum, merge and denormalize one section where it lies |
| Transforms.ApplyAllInverse | src/decompress.rs:54-68 | Undoing disjoint ranges in the same order restores every byte |
| Transforms.OutsideUnchanged | src/decompress.rs:54-68 | A byte outside all ranges keeps its value |
| Transforms.RangeTransformed | src/decompress.rs:54-68 | Among disjoint ranges each one holds the transform of its own original bytes |
| Transforms.InOrderUndoExact | src/decompress.rs:54-68 | Undoing any ranges in the order in which they were transformed restores the bytes if and only if transforming them in reverse order gives the same |
| Transforms.DisjointIsOrderFree | src/decompress.rs:54-68 | Disjoint ranges meet that condition |
| Transforms.ReverseOrderUndoes | src/decompress.rs:54-68 | Undoing in reverse order would restore any ranges, overlapping or not |
| Elf.ParseBounds | src/elf.rs:70-148 | Parsed sections are non-empty, inside the file, in offset order and at most 65535 |
| Elf.ParseExact | src/elf.rs:70-148 | For any bytes: a file parses if and only if it is a 64-bit ELF of one of the two machines whose table lies inside and the end of no PROGBITS record overflows; each section is listed as often as records of the file's bytes describe it, and the list is sorted |
| Elf.SectionBytes | src/elf.rs:103-128 | From the 64 bytes of a section record: only PROGBITS, not empty, ending inside the file; code if and only if flag bit 2 is set, whatever the other flags |
| Elf.SegmentBytes | src/elf.rs:185-212 | From the 56 bytes of a program header: only PT_LOAD, not empty, ending inside the file; code if and only if flag bit 0 is set |
| Elf.ParseForPackExact | src/elf.rs:160-217 | The sections if there are any, otherwise exactly the segments that the program headers describe, and nothing if there are none |
| Elf.ParseFrame | src/elf.rs:70-148 | The parser depends on the length, the 64-byte header and the records it visits, and on nothing else |
| Elf.ParseForPackBounds | src/elf.rs:160-217 | The same bounds hold with the segment fallback, and the result is never empty |
| Elf.ParseSections | src/elf.rs:70-148 | The record loop with early return computes the specified section list |
| Elf.ParseSegmentsToo | src/elf.rs:160-217 | The section attempt and the segment loop compute the specified fallback |
| CodeSections.SectionsUndoExact | src/decompress.rs:54-68 | Undoing the code sections in list order restores the file exactly when their order does not matter |
| CodeSections.ApplySectionsInverse | src/decompress.rs:54-68 | In particular it does if the sections do not overlap |
| CodeSections.TransformSections | src/compress.rs:171-217 | The loop over sections transforms exactly the code sections, in list order |
| Lzma.FindDictPropsByte | src/lzma.rs:80-87 | The search loop with early return finds the specified props byte |
| Lzma.DictPropsByteLeast | src/lzma.rs:80-87 | The props byte is the least whose dictionary is large enough |
| Lzma.DictPropsByteInverts | src/lzma.rs:70-87 | It inverts the decoding of props bytes below 40 |
| Lzma.OptimalDictSizeBounds | src/lzma.rs:41-50 | The dictionary covers its target, wastes less than half of it, and its props byte decodes to it |
| EncoderLaws.DictionaryByLevel | src/lzma.rs:41-50 | The dictionary is the least that LZMA2 can express which covers the input, from 4 KiB up to 16, 32, 64 or 128 MiB by level |
| EncoderLaws.PayloadLayout | src/lzma.rs:131-154 | A payload is the props byte of that dictionary and the stream made at the level's depth; it fails exactly for invalid combinations and failures of the codec |
| Lzma.PayloadRoundTrip | src/lzma.rs:131-182 | A payload is non-empty, fits 32 bits, and decodes to its input exactly when the input is within the cap |
| Format.BuildHeader | src/format.rs:90-105 | The buffer filled field by field is the specified header |
| Format.ReadHeader | src/format.rs:111-181 | The checks and the record loop compute the specified parse, error for error |
| Format.HeaderSound | src/format.rs:111-181 | For any bytes accepted: payload ranges are non-empty, consecutive and in bounds, and sizes sum to the declared size |
| Format.TableExact | src/format.rs:135-180 | Reading a table gives the records with ranges selecting each payload if and only if every type is known, no payload is empty, all fit the file and the sizes add up |
| Format.HeaderExact | src/format.rs:111-181 | For any bytes: which headers are accepted, what is read from them, and which error comes out of every other |
| Format.HeaderRoundTrip | src/format.rs:90-181 | The same for a whole written header followed by payloads |
| Selection.WinnerIsEarliestShortest | src/chunk.rs:40-50 | The winner is an earliest shortest success, and there is none exactly when all failed |
| Selection.ImproveKeepsBest | src/compress.rs:385-396 | The guarded update keeps the minimum by payload length and pass index |
| Selection.BestIsWinner | src/compress.rs:373-410 | Whatever is that minimum over all passes is the one winner |
| OptimizerRace.StepInv | src/compress.rs:373-403 | Every step of every thread keeps the invariant of the race, including that no two threads hold one pass |
| OptimizerRace.AlwaysBestSoFar | src/compress.rs:373-403 | In every reachable state the shared best is the minimum over the passes finished so far |
| OptimizerRace.ScheduleIndependent | src/compress.rs:373-410 | Every finished interleaving of any number of threads ends with the same winner |
| OptimizerRace.NeverStuck | src/compress.rs:373-403 | While work is left some thread can move |
| OptimizerRace.StepLowersWork | src/compress.rs:373-403 | Every step lowers a measure of the pending, busy and unlocked passes |
| OptimizerRace.MaximalRunFinishes | src/compress.rs:373-410 | A run that cannot be extended has finished with the one winner, after at most three steps a pass |
| Chunking.CodeChunks | src/compress.rs:84-130 | The code chunks are the code sections, in order |
| Chunking.SizesAddUp | src/compress.rs:107-121 | Chunk sizes sum to the file length exactly when no section reaches into the next, and to more otherwise |
| Chunking.ChunksTile | src/compress.rs:107-130 | Without overlap the chunks are consecutive and cover the file |
| Chunking.SectionsAndGaps | src/compress.rs:105-130 | Every section is a chunk, and every other chunk is the plain gap between two sections or at an end |
| Chunking.OrderedIsApart | src/compress.rs:107-121 | For parsed sections, being in order is the same as not overlapping |
| Chunking.ChunkPartition | src/compress.rs:84-130 | All of this for any file, and at most 131071 chunks even with overlap |
| Chunking.SplitFile | src/compress.rs:84-130 | The loop with the running position computes the specified chunks |
| ChunkSearch.CompressChunk | src/chunk.rs:34-88 | Considering the candidates one by one keeps the specified winner, and any failure fails the chunk |
| ChunkSearch.CandidatesUndone | src/chunk.rs:34-88 | Every candidate keeps the length and is undone by the decoder's rule for its type |
| ChunkSearch.ChunkRoundTrip | src/chunk.rs:34-88 | The chosen payload decodes and is undone to the chunk |
| ChunkSearch.ChunkIsEarliestShortest | src/chunk.rs:40-87 | No candidate is shorter than the chosen one and no earlier one is as short |
| EncoderLaws.ChunkBeatsEach | src/chunk.rs:34-88 | The payload kept for a chunk is no longer than each way of preprocessing it that its level, kind and size allow, written out, and is one of them |
| Compress.BuildModes | src/compress.rs:147-262 | Buffers and modes match: mode k names buffer k, which is the file under that type; the types tried depend on level, architecture and chunk count |
| Compress.RunPasses | src/compress.rs:373-410 | Passes finishing in any order leave the winner of all passes |
| Compress.WinnerIsPayload | src/compress.rs:385-412 | The winning payload is non-empty, fits its field, and decodes to the buffer of its mode |
| Compress.CompressData | src/compress.rs:302-451 | The whole encoder computes the specified image, and never reaches the `expect` on missing multi-block results |
| Compress.ImageLength | src/compress.rs:412-450 | The image is as long as the shorter of the two totals announced beforehand |
| Variants.VariantBytes | src/compress.rs:147-262 | What each whole-file variant is, byte by byte: raw; every code section with absolute targets and all else kept; every code section in planes; differences of neighbours; those of the second |
| Variants.TypesTried | src/compress.rs:222-262 | Which types are tried at which level, for which architecture and chunk count |
| EncoderLaws.PassOf | src/compress.rs:379-385 | Every combination is tried on every variant |
| EncoderLaws.ImageBeatsEach | src/compress.rs:373-450 | The image is no longer than every combination makes of every variant that is tried, and no longer than the chunks apart |
| EncoderLaws.LayoutChosen | src/compress.rs:412-450 | Several chunks are written exactly when they are no longer than the winning single blob |
| EncoderLaws.CompressSucceeds | src/compress.rs:302-451 | At every level every file below 4 GiB is compressed, if the codec encodes inputs of that size and one combination is valid; the three built-in combinations always are |
| EncoderLaws.TooLargeExact | src/compress.rs:302-312 | A file is refused as too large exactly from 4 GiB on; every other failure is the codec's |
| EncoderLaws.WrittenThenRefused | src/compress.rs:309-311 | For every file between the two caps, at every level, the encoder writes an image and the decoder refuses it |
| Decompress.Undo | src/decompress.rs:71-109 | The in-place undo of types 0 to 6, and the refusal of others, is the specified one |
| Decompress.UndoSections | src/decompress.rs:36-68 | Re-parsing the buffer and undoing its code sections in place is the specified undo |
| Decompress.RunChunk | src/decompress.rs:152-162 | One thread's work on one chunk is the specified decoding |
| Decompress.SizeMismatchUnreachable | src/decompress.rs:118-160 | The comparison with the size of the chunk after the undo never fires |
| Decompress.DeclaredSizeUnreachable | src/decompress.rs:117-125 | On the fast path the comparison with the declared size never fires either: a buffer that decodes is accepted |
| Decompress.DecompressExact | src/decompress.rs:112-173 | For any bytes: the header's error, or every chunk decoded, undone and joined in order if every payload decodes, or the codec's error |
| Variants.UndoInverts | src/decompress.rs:71-109 | For any payload, whoever made it: what each undo returns is encoded by the type's transform, stated on bytes, to that payload |
| ParallelDecode.GroupsPartition | src/decompress.rs:142-150 | The thread groups are consecutive, non-empty and visit every chunk once |
| ParallelDecode.JobsTiled | src/decompress.rs:127-140 | Cutting slices is always in range and uses up the output buffer |
| ParallelDecode.StepInv | src/decompress.rs:148-165 | Every step of every thread keeps all finished slices intact |
| ParallelDecode.ParallelRefinesSequential | src/decompress.rs:127-172 | Every interleaving that has stopped gives what decoding in chunk order gives, the first error included |
| ParallelDecode.RunGroups | src/decompress.rs:148-172 | Threads scheduled in any order fill one output array with the sequential result |
| ParallelDecode.DecompressArchive | src/decompress.rs:112-173 | The whole decoder equals sequential decoding for every number of cores |
| Ucomp01.ReparseStable | src/compress.rs:171-217 | A transformed conformant file parses to the same architecture and sections |
| Ucomp01.ClearParsesAlike | src/compress.rs:171-207 | The output for types 3, 4 and 6 parses to the same sections if no code covers the tables |
| Ucomp01.BlobRoundTrip | src/decompress.rs:54-68 | For a file whose transform parses to the same sections, the decoder restores it if and only if the order of the code sections does not matter |
| Ucomp01.ModesUndone | src/compress.rs:147-262 | Whole-file variants of types 0 and 5 are always undone; those of types 3, 4 and 6 are always undone to some file of that length, and to the right one under the exact condition of the blob |
| Ucomp01.SingleRoundTrip | src/compress.rs:419-431 | A single-blob image decodes to exactly what the undo makes of its buffer |
| Ucomp01.MultiRoundTrip | src/compress.rs:432-450 | A multi-block image decodes to the joined chunks if their sizes sum to the file's, and is refused otherwise |
| Ucomp01.MultiBlockExact | src/compress.rs:107-121 | For an ELF file the multi-block image decodes to the file if and only if no two sections overlap |
| Ucomp01.BeyondCap | src/format.rs:111-120 | Any image that declares more than 2 GiB is refused |
| Ucomp01.CompressRoundTrip | src/compress.rs:302-451 | For any file, level, combinations and winner, what decoding gives is fixed by the count and type that the image declares: refused beyond the cap; exactly by section overlap for several chunks; the file for types 0 and 5; exactly by order for the other types |
| Ucomp01.FileRoundTrip | src/compress.rs:454-490 | The same for any file split along its own sections |
| Ucomp01.ConformantRoundTrip | src/compress.rs:454-490 | A file whose sections do not overlap, with code clear of the tables, comes back at every level, up to the cap |
| Ucomp01.LevelZeroRoundTrip | src/compress.rs:454-490 | At level 0 every file comes back, up to the cap |
| Ucomp01.OpaqueRoundTrip | src/pack.rs:1223-1237 | The solid blob as one plain chunk comes back up to the cap, with no condition on its bytes |
| Ucomp01.ImageFits | src/compress.rs:412-450 | Every image fits the 64-bit length field of a container |
| ContainerRoundTrip.RangeListBack | src/pack.rs:396-416 | Written ranges read back exactly when their architectures are known |
| ContainerRoundTrip.InnerBack | src/pack.rs:419-491 | A written inner entry reads back with unstored fields reset, exactly when its kind, path and ranges are acceptable |
| ContainerRoundTrip.MetaBack | src/pack.rs:521-540 | Metadata reads back with the mode masked and the all-ones owner folded |
| ContainerRoundTrip.EntryBack | src/pack.rs:495-593 | A written entry reads back in canonical form exactly when the parser's rules hold |
| ContainerRoundTrip.ContainerBack | src/pack.rs:268-593 | A written container reads back in canonical form with exactly its payload, if and only if the parser's rules hold |
| ContainerFraming.EntryLocal | src/pack.rs:344-593 | Reading an entry consumes the same bytes whatever follows them |
| ContainerFraming.ExtensionRejected | src/pack.rs:582-592 | Every strict extension of an accepted image is refused |
| ContainerFraming.ExactFraming | src/pack.rs:344-593 | Every strict prefix of an accepted image is refused |
| ContainerFraming.EntryRead | src/pack.rs:495-593 | Every entry that was read is canonical and can be written again |
| ContainerFraming.RewriteStable | src/pack.rs:268-593 | Writing the entries of any accepted image with any payload and parsing again gives the same entries |
| ContainerExact.AcceptedExact | src/pack.rs:495-593 | For any bytes: they are accepted, with these entries and payload, if and only if the encoder writes them, up to the four unused bytes, for entries that obey the parser's rules and have this canonical form |
| WireLayout.HeaderLayout | src/format.rs:90-105 | The header and every chunk record at their offsets, on bytes |
| WireLayout.InnerLayout | src/pack.rs:224-264 | The fields of an inner entry at their offsets, by kind |
| WireLayout.EntryLayout | src/pack.rs:277-332 | The fields of an entry at their offsets, by kind and metadata |
| WireLayout.ContainerLayout | src/pack.rs:268-337 | Magic, unused bytes, count, entries, length and payload at their offsets |
| PackedTable.ContainerWrites | src/pack.rs:268-337 | A container is written if and only if its counts and strings fit their length fields and methods are known |
| ContainerCodec.Output.PushStr | src/pack.rs:206-210 | Appends the length-prefixed string or reports that it is too long |
| ContainerCodec.Output.PushPlacement | src/pack.rs:307-316 | The loop over ranges appends the specified placement |
| ContainerCodec.Output.EncodeZipInner | src/pack.rs:224-264 | Appends the specified inner entry, or the specified error |
| ContainerCodec.Output.EncodeMeta | src/pack.rs:285-305 | Appends flags and the fields they announce |
| ContainerCodec.Output.EncodeEntry | src/pack.rs:277-332 | Appends the specified entry, or the specified error |
| ContainerCodec.EncodeContainer | src/pack.rs:268-337 | The growing buffer ends as the specified image |
| ContainerCodec.Cursor.Next | src/pack.rs:345-355 | Takes the next bytes and advances, or reports truncation without moving out of bounds |
| ContainerCodec.Cursor.Ranges | src/pack.rs:396-416 | The loop reads the specified ranges and stands right after them |
| ContainerCodec.Cursor.ZipInnerOf | src/pack.rs:419-491 | Reads the specified inner entry and stands right after it |
| ContainerCodec.Cursor.EntryOf | src/pack.rs:509-580 | Reads the specified entry and stands right after it |
| ContainerCodec.ParseImage | src/pack.rs:495-593 | The whole parse computes the specified entries and a range that selects exactly the payload |
| Cluster.CompareIsKeyOrder | src/pack.rs:1154-1171 | The comparator equals the order of one key: class, duplicated first, basename if duplicated, path |
| Cluster.ComparatorIsTotalPreorder | src/pack.rs:1154-1171 | The comparator is total and transitive |
| Cluster.ClusteredPermutes | src/pack.rs:1154-1171 | Sorting permutes the pool, orders it, and keeps items that compare equal in their order |
| Cluster.DuplicatesContiguous | src/pack.rs:1142-1171 | Blobs of one class sharing a duplicated basename end up next to each other |
| Cluster.CmpTextMeaning | src/pack.rs:1154-1171 | Strings are ordered with a proper prefix first, and otherwise by the first byte that differs |
| Cluster.DuplicatedExact | src/pack.rs:1147-1163 | A basename is duplicated exactly when two items of the class have it |
| Cluster.ClusterOrder | src/pack.rs:1154-1171 | Of two clustered items the earlier has the lower class, within a class a duplicated name, among those the lower basename, and then the lower path |
| Cluster.BasenameSplits | src/pack.rs:681-683 | The basename is the slash-free end of the path, right after a slash or from the start |
| Cluster.CountNames | src/pack.rs:1147-1153 | The map that counts basenames per class holds the specified counts |
| Cluster.ClusterPool | src/pack.rs:1147-1171 | Counting and sorting give the specified order |
| Sorting.SortStable | src/pack.rs:1154-1171 | Stable sorting keeps items that compare equal in their order |
| SolidLayout.LayoutSound | src/pack.rs:1175-1180 | Slots are 4-byte aligned, in bounds, in order and apart, each selects its blob, and the gaps are shorter than four and zero |
| SolidLayout.LayoutEnds | src/pack.rs:1175-1180 | Nothing precedes the first blob and nothing follows the last |
| SolidLayout.StoreStores | src/pack.rs:1181-1190 | Writing a place back changes the owner's place and no other entry's |
| SolidLayout.Scatter | src/pack.rs:1176-1191 | After any number of items, each laid item's owner knows its slot and all else is as it was |
| SolidLayout.LayOut | src/pack.rs:1175-1191 | The loop grows the specified solid and scatters the specified places |
| Packing.StoredAreTransformed | src/pack.rs:606-638 | The stored ranges are exactly the ranges that were transformed, inside the file and of known architecture |
| Variants.PackedBlob | src/pack.rs:606-638 | The blob is the file with absolute targets in its code sections and all else kept; the ranges are those sections, in order, under the architecture's byte; a file that does not parse is stored as it is |
| Packing.ClassifyExact | src/pack.rs:668-677 | The class from the bytes of the path and the file: ARM64 executables, other ARM64 files, x86 files, scripts, the rest |
| Packing.NormalizationUndone | src/pack.rs:606-638 | Denormalizing with the stored ranges never fails, and restores the file if and only if the order of its code sections does not matter |
| Packing.ApartFilesAreOrderFree | src/pack.rs:606-638 | That holds for files whose code ranges do not overlap |
| Packing.NormalizeFile | src/pack.rs:606-638 | The loop over sections yields the specified blob, ranges and class key |
| Packing.PoolFaithful | src/pack.rs:1127-1141 | The pool holds every file exactly once, with its normalized bytes |
| Packing.FaithfulUnderPermutation | src/pack.rs:1154-1191 | It still does after clustering: each back reference designates the blob's owner |
| Packing.Plan | src/pack.rs:1127-1199 | Normalizing, clustering and laying out gives the specified entries and solid |
| SolidOrder.SolidInClusterOrder | src/pack.rs:1127-1171 | The solid holds every file under its own class and lowercased path in cluster order, and files with the same key in the order of the manifest |
| SolidOrder.PlacesFollowOrder | src/pack.rs:1175-1191 | The places in the table follow that order: the first at 0, each next one at the first multiple of four after the one before, and the last ends the solid |
| Unpacking.DenormalizeIsApplyAll | src/pack.rs:1336-1353 | Denormalizing succeeds exactly when every range is usable, and then undoes all of them in order |
| Unpacking.ExtractExact | src/pack.rs:1336-1484 | A file comes out, with its full length, exactly when its place lies in the solid and every range in the file with a known architecture |
| Unpacking.InPlaceIsExtract | src/pack.rs:1629-1647 | For files that do not overlap, in any order, in-place unpacking equals copying first, file by file and error for error |
| Unpacking.InPlaceFrame | src/pack.rs:1629-1678 | Unpacking in place leaves every other file of the blob as it was |
| Unpacking.DenormalizeWindow | src/pack.rs:1336-1353 | The loop over ranges rewrites its window of the shared buffer and nothing else |
| Unpacking.UnpackFiles | src/pack.rs:1629-1647 | The loop over files writes the specified bytes and leaves the specified blob |
| Unpacking.Extract | src/inspect.rs:296-312 | Copy-then-denormalize of one file is the specified extraction |
| Ucomp02.Pack | src/pack.rs:1098-1253 | The packer writes the specified image |
| Ucomp02.PackSingle | src/pack.rs:1260-1302 | The single-file packer writes the specified image |
| PackedTable.PackSucceeds | src/pack.rs:1098-1253 | With a codec that encodes the solid, packing succeeds if and only if there is an entry, the solid is below 4 GiB, and the inputs fit the length fields |
| PackedTable.PackSingleSucceeds | src/pack.rs:1260-1302 | The same for one file: exactly if it is below 4 GiB and its name and context fit |
| PackedTable.PackedImageSays | src/pack.rs:1098-1253 | A packed image parses to the files, the zips and the others in input order; field by field each has its path, masked metadata, link target, and inner entries with kind, path, method, mode, time, CRC and target; and the payload decodes to a solid that holds each file at the place given |
| PackedTable.SingleImageSays | src/pack.rs:1260-1302 | The image of one file parses to that file with its name and metadata, no ranges, its size, and its UCOMP01 image as payload |
| Ucomp02.RebuildZipFiles | src/pack.rs:1492-1577 | The loop over inner entries yields the specified inner files |
| Ucomp02.Unpack | src/pack.rs:1588-1708 | Parse, parallel decode, in-place unpacking and zip rebuilding give the specified tree |
| Ucomp02RoundTrip.PlanStoresWell | src/pack.rs:1127-1199 | After normalizing, clustering and scattering, every file comes out of its own place as its own ranges restore it, and no two share a byte |
| Ucomp02RoundTrip.AnyOrder | src/pack.rs:1629-1678 | In whatever order top-level files are unpacked in place, each yields what its own ranges restore, and inner files stay intact |
| Ucomp02RoundTrip.ShelfComesBack | src/pack.rs:1588-1708 | The paths, files and zips recovered from the entries are those of the restored inputs |
| Ucomp02RoundTrip.ShelfEntriesOk | src/pack.rs:495-593 | The written entries are acceptable to the parser exactly when the inputs are |
| Ucomp02RoundTrip.RestoredTreeExact | src/pack.rs:1098-1708 | The restored tree is the packed tree if and only if in every file the order of the code sections does not matter |
| Ucomp02RoundTrip.PackThenUnpack | src/pack.rs:1098-1708 | For any files: an image the packer wrote is refused when an input breaks a parser rule or the solid exceeds 2 GiB, and otherwise unpacks without error to the restored tree, which is the packed one if and only if in every file the order of the code sections does not matter |
| Ucomp02RoundTrip.ApartTreeComesBack | src/pack.rs:1098-1708 | In particular the packed tree comes back if in no file code ranges overlap |
| Ucomp02RoundTrip.OneFilePacks | src/pack.rs:1098-1253 | The hypotheses of the round trip are met, and packing succeeds at any level with any codec that encodes the solid, for any one file under any path |
| OverlappingSections.PackerLosesIt | src/pack.rs:1336-1353 | An ELF file for which denormalizing with the stored ranges gives other bytes and no error |
| OverlappingSections.DecoderLosesIt | src/decompress.rs:54-68 | The same file, its code clear of the tables, is not restored by the re-parsing decoder |
| OverlappingSections.UnpacksToOtherBytes | src/pack.rs:1098-1708 | Packed under any path, at any level, it unpacks without error to other bytes of the same length |
| Ucomp02RoundTrip.SingleFileThenUnpack | src/pack.rs:1260-1708 | Any file packed alone unpacks to what decoding its own UCOMP01 image gives, as stated for single files; that is the file if it is conformant, and at level 0 always |

## Left out

- The LZMA2 codec (`lzma-rust2`) is a parameter with the hypothesis above; its match finder, options and streams are not modelled.
- The `zip` crate: reading and writing zip archives, dates, methods and CRCs. A zip is its table of inner entries and their decompressed contents.
- `ingest_zip` and `resolve_entry`: how manifest lines become files, zips and other entries, including the decoding of UCOMP payloads found inside zips; the model starts from that partition.
- File system work: tree walking, path joining and its refusals, directories, symbolic links, write phases, and applying metadata; the unpacked tree is file and inner-file contents under their archive paths.
- `src/manifest.rs`, `src/meta.rs`, `src/main.rs` and listing in `src/inspect.rs`: parsing and printing with no bearing on the bytes restored.
- The tables of (lc, lp, pb) combinations and `build_combos`: every result holds for any list of combinations.
- Thread pools: workers are step relations and loops that pick any pending pass or chunk; memory models, panics and thread counts are not modelled.
- Memory limits, capacity hints, and which of several failing chunks a parallel `collect` reports: all such errors are of one kind.
- FileRoundTrip: for a single blob of type 3, 4 or 6 whose transformed bytes parse to other sections than the file, only the length of what decoding gives is stated; that can happen only when code covers the ELF header or a section record.
