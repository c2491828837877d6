# Cyanea: verified models of the kernel's data paths

Cyanea is a small x86-64 kernel with an EFI loader. This project models, in Dafny, the parts
of it that compute something intricate, and proves what they compute:

- **Inflate** (`efi-boot/deflate.c`): the decompressor for the compressed kernel image.
  `InflateSpec.dfy` says what a bit stream decodes to; the class in `Inflater.dfy` is the code
  with its bit accumulator, canonical trees and output buffer, and every method of it is
  proved to do what the specification says. `Huffman.dfy` ties decoding to the codes of
  section 3.2.2 of RFC 1951, and `Deflate.dfy` has an encoder for any list of stored, fixed and
  dynamic blocks. The main results are `Deflate.RoundTrip` and `RoundTrip.DecompressStream`.
  `Crc32.dfy` is the checksum, tied to division of polynomials (`Polynomial.dfy`).
- **Physical memory map** (`ukernel/memblock.c`): the array of regions, with its dead slots.
  `MemblockSpec.dfy` reads a list of regions as a partial function from addresses to node and
  flags, with one normal form per function. The class `MemBlock` has the in-place operations,
  each proved to be a pointwise update of that function; how a call ends (`Memblock.Status`) is
  given as a function of the array before it. `MemblockRuns.dfy` is about runs of the allocator,
  `MemblockTrace.dfy` about runs of all operations.
- **Direct mapping** (`arch/x86/ukernel/mm.c`): four-level page tables over a heap of tables,
  a walk as the processor does it, the five segments per range, and the proof that exactly the
  frames of the memory map are mapped, each to itself, and how many table pages suffice for that.
- **Fixed mappings** (`arch/x86/ukernel/ioremap.c`): the first-fit slot allocator, single calls
  and whole runs.
- **Buffered I/O, parsing and printing** (`uklib/io_buffer`): conservation of characters over
  a device that may do less than asked for, number parsing with its overflow test, integer
  printing, and when parsing undoes printing.
- **Command line** (`ukernel/params.c`): an automaton over characters against a definition
  over words.
- **Firmware memory map** (`arch/x86/ukernel/e820.c`): in-place compaction, and the way from
  the firmware's list to the physical memory map.

Code that updates things in place is modelled by classes, arrays and loops; each such method is
proved against a function or predicate of the old and new state. Machine integers are unbounded
numbers with the wrap-around written out where the code can wrap.

Some behaviour of the code differs from what its comments or its callers might suggest; the
model follows the code and the statements below say exactly when it does what it should:

- `remove_region` reads the size of the region to subtract after the array was shifted, so
  `memblock_remove` charges the wrong region. The map is right in every state;
  `MemblockRemove.Remove` gives the amount subtracted as a function of the map. The total size
  stays right exactly if nothing was removed, or nothing is mapped behind the range, or the
  region behind happens to have the right size (`MemblockRemove.SizeRightIff`);
  `MemblockRemove.ChargeWrong` is a map for which it does not.
- After `memblock_remove` of the end of the map, the slot behind the last region holds the first
  region removed. A later `merge_regions` that compares with it finds a match exactly if the map
  went on unchanged across the start of the range (`MemblockRemove.Remove`);
  `MemblockRemove.DeadSlotRun` is a run that gets there, and `MemblockRemove.DeadMatchRun` goes on
  to the match. All other operations, removals that leave the end of the map included, keep every
  dead slot below the end of the list, and then no match is possible.
- `merge_regions` reads the slot behind a full array exactly if it has nothing to merge and goes up
  to the last region (`Memblock.MemBlock.MergeRegions`); adding memory behind the map can get there
  (`Memblock.MemBlock.AddRange`, `MemblockRemove.FullArrayRun`).
- `memblock_free` drops the error of a full array. Allocating and freeing restores the array
  exactly if freeing still has two slots (`MemblockRuns.AllocThenFree`); `MemblockRuns.StuckBlock`
  is a block that stays reserved.
- The page rounding of `__next_mem_pfn_range` wraps for a region that starts in the last page of
  the address space, whose frames are then not its own (`DirectMapInit.FramesInsideIff`).
- A line whose flush fails counts as written, and its newline stays in the buffer
  (`IoBuffer.IoBuffer.KeptNewline`).
- In base 16 the number parser can lose a character: when two characters were read and are no
  prefix, and the buffer has room to put back only one. Over a device that delivers what is asked
  for, that is exactly when there is no slop and just the first of the two was buffered
  (`Strtox.Strtoull`); `Strtox.LostCharacter` reads `12` as 2 instead of 18.
- `find_free_range` reads one entry past its table exactly when no run of free slots is long
  enough (`Fixmap.FindFreeRange`, `FixmapRuns.FullTable`).
- `iounmap` turns away an unaligned mapping that starts in the last slot; mapping and unmapping
  restores the tables exactly in all other cases (`Fixmap.FixMap.MapThenUnmap`);
  `FixmapRuns.LastSlotStays` is a run that leaves a mapping behind.
- A printed number with a space in front of it, and an unsigned one with a plus sign, is read
  back as 0 (`PrintParse.UnsignedRoundTrip`, `PrintParse.SignedRoundTrip`). With base 0 a decimal
  number with zeros in front is read as an octal one (`PrintParse.GuessedRoundTrip`).
- The length `__param_get_option` returns counts the terminator if the value is the last word
  (`Params.Find`), and a bare option anywhere hides a value given before it.

Inputs for which the C code has undefined behaviour are excluded by preconditions, and only
those: in the decompressor symbols 286, 287 and distance symbols above 29, references before
the start of the output, runs of code lengths past the array, and a destination that is too
small. `DecodeBlocks` marks them `OutOfBounds`, and every malformed stream the code does detect
ends with the code's error.

## Model

| member | source | states |
|---|---|---|
| Inflater.Inflater.GetBits | efi-boot/deflate.c:84-107 | returns the next n bits of the stream, least significant first, or an overflow exactly when fewer are left; keeps fewer than 8 residual bits and the accumulator equal to them |
| Inflater.Inflater.GetExtraBits | efi-boot/deflate.c:109-114 | a base plus extra bits, as the stream has them |
| Huffman.DecodeIffCode | efi-boot/deflate.c:116-159 | for every length vector, decoding gives symbol s and consumes len(s) bits if and only if the next bits are the canonical code of s |
| Huffman.DecodeFailsIffNoCode | efi-boot/deflate.c:116-159 | decoding fails if and only if no code comes next: a bad symbol when fifteen bits are there, an overflow otherwise |
| Huffman.PrefixFree | efi-boot/deflate.c:18-33 | no canonical code is a prefix of another |
| Huffman.KraftIffEncodable | efi-boot/deflate.c:18-33 | the Kraft inequality holds exactly if the code of every symbol with a length fits into that many bits |
| Huffman.KraftIsFill | efi-boot/deflate.c:18-33 | the Kraft sum of the levels down to m is the first free code on level m |
| Huffman.DecodeWritten | efi-boot/deflate.c:116-159 | a code that is written into a stream is decoded to its symbol |
| HuffmanTables.Tree.Build | efi-boot/deflate.c:60-82 | the counting sort leaves the count of each length and the symbols sorted by length, symbols without a code left out |
| HuffmanTables.SlotInjective | efi-boot/deflate.c:74-81 | no two symbols are put into one slot of the sorted table |
| HuffmanTables.SymbolAt | efi-boot/deflate.c:116-159 | the slot the search computes holds the symbol with that rank on its level |
| HuffmanTables.Tree.BuildFixedLiteral | efi-boot/deflate.c:161-191 | the hand-filled table is the one of the fixed literal lengths of section 3.2.6 of RFC 1951 |
| HuffmanTables.Tree.BuildFixedDistance | efi-boot/deflate.c:161-191 | the same for the fixed distance lengths |
| HuffmanTables.FixedLiteralSlot | efi-boot/deflate.c:161-191 | where each symbol of the fixed literal tree lies in the sorted table |
| SymbolTables.LengthTables | efi-boot/deflate.c:283-293 | the tables of length bases and extra bits follow the rule of section 3.2.5 of RFC 1951, length 258 included |
| SymbolTables.DistTables | efi-boot/deflate.c:295-306 | the tables of distance bases and extra bits follow the rule of the same section |
| Inflater.Inflater.NextSymbol | efi-boot/deflate.c:116-159 | the search with the running offset decodes as the lengths of the tree say |
| Inflater.Inflater.GetCodeLengths | efi-boot/deflate.c:197-217 | the length of each code-length symbol is the value of the three bits in its field, for the fields that are sent, and 0 otherwise |
| InflateSpec.OrderOfFields | efi-boot/deflate.c:197-200 | the table sends every code-length symbol in the field the rule of section 3.2.7 gives: 16, 17, 18, 0, and from 8 on away from it in both directions |
| InflateSpec.CodeLengthsSent | efi-boot/deflate.c:213-217 | reading n fields sets the length of each symbol to the three bits of its field |
| Inflater.Inflater.GetLengths | efi-boot/deflate.c:229-270 | the run-length coded lengths are those of the specification, over both alphabets in one sequence |
| Inflater.Inflater.GetHeader | efi-boot/deflate.c:206-270 | the lengths of both trees of a dynamic block, or the error |
| Inflater.Inflater.DynamicTree | efi-boot/deflate.c:193-277 | both trees are built for the transmitted lengths |
| Inflater.Inflater.GetMatch | efi-boot/deflate.c:337-345 | length and distance of a back-reference |
| Inflater.Inflater.CopyMatch | efi-boot/deflate.c:347-350 | a byte-wise copy inside the output appends what the specification's copy does, overlapping or not |
| InflateSpec.CopyBackAt | efi-boot/deflate.c:347-350 | each copied byte equals the byte one distance before it |
| InflateSpec.CopyBackPeriodic | efi-boot/deflate.c:347-350 | an overlapping copy repeats the last bytes of the output periodically |
| Inflater.Inflater.Block | efi-boot/deflate.c:279-356 | a compressed block appends its output and consumes its bits, or ends with the error |
| Inflater.Inflater.StoredBlock | efi-boot/deflate.c:358-386 | dropping the accumulator is the skip to the byte boundary; the stored bytes are copied |
| Inflater.Inflater.AnyBlock | efi-boot/deflate.c:415-429 | the block kinds, the undefined one included |
| Inflater.Inflater.NextBlock | efi-boot/deflate.c:404-431 | one block header and its block |
| Inflater.InflateBuffer | efi-boot/deflate.c:388-437 | error code, output bytes and length are those of the specification, and the rest of the destination is untouched |
| Deflate.LengthReached | efi-boot/deflate.c:283-338 | every length from 3 to 258 has a symbol and extra bits that decode to it |
| Deflate.DistReached | efi-boot/deflate.c:295-342 | every distance from 1 to 32768 has a symbol and extra bits that decode to it |
| Deflate.BodyRoundTrip | efi-boot/deflate.c:279-356 | encoded tokens decode to their expansion |
| Deflate.BodyIsTokens | efi-boot/deflate.c:279-356 | conversely, every body that decodes is one of tokens of the format, its output their expansion, no reference reaching before the start |
| Deflate.MatchSized | efi-boot/deflate.c:337-342 | every back-reference that can be read has a length from 3 to 258 and a distance from 1 to 32768 |
| Deflate.RunsRoundTrip | efi-boot/deflate.c:229-270 | encoded runs decode to the lengths they stand for |
| Deflate.LengthsAreRuns | efi-boot/deflate.c:229-270 | conversely, all lengths that can be read and end where they should are spelled out by runs whose symbols have codes |
| Deflate.CodesRoundTrip | efi-boot/deflate.c:197-217 | encoded code lengths decode to themselves |
| Deflate.HeaderRoundTrip | efi-boot/deflate.c:193-277 | an encoded dynamic header decodes to its two trees |
| Deflate.HeaderRead | efi-boot/deflate.c:193-277 | conversely, every header that can be read and whose runs end where they should is one that can be written, with the same trees |
| Deflate.StoredRoundTrip | efi-boot/deflate.c:358-386 | a stored block decodes to its bytes wherever it starts, with any padding |
| Deflate.FixedCanWrite | efi-boot/deflate.c:161-191 | the fixed codes are encodable and cover every token |
| Deflate.FixedCode | efi-boot/deflate.c:161-191 | the fixed literal codes are those the table of section 3.2.6 lists |
| Deflate.BlockRoundTrip | efi-boot/deflate.c:415-429 | decoding a block undoes encoding it |
| Deflate.BlocksRoundTrip | efi-boot/deflate.c:388-437 | decoding a list of blocks undoes encoding it |
| Deflate.InflateOfStream | efi-boot/deflate.c:388-437 | a byte buffer whose bits start with an encoded list of blocks inflates to their expansion |
| Deflate.RoundTrip | efi-boot/deflate.c:388-437 | inflating the packed encoding of any list of well-formed blocks succeeds with exactly the expansion |
| Deflate.EveryOutput | efi-boot/deflate.c:388-437 | every byte string is what some well-formed stream stands for |
| Deflate.KnownStream | efi-boot/deflate.c:388-437 | the bytes 4B 04 00 inflate to the letter a |
| Deflate.LeastBlock | efi-boot/deflate.c:193-277 | a well-formed dynamic block: its code-length code, runs and trees are encodable |
| RoundTrip.DecompressStream | efi-boot/deflate.c:388-437 | the code run on an encoded stream reports no error, writes exactly the expansion and sets its length |
| Crc32.NibbleIsFourSteps | efi-boot/deflate.c:441-464 | one table step is four steps of the reflected polynomial division |
| Crc32.TwoNibbles | efi-boot/deflate.c:441-464 | two table steps take one byte |
| Crc32.CrcIff | efi-boot/deflate.c:441-464 | a value is the checksum of a buffer if and only if its complement is what division of the message polynomial, multiplied by x^32 and with its first 32 coefficients complemented, by the generator of CRC-32 leaves |
| Polynomial.RemainderUnique | efi-boot/deflate.c:441-464 | division by the generator leaves one remainder only |
| Crc32.FeedDivides | efi-boot/deflate.c:457-461 | the register is the remainder after every bit |
| Crc32.UpdateCrc32 | efi-boot/deflate.c:441-464 | the table loop computes the complemented remainder for every buffer, the empty one included |
| MemblockSpec.NormalFormUnique | ukernel/memblock.c:64-99 | two arrays in normal form with the same address map are the same array |
| MemblockSpec.MergeAt | ukernel/memblock.c:86-97 | merging two neighbours changes neither the map nor the sum of sizes |
| MemblockSpec.SplitAt | ukernel/memblock.c:212-227 | splitting a region changes neither the map nor the sum of sizes |
| MemblockSpec.InsertAt | ukernel/memblock.c:33-51 | inserting a region into a gap maps exactly its addresses |
| Memblock.MemBlock.InsertRegion | ukernel/memblock.c:33-51 | the array with the region inserted, dead slots and size included |
| Memblock.MemBlock.CloseGap | ukernel/memblock.c:53-62 | the array after shifting down, the last slot keeping its contents |
| Memblock.MemBlock.JoinSlots | ukernel/memblock.c:86-97 | the array after merging two neighbours, dead slots included |
| Memblock.MemBlock.DeadNeverMerges | ukernel/memblock.c:77-79 | with the dead slots below the end of the list the comparison with the first dead slot never finds a match |
| Memblock.MemBlock.MergeRegions | ukernel/memblock.c:64-99 | merging only around the changed regions restores the normal form without changing the map; as a function of the array before, when it reads the slot behind a full array or matches a dead slot, which cannot be while the dead slots lie below the end |
| Memblock.MemBlock.SplitRegion | ukernel/memblock.c:212-227 | the array after a split; the wrapped size arithmetic cancels |
| Memblock.MemBlock.IsolateRange | ukernel/memblock.c:172-237 | the regions returned are exactly those inside the range, the others are apart from it, the map is the same; a full array is refused unchanged |
| Memblock.MemBlock.AddRange | ukernel/memblock.c:101-170 | for every array in normal form: exactly the unmapped addresses of the range get the new attributes, mapped ones keep theirs; the total size follows the sum of the regions, and the number of regions grows by at most the number of gaps; exactly when the kernel stops on a full array, merging reads behind it, or a dead slot matches |
| Memblock.MemBlock.SetClrFlag | ukernel/memblock.c:327-346 | for every array in normal form: exactly the mapped addresses of the range change their flags, whatever the total size is; no space changes nothing, and is reported exactly when fewer than two slots are left; exactly when a dead slot matches, which cannot be while the dead slots lie below the end |
| Memblock.MemBlock.SetNodeRange | ukernel/memblock.c:348-362 | exactly the mapped addresses of the range change their node, likewise |
| Memblock.FlagBits | ukernel/memblock.c:336-341 | on the mapped addresses of the range the flags named are all on, or all off; other flags and the node are as before |
| MemblockUpdate.ChangeIsUpdate | ukernel/memblock.c:336-341 | changing the isolated regions is the pointwise update of the range |
| MemblockCut.CutUnique | ukernel/memblock.c:172-237 | two lists of one map that are cut at the same two places are the same list |
| MemblockCut.IsolatedIsCut | ukernel/memblock.c:172-237 | what isolating leaves is a function of the map and the range |
| MemblockRemove.RemoveRegion | ukernel/memblock.c:53-62 | removes one region and subtracts the size of the region that moved into its slot |
| MemblockRemove.Remove | ukernel/memblock.c:312-325 | exactly the addresses of the range are unmapped and the normal form kept, in every state; the amount subtracted from the size and when that is right; when the dead slots stay below the end, and if not, whether the first one can be merged |
| MemblockRemove.SizeRightIff | ukernel/memblock.c:53-62 | the size is right after a removal if and only if nothing was removed, or nothing lies behind, or the size of the region behind times the number of regions removed equals what was removed |
| MemblockRemove.ChargeAtTop | ukernel/memblock.c:53-62 | the charge is right when nothing is mapped after the range |
| MemblockRemove.ChargeWrong | ukernel/memblock.c:58-61 | a map and range for which the size comes out wrong |
| MemblockRemove.MergeableAtCut | ukernel/memblock.c:77-79 | at the place where a map was cut, the two regions can be merged exactly if the map goes on unchanged across it |
| MemblockRemove.DeadSlotRun | ukernel/memblock.c:312-325 | a run after which the last region and the first dead slot can be merged |
| MemblockRemove.DeadMatchRun | ukernel/memblock.c:77-97 | setting a node after that run makes the match |
| MemblockRemove.FullArrayRun | ukernel/memblock.c:72-79 | two ranges apart from each other in an array of two slots: the second makes merging read behind the array |
| MemblockAlloc.AlignUpIs | ukernel/memblock.c:239-264 | rounding up gives the next multiple of the alignment, or 0 when it wraps |
| MemblockAlloc.FindInRangeNode | ukernel/memblock.c:239-264 | a result is the lowest aligned block within the bounds asked for, not in the first page, that lies in a region with those flags on that node; 0 means that there is none, also when rounding wraps |
| MemblockAlloc.ClampedLowest | ukernel/memblock.c:246-247 | clamping the request neither adds nor loses blocks |
| MemblockAlloc.WrapMeansNone | ukernel/memblock.c:239-264 | when rounding wraps in one region no region has a suitable block |
| MemblockAlloc.BlockIsFree | ukernel/memblock.c:239-264 | every byte of a found block is free memory of an allowed node |
| MemblockAlloc.BlockInBounds | ukernel/memblock.c:239-264 | a found block is aligned and inside the clamped bounds |
| MemblockAlloc.BlockMarked | ukernel/memblock.c:371-376 | after marking, every address of a block of free memory has just the reserved flags and its node |
| MemblockAlloc.Alloc | ukernel/memblock.c:364-388 | the lowest free block within the bounds asked for, on the preferred node, or if that has none and need not have, on any node, becomes reserved and nothing else changes; 0 is returned exactly if no node allowed has a block or the array is too full, and then nothing changes; exactly when a dead slot matches |
| MemblockAlloc.Free | ukernel/memblock.c:390-393 | exactly the mapped addresses of the block lose the reserved mark, unless the array is too full, when nothing changes; exactly when a dead slot matches |
| MemblockRuns.Run | ukernel/memblock.c:364-393 | in any sequence of allocations and releases each request does what it should: the block asked for is reserved and joins the live ones, or is refused just for lack of a block or of slots; a release gives its block back if it can. The live blocks are disjoint, were free memory, and are exactly what is reserved |
| MemblockRuns.AllocThenFree | ukernel/memblock.c:364-393 | allocating reserves the block asked for, or is refused; freeing restores the live array if and only if nothing was allocated or two slots are left; otherwise just the block stays reserved |
| MemblockRuns.StuckBlock | ukernel/memblock.c:187-191 | a block in the middle of the only region of an array of three slots cannot be given back |
| MemblockTrace.AnyRun | ukernel/memblock.c:101-170 | every run of add, remove, flag, node, allocate and free operations from the zeroed array: each state is in normal form and comes from the one before by its pointwise update; the run ends early exactly at the first operation that fails, as the state before it says; no dead slot matches until the end of the map is removed; the total size is the sum of the regions until a removal is mischarged |
| MemblockTrace.DeadThrough | ukernel/memblock.c:53-99 | the dead slots lie below the end in every state of a run before the end of the map is removed |
| MemblockTrace.NoDrift | ukernel/memblock.c:53-62 | without a mischarged removal the total size has no drift in any state of a run |
| DirectMapInit.NextMemPfnRange | ukernel/memblock.c:268-301 | the next region on the node with a whole page frame, and its frames, with the rounding of the code |
| DirectMapInit.FramesInsideIff | ukernel/memblock.c:273-281 | a region's frames consist of its own addresses if and only if rounding its start up does not wrap |
| DirectMapInit.FramesWhole | ukernel/memblock.c:273-281 | the frames taken for a region are exactly those whose 4096 addresses it has, unless rounding its start up wraps |
| DirectMapInit.InFramesIff | ukernel/memblock.c:268-301 | in a map in normal form a frame lies in one region if and only if all its addresses have the same attributes |
| DirectMapInit.Windows | arch/x86/ukernel/mm.c:313-331 | the direct mapping, the kernel map and the fixed mappings are the addresses behind entries 511 and below 510, 510, and 511 of the upper two tables |
| DirectMap.KernelWalk | arch/x86/ukernel/mm.c:313-331 | the kernel map walks to the pages of the kernel image's table |
| PageWalk.WriteWalk | arch/x86/ukernel/mm.c:81-202 | filling an absent entry adds the walks of its pages, as seen from every table above, and changes no others |
| DirectMap.PageTables.AllocPage | arch/x86/ukernel/mm.c:44-57 | the next page becomes a table of its own, zeroed, that changes no translation; it fails exactly when the kernel halts |
| DirectMap.PageTables.NothingThere | arch/x86/ukernel/mm.c:90-149 | the assertions on an already mapped or unmappable entry cannot fire when the range is unmapped |
| DirectMap.PageTables.InitLevel | arch/x86/ukernel/mm.c:81-202 | maps every page of the range to its own frame, changes no other translation, and keeps the invariants, also when table pages run out; takes at most one table per level for pages that lie in one larger page |
| DirectMapTiling.SegmentsTile | arch/x86/ukernel/mm.c:242-307 | the five segments are consecutive, disjoint, aligned to their page sizes, and cover exactly the range |
| DirectMapTiling.SegmentsBudget | arch/x86/ukernel/mm.c:242-307 | the small and medium segments each lie in one page of the next size, so all five need at most eleven tables |
| DirectMapInit.PhysicalMappingInit | arch/x86/ukernel/mm.c:170-202 | one segment, from the top level down |
| DirectMapInit.MapRange | arch/x86/ukernel/mm.c:242-307 | the range is mapped and nothing else changes, with at most eleven tables |
| DirectMapInit.InitiallyUntouched | arch/x86/ukernel/mm.c:313-331 | the initial tables map nothing in the direct mapping |
| DirectMapInit.InitRangeMemoryMapping | arch/x86/ukernel/mm.c:226-311 | exactly the frames all of whose addresses lie in one region are mapped, each to itself; translations outside the direct mapping are kept, also when the kernel halts; it does not halt with eleven table pages per region to spare |
| DirectMapInit.InitMemMapping | arch/x86/ukernel/mm.c:313-340 | the same from the kernel's initial tables, with the kernel map and the fixed mappings unchanged; in a map in normal form the frames mapped are those whose addresses are all mapped with the same attributes |
| Fixmap.FindFreeRange | arch/x86/ukernel/ioremap.c:67-88 | the lowest run of free slots that is long enough; the read past the table happens exactly when there is none |
| Fixmap.MappingsDisjoint | arch/x86/ukernel/ioremap.c:67-88 | no slot belongs to two mappings |
| Fixmap.FixMap.Ioremap | arch/x86/ukernel/ioremap.c:90-119 | the lowest fitting run points at the frames, all other slots are unchanged; null exactly for empty and too large requests |
| Fixmap.FixMap.BytesTranslate | arch/x86/ukernel/ioremap.c:90-119 | byte k after the returned address translates to byte k after the physical one |
| Fixmap.WalkOfSlot | arch/x86/ukernel/ioremap.c:54-65 | the page of slot k is the one the walk from the top table finds in entry k of the slots' table |
| Fixmap.FixMap.TranslateIsWalk | arch/x86/ukernel/ioremap.c:54-65 | translating a slot's address is that walk |
| Fixmap.PagesTouched | arch/x86/ukernel/ioremap.c:90-106 | the pages a request takes are exactly those its bytes lie in |
| Fixmap.FixMap.Iounmap | arch/x86/ukernel/ioremap.c:131-157 | which calls remove a mapping, that they clear exactly its slots, and that the others change nothing |
| Fixmap.FixMap.MapThenUnmap | arch/x86/ukernel/ioremap.c:90-157 | null exactly for empty and too large requests, and otherwise the address of the lowest fitting run; unmapping restores both tables if and only if the mapping is aligned or does not start in the last slot |
| FixmapRuns.SlotsDisjoint | arch/x86/ukernel/ioremap.c:67-157 | live mappings take disjoint slots |
| FixmapRuns.BytesInPlace | arch/x86/ukernel/ioremap.c:90-119 | every byte of every live mapping translates to its physical byte |
| FixmapRuns.Run | arch/x86/ukernel/ioremap.c:67-157 | in any sequence of operations each does what it should: a mapping takes the lowest fitting run and joins the live ones, or nothing fits; unmapping frees the slots of a live mapping unless its address is turned away. In every state the live mappings stand in different slots and the table holds no others |
| FixmapRuns.FullTable | arch/x86/ukernel/ioremap.c:67-88 | with all slots mapped the search for one more leaves the table |
| FixmapRuns.LastSlotStays | arch/x86/ukernel/ioremap.c:131-157 | an unaligned byte in the last slot: unmapping it changes nothing |
| IoBuffer.IoBuffer.WriteNoFlush | uklib/io_buffer/io_buffer.c:9-50 | what the device has taken and the buffer is the earlier stream and the first characters of the data |
| IoBuffer.IoBuffer.Write | uklib/io_buffer/io_buffer.c:52-99 | the same for a whole call; all data is accepted unless a flush fails, at most one, or the device takes nothing; without a failed flush nothing of the part to be flushed stays in the buffer; in line mode no newline but an earlier one before data without any; data for which there is room is buffered in full, apart from what is flushed, and exactly what a failing flush leaves |
| IoBuffer.IoBuffer.KeptNewline | uklib/io_buffer/io_buffer.c:88-90 | a line whose flush fails part of the way counts as written and leaves its newline in the buffer |
| IoBuffer.IoBuffer.Read | uklib/io_buffer/io_buffer.c:101-154 | flushes pending output first and reads nothing if that fails; otherwise returns the next characters of the stream, fewer only at its end, and leaves the rest; when two characters read can be put back, and when just one |
| IoBuffer.IoBuffer.Unget | uklib/io_buffer/io_buffer.c:156-169 | puts the character back in front of the rest exactly if there is room |
| NumberText.ValueGrows | uklib/io_buffer/strtox.c:56-70 | longer digit strings have no smaller values, so the first overflow decides |
| NumberText.SignedExact | uklib/io_buffer/strtox.c:81-111 | a signed number is accepted exactly if it is a 64-bit one |
| Strtox.ShortcutSafe | uklib/io_buffer/strtox.c:58-63 | below 2^60 no further digit can overflow |
| Strtox.DivisionExact | uklib/io_buffer/strtox.c:58-63 | the division test is the overflow test |
| Strtox.AddDigit | uklib/io_buffer/strtox.c:57-65 | reports an overflow exactly if the next value needs more than 64 bits |
| Strtox.Strtoull | uklib/io_buffer/strtox.c:22-74 | the value of the longest digit string after the prefix, a range error exactly if it needs more than 64 bits, and the input left at the first unused character; the same from the second character when the first gets lost: when it may, when it must, and on a device that delivers what is asked for the exact condition |
| Strtox.Strtoll | uklib/io_buffer/strtox.c:81-111 | exactly the 64-bit signed numbers are accepted, by the sign test on the wrapped value; the conditions for a lost character hold behind the sign |
| Strtox.LostCharacter | uklib/io_buffer/strtox.c:46-54 | a run that loses the first digit of a number and returns the wrong value |
| FormatInt.FormatInt | uklib/io_buffer/vsnprintf.c:48-119 | the text of sign, prefix, padding and digits for any flags, width and precision, within the 64-place digit buffer |
| FormatInt.DigitsDenote | uklib/io_buffer/vsnprintf.c:111-115 | the digits written denote the value |
| FormatInt.DigitsSuffice | uklib/io_buffer/vsnprintf.c:60-66 | the digits counted are enough for the value |
| FormatInt.DigitsNeeded | uklib/io_buffer/vsnprintf.c:60-66 | and fewer would not do |
| FormatInt.NumDigitsBound | uklib/io_buffer/vsnprintf.c:109-115 | 64-bit values have at most 64 digits in any base, and at most 22 in base 8 and above |
| FormatInt.TextWidth | uklib/io_buffer/vsnprintf.c:76-89 | the text has the width asked for or, if that is smaller, the number's own: at least precision digits, one place for a sign or space, and the prefix |
| FormatInt.TextCase | uklib/io_buffer/vsnprintf.c:41-46 | letters, of digits and prefix, are upper case with the flag and lower case without |
| NumberText.DigitValueIs | uklib/io_buffer/strtox.c:8-20 | a character has the value of its place among the sixteen digits, in either case |
| PrintParse.UnsignedRoundTrip | uklib/io_buffer/vsnprintf.c:48-119 | the unsigned parser reads the printed number back if and only if no sign, space or left padding stands before it, or it is 0 |
| PrintParse.SignedRoundTrip | uklib/io_buffer/vsnprintf.c:48-119 | the signed parser reads the printed number back if and only if no space stands before it, or it is 0 |
| PrintParse.GuessedRoundTrip | uklib/io_buffer/strtox.c:29-44 | with base 0 the parser reads a number back, printed with its prefix in base 8 or 16 or in base 10, if and only if no sign, space or left padding stands before it and no zero before a decimal number above 7, or it is 0 |
| PrintParse.OctalBelow | uklib/io_buffer/strtox.c:29-44 | a decimal number above 7 read in base 8 gives a smaller value |
| PrintParse.PrintThenParse | uklib/io_buffer/strtox.c:22-74 | printing and then parsing through a buffered stream gives the value |
| PrintParse.PrintThenGuess | uklib/io_buffer/strtox.c:22-74 | the same with the base left to the parser |
| PrintParse.PrintThenParseSigned | uklib/io_buffer/strtox.c:81-111 | the same for signed values |
| Params.FindWords | ukernel/params.c:9-22 | with any spacing, terminated or not: a bare option anywhere is a flag, otherwise the last value given counts, otherwise nothing changes |
| Params.SplitJoin | ukernel/params.c:9-22 | splitting a line of words gives the words |
| Params.Compare | ukernel/params.c:45-75 | outside values the automaton's state says how the word so far compares with the option |
| Params.Copy | ukernel/params.c:76-82 | a value is counted in full and copied as far as there is room for a terminator |
| Params.GetOption | ukernel/params.c:23-90 | the automaton's result and the buffer are those of the definition over words, truncated and terminated |
| E820.Table.RangeAdd | arch/x86/ukernel/e820.c:59-71 | appends an entry, and ignores it exactly when 128 are listed |
| E820.MergeKeepsTypes | arch/x86/ukernel/e820.c:82-90 | merging consecutive entries keeps the type of every address in any table |
| E820.Table.Update | arch/x86/ukernel/e820.c:73-93 | in-place compaction of any table keeps every address's types and the total size, keeps entries apart if they were, and leaves no consecutive pair to merge |
| E820.RamIsType | arch/x86/ukernel/e820.c:105-116 | without overlap, an address is in a usable entry exactly if its type is usable |
| E820.DisjointIff | arch/x86/ukernel/e820.c:105-116 | entries do not overlap if and only if no address is in both |
| E820.MemblockSetup | arch/x86/ukernel/e820.c:105-116 | the memory map becomes exactly the union of the usable entries, overlapping ones included, and its size the sum of its regions |
| MemblockGrowth.OneRegionMore | ukernel/memblock.c:101-170 | filling a range of a map with one attribute adds at most one region, so twice as many slots as usable entries are enough |
| E820.FromFirmware | arch/x86/ukernel/e820.c:59-116 | the whole way from the firmware's list, as far as the table keeps it, to the memory map; without overlap its addresses are those of usable type |

## Left out

- GZIP header skipping, the comparison of the stored checksum, and the caller of the decompressor: thin pointer stepping around the core.
- EFI boot services, graphics setup, ACPI discovery, interrupt controllers, serial line, console: device and firmware I/O.
- Assembly, per-CPU state, control registers, TLB flushes, protection and cache bits of page-table entries: hardware effects the walk does not see.
- Inflater.InflateBuffer: requires a stream without the undefined symbols, far references and overlong runs named above and a destination that is large enough, because the code does not check for them; the complement of a stored block's length is read and not compared, as in the code.
- Memblock.MemBlock.AddRange: the array and the map after a failure are not described: the kernel has stopped, or the code works on memory behind the live regions; the wrap of base + size is excluded.
- Memblock.MemBlock.SetClrFlag: says when a dead slot matches, not what merging with it does to the array.
- MemblockRuns.Run: starts with the dead slots below the end of the list; runs after a removal of the end of the map are those of `MemblockTrace.AnyRun`.
- MemblockTrace.AnyRun: a run ends at the first operation that fails, for the same reason; allocations and releases that find no room are steps that change nothing.
- DirectMap.PageTables.InitLevel: the four routines of the page-table levels differ in names and constants and are one method with the level as a parameter; addresses are page numbers; running out of table pages is a result, where the kernel halts.
- DirectMapInit.InitRangeMemoryMapping: the clamp to the whole address range has no effect and is left out, as are the counters of mapped frames and the reservation of the used table pages.
- Fixmap.FixMap.Ioremap: requires a long enough run of free slots, because the code reads past its table without one; physical addresses are not wrapped and page counts not truncated to 32 bits.
- IoBuffer.IoBuffer.Read: the device is nondeterministic, delivers at least one character until its end, and has no read errors.
- IoBuffer.IoBuffer.Write: whether each flush fails and how much it then writes is any given list; a successful flush empties the buffer; what a flush does with unread input is not modelled.
- Strtox.Strtoull: requires an input stream, without pending output, and a buffer of more than two characters.
- FormatInt.FormatInt: the characters are collected in a sequence, where the code writes them to the stream one by one and ignores failures; the least signed value is excluded, its negation is undefined in C; precisions above 64 overrun the digit buffer and are excluded; bases above 16 have no digits, and no caller uses another than 8, 10 and 16.
- PrintParse.PrintThenParse: the text is the whole input of a stream that delivers as much as is asked for.
- Params.GetOption: options contain no space; the null command line, which gives -1, is left out.
- E820.MemblockSetup: requires an array with one slot more than usable entries, or twice as many if entries overlap, and entries that do not wrap.
- The format string interpreter around the integer printer, variable arguments, string and pointer conversions: they only select the flags of what is modelled.
- `uklib/string.c` and `uklib/ctype.c`: memory moves are sequence updates, character classes predicates.
