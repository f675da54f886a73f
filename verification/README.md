# FAE: builder, loader and reader

This project models the FAE tool chain and proves that its programs fit together.

- `fae_utils/build_fae.py` (the *builder*) writes a file: the CRT0 code, the file's own size, a
  relocation table, zero padding, the linked partition (`.rom`, `.got`, `.rom.ram`), 0xff padding
  and a footer of seven words. It also writes a debugger script.
- `crt0/crt0.c` (the *loader*) runs from that file in flash. It finds table, footer and partition,
  checks the magic number and the RAM, copies `.rom.ram`, clears `.ram`, relocates the GOT into RAM
  and patches every listed pointer, or dies with one of five messages.
- `fae_utils/read_fae.py` (the *reader*) is a second, independent parser of the same file.

The central result is in `EndToEnd.dfy`: for every well-formed program none of whose pointers goes
wrong or is in dispute with another, and every place in flash and RAM that has room, the loaded memory
is the memory the linker had in mind, seen through one relocation map. Every pointer points where it
pointed before (`PointersRelocated`), every other byte is the linker's (`BytesPreserved`), every chain
of pointers survives (`PathsPreserved`, `PathsIsomorphic`), and two loads at different places differ in
nothing but what pointers must differ in (`PositionIndependent`).
`Deployment.Deploy` strings the methods together, build, flash and start, with the theorems about them
as its contract.

| file | content |
|---|---|
| `Words.dfy` | bytes, uint32 words with wrap-around, little-endian encoding |
| `Masks.dfy` | `&`, `\|`, `~` on unbounded integers and on words; mask rounding |
| `Memories.dfy` | the 2^32-byte address space as a value; scanning for a nonzero byte |
| `Images.dfy` | the image, the relocation map, the faults, and the memory after each phase of a load |
| `PatchOrder.dfy` | exactly when the order of an image's relocation table matters |
| `Crt0.dfy` | what the loader reads from memory, what its caller must provide, how a run ends, also in bare numbers |
| `Phases.dfy` | where the loader's loops find the image, and that it stays there while they write |
| `Loader.dfy` | `_start`, its loops and `memcpy` as methods over an array of bytes |
| `Runs.dfy` | memory after any run past the checks, complete or not, read off the bytes |
| `Fae.dfy` | the file layout as a function of its parts; padding and alignment |
| `Builder.dfy` | the builder's exporters as methods appending to byte arrays |
| `Linked.dfy` | what the loader finds in a built file; the linker's memory |
| `EndToEnd.dfy` | the theorems about build, then load |
| `TableOrder.dfy` | exactly when the order in which the builder lists pointers matters |
| `Reader.dfy` | the reader's walk |
| `Agreement.dfy` | reader against builder, reader against loader |
| `Gdbinit.dfy` | the debugger script, evaluated line by line, against the loader's addresses |
| `Deployment.dfy` | build, flash and start in one method |

## How the code is modelled

The address space is one array of 2^32 bytes; flash and RAM are ranges of it, so that "flash is never
written" is a theorem and not a typing decision. Address arithmetic is uint32 arithmetic with its
wrap-around (`Words.Add`, `Words.Sub`, `Words.Times4`). The context record is the set of fields of
the class `Loader.Device`; it lies outside that array, that is, apart from flash and RAM. Each
inline-assembly copy in `memcpy` is one step that loads k bytes and then stores them. One ghost
field records any word, LDM or LDRD access off a word boundary, another every address stored to,
whatever the value: the promise about flash is about each single store, not about what is there in
the end. The loops of `_start` and the three loops of `memcpy` are loops here (the latter share one
method, `CopyPhase`, called with 48, 8 and 1); `_start` itself is cut into methods along its
comments. `die` and the final branch are the two kinds of `Outcome`.

`Crt0.Ready` states what `_start` relies on, and asks for it only when the magic number and the RAM
checks pass: the size of `.got` is a multiple of 4; RAM, partition and table do not run past the end of
the address space; the RAM to be written, whole words of `.ram` included, overlaps neither partition
nor table; a slot in `.rom.ram` or `.ram` ends there and is read from outside that RAM. Everything
else, wrong magic numbers, too little RAM, wild offsets, `.ram` of any size, unaligned addresses, is
covered by `Start`.

`Linked.WellFormed` states what the end-to-end results take for granted of a program: the symbols
describe the partition, whose first byte is not zero; the size of `.got` is a multiple of 4; every
listed pointer lies in the partition or outside the image altogether. `Linked.Programmed` says that the file is in flash at `bin_base`, that `__metadataOff` is the length of the CRT0, and that
flash and the RAM needed do not overlap or wrap. `BuiltFileLoads` shows that these imply `Ready`, and
that the program then starts exactly when it has room and none of its pointers goes wrong
(`Linked.FaultFree`). `EndToEnd.Loads` is all of that together, with listed pointers that are not in
dispute over the bytes they share (`Undisputed`; pointers that are equal or do not overlap never are,
`DistinctUndisputed`); `SomethingLoads` exhibits a program, a place and a memory for which it holds.

The main operations are stated twice: through functions that the proofs compute with, and in bare
numbers and bytes, where no function of the model stands between input and result (`BuildFae`,
`Crt0.OutcomeExact`, `FirstBadEntry`, `Runs.dfy`, `ReadingExact`). The loader's numbers are collected
in a `Crt0.Header`; every memory with the magic number in place has one (`HeaderExists`), and memory
settles how far a run gets (`Runs.Through`).

Five things one might expect of the code are false, and the exact conditions are proved:

- *The RAM checks mean that the program fits.* They do exactly when the sizes do not add up past the
  address space (`RamCheckExact`; a well-formed program that is let through without room:
  `RamCheckFooledByWrap`).
- *Nothing behind the RAM claimed is stored to.* Past the checks this holds exactly when the size of
  `.ram` is a multiple of 4, the clearing loop storing whole words (`Start`, `StoresInsideExact`);
  what is in memory there stays exactly when it was zero (`RunFrameExact`). A built program that
  clears the byte at ram_end: `OddRamOverruns`.
- *The padding skip finds the partition.* It does exactly when the byte there is not zero
  (`SkipFindsPartition`, `RomRoundTrip`; a file for which it does not: `ZeroFirstByteSkipped`).
- *The order of the relocation table does not matter, and every listed pointer arrives.* Both hold
  exactly when listed pointers that overlap get the same bytes where they do (`PatchOrderExact` for
  images, `TableOrderExact` and `AllRightExact` for built files). Equal and disjoint pointers satisfy
  this at every place, and word-aligned ones are always equal or disjoint (`AlignedSlotsDistinct`).
  Two builds of one program whose pointers are listed in different orders and that leave different
  RAM: `OverlappingSlotsDependOnOrder`.
- *The text alignment asked for is reached.* For all headers exactly when it is a power of two
  (`TextAlignsIffPow2`; a request that is missed: `ThreeMissed`).

Where documentation and code differ the code is followed: a comment in the builder gives the minimal
footer as 16 bytes, the code uses 28 (fae_utils/build_fae.py:178-188); a comment in the loader says
that a GOT entry pointing into the GOT is always at its start, the code takes any offset
(crt0/crt0.c:445-447). R_ARM_ABS32 is relocation type 2 of *ELF for the Arm Architecture*.

## Model

| member | source | states |
|---|---|---|
| Words.WordRoundTrip | fae_utils/build_fae.py:74-76 | Four little-endian bytes are the word's digits to the base 256, decoding returns the word, and no two words share an encoding |
| Words.ConcatAt | fae_utils/build_fae.py:114-120 | The i-th word of a serialised table is its bytes 4i to 4i+4 |
| Masks.AndBits | fae_utils/build_fae.py:101 | Bit i of the model's `&` is the conjunction of the operands' bits, negative operands included |
| Masks.NotBits | fae_utils/build_fae.py:152 | `~` flips every bit |
| Masks.RoundBounds | fae_utils/build_fae.py:150-152 | Whatever y is, rounding lands in [x, x+y) |
| Masks.RoundIsLeastMultiple | fae_utils/build_fae.py:150-152 | For a power of two y the result is the least multiple of y not below x |
| Masks.RoundAlignsIffPow2 | fae_utils/build_fae.py:150-152 | Rounding gives multiples of y from some number on, however large, if and only if y is a power of two |
| Masks.RoundAgrees | crt0/crt0.c:140 | The uint32 macro and the Python function agree whenever x+y-1 does not overflow |
| Masks.Round32Exact | crt0/crt0.c:140 | At 32 the macro gives the next multiple of 32, and 0 behind the last one |
| Masks.ThumbAddress | crt0/crt0.c:151 | `x \| 1` is x made odd |
| Memories.SkipInFile | crt0/crt0.c:392-394 | An address scan through a file in memory stops at the file's first nonzero byte from there |
| Memories.WordAtValue | crt0/crt0.c:361-383 | A word read from memory is its four bytes to the base 256, the lowest address first, addresses wrapping round |
| Images.RelocInjective | crt0/crt0.c:438-459 | The relocation map is injective on the image and preserves distances within .rom and within the RAM part |
| Images.RelocInverse | crt0/crt0.c:438-459 | The map can be undone from the two base addresses |
| Images.VerdictExact | crt0/crt0.c:436-517 | An image is free of faults iff all GOT entries and all table entries are in their bounds; a bad GOT entry wins, then the earliest bad slot |
| Images.WithGotFrame | crt0/crt0.c:436-463 | The GOT pass changes only the relocated GOT: the data copied and the zeros written before it survive |
| Images.WithPatchesFrame | crt0/crt0.c:470-519 | The patch pass leaves the relocated GOT and all memory outside the image's RAM alone |
| Images.LoadedFrame | crt0/crt0.c:421-519 | Whatever the outcome, memory outside the image's RAM and the rest of its last word is unchanged |
| Images.ClearedBehind | crt0/crt0.c:425-428 | Whatever the outcome, the bytes behind .ram that belong to its last word are zero afterwards |
| Images.LoadedContents | crt0/crt0.c:421-519 | After a load with consistent slots, GOT entries and slots hold relocated words, other .rom.ram bytes are the originals and other .ram bytes are zero |
| Images.LoadedDetermined | crt0/crt0.c:421-519 | What a load leaves in RAM is made from image and place alone, whatever memory held before |
| Images.SlotsArriveExact | crt0/crt0.c:470-519 | Every slot holds its relocated value after a load iff entries put the same bytes wherever they overlap |
| PatchOrder.PatchOrderIrrelevant | crt0/crt0.c:470-519 | Consistent tables with the same entries, permuted or repeated, leave the same memory |
| PatchOrder.WholeTableTwice | crt0/crt0.c:470-519 | Patching the whole table a second time changes nothing, consistent or not |
| PatchOrder.PatchIdempotentExact | crt0/crt0.c:470-519 | Every part of the table can be patched again without effect iff entries put the same bytes wherever they overlap |
| PatchOrder.PatchOrderExact | crt0/crt0.c:470-519 | All tables with the same entries, and already all permutations, leave the same memory iff entries put the same bytes wherever they overlap |
| Crt0.MagicStopsSkip | crt0/crt0.c:392-394 | Once the magic number matched, a nonzero byte is in the way of the padding skip |
| Crt0.RamCheckExact | crt0/crt0.c:400-413 | The program fits below ram_end iff the three comparisons pass and the sum does not wrap; without wrap the last comparison decides |
| Crt0.HeaderExact | crt0/crt0.c:356-398 | The loader takes end, table, .rom and all sizes from the words and the first nonzero byte that stand in memory |
| Crt0.DiesOfVersion | crt0/crt0.c:359-366 | For every memory the run dies of the version iff the four bytes in front of the end are not 12 DE CA FA |
| Crt0.OutcomeExact | crt0/crt0.c:365-517 | In numbers read from memory: a run starts the program iff magic bytes, three RAM comparisons, all GOT entries and all table entries are right; otherwise it reports the first check that fails in program order, a bad GOT entry as out of bounds |
| Crt0.FirstBadEntry | crt0/crt0.c:470-517 | The first bad table entry gives its error by bounds: slot in .rom, in .got or behind the image, pointer into .got or behind the image |
| Crt0.StartsAt | crt0/crt0.c:519-540 | A start branches to .rom plus the footer's entry point made odd, with the old ram_start as GOT |
| Runs.ReadyExact | crt0/crt0.c:353-519 | What `_start` relies on, in the header's numbers, asked for only past magic and RAM checks |
| Runs.GotExactly | crt0/crt0.c:436-463 | After any run past the checks, complete or not: GOT entries gone through hold where their values moved, the rest of the GOT is as it was |
| Runs.BytesExactly | crt0/crt0.c:421-428 | After any run past the checks a byte of .rom.ram or .ram no entry gone through covers is the flash byte or zero |
| Runs.PatchedExactly | crt0/crt0.c:470-519 | After any run past the checks a covered byte is that of the last entry gone through that covers it, overlapping slots included |
| Runs.RestExactly | crt0/crt0.c:421-519 | Nothing else changes, but for the rest of the last word of .ram, which is zero |
| Runs.ContextExactly | crt0/crt0.c:415-418 | What ram_start and nvm_start become, in the header's numbers |
| Crt0.RunFrame | crt0/crt0.c:405-519 | The memory a run leaves differs only inside [old ram_start, old ram_start + RAM needed) and the rest of its last word, and not at all when the run dies on magic or RAM |
| Crt0.RunFrameExact | crt0/crt0.c:405-519 | Past the checks memory stays as it was outside the RAM claimed iff the bytes behind it that complete the last word of .ram were zero; there are none iff .ram is made of whole words |
| Loader.RelocateEntry | crt0/crt0.c:437-460 | The GOT cascade of compares and wrapping subtractions is the two-piece map below the image size and fails above, also spelled out in section sizes |
| Loader.RelocatePointer | crt0/crt0.c:474-517 | The two patch cascades report the fault of the slot's and the target's sections, spelled out by bounds, and otherwise relocate both |
| Loader.Device.CopyPhase | crt0/crt0.c:563-587 | A chunk loop copies all but the last n < k bytes |
| Loader.Device.Memcpy | crt0/crt0.c:556-612 | The four phases copy exactly n bytes and store to their destinations only; an access is misaligned iff a word access is made and a pointer is off |
| Loader.Device.SkipPadding | crt0/crt0.c:392-394 | The byte loop terminates behind k zero bytes at one that is not zero, addresses wrapping round |
| Loader.Device.ZeroRam | crt0/crt0.c:425-428 | The word loop clears, and stores to, exactly the words .ram begins, for every size |
| Loader.Device.RelocateGot | crt0/crt0.c:436-463 | The loop relocates the entries before the first bad one and succeeds iff every entry is below the sum of the section sizes, though it reads flash while RAM changes |
| Loader.Device.PatchPointers | crt0/crt0.c:470-519 | The loop patches the entries before the first bad one and reports that one's fault, spelled out by bounds |
| Phases.StoresInsideExact | crt0/crt0.c:416-428 | Stores that clear .ram word by word stay inside the RAM claimed iff the size of .ram is a multiple of 4 |
| Loader.Device.Start | crt0/crt0.c:353-540 | Every run ends as OutcomeOf says with memory MemoryAfter; it stores nothing when it dies on magic or RAM, and nothing ever but to the RAM claimed and the rest of its last word, to all of which a start has stored; past the checks the stores stay in [old ram_start, new ram_start) iff .ram is made of whole words; ram_start, nvm_start and current_got change as stated and no other field does; word-aligned inputs cause no misaligned access |
| Fae.MagicsAgree | fae_utils/constants.py:20-22 | The builder's MAGIC_NUMBER \| VERSION is the loader's constant |
| Fae.SizeIsLeastMultiple | fae_utils/build_fae.py:171-194 | The size word is the least multiple of 32 with room for the parts and the 28-byte footer |
| Fae.Padding | fae_utils/build_fae.py:175-188 | There are 0 to 31 bytes of 0xff padding |
| Fae.SizeExact | fae_utils/build_fae.py:171-194 | The size is CRT0, size word, table, padding, partition and footer rounded up to a multiple of 32 |
| Fae.EncodableExact | fae_utils/build_fae.py:74-76 | A file can be built iff five symbols and its size fit words |
| Fae.FileParts | fae_utils/build_fae.py:190-229 | Each part of a file is found where the layout says, the size word being the file's length |
| Fae.FileFrontExact | fae_utils/build_fae.py:190-206 | The bytes in front of the footer, words as their values |
| Fae.FileFooterExact | fae_utils/build_fae.py:208-229 | The seven footer words as their values, the last four bytes being 12 DE CA FA |
| Fae.FooterWordAt | fae_utils/build_fae.py:208-229 | The footer words lie at -28, -24, ... -4 from the end |
| Fae.SkipFindsPartition | fae_utils/build_fae.py:199-203 | The scan behind the table ends inside the file, and at the partition iff the byte there is not zero |
| Fae.ZeroFirstByteSkipped | crt0/crt0.c:392-394 | A file whose partition starts with zero, where the scan passes it |
| Fae.TextAlignmentMinimal | fae_utils/build_fae.py:157-161 | The text padding takes the partition to the first multiple of the requested power of two |
| Fae.TextAlignmentExact | fae_utils/build_fae.py:154-161 | No request adds nothing; any other clears the bits of align - 1 from header + align - 1, adding less than align |
| Fae.TextAlignsIffPow2 | fae_utils/build_fae.py:154-161 | The requested alignment is reached behind every header of at least 8 bytes iff it is a power of two |
| Fae.ThreeMissed | fae_utils/build_fae.py:154-161 | A request for multiples of 3 that a header of 8 bytes does not get |
| Fae.PartitionWordAligned | fae_utils/build_fae.py:154-161 | With a word-sized CRT0 no power of two, and no request, takes the partition off a word boundary |
| Builder.RelocType | fae_utils/build_fae.py:99-101 | The relocation type is r_info modulo 256 |
| Builder.TableOf | fae_utils/build_fae.py:103-121 | The exported table is the single word 0 for a missing section, and otherwise the number of relocations and their offsets in order |
| Builder.AppendWord | fae_utils/build_fae.py:74-76 | A number is appended as four bytes iff it fits them |
| Builder.ExportRelocationTable | fae_utils/build_fae.py:103-121 | The exporter succeeds iff the section is missing or holds relocations without addends whose info is 2 modulo 256 and whose offsets fit words; it appends four zero bytes, or a word with their number and one with each offset |
| Builder.ConcatenateAndPad | fae_utils/build_fae.py:163-229 | The concatenation succeeds iff five symbols are below 2^32 and so is the size rounded up, and appends exactly the file |
| Builder.BuildFae | fae_utils/build_fae.py:277-373 | The script yields a file iff alignment, section, relocations, symbols and size are acceptable, all in numbers, and the file is given byte by byte, with no padding when no alignment is requested |
| Linked.FooterRoundTrip | crt0/crt0.c:359-383 | The loader's footer reads return the words the builder wrote |
| Linked.TableRoundTrip | crt0/crt0.c:356-390 | The loader finds the builder's entry count, entries and end of table |
| Linked.RomRoundTrip | crt0/crt0.c:386-394 | For every built file .rom is taken to start at the first nonzero byte behind the table, the partition iff its byte is not zero |
| Linked.SectionsRoundTrip | crt0/crt0.c:386-403 | All section addresses and sizes the loader computes come from the builder's numbers, for every file whose partition does not start with zero, even where the sizes do not describe the partition |
| Linked.ImageRoundTrip | crt0/crt0.c:356-519 | The image the loader takes from memory is the image the linker and the builder mean, and its layout is sound |
| Linked.FaultFreeExact | crt0/crt0.c:436-517 | In the linker's terms: the image is free of faults iff every GOT entry is an offset into it and every listed pointer lies in .rom.ram and holds an offset into it outside .got |
| EndToEnd.RamCheckFooledByWrap | crt0/crt0.c:400-413 | A well-formed, fault-free program with a .ram of 0xF0000000 bytes passes magic and RAM checks in 4 KiB of RAM |
| EndToEnd.BuiltFileLoads | crt0/crt0.c:353-519 | A well-formed file in flash starts iff it has room and no pointer of the program goes wrong; the reason for dying does not depend on the place |
| EndToEnd.BuiltFileOutcome | crt0/crt0.c:400-517 | In the linker's numbers: not enough RAM iff the sections do not fit below ram_end, out of bounds for a bad GOT entry, a start iff there is room and all pointers are right |
| EndToEnd.BuiltFileFault | crt0/crt0.c:470-517 | The first bad listed pointer of a program with room gives its error by bounds on where it lies and what it holds |
| EndToEnd.OddRamOverruns | crt0/crt0.c:416-428 | A built program whose one byte of .ram just fits below ram_end starts, and the byte at ram_end is cleared |
| EndToEnd.FlashIntact | crt0/crt0.c:405-519 | Every run leaves the file in flash intact, ready to be loaded again |
| EndToEnd.PointersRelocated | crt0/crt0.c:436-519 | After a load every GOT entry and listed pointer, found at the relocation of its offset, holds the relocation of its link-time value |
| EndToEnd.BytesPreserved | crt0/crt0.c:421-519 | After a load every byte outside pointers is the linker's: partition bytes and zeros |
| EndToEnd.PathsPreserved | crt0/crt0.c:436-519 | Following any chain of pointers in the loaded program ends at the relocation of where the linked chain ends |
| EndToEnd.PathsIsomorphic | crt0/crt0.c:436-519 | Two chains meet after loading iff they meet in the linked program |
| EndToEnd.SameOutcomeAnywhere | crt0/crt0.c:386-519 | With room at both places a file dies of the same error at both or branches to the same offset from bin_base, whatever its entry point, wrap-around included |
| EndToEnd.PositionIndependent | crt0/crt0.c:386-519 | Two loads agree byte for byte outside pointers, and each pointer of one is the other's taken back and relocated anew |
| EndToEnd.FreeFlashFollows | crt0/crt0.c:417-418 | For a 32-aligned bin_base nvm_start becomes exactly bin_base plus the file's length |
| EndToEnd.BuiltFileAligned | crt0/crt0.c:386-398 | Word-sized parts at word-aligned places make every word access of the loader aligned |
| TableOrder.TableOrderExact | crt0/crt0.c:470-519 | Rewriting the file with its pointers listed in any other order, or some repeated instead of others, leaves the same RAM after a load iff overlapping pointers get the same bytes where they overlap; permutations suffice |
| TableOrder.AllRightExact | crt0/crt0.c:470-519 | Every listed pointer of a built program is right after a load iff none is in dispute |
| TableOrder.OverlappingSlotsDependOnOrder | crt0/crt0.c:470-519 | Two builds of one program with the same pointers listed in different orders, at one place, leave different RAM |
| Reader.GetWordFull | fae_utils/read_fae.py:39-50 | Negative and positive starts give the little-endian word there whenever four bytes are there |
| Reader.Read | fae_utils/read_fae.py:205-368 | The walk ends in the one way the file calls for, and accepts iff header and sizes are fine |
| Reader.ReadingExact | fae_utils/read_fae.py:205-368 | The ending of every file, complaint by complaint in the script's order, in the values of its words |
| Reader.ReportExact | fae_utils/read_fae.py:235-364 | What an accepting reader reports, the partition at the first nonzero byte behind the table |
| Reader.ReadingUnique | fae_utils/read_fae.py:205-368 | A file calls for one ending only |
| Agreement.BuiltFileRead | fae_utils/read_fae.py:205-368 | A built file is accepted iff it has a CRT0, a nonempty .rom, an entry point not behind it and sizes below its own; with a CRT0 its header is always fine |
| Agreement.BuiltFileComplaint | fae_utils/read_fae.py:235-368 | Which complaint is made of a built file, in terms of its parts |
| Agreement.BuiltFileReport | fae_utils/read_fae.py:235-364 | On a built file the reader reports the builder's CRT0 size, relocation count and sizes, and the partition's offset iff its byte is not zero |
| Agreement.WellFormedAccepted | fae_utils/read_fae.py:205-368 | Files of well-formed programs with their entry point in .rom are accepted, the partition found |
| Agreement.ReaderLoaderAgree | fae_utils/read_fae.py:287-292 | For any file with a fine header, built or not, reader and loader find the same end, table, partition, entry point and sizes |
| Agreement.BuiltPartsAligned | fae_utils/build_fae.py:347-348 | What the script assembles has a self-counting table and a partition on a word boundary and on the boundary requested |
| Gdbinit.ScriptRuns | fae_utils/build_fae.py:256-273 | The script's assignments, one after the other, give each variable and section the stated address |
| Gdbinit.DebuggerAgrees | fae_utils/build_fae.py:255-273 | For every flash and RAM base the debugger's section addresses are the loader's, $flash_end is the end of the partition and $ram_end the later ram_start |
| Deployment.DeployableExact | crt0/crt0.c:353-519 | What the inputs and the place have to satisfy for the chain to be covered, in numbers |
| Deployment.LoadsFaithful | crt0/crt0.c:421-519 | A load without disputed pointers leaves the program in memory as its linker laid it out: every pointer relocated, every other byte the linker's |
| Deployment.Deploy | fae_utils/build_fae.py:277-373 | Building, flashing and starting: a file iff the script makes one; a start iff there is room and no pointer goes wrong, with the program then as its linker meant unless overlapping pointers are in dispute; every store in the RAM claimed and the rest of its last word; the file still in flash; ram_start at the debugger's $ram_end; nvm_start behind the file on an MPU boundary; no misaligned access for word-sized parts at word-aligned places with no or a power-of-two alignment |

## Left out

- ELF parsing, symbol lookup, running make, objcopy and objdump, files and command lines: symbols, relocations, CRT0 and partition bytes are inputs.
- The list of relocation tables: it has one name, and one table is exported.
- The assembly of `die`, semihosting and the switch to start(): they are the terminal outcomes of a run.
- `src/stdriot.c` and its headers, the system-call wrappers, except for the context fields the loader reads or writes.
- Everything the reader prints, and its section-by-section walk, which takes `.rom.ram`, `.rom` and `.got` in an order of its own (fae_utils/read_fae.py:308-351). Its checks for negative numbers cannot fail on unsigned words and are not modelled.
- Loader.Device.Start: nothing is claimed for `.got` sizes that are not multiples of 4 (its loop then reads and rewrites the beginning of `.rom.ram` as part of an entry), for layouts that wrap past the RAM checks, or for RAM that overlaps the partition or the table.
- Loader.Device.RelocateGot: covers `.got` sections of whole entries only, like `Start`.
- EndToEnd.BuiltFileLoads: does not cover listed pointers in `.ram` or reaching past the partition, whose link-time value is not in the file.
- EndToEnd.PointersRelocated: listed pointers that overlap must not be in dispute at the place of the load; `TableOrder.AllRightExact` shows that the condition is exact.
- EndToEnd.SameOutcomeAnywhere: the entry points are compared for binaries at addresses of the same parity, because of the Thumb bit.
- Deployment.Deploy: the flashing tool is taken to write the file's bytes at `bin_base` and nothing else.
