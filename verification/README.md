# A verified model of kernelkit

kernelkit wraps Linux memory, NUMA, affinity and file-mapping facilities. This project models the
parts of it that are protocols or parsers rather than single calls, and proves what they promise.
The kernel is an abstract environment: it may answer every call as it likes, refuse any `munmap`
included, may change the length of a file between any two calls, and never maps a range that is in use.

- `numa_loader.dfy`: the libnuma loader as a state machine over any number of calls of `load`, each
  with its own program counter; `Statics.Load` is one call on its own and takes a path of that machine.
- `address_space.dfy`: an address space as the replay of a log of events (mapped, unmapped, element
  placed, element dropped). An event can only be logged when it is legal, so a double unmap, a second
  drop, or unmapping under a live element cannot be expressed.
- `hugepages.dfy`: `HugeAllocation`, its guard and `HugePageVec` over that space. The parameter
  `produced` holds what the calls of `T::default()` return; one more call panics.
- `mmap_block.dfy`: `MmapBlock`, and whole runs of a process that makes and drops blocks and huge-page
  allocations in one address space and stores into the allocations.
- `file_identity.dfy`, `mapped_open.dfy`: stat, map, re-stat, with other processes moving in between.
- `corpus.dfy`: the directory walk, the sort and the mapping loop with its limits.
- `binformat.dfy`, `affinity.dfy`, `memory.dfy`, `cpu_features.dfy`, `prefetch.dfy`,
  `numa_topology.dfy`: formats, masks, parsers and index arithmetic.
- `arithmetic.dfy`, `bits.dfy`, `ordering.dfy`, `text.dfy`, `wrappers.dfy`: shared foundations.

Integers are unbounded; wherever the width matters it is written out (`usizeMax` is the largest
`usize`, 64-bit saturation and overflow checks are explicit). Sequential Rust code that updates state
in place is a class or a method here, verified against a specification function; the main results are
lemmas about those functions.

Where the code departs from its documentation, or from what a reader may expect, the model follows
the code:

- `prefetch_range` promises all cache lines that overlap the range; `Prefetch.Coverage` gives the exact
  condition under which it does, and shows that otherwise only the last one is missed;
  `Prefetch.UnalignedStartMissesLine` is a range where it is.
- `open_read_with_size` validates the on-disk size, before and after mapping, but never looks at the length
  of the mapping itself, and neither does the corpus. `MappedOpen.ExactIffNoExcursion` and
  `Corpus.CorpusExactIffNoExcursion` say for which environments the length is right all the same,
  `MappedOpen.ChangeAndChangeBack` and `Corpus.CorpusMayMapTooMuch` show where it is not.
- `map_region` reports a mapping at address 0 as an error without unmapping it, unlike
  `HugeAllocation::new`, and the result of every `munmap` is ignored. `MmapBlocks.Process.Run` proves that
  a region is leaked exactly for one of these two reasons, and `MmapBlocks.Process.DropAll` that the drops of
  elements do not depend on them.
- The scan of `/proc/meminfo` stops once both main counters are known. `Memory.EarlyExitIff` says on exactly
  which texts that is a full reading all the same, `Memory.RepeatedTotal` gives a text on which it is not.
- The error a corpus walk reports can depend on the order of directory entries
  (`Corpus.WalkErrorDependsOnOrder`); `Corpus.FaultIsOrderFreeIff` says exactly when it does not.
- When the library cannot be used, node numbers are accepted up to the largest online one; these are the
  online nodes exactly when the online list has no gap (and does not name the largest `usize` where that is a
  node number: `NumaTopology.AcceptedNodesAreOnline`); `NumaTopology.GapIsAccepted` is a list with a gap.
- Of an affinity mask, all but the last eight digits of a group are ignored without an error.
  `Affinity.NothingLostIff` says when nothing is lost, `Affinity.LongGroupIsCut` is a mask that loses a core.

## Model

| member | source | states |
|---|---|---|
| NumaLoader.TryLoad | src/numa.rs:318-329 | the first candidate name that is not passed over decides, with a library or an error; when every name is passed over there is no library, which is a success |
| NumaLoader.InvIsInductive | src/numa.rs:287-316 | every step of every interleaving keeps: exactly the lock holder is inside the critical section, whoever is loading or about to set sees an empty cell, and every outcome agrees with the cell |
| NumaLoader.CellIsWrittenOnce | src/numa.rs:288-306 | in any run the cell, once filled, has the same content at every later point |
| NumaLoader.AllCallsAgree | src/numa.rs:287-316 | any two successful calls, in any threads and at any times, returned the same library, and it is the one in the cell |
| NumaLoader.CommittedIsFinal | src/numa.rs:299-306 | from the moment a load has succeeded, no step starts or completes another load |
| NumaLoader.AtMostOneLoadSucceeds | src/numa.rs:299-306 | at most one `try_load` of a run succeeds, and none starts after it or after the cell is set |
| NumaLoader.CachedLibraryWasLoaded | src/numa.rs:303-310 | the cached library is the very one that a successful `try_load` of this run produced |
| NumaLoader.FallbackErrorsUnreachable | src/numa.rs:304-315 | `set` never meets a full cell, the last look never an empty one, and no call returns "initialization failed" |
| NumaLoader.FailureIsNotCached | src/numa.rs:296-303 | an attempt that errors or panics under the lock leaves the cell empty, and its exit leaves the lock free |
| NumaLoader.FailureIsOwn | src/numa.rs:292-303 | a call that errs or panics, in any run, went through `try_load` itself and got that error or panic there |
| NumaLoader.FastPath | src/numa.rs:291-293 | once the cell is full a call ends with its first look, whatever other calls are doing |
| NumaLoader.LaterCallRetries | src/numa.rs:292-303 | from any reachable quiet state with an empty cell, poisoned or not, a fresh call gets into `try_load` |
| NumaLoader.RunsTerminate | src/numa.rs:287-316 | no interleaving of k calls is longer than 8k steps |
| NumaLoader.OnlyTheLockBlocks | src/numa.rs:295-297 | an unfinished call can always take a step, unless it waits for the lock and another call has it |
| NumaLoader.SomeCallCanMove | src/numa.rs:287-316 | no deadlock: while a call is unfinished, some call can take a step |
| NumaLoader.Statics.Load | src/numa.rs:287-316 | one call without interference takes a path of the state machine, consults the library only on an empty cell, and writes the cell only on success |
| AddressSpace.LogIsSound | src/hugepages.rs:258-307 | after any legal history regions are disjoint, and live elements are disjoint and inside a region |
| AddressSpace.Conservation | src/hugepages.rs:211-225 | for each element and each region: placed = dropped + live, and mapped = unmapped + present, over every history |
| AddressSpace.CreatedIsLivePlusDropped | src/hugepages.rs:320-327 | over any history the number of elements created is the number live plus the number dropped |
| AddressSpace.Balanced | src/hugepages.rs:320-327 | when nothing is alive, each element was dropped as often as it was placed, and each region that is gone was unmapped as often as mapped |
| AddressSpace.RefusedIff | src/mmap.rs:149-152 | the regions counted as refused are exactly those for which the history holds a refused unmap |
| HugePages.MapLenIsLeastMultiple | src/hugepages.rs:237-241 | the mapping length is the least multiple of 2 MiB that holds the elements, and overflow is reported exactly when no such multiple fits `usize` |
| HugePages.ElementsFitDisjointly | src/hugepages.rs:292-297 | the byte range of every element lies inside the mapping, and ends before that of any later element begins |
| HugePages.KernelMayIff | src/hugepages.rs:243-256 | the kernel may refuse any mapping, and may place one anywhere that shares no byte with a mapped region |
| HugePages.InOrder | src/hugepages.rs:292-297 | elements are placed, and dropped, one each, from the first on |
| HugePages.DropInPlace | src/hugepages.rs:213-220 | drops each element of a row once, in order, and touches nothing else |
| HugePages.InitGuard.Drop | src/hugepages.rs:211-225 | drops exactly the initialized prefix, once each, then makes one unmap call; refused or not, no element is left |
| HugePages.NewHugeAllocation | src/hugepages.rs:229-308 | for every kernel answer, to the unmap included, and every index at which `T::default()` panics: which outcome it is, the exact history, and that anything but success leaves memory as it was, or with the bare mapping when its release was refused |
| HugePages.Fill | src/hugepages.rs:286-307 | the construction loop ends with all elements live, or with the produced prefix dropped and the mapping gone |
| HugePages.BuiltIsOwned | src/hugepages.rs:299-307 | a built allocation owns its mapping, its `count` elements are live and hold what `T::default()` returned, and nothing else is in the mapping |
| HugePages.BuiltIsAligned | src/hugepages.rs:258-273 | in whatever is built every element is aligned for its type, since the address of the mapping was checked |
| HugePages.DropHugeAllocation | src/hugepages.rs:320-327 | dropping the value drops every element once, in order, and makes one unmap call, whose refusal changes nothing else |
| HugePages.StoreElement | src/hugepages.rs:314-316 | assignment through the mutable slice replaces one element, drops the old value, and leaves the others |
| HugePages.OverwritingKeepsOthers | src/hugepages.rs:310-316 | overwriting an element of one allocation leaves every other one owned, with the values it had |
| HugePages.Construct | src/hugepages.rs:102-200 | all three constructors start from the `count` values of `T::default()` whichever backing they get, fall back on every huge-page failure, let only a panic through, and differ only in how they refuse; the history is exactly that of the huge-page attempt |
| HugePages.HugePageVec.Read | src/hugepages.rs:73-79 | reads element i of the one sequence both backings stand for; out of range is refused |
| HugePages.HugePageVec.Write | src/hugepages.rs:83-89 | replaces element i of that sequence and nothing else; out of range is refused |
| HugePages.RunOps | src/hugepages.rs:57-89 | any run of reads, writes and length queries gets, on either backing, the replies a plain sequence gives |
| HugePages.LastWriteCounts | src/hugepages.rs:71-89 | after any run of operations an index holds the value last written to it, or what it held at first |
| HugePages.RunBoth | src/hugepages.rs:57-89 | however the operations on two vectors in one address space interleave, each vector replies and ends as a plain sequence of its own |
| MmapBlocks.MapRegion | src/mmap.rs:121-147 | a refused mapping changes nothing; a mapping at 0 is reported as an error but stays mapped |
| MmapBlocks.NewBlock | src/mmap.rs:25-40 | the exact outcome and new memory for every length and kernel answer |
| MmapBlocks.NewBlockOnNode | src/mmap.rs:47-78 | the same; a failed bind asks for the region to be unmapped again, so memory is as before unless that is refused |
| MmapBlocks.HugeAppears | src/hugepages.rs:299-307 | a new allocation joins the books: every other owner keeps its region, and its elements stay live |
| MmapBlocks.HeldWithHuge | src/hugepages.rs:299-307 | the new allocation holds what was produced, and each other one the very values it held |
| MmapBlocks.HugeGoes | src/hugepages.rs:320-327 | releasing an allocation takes exactly its elements and region from the books; a refusal moves the region to the leaked ones |
| MmapBlocks.HeldWithoutHuge | src/hugepages.rs:320-327 | after an allocation is dropped, its release refused or not, each other one holds the very values it held |
| MmapBlocks.BlockGoes | src/mmap.rs:111-115 | releasing a block is legal (nothing alive is in it) and takes exactly its region from the books; a refusal moves it to the leaked ones |
| MmapBlocks.HeldWithStore | src/hugepages.rs:314-316 | an assignment through one allocation changes its sequence at that place and no other sequence |
| MmapBlocks.Process.Step | src/mmap.rs:25-78 | any creation, drop or store, whatever the kernel answers, keeps: the regions are exactly those of live owners and the leaked ones, the live elements exactly those owned, and what is leaked is exactly what the history shows, a block at address 0 or a refused unmap; and it does to the sequences in the allocations what it would do to independent ones |
| MmapBlocks.Process.TryStep | src/mmap.rs:25-78 | an answer is turned into a refusal only when the range it names is in use; any other happens as it is |
| MmapBlocks.Process.Run | src/mmap.rs:25-153 | any sequence of operations keeps that invariant; each operation happens as the kernel answered it, unless its range was in use by then; and the owners, the mapped and the leaked regions, and the sequence in each live allocation are those that operations and answers determine |
| MmapBlocks.OwnedIff | src/mmap.rs:25-115 | after a run from nothing a base is owned if and only if a block or allocation was really made there and not dropped since, and it is the one made last |
| MmapBlocks.HeldIsAlone | src/hugepages.rs:310-327 | an allocation that lives through a run ends as its sequence ends alone under the stores that went to it |
| MmapBlocks.LeakedIff | src/mmap.rs:146-152 | a region is leaked by a run if and only if a block was mapped at address 0, for that region, or the kernel refused the release some operation asked for |
| MmapBlocks.Process.DropAll | src/mmap.rs:111-115 | dropping everything, with any set of releases refused, leaves no element and exactly the leaked regions; over the whole history placed = dropped for every element, and mapped = unmapped for every region not leaked |
| MappedOpen.OpenWithAdvice | src/mmap.rs:321-372 | for every schedule of outside changes: succeeds if and only if no call fails, the lengths at stat, mapping and re-stat agree and the inode is the same; otherwise which error |
| MappedOpen.OpenReadWithSize | src/mmap.rs:242-303 | succeeds if and only if both stats show the expected size on one inode and no call fails; the length returned is that of the mapping; otherwise which error |
| MappedOpen.ExactIffNoExcursion | src/mmap.rs:261-283 | the sized opening always maps the expected size in exactly those environments where a file never leaves a length and comes back |
| MappedOpen.MonotoneIsExact | src/file_identity.rs:63-81 | it does when files only grow or only shrink |
| MappedOpen.ChangeAndChangeBack | src/file_identity.rs:69-80 | a run that grows the file before the mapping and shrinks it after succeeds with the wrong length |
| Corpus.PathOrder | src/corpus.rs:68 | the order of paths is a strict total order |
| Corpus.PathOrderIs | src/corpus.rs:68 | the first differing component decides, by its first differing character, and a directory comes before what is in it |
| Corpus.CollectFiles | src/corpus.rs:150-192 | the walk stops at the first fault in its order, or appends the paths of all regular files of the tree |
| Corpus.CleanIffNoFault | src/corpus.rs:150-192 | the walk raises no fault exactly when the tree holds only regular files and readable directories, at any depth |
| Corpus.FoundIff | src/corpus.rs:150-192 | the walk finds a path, with a length, if and only if following it through the tree leads to a regular file of that length |
| Corpus.FaultsAre | src/corpus.rs:156-189 | which error each kind of entry that is neither file nor directory is reported as |
| Corpus.PathsDistinct | src/corpus.rs:161-181 | distinct names in each directory make all paths distinct |
| Corpus.OpenWithLimits | src/corpus.rs:60-120 | the loop with its early returns comes to the specification of the whole opening |
| Corpus.AfterFirstError | src/corpus.rs:73-117 | the first file that fails determines the result |
| Corpus.OpensExactly | src/corpus.rs:60-120 | on a quiet tree: opens if and only if the root is a readable directory, the tree is clean, each file is within its limit and the saturated true sum within the total; the mappings are then exactly the files, strictly sorted, in full, and the true sum obeys a limit below the 64-bit maximum |
| Corpus.WalkFailsIff | src/corpus.rs:67-154 | whatever the files do: a root that is no readable directory is a failed `read_dir`, and else the walk fails if and only if there is a fault, with the first one as the error |
| Corpus.LimitErrorIs | src/corpus.rs:84-104 | on steady files the limit error is that of the first file, in order, at which a limit is passed: its own limit, else the total |
| Corpus.CheckedOne | src/corpus.rs:73-117 | one file is mapped if and only if the sized opening at its own length succeeds and both limits admit it |
| Corpus.FirstThingWrong | src/corpus.rs:73-117 | otherwise the error is that of the first thing to go wrong, for each kind of error |
| Corpus.OrderIndependent | src/corpus.rs:65-104 | permuting the entries of any directories changes neither whether the corpus opens nor, when the walk succeeds, the mapping list or the error |
| Corpus.AnyFaultMayComeFirst | src/corpus.rs:150-192 | each fault anywhere in the tree is the one reported for some order of the entries |
| Corpus.FaultIsOrderFreeIff | src/corpus.rs:150-192 | the whole outcome, error included, is the same for every order of entries if and only if all faults of the tree are equal |
| Corpus.WalkErrorDependsOnOrder | src/corpus.rs:166-189 | a tree with two faults on which the order of entries decides which one is reported |
| Corpus.EveryRegionWasChecked | src/corpus.rs:73-117 | on changing files: every region was seen at one size at both stats, within the file limit, and the total is within its limit |
| Corpus.CorpusExactIffNoExcursion | src/corpus.rs:105-117 | every corpus that opens maps its files at the sizes it reports, in exactly those environments where a file never leaves a length and comes back |
| Corpus.MappedBytesObeyLimit | src/corpus.rs:93-117 | in such an environment, and so when files only grow or only shrink, the bytes really mapped obey a total limit below the 64-bit maximum |
| Corpus.CorpusMayMapTooMuch | src/corpus.rs:78-117 | a run on which a file that is long only while it is mapped takes a corpus past its limits |
| BinFormat.ToFromLe | src/binformat.rs:79 | every byte string is the little-endian encoding of the number it decodes to, at its width |
| BinFormat.ByteAt | src/binformat.rs:42-45 | byte k of an encoding is that of weight 256 to the k: the least significant byte comes first |
| BinFormat.WriteTo | src/binformat.rs:42-45 | appends magic and version, or the prefix there is room for, and reports which |
| BinFormat.ReadsExactlyWhatIsWritten | src/binformat.rs:42-88 | reading gives a version and a rest if and only if the data is what writing that header produces, then that rest, and the version is supported |
| BinFormat.HeaderIsStable | src/binformat.rs:52-88 | more bytes keep every decision; a short read needs at least the bytes it says are missing |
| BinFormat.HeaderErrors | src/binformat.rs:57-85 | each refusal of a header, with its numbers, and exactly when it comes |
| BinFormat.SectionIff | src/binformat.rs:114-138 | a section is read if and only if the data is its 8-byte length, its payload and the rest, and the length fits `usize` |
| BinFormat.SectionIsStable | src/binformat.rs:114-138 | the same stability for sections |
| BinFormat.SectionErrors | src/binformat.rs:115-135 | each refusal of a section, with its numbers, and exactly when it comes |
| BinFormat.ReadAllIff | src/binformat.rs:114-138 | reading section after section yields a list if and only if the data is the concatenation of that list's encodings, so decoding is injective |
| BinFormat.NestedIff | src/binformat.rs:114-138 | nested sections of any shape, leaves beside sections, are read as a document if and only if it has that shape, can be encoded, and the data is its encoding |
| BinFormat.NestedRoundTrip | src/binformat.rs:114-138 | every document that can be encoded comes back |
| Affinity.ParseIrqAffinity | src/affinity.rs:53-82 | success is the cores of a mask whose groups all parse and whose cores fit 32 bits; an error is that of the first group from the right that has one |
| Affinity.GroupIff | src/affinity.rs:56-69 | a group is accepted, and read as v, if and only if it is, but for space and a prefix, a hexadecimal numeral of any length for v, and v fits 64 bits |
| Affinity.FailureIsFinal | src/affinity.rs:55-78 | when some group fails there is no list of cores that the text parses to |
| Affinity.ParsedMaskIsExpansion | src/affinity.rs:55-81 | the cores are strictly increasing, and the sum of their powers of two is the sum of the groups, each modulo 2^32, in its place |
| Affinity.NothingLostIff | src/affinity.rs:61-77 | the cores spell out the whole number written, if and only if every group is below 2^32 |
| Affinity.LongGroupIsCut | src/affinity.rs:61-77 | a mask of one nine-digit group parses to no core, though it spells out core 32 |
| Affinity.PrintThenParse | src/affinity.rs:53-82 | printing any set of cores in groups of enough digits, a short leading one included, with or without a prefix and a line end, parses back to exactly that set in order |
| Memory.ReadFromMeminfo | src/memory.rs:60-117 | the scan with early exit uses the counters of the lines up to where both main counters are known |
| Memory.ReadToIsFirst | src/memory.rs:66-82 | reading stops at the first moment at which both main counters are known, and else at the end |
| Memory.CountersAre | src/memory.rs:67-96 | each counter is that of the last line that begins with its name |
| Memory.KibIff | src/memory.rs:37-42 | a line has the value n if and only if it is a key, a colon, space, a decimal numeral for n that fits 64 bits, and then anything but a digit |
| Memory.PrintedLineParses | src/memory.rs:37-42 | a line of a key, any space, a number in decimal and perhaps a unit gives back that number |
| Memory.EarlyExitKeepsCounter | src/memory.rs:66-83 | a counter is what a full reading finds if and only if the unread lines, where they have its key, repeat its value |
| Memory.EarlyExitIff | src/memory.rs:66-117 | the scan reports what a full reading reports if and only if each main key that occurs among the unread lines gives, there, the number of bytes already known (the fallback sum where an unread value cannot be parsed) |
| Memory.EarlyExitIsHarmless | src/memory.rs:66-96 | in particular whenever lines with one key agree |
| Memory.RepeatedTotal | src/memory.rs:67-82 | a text with two totals on which the scan and a full reading report different ones |
| Memory.ResultIsOrderFree | src/memory.rs:66-117 | in that case any permutation of the lines gives the same status |
| Memory.StatusInBytes | src/memory.rs:33-42 | bytes are 1024 times the KiB, saturated; available at most total is preserved; the fallback sum is exact |
| Memory.NoStatusIff | src/memory.rs:98-115 | there is no status exactly when the total is missing, or the available memory is and free, buffers and cache do not make up for it |
| CpuFeatures.UnitIsFound | src/cpu_features.rs:176-212 | the ordered suffix tests never pick a wrong unit |
| CpuFeatures.CaseDoesNotMatter | src/cpu_features.rs:172 | texts that differ only in the case of letters have the same outcome |
| CpuFeatures.ParsesTheGrammar | src/cpu_features.rs:171-214 | yields v if and only if the text is a number, optional space and a unit in any case, v is the number times the unit, and v fits `usize` |
| Prefetch.PrefetchRange | src/prefetch.rs:83-96 | for every address, length and line size: exactly ceil(n/L) prefetches, one every L bytes, all inside the first n bytes, where n is the length capped at 2 MiB |
| Prefetch.LastLine | src/prefetch.rs:70-96 | a range overlaps as many lines as are prefetched, or one more |
| Prefetch.Coverage | src/prefetch.rs:70-96 | every prefetched line overlaps the range; all overlapping lines are prefetched if and only if addr%L + (n-1)%L < L; only the last can be missed |
| Prefetch.UnalignedStartMissesLine | src/prefetch.rs:70-96 | 64 bytes from address 1, with lines of 64, reach into line 1, which is not prefetched |
| NumaTopology.SysfsNodeCount | src/numa.rs:227-261 | one more than the largest index in the list, saturated, or without any index the number of node directories |
| NumaTopology.IndexIff | src/numa.rs:231-241 | an item has the index n if and only if it is the number n, or a first dash and then the number n, but for space, and n fits |
| NumaTopology.NodeNameIff | src/numa.rs:250-255 | the names counted are "node" and decimal digits, if any |
| NumaTopology.CountIsExact | src/numa.rs:248-260 | each such entry counts once |
| NumaTopology.ItemsOfContent | src/numa.rs:229-232 | the items the code goes through are the comma-separated ones, up to space around them |
| NumaTopology.OrderDoesNotMatter | src/numa.rs:229-244 | reordering or repeating items, and space around them, does not change the largest index |
| NumaTopology.WellFormedList | src/numa.rs:231-244 | for a list of ranges the largest index is the largest node the list names |
| NumaTopology.CountAndValidationAgree | src/numa.rs:208-273 | the count is at least 1 and exactly the nodes below it are accepted; and which these are, from the library, else the text of the online list, else the directory names |
| NumaTopology.AcceptedNodes | src/numa.rs:263-273 | without the library and with a well-formed list, a node is accepted if and only if some online node is not below it and it is not the largest `usize`, where the count saturates |
| NumaTopology.AcceptedNodesAreOnline | src/numa.rs:263-273 | without the library, the accepted nodes are the online ones if and only if the online list has no gap and does not name the largest `usize` where that is a node number |
| NumaTopology.GapIsAccepted | src/numa.rs:229-273 | on the list "0,2" node 1, which is not online, is accepted |
| NumaTopology.NodemaskForNode | src/numa.rs:109-119 | the words, read as one bit string, have exactly bit `node` set; there are ceil(maxnode / word bits) of them, and maxnode is node + 1 |
| NumaTopology.LongBitIs | src/numa.rs:109-119 | bit k of the row of words is bit k of the number they spell, the first word lowest |
| NumaTopology.CoreMask | src/affinity.rs:11-23 | the core mask has exactly its core's bit set, and exactly the cores beyond the mask are refused |
| Text.ParsesNumerals | src/numa.rs:234-239 | numbers are accepted if and only if they are numerals, perhaps after a plus sign, that fit |
| Text.DigitsAre | src/affinity.rs:62-68 | the hexadecimal digits, in either case, and no other character |
| Text.TrimIs | src/numa.rs:229-232 | trimming takes away space at both ends, all of it and nothing else |

## Left out

- System calls and libnuma: free outcomes, chosen by parameters; hints whose result the code ignores have no effect.
- src/mlock.rs, src/readahead.rs, src/perf.rs: one branch per error, no property across functions.
- `alloc_on_node`, `migrate_to_node`, `pin_to_node`: single calls after `validate_node`.
- CPU feature flags, prefetch instructions, page size, and the reading of `/proc` and `/sys` files: only the parsing of their text is modelled.
- Splitting `/proc/meminfo` into lines: the scan starts from the lines.
- Error texts, OS error codes, `Display` output, fault-injection hooks, and the variants for other systems than Linux.
- Text outside ASCII: Unicode white space is not modelled, and file names compare as their characters.
- Memory orderings: the loader's cell and lock are sequentially consistent, as the standard library makes them appear.
- A panic inside a destructor, and SIGBUS after a file is truncated once it is mapped.
- The allocator behind the `Vec` backing: its elements are values and no events are logged for them.
- The sort of the standard library: any sort giving a sorted permutation gives the same result here; an insertion sort stands for it.
- The mappings of the memmap2 crate as regions of the address space: of a mapped file only its length is kept.
- The base directory of a corpus: paths are the components below it, which have it as a common prefix.
- NodemaskForNode: what the kernel does with the bit count is outside the code; `maxnode` is node + 1 as the code passes it.
