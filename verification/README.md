# AlloyStack in Dafny

A model of the parts of AlloyStack in which the work lies between several pieces of code: serverless
functions that run as groups of parallel threads and exchange data through named slots, the tables and
threads of the library OS below them, and the byte arithmetic of its file and memory services. Everything
stated holds for all inputs, all runs and all interleavings of the model. `dafny verify dfyconfig.toml`
verifies the project.

## The main results

- **A workflow means what its groups, taken one after the other, mean.** In every interleaving of the
  threads of a group, over every choice of buffer addresses, each function reads exactly the values the
  sequential meaning gives it; a run is aborted exactly when the sequential meaning fails; two complete runs
  leave the same slots with the same values; every run can be completed and none is longer than a bound
  computed from the workflow (`RefMeaning`). When the values travel through files, each function again reads the
  values of the sequential meaning, every run can be completed within the same bound, and complete runs over the
  two transports end alike (`FileTransport`). The discipline this rests on - each slot written once and not taken in
  the group that writes it, no slot taken twice - is not assumed of the two workflows below but proved of them.
- **The parallel sort sorts, exactly when it can.** `SortWorkflow.SortEndToEnd` states, from the texts of the
  input files and the number of mergers alone, which runs succeed (if and only if), and that a successful run
  hands the checker arrays that are sorted across all of them and hold every input number below `u32::MAX` as
  often as the inputs do; nothing is lost if and only if `u32::MAX` is not among the inputs. The two k-way
  merges (a scan, and a binary heap in an array), the two splitters and the checker are methods proved against
  the functions that this theorem is about.
- **Word count is conserved.** From the contents of the files: in a build that checks additions for overflow a
  run succeeds if and only if all counts fit 32 bits, and in one that does not check it always succeeds; then each
  word of the files is counted at exactly one reducer, with its occurrences in all files, exactly in the first
  case and modulo 2^32 in the second. The hash is the base-31 polynomial modulo the number of reducers with no
  64-bit overflow.
- **No descriptor reaches a released handle.** Over all interleavings of the separately locked halves of open,
  close, connect, bind and accept, live handles are exactly those in the table plus those in flight, each in
  one place.
- **Directory paging loses and repeats nothing**, for every buffer that holds the largest record, wherever a
  page is cut, although each call lists the directory anew in whatever order: after "." and ".." are added, the
  stable sort gives the same entries each time.
- **The fault handler** is unique, has its pipe, and serves each event against the region it belongs to, in
  every interleaving of registration, removal and fault handling; a region can be left without a handler until a
  later registration, and it is stated exactly which.
- **Both block adapters refine one flat byte array**, and a mapped file equals the file once its pages were
  touched, if and only if it does not exceed 4 GiB.

## Where the code does something other than it seems to promise

- The checker compares first elements only and accepts `[[1, 5], [2]]` (`CheckerAcceptsUnsorted`);
  `ConcatSortedIff` gives the missing condition.
- The scanning merger drops `u32::MAX`, the heap-based one keeps it (`MergersAgree`).
- `split_numbers` returns fewer parts when the numbers run out, and then a merger panics on a missing slot;
  `SplitCount` and `SortCondition` say exactly when.
- Without mergers sorter 0 always panics, also on an empty part.
- A page offset is truncated to 32 bits (`AllPagesRightIff`).
- A region that is registered while the last handler is exiting is not served until a later registration
  completes (`RegionCanBeStranded`, `LaterRegistrationServes`).
- A second fault on a page that is already there makes the handler panic (`ServeFaults`).
- `with_slot` registers a buffer before it is filled, and no buffer passed by reference is ever freed; reading
  a slot from a file does not consume it, and creating the file does not truncate it. The step systems have
  registering and filling, creating and writing as separate steps. A function settles its outputs when it has
  taken all its inputs, which nobody else can change any more, so its buffers may be registered before or after
  the calculation proper.

## Form

Loops and in-place updates of the source are methods with invariants over arrays, or classes with `modifies`
clauses; each is proved against a function or a property. Threads are step systems: a state, the steps that are
enabled in it and their effect, with runs as sequences of steps. Contracts stand in for what cannot be seen: the
allocator and the socket set give out something fresh, a FAT read transfers some positive number of bytes, an
inode transfers any number of bytes or fails, the serialiser of the file transport can be undone, the library
sorts sort. A function that fails is taken to publish nothing; only `NoBufferHandedTwice` also covers functions
that register buffers at any time and under any slot.

## Model

| member | source | states |
|---|---|---|
| `HeapMerge.HeapifyDown` | user/wasmtime_merger/merger.cpp:34-58 | in place, the array becomes what sifting down the node at the index makes of it |
| `HeapMerge.SiftedDownIsHeap` | user/wasmtime_merger/merger.cpp:34-58 | a node whose two subtrees are heaps becomes the root of a heap |
| `HeapMerge.SiftedDownPermutes` | user/wasmtime_merger/merger.cpp:34-58 | sifting down permutes the array |
| `HeapMerge.SiftedDownFrame` | user/wasmtime_merger/merger.cpp:34-58 | nothing outside the subtree and nothing from the heap size on is touched |
| `HeapMerge.SiftedDownRoot` | user/wasmtime_merger/merger.cpp:35-57 | the new root is the least of the old root and its children |
| `HeapMerge.RootIsLeast` | user/wasmtime_merger/merger.cpp:34-58 | the root of a heap is not above any node of it |
| `HeapMerge.BuildStep` | user/wasmtime_merger/merger.cpp:103-105 | one round of the descending loop leaves every subtree from its index on a heap |
| `HeapMerge.BuildHeap` | user/wasmtime_merger/merger.cpp:103-105 | the loop from (heapSize-2)/2, with C's division, builds a heap for every size including 0 and 1, permutes the array and leaves the rest alone |
| `HeapMerge.InitHeap` | user/wasmtime_merger/merger.cpp:88-99 | the nodes before the build are exactly the first elements of the non-empty inputs |
| `HeapMerge.FrontsMember` | user/wasmtime_merger/merger.cpp:88-124 | a node is among the fronts exactly when it is the next element of the input it names |
| `HeapMerge.ReplaceRoot` | user/wasmtime_merger/merger.cpp:112-123 | putting another node on top and sifting gives a heap of the remaining nodes and the new one |
| `HeapMerge.RemoveRoot` | user/wasmtime_merger/merger.cpp:118-123 | moving the last node to the top and sifting gives a heap of the remaining nodes |
| `HeapMerge.AdvanceHeap` | user/wasmtime_merger/merger.cpp:111-123 | after one element is output the heap holds the other fronts and the next element of that input, if there is one |
| `HeapMerge.MergeStep` | user/wasmtime_merger/merger.cpp:106-124 | one round keeps: heap = fronts, output = what was passed, output sorted and not above any front |
| `HeapMerge.MergeRound` | user/wasmtime_merger/merger.cpp:106-124 | one round of the loop appends the least front to the result and keeps the loop state right |
| `HeapMerge.KWayMerge` | user/wasmtime_merger/merger.cpp:88-124 | for any number of sorted inputs the merge ends with a sorted result that holds every element as often as the inputs do, and writes nothing beyond it |
| `HeapMerge.MergeIsUnique` | user/wasmtime_merger/merger.cpp:88-124 | there is only one merge of given inputs |
| `LinearMerge.ScanFronts` | user/merger/src/lib.rs:62-75 | the inner loop finds the first partition with the least front below `u32::MAX`, or none |
| `LinearMerge.MergePartitions` | user/merger/src/lib.rs:61-90 | ends for all partitions, sorted or not; for sorted ones the output is sorted and holds exactly the elements below `u32::MAX` |
| `LinearMerge.MergedIsMerge` | user/merger/src/lib.rs:61-90 | the function behind the loop outputs, for sorted partitions, exactly the elements below the sentinel in order |
| `LinearMerge.LosslessIffNoMax` | user/merger/src/lib.rs:64-74 | nothing is lost if and only if `u32::MAX` does not occur |
| `LinearMerge.MergersAgree` | user/merger/src/lib.rs:61-90 | scan and heap produce the same array, element for element, if and only if `u32::MAX` does not occur |
| `Splitting.TakeBelow` | user/splitter/src/lib.rs:88-96 | the inner loop takes exactly the leading numbers below the pivot |
| `Splitting.SplitNumbers` | user/splitter/src/lib.rs:83-110 | the loop with its early stop computes the parts the recursive definition gives |
| `Splitting.SplitConcat` | user/splitter/src/lib.rs:83-110 | the parts concatenate to the input, whatever numbers and pivots |
| `Splitting.SplitCount` | user/splitter/src/lib.rs:101-107 | sorted numbers give one part more than pivots if and only if there are fewer than two pivots or the last number reaches the last pivot but one |
| `Splitting.ClassifyIntoBuckets` | user/wasmtime_spliter/spliter.cpp:62-79 | every row holds, in order, the numbers with that many pivots not above them |
| `Splitting.SplitIsClassification` | user/wasmtime_spliter/spliter.cpp:68-79 | on sorted input the slices of the Rust splitter, missing ones taken as empty, are the buckets of the C++ splitter |
| `Splitting.BucketBounds` | user/wasmtime_spliter/spliter.cpp:68-79 | everything in a row comes from the input and belongs in that row |
| `SortStages.SortSorts` | user/sorter/src/lib.rs:98 | the sort of a part is sorted and a permutation of it |
| `SortStages.SortIsUnique` | user/sorter/src/lib.rs:98 | any sorted permutation of the part is that array |
| `SortStages.PivotsSorted` | user/sorter/src/lib.rs:105-115 | the pivots are in order and are elements of the array; no index leaves it |
| `SortStages.Check` | user/checker/src/lib.rs:37-51 | the loop accepts exactly when every array is sorted and the first elements are in order, and then has counted all elements |
| `SortStages.CheckerAcceptsUnsorted` | user/checker/src/lib.rs:45-50 | arrays that are not sorted across their boundary are accepted |
| `SortStages.ConcatSortedIff` | user/checker/src/lib.rs:37-51 | the arrays together are sorted if and only if they are accepted and no array ends above the next one's start |
| `Decimal.ValueOfToString` | baseline/parallel_sort/splitter-rust/src/lib.rs:27-33 | reading the decimal text of a number gives the number back |
| `Decimal.ToStringInjective` | user/splitter/src/lib.rs:50-52 | different numbers have different decimal texts |
| `Decimal.SplitOfJoin` | baseline/parallel_sort/splitter-rust/src/lib.rs:11-33 | splitting joined fields gives the fields back |
| `Decimal.ParseToVec` | baseline/parallel_sort/splitter-rust/src/lib.rs:11-25 | the loop skips empty fields, fails on the first bad one and otherwise collects the numbers in order |
| `Decimal.ParseOfDump` | baseline/parallel_sort/splitter-rust/src/lib.rs:11-33 | parsing a dumped list gives it back, the empty list included |
| `SlotNames.PartSlotInjective` | user/splitter/src/lib.rs:50-52 | part slots of different splitters or parts have different names |
| `SlotNames.ShuffleSlotInjective` | user/mapper/src/lib.rs:122-124 | shuffle slots of different mapper-reducer pairs have different names |
| `SlotNames.StageOfSlots` | user/sorter/src/lib.rs:71-76 | the name of a slot tells which stage of the sort writes it |
| `Workflow.AfterHas` | libasvisor/src/isolation/mod.rs:246-254 | after a group the slots it took are gone, those it published hold what it published, all others are as before |
| `Workflow.StagedIsWellFormed` | libasvisor/src/isolation/mod.rs:199-224 | a workflow whose groups write the slots of their own stage and take those of earlier ones keeps the slot discipline and reads each slot once |
| `RefTransport.BufferRegister.constructor` | common_service/mm/src/faas_buffer/mod.rs:25-50 | the register starts empty |
| `RefTransport.BufferRegister.BufferAlloc` | common_service/mm/src/faas_buffer/mod.rs:25-40 | a block not in use is registered with its fingerprint under the slot, replacing an older one |
| `RefTransport.BufferRegister.AccessBuffer` | common_service/mm/src/faas_buffer/mod.rs:43-50 | the block and its fingerprint are given away and the slot removed; a missing slot changes nothing |
| `RefTransport.BufferRegister.FromBufferSlot` | as_std/src/agent.rs:92-108 | a consumer gets the block if and only if the slot is there with its own fingerprint; the slot is removed in any case |
| `RefTransport.ConsumeOnceStep` | as_std/src/agent.rs:60-108 | each step of a run keeps: no buffer registered twice, or registered after it was handed out, or handed out twice |
| `RefTransport.NoBufferHandedTwice` | common_service/mm/src/faas_buffer/mod.rs:25-50 | however functions interleave, share slots and register buffers ahead of time or before they fail, no buffer reaches two consumers |
| `RefTransport.RunsAreHistories` | as_std/src/agent.rs:60-108 | every run of a workflow is among the histories of the previous result |
| `RefMeaning.InvAdvance` | libasvisor/src/isolation/mod.rs:218-224 | when every function of a group has finished, the register shows the store after the group, and the next group starts from it |
| `RefMeaning.InvReachable` | as_std/src/agent.rs:60-108 | the invariant of the by-reference transport holds in every reachable state |
| `RefMeaning.Barrier` | libasvisor/src/isolation/mod.rs:246-254 | no function has done anything before all functions of earlier groups finished successfully, and what it read is what the sequential meaning gives it |
| `RefMeaning.Outcome` | libasvisor/src/isolation/mod.rs:199-254 | a complete run is aborted if and only if the sequential meaning fails, and otherwise leaves the slots and values of the sequential meaning |
| `RefMeaning.Confluence` | libasvisor/src/isolation/mod.rs:199-254 | two complete runs agree on the outcome and on the slot-to-value map |
| `RefMeaning.Progress` | libasvisor/src/isolation/mod.rs:199-254 | a run that has not ended has an enabled step |
| `RefMeaning.RunsAreBounded` | libasvisor/src/isolation/mod.rs:199-254 | no run is longer than the number of steps computed from the workflow |
| `RefMeaning.EveryRunCompletes` | libasvisor/src/isolation/mod.rs:199-254 | every run, however far it got, extends to a complete one |
| `Completion.StageWorkLess` | libasvisor/src/isolation/mod.rs:199-224 | each step of a function, over either transport, leaves it fewer steps to take |
| `FileTransport.InvReachable` | as_std/src/agent.rs:192-297 | the invariant of the file transport holds in every reachable state, although reading does not consume and creating does not truncate |
| `FileTransport.Progress` | as_std/src/agent.rs:192-297 | a run over files that has not ended has an enabled step |
| `FileTransport.RunsAreBounded` | as_std/src/agent.rs:192-297 | no run over files is longer than the number of steps computed from the workflow |
| `FileTransport.EveryRunCompletes` | as_std/src/agent.rs:192-297 | every run over files, however far it got, extends to a complete one |
| `FileTransport.SameValuesRead` | as_std/src/agent.rs:60-297 | where each slot is written once and read at most once, in a later group, every function reads the same values over either transport |
| `FileTransport.SameOutcome` | as_std/src/agent.rs:60-297 | complete runs over either transport end the same way, and what is left in the register is in the file of that slot |
| `SortAlgebra.ResultRow` | user/merger/src/lib.rs:40-59 | everything in merge result j belongs between pivots j-1 and j |
| `SortAlgebra.ResultsSorted` | user/merger/src/lib.rs:40-90 | the merge results, one after the other, are sorted |
| `SortAlgebra.ResultsCount` | user/merger/src/lib.rs:40-90 | every number below the sentinel is in the results as often as in the parts, the sentinel never |
| `SortAlgebra.PermutationIffNoMax` | user/merger/src/lib.rs:64-74 | the results are a permutation of the inputs if and only if `u32::MAX` is not among these |
| `SortWorkflow.SortIsWellFormed` | user/splitter/src/lib.rs:39-64 | whatever the inputs, the functions of the sort keep the slot discipline and read each slot once |
| `SortWorkflow.SortersSucceedIff` | user/sorter/src/lib.rs:71-131 | the sorters succeed if and only if every text parses and sorter 0 can choose its pivots |
| `SortWorkflow.MergersSucceedIff` | user/merger/src/lib.rs:40-44 | the mergers succeed if and only if every splitter published a part for each of them |
| `SortWorkflow.SortMeaning` | libasvisor/src/isolation/mod.rs:246-254 | the workflow gets through all five groups if and only if all parts are there, and then the checker reads the merged columns |
| `SortWorkflow.AllPartsIff` | user/splitter/src/lib.rs:83-110 | all parts are there if and only if there is one merger; or more, a number in the first part, and, from three mergers on, a number in every part that reaches the last pivot but one |
| `SortWorkflow.LastPivotIs` | user/sorter/src/lib.rs:105-115 | the last pivot but one stands at (m-2)*len/m of the sorted first part |
| `SortWorkflow.SortEndToEnd` | libasvisor/src/isolation/mod.rs:199-254 | every complete run succeeds if and only if the inputs meet that condition; then the checker has read and accepted arrays sorted across all of them, with every input below the sentinel, all of them if and only if the sentinel is absent |
| `SortWorkflow.NothingToSort` | user/merger/src/lib.rs:40-59 | without sorters every run succeeds and the checker reads an empty result per merger |
| `SortWorkflow.BadInputAborts` | user/sorter/src/lib.rs:79-88 | a text that does not parse aborts every run |
| `SortWorkflow.SortEndToEndOverFiles` | as_std/src/agent.rs:192-297 | the end-to-end result over the file transport, for any serialiser that can be undone |
| `SortWorkflow.SortCompletes` | libasvisor/src/isolation/mod.rs:199-254 | every run of the sort, over either transport, extends to a complete one |
| `WordCount.HashStep` | user/mapper/src/lib.rs:60-67 | reducing the running hash early does not change it |
| `WordCount.GetIdx` | user/mapper/src/lib.rs:60-67 | the hash is the base-31 polynomial modulo the number of reducers, and no step overflows 64 bits as long as the largest remainder times 31 plus the largest character fits |
| `WordCount.CountWords` | user/mapper/src/lib.rs:93-115 | from the content of the file: the words of its lines, trimmed, cut at spaces and filtered, are counted in 32 bits; a build that checks for overflow fails if and only if there are 2^32 words or more |
| `ByteSeqs.WrapIsMod` | user/mapper/src/lib.rs:101-106 | unchecked 32-bit sums are sums modulo 2^32 |
| `WordCount.Shuffle` | user/mapper/src/lib.rs:129-142 | in whatever order the map is walked, each buffer gets exactly the words that hash to it, with their counts |
| `WordCount.Reduce` | user/reducer/src/lib.rs:45-65 | the counter ends with exactly the words of the shuffles and the sums of their counts in 32 bits; a build that checks for overflow fails if and only if a sum does not fit |
| `WordCount.SumOfShards` | user/reducer/src/lib.rs:50-65 | the counts a reducer finds for a word add up to its occurrences in all texts modulo 2^32, exactly if no mapper has wrapped around, and to nothing if the word goes to another reducer |
| `WordCount.WordsConserved` | user/reducer/src/lib.rs:45-65 | what a reducer adds up from its column of the shuffles is its share of the word count, whatever assigns words to reducers |
| `WordCount.SharesPartition` | user/mapper/src/lib.rs:129-142 | the shares do not overlap and together hold every word of the texts |
| `WordCount.SumsFitIff` | user/reducer/src/lib.rs:50-65 | where the mappers have not overflowed, the reducers do not if and only if the total of every word fits |
| `WordCountWorkflow.WordCountIsWellFormed` | user/mapper/src/lib.rs:119-127 | the word-count functions keep the slot discipline and read each slot once |
| `WordCountWorkflow.WordCountMeaning` | user/mapper/src/lib.rs:69-150 | the two groups, taken one after the other, succeed if and only if the build does not check or all counts fit |
| `WordCountWorkflow.WordCountEndToEnd` | user/reducer/src/lib.rs:45-65 | a complete run on the given files succeeds if and only if the build does not check or all counts fit; then the reducers end with counters in which each word of the files is counted once, at one of them, with its occurrences in all files |
| `FdTable.Table.constructor` | common_service/fdtab/src/lib.rs:52-109 | the table starts empty |
| `FdTable.Table.AddFile` | common_service/fdtab/src/lib.rs:84-97 | the file goes to the lowest free slot, or to a new one at the end |
| `FdTable.Table.RemoveFile` | common_service/fdtab/src/lib.rs:99-109 | returns what the descriptor led to and frees it |
| `FdTable.Table.ExchangeSocket` | common_service/fdtab/src/apis.rs:146-177 | only for an open socket and a successful backend the handle is exchanged and the old one returned; a failure changes nothing, and no other descriptor changes |
| `FdTable.InsertedAtSmallest` | common_service/fdtab/src/lib.rs:84-97 | a new descriptor is the smallest number from 3 on that is not open, leads to the new file, and no other descriptor changes |
| `FdTable.OpenThenClose` | common_service/fdtab/src/lib.rs:84-109 | closing what was just opened gives every descriptor back |
| `FdTable.FatfsFileList.constructor` | common_service/fatfs/src/lib.rs:66-84 | the file list starts empty |
| `FdTable.FatfsFileList.AddFile` | common_service/fatfs/src/lib.rs:66-69 | the new handle is one that was never given out |
| `FdTable.FatfsFileList.RemoveFile` | common_service/fatfs/src/lib.rs:71-84 | a live handle is released and its address returned once; any other handle changes nothing |
| `FdProtocol.StepKeeps` | common_service/fdtab/src/apis.rs:96-177 | each locked step keeps: the live handles are the held ones, each with one holder, and no file is at two addresses |
| `FdProtocol.HandlesConserved` | common_service/fdtab/src/apis.rs:96-119 | that invariant in every interleaving of any number of threads |
| `FdProtocol.AccessIsLive` | common_service/fdtab/src/apis.rs:13-52 | no access through a descriptor reaches a released handle |
| `FdProtocol.ReleasedOnce` | common_service/fdtab/src/apis.rs:107-119 | the second half of a close finds its handle live and leaves nobody with it |
| `FdProtocol.ReleasedForGood` | common_service/fatfs/src/lib.rs:66-84 | a released FAT handle never comes back |
| `FdProtocol.AcceptMovesHandle` | common_service/fdtab/src/apis.rs:146-177 | a successful accept keeps the listener's descriptor with a fresh handle, and its old handle ends under a descriptor that was free, whatever other threads do in between |
| `Readdir.LittleEndianRoundTrip` | wasmtime_wasi_api/src/types.rs:9-15 | an encoded field is read back |
| `Readdir.EmitRecord` | wasmtime_wasi_api/src/wasi.rs:513-566 | one round writes the next record whole, or cut at the end of the buffer, or traps exactly when it leaves the guest memory |
| `Readdir.FdReaddir` | wasmtime_wasi_api/src/wasi.rs:497-569 | traps if and only if the page or the cell for its length leaves the guest memory; otherwise the first min(buffer, total) bytes of the records from the cookie on go to the buffer and then that length to its cell, also where they overlap, and nothing else changes |
| `Readdir.DirentFields` | wasmtime_wasi_api/src/types.rs:9-15 | next cookie, name length and type are read back from a record header |
| `Readdir.DecodePrefix` | wasmtime_wasi_api/src/wasi.rs:510-569 | a page cut anywhere decodes to exactly the whole records in it |
| `Readdir.ReadPage` | wasmtime_wasi_api/src/wasi.rs:497-569 | a call on a listing shows at least one new entry if there is one, and a short page shows all that are left |
| `Readdir.ListDirectory` | wasmtime_wasi_api/src/wasi.rs:497-569 | a caller that resumes from the last complete record sees every entry of the directory, "." and ".." once, in order, and stops, with a fresh listing in any order and fresh padding for each call |
| `DirListing.SameEntriesEachCall` | wasmtime_wasi_api/src/wasi.rs:497-508 | listings of one directory in different orders give the same entries once "." and ".." are added and sorted, also where the listing has these already |
| `DirListing.StableSortSorts` | wasmtime_wasi_api/src/wasi.rs:508 | the sort orders the names and keeps entries of one name as they were |
| `DirListing.StableSortUnique` | wasmtime_wasi_api/src/wasi.rs:508 | any stable sort by name gives the same entries |
| `BlockDevice.AlignUp` | common_service/rcore_sfsfdtab/ramdisk/driver_block/src/ramdisk.rs:107-109 | the smallest multiple of the block size not below the value |
| `BlockDevice.RamDisk.From` | common_service/rcore_sfsfdtab/ramdisk/driver_block/src/ramdisk.rs:44-49 | the image, padded with zeros to whole blocks |
| `BlockDevice.RamDisk.ReadBlock` | common_service/rcore_sfsfdtab/ramdisk/driver_block/src/ramdisk.rs:78-88 | the blocks' bytes, or the error for a range off the device or a buffer of no whole blocks |
| `BlockDevice.RamDisk.WriteBlock` | common_service/rcore_sfsfdtab/ramdisk/driver_block/src/ramdisk.rs:90-100 | the device is spliced, or the same errors and nothing changes |
| `BlockDevice.ReadModifyWrite` | common_service/ext4fdtab/src/ext4_apis.rs:58-82 | changing part of a block and writing the block back is a splice of just that part |
| `BlockDevice.WriteOffset` | common_service/ext4fdtab/src/ext4_apis.rs:58-82 | the loop over blocks splices the data into the flat device and drops what does not fit |
| `BlockDevice.ReadOffset` | common_service/ext4fdtab/src/ext4_apis.rs:34-57 | the slice of the flat device if all of it is there, otherwise zeros throughout |
| `BlockDevice.WriteAt` | common_service/rcore_sfsfdtab/src/sfs_apis.rs:57-81 | a short write, to the end of the block, is a splice; off the device an error and no change |
| `BlockDevice.ReadAt` | common_service/rcore_sfsfdtab/src/sfs_apis.rs:36-55 | a short read, to the end of the block, is a slice; off the device an error |
| `BlockDevice.WriteFully` | common_service/rcore_sfsfdtab/src/sfs_apis.rs:57-81 | repeating short writes ends with the effect of the ext4 adapter, and with an error if and only if not everything fits |
| `BlockDevice.ReadFully` | common_service/rcore_sfsfdtab/src/sfs_apis.rs:36-55 | repeating short reads ends with the whole slice, or an error if and only if it is not all there |
| `ByteSeqs.SpliceReads` | common_service/ext4fdtab/src/ext4_apis.rs:34-82 | what was spliced is read back and everything else is as before |
| `MmapPages.OpenFile.FatfsRead` | common_service/fatfs/src/apis.rs:14-35 | the fill loop reads as much as buffer and file allow, however the reads are cut, and leaves the rest of the buffer alone |
| `MmapPages.OpenFile.Seek` | common_service/fatfs/src/apis.rs:38-49 | the cursor does not go beyond the end |
| `MmapPages.ReadAtOffset` | common_service/mmap_file_backend/src/lib.rs:75-87 | the page holds the file from the offset on, as far as the file goes |
| `MmapPages.Region.DoPageFault` | common_service/mmap_file_backend/src/lib.rs:89-116 | the faulting page, and no other, is served with the bytes at its offset modulo 2^32; a page already there is refused |
| `MmapPages.ServeFaults` | common_service/mmap_file_backend/src/apis.rs:60-62 | faults are served with one reused buffer until the first on a page that is there, where the handler panics: all are served if and only if no page is faulted twice or was there; exactly the pages of the served ones are added, and none is served anew |
| `MmapPages.Region.ViewIsFile` | as_std/src/mm.rs:37-41 | once all pages are touched the view of a file of at most 4 GiB is the file |
| `MmapPages.PagesStartInFile` | as_std/src/mm.rs:27-34 | every page of the rounded mapping starts inside the file |
| `MmapPages.AllPagesRightIff` | common_service/mmap_file_backend/src/lib.rs:101-103 | all pages of all files of a length hold their own bytes if and only if the length is at most 4 GiB |
| `FaultHandler.StepKeeps` | common_service/mmap_file_backend/src/apis.rs:23-133 | each step of a caller or a handler keeps the invariant |
| `FaultHandler.Safety` | common_service/mmap_file_backend/src/apis.rs:23-133 | in every interleaving: the mutexes exclude, at most one handler is active, it has its pipe, and its events are those of the region list |
| `FaultHandler.ServedRegion` | common_service/mmap_file_backend/src/apis.rs:37-63 | an event is served against the region whose descriptor was added for it |
| `FaultHandler.PipeIsThere` | common_service/mmap_file_backend/src/lib.rs:118-128 | a handler never misses the pipe and a registration never creates it twice |
| `FaultHandler.UnservedAreLate` | common_service/mmap_file_backend/src/apis.rs:77-111 | with nobody registering and no handler, every region left was pushed while the last handler was exiting |
| `FaultHandler.ExitStrandsExactlyLate` | common_service/mmap_file_backend/src/apis.rs:23-74 | an exit leaves a region behind if and only if one was pushed, and not removed, since the handler found the list empty |
| `FaultHandler.RegionCanBeStranded` | common_service/mmap_file_backend/src/apis.rs:77-111 | a run in which a region is registered, nobody is busy and no handler is left |
| `FaultHandler.SpawnLeavesHandler` | common_service/mmap_file_backend/src/apis.rs:101-107 | a registration that finds no pipe ends with the one active handler, and its pipe |
| `FaultHandler.WaitsForAll` | common_service/mmap_file_backend/src/apis.rs:37-51 | a handler that waits, waits for every region in the list |
| `FaultHandler.LaterRegistrationServes` | common_service/mmap_file_backend/src/apis.rs:77-111 | where nobody is busy and there is no pipe, one more registration leads to a handler that serves every region left behind |
| `FileIo.FileWrapper.constructor` | common_service/rcore_sfsfdtab/src/sfs_apis.rs:101-108 | a new wrapper over any inode starts at offset 0 with the given permissions |
| `FileIo.FileWrapper.Write` | common_service/rcore_sfsfdtab/src/sfs_apis.rs:119-129 | fails without write permission or when the inode does; otherwise some front part of the buffer is written at the offset, which moves by it |
| `FileIo.FileWrapper.Read` | common_service/rcore_sfsfdtab/src/sfs_apis.rs:110-117 | fails without read permission or when the inode does; otherwise some bytes from the offset, which moves by them |
| `FileIo.FileWrapper.Seek` | common_service/rcore_sfsfdtab/src/sfs_apis.rs:131-134 | the offset is set |
| `FileIo.FileWrapper.WriteAll` | as_std/src/io.rs:39-50 | ends however the transfers are cut, with the effect of one write of the part that got through, which is everything exactly when it returns without error or panic; with an inode that does not fail that is so if and only if there is permission or nothing to write |
| `FileIo.FileWrapper.ReadToEnd` | as_std/src/io.rs:9-25 | ends however the transfers are cut, with a front part of what follows the offset, which is all of it if there is permission and the inode does not fail |
| `FileIo.FileWrapper.WriteThenRead` | as_std/src/io.rs:9-50 | writing, seeking back and reading returns the data, and nothing more if and only if the write reaches the end of the file, as in an empty one |

## Left out

- Overflow of 32-bit and 64-bit counters and offsets outside the word count, the directory pages and the page offsets: sizes are unbounded.
- FAT handles and descriptors as 32-bit numbers: a wrap-around after 2^32 opens is not modelled.
- The character class behind `char::is_alphanumeric` is a parameter, and a carriage return at the end of a line is left to `trim`.
- HeapMerge.KWayMerge: the fixed result array of the source becomes any array that is large enough for the inputs.
- SortWorkflow.SortEndToEnd: a function that fails is taken to publish nothing; the code may have registered some buffers before it fails, but the run is aborted then.
- WordCountWorkflow.WordCountEndToEnd: there is at least one reducer; without reducers a mapper that has a word panics.
- WordCount.GetIdx: numbers of reducers for which a step could overflow 64 bits are excluded.
- MmapPages.Region.DoPageFault: a second copy to a page already there is refused, as the kernel does; faults outside the region do not reach it.
- FaultHandler.Safety: a handler that panics on a refused page is not among the steps; `MmapPages.ServeFaults` says when that happens.
- Readdir.FdReaddir: a buffer length that exceeds 32 bits together with one record is excluded; the three padding bytes of a record are arbitrary.
- FileIo.FileWrapper.Write: an inode that returns an error is taken to have transferred nothing.
- FdProtocol.AccessIsLive: the data an access transfers is not modelled, only the handle it reaches.
- Failing pipe, userfaultfd and thread creation, and failing backends of open, bind and connect, which change nothing.
- Lock fairness and the wake-up of the fault handler: only safety, which regions stay unserved, and what a later registration can do.
- Loading of applications; `run_as_sequence`, which runs the applications one after the other without groups; `to_isolation`, which numbers them and merges their argument maps; the table of isolations.
- Zero-sized buffers and `buffer_dealloc`, which the by-reference transport never reaches.
- Memory protection keys, ELF loading, stack switching, signals and the network stack: machine effects and libraries.
- The C and C++ word-count programs, the streaming disk and the remaining WASI calls.
