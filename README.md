# Verified model of the sequential components of cpplearning

This project models in Dafny the self-contained, sequential parts of the C++
learning repository `cpplearning`, and proves what each promises:

- **Glob translation and string helpers** (`gutils::glob_to_regex`,
  `starts_with`, `ends_with`, `vector_contains`, and the copy of
  `glob_to_regex` in `common/g_utils.cpp`): modules `GlobUtils` and `GUtilsCopy`.
  The copies of `glob_to_regex` in `1/fd2.cpp:15-26` and `fd/src/fd.cpp:12-23` are
  character for character the one in `common/gutils.cpp`. They are modelled by the
  same `GlobUtils.Translation` / `GlobUtils.GlobToRegex`.
- **The two sequential finders** (`1/fd2.cpp` with RE2, `fd/src/fd.cpp` with
  `std::regex`):
  - ignore-file loading, `is_ignored` and the depth-bounded, pruning, pre-order
    `fd_search`: modules `IgnoreFile`, `FileTree`, `Fd2` and `Fd`;
  - the file system is a tree value, where a directory's listing either completes
    or stops with an error after some entries (`Unreadable`);
  - a regular-expression library is an `Engine` value: whether a pattern compiles,
    full match (`regex_match`) and partial match (`RE2::PartialMatch`,
    `regex_search`).
- **`remove_bom`** of `fd/src/finder.cpp` (the UTF-8 byte order mark of section 6
  of RFC 3629): module `Finder`.
- **The sorting algorithms of `sort/main.cpp`**, all in place on an `array<int>`:
  - Lomuto partition and quicksort: module `QuickSort`;
  - the top-down and both bottom-up merge sorts: module `MergeSort`;
  - the min- and max-heap sift-downs and heap sort: module `HeapSort`;
  - the three insertion sorts: module `InsertionSort`;
  - shared definitions: module `SortSpec`.
- **`MyVector<T>`** (`datastructure/myvector.cpp`): a class with a buffer
  `array<T>`, `size` and `capacity`, module `Vectors`.
- **`MemoryPool<T>`** (`mempool/fixedsizepool.cpp`): a class with a free list of
  abstract chunk ids (block, slot), the block count and the allocation counter,
  module `MemPool`.
- **`ascending_sequence`** (`hello/ascending_sequence.h`): module `AscendingSequence`.
- **`Solution::jump`** (`1/jump.cpp`), greedy Jump Game II: module `JumpGame`. It is
  proved optimal against `Far(s)`, the furthest index reachable in `s` jumps.

Imperative code stays imperative:
- loops are `while`/`for` loops with invariants;
- in-place algorithms work on arrays;
- the vector and the pool are classes whose methods state their whole new state.

Each method is proved against a specification function (`Merged`, `Inserted`,
`InsertSorted`, `RulesOf`, `Walk`, `Carved`, `ReachIn`), and the properties the
source promises are proved about that function.

## Model

| member | source | states |
|---|---|---|
| GlobUtils.TranslationBase | common/gutils.cpp:6-13 | the empty glob maps to the empty string; `*` becomes `.*`, `?` becomes `.`, `.` becomes `\.`, every other character (including `+ ( [ ^ $`) is copied |
| GlobUtils.TranslationAppend | common/gutils.cpp:5-14 | translating `a + b` gives the translation of `a` followed by that of `b` |
| GlobUtils.CountAppend | common/gutils.cpp:6-13 | occurrence counts add up over concatenation (used for the length law) |
| GlobUtils.TranslationLength | common/gutils.cpp:8-10 | output length = input length + number of `*` + number of `.` |
| GlobUtils.TranslationHasNoQuestionMark | common/gutils.cpp:9 | the output never contains `?` |
| GlobUtils.GlobToRegex | common/gutils.cpp:4-15 | the character loop builds exactly the translation of the whole glob |
| GlobUtils.StartsWithIsPrefix | common/gutils.cpp:19-22 | `starts_with(s, p)` holds iff `p` is no longer than `s` and `s` begins with `p` |
| GlobUtils.EndsWithIsSuffix | common/gutils.cpp:24-27 | `ends_with(s, x)` holds iff `x` is no longer than `s` and `s` ends with `x` |
| GlobUtils.StartsWithConcat | common/gutils.cpp:19-22 | `starts_with(p + t, p)` for all strings, and every string starts with the empty string |
| GlobUtils.EndsWithConcat | common/gutils.cpp:24-27 | `ends_with(t + x, x)` for all strings, and every string ends with the empty string |
| GlobUtils.Find | common/gutils.h:12-14 | `std::find` returns the first index holding the value, or the length when there is none |
| GlobUtils.VectorContainsIffIndex | common/gutils.h:12-14 | `vector_contains(v, x)` holds iff some index holds `x` |
| GlobUtils.VectorContainsAppend | common/gutils.h:13 | nothing is in the empty vector; `x` is in `v + [x]`; membership survives appending |
| GUtilsCopy.GlobToRegex | common/g_utils.cpp:4-15 | the duplicate implementation agrees with the `common/gutils.cpp` translation on every input |
| Finder.RemoveBom | fd/src/finder.cpp:48-55 | with a leading `EF BB BF` the result is the rest of the line, otherwise the line itself; always a suffix of the line, as long as it or three bytes shorter |
| Finder.RemoveBomInverse | fd/src/finder.cpp:50-52 | removing the mark from mark + text gives back text |
| Finder.ShortLinesUnchanged | fd/src/finder.cpp:50 | lines shorter than three bytes are returned unchanged |
| Finder.RemoveBomNotIdempotent | fd/src/finder.cpp:50-53 | a doubled mark keeps one mark, so applying the function twice differs from once |
| AscendingSequence.LowerBound | hello/ascending_sequence.h:17 | the binary search returns the first position whose element is not less than `x` |
| AscendingSequence.InsertAtLowerBound | hello/ascending_sequence.h:17 | inserting at that position is exactly `InsertSorted` |
| AscendingSequence.SplitInsertAscending | hello/ascending_sequence.h:15-18 | inserting at the `lower_bound` position keeps an ascending sequence ascending |
| AscendingSequence.SplitInsertMultiset | hello/ascending_sequence.h:17 | insertion adds exactly one `x` to the stored values |
| AscendingSequence.InsertSortedProperties | hello/ascending_sequence.h:15-18 | sorted insertion keeps the sequence ascending, adds one element and one `x`, with the smaller elements before it and the others after it in their old order |
| AscendingSequence.SortedStore.constructor | hello/ascending_sequence.h:12 | a new sequence is empty |
| AscendingSequence.SortedStore.Insert | hello/ascending_sequence.h:15-18 | `insert` keeps the store ascending, yields `InsertSorted(old, x)`, size + 1 and one more `x` |
| AscendingSequence.SortedStore.At | hello/ascending_sequence.h:19-20 | `operator[]` returns a stored element and changes nothing |
| AscendingSequence.SortedStore.Size | hello/ascending_sequence.h:21 | `size` is the number of stored elements |
| AscendingSequence.DemoInsertions | hello/ascending_sequence.h:28-33 | inserting 7, 2, 4, 9, 5 gives `[2, 4, 5, 7, 9]` |
| AscendingSequence.Demo | hello/ascending_sequence.h:27-37 | the demonstration ends with `[2, 4, 5, 7, 9]`, and `s[3]` is 7 |
| FileTree.JoinShape | 1/fd2.cpp:81-93 | an entry's path `dir / name` starts with `dir` and ends with the file name, with a `/` between them exactly when `dir` is not empty and does not already end in one |
| FileTree.JoinTrailingSeparator | 1/fd2.cpp:81-93 | a start directory written with a trailing `/` gives the same entry paths as without it |
| FileTree.JoinExamples | 1/fd2.cpp:81-93 | `src/` and `src` both give `src/a.cpp`; the root `/` gives `/etc` |
| FileTree.WalkEntriesAppend | 1/fd2.cpp:80-95 | the output for a list of entries is the outputs of its parts in order: an entry's output does not depend on its siblings |
| FileTree.IgnoredEntryContributesNothing | 1/fd2.cpp:81-83 | an ignored entry is neither reported nor descended into: removing it leaves the output unchanged |
| FileTree.ListingErrorIsLocal | 1/fd2.cpp:79-98 | a listing error in a subdirectory keeps the parent's earlier output and what the subdirectory produced, adds one diagnostic, and the parent goes on with its remaining entries |
| FileTree.UnreadableEntry | 1/fd2.cpp:92-98 | an unreadable subdirectory yields what was listed before the error, then its diagnostic |
| FileTree.DepthZeroIsFlat | 1/fd2.cpp:92-94 | with `max_depth = 0` every report is an immediate, matching entry of the start directory |
| FileTree.KeepAppend | fd/src/fd.cpp:75-90 | filtering the enumeration distributes over concatenation |
| FileTree.KeepNone | fd/src/fd.cpp:76-77 | a run of candidates none of which is reported yields nothing |
| FileTree.EnumerateShape | fd/src/fd.cpp:87-89 | every entry below a directory lies deeper and carries the directories above it |
| FileTree.EnumerateEntriesShape | fd/src/fd.cpp:87-89 | the same for a list of entries |
| FileTree.SubtreeNotReported | fd/src/fd.cpp:76-89 | nothing below an ignored directory, or below the depth bound, is reported: pruning |
| FileTree.WalkIsFilteredEnumeration | fd/src/fd.cpp:67-94 | output order is depth-first pre-order: the walk's output is exactly the full pre-order enumeration filtered to what is reached, not ignored and matching (and the listing errors of entered directories) |
| FileTree.EntriesAreFilteredEnumeration | fd/src/fd.cpp:75-90 | the same for the loop over one directory's entries |
| Fd2.RulesOfAppend | 1/fd2.cpp:35-46 | lines are handled independently and in file order: the rules of a file are those of its first part followed by those of the rest |
| Fd2.RuleOfLine | 1/fd2.cpp:36-45 | a skipped line (empty or starting with `#`) or one that RE2 rejects gives no rule; any other line gives its translation |
| Fd2.InvalidLineDropped | 1/fd2.cpp:39-43 | a line whose translation does not compile is dropped and the lines around it still yield their rules |
| Fd2.RulesOfMembership | 1/fd2.cpp:35-46 | a rule is exactly the translation of a line that is not skipped and compiles |
| Fd2.LoadRules | 1/fd2.cpp:29-48 | no ignore file gives no rules; otherwise the loop builds exactly `RulesOf(lines)` |
| Fd2.IsIgnored | 1/fd2.cpp:51-67 | true iff some rule partially matches the path; false with no rules |
| Fd2.Search | 1/fd2.cpp:71-99 | `fd_search` with partial matching outputs the filtered pre-order enumeration of the tree, entry paths built by `fs::path`'s `/` |
| Fd.InlineTranslationAppend | fd/src/fd.cpp:36-40 | the inline translation of `a + b` is that of `a` followed by that of `b` |
| Fd.InlineAgreesIffNoDot | fd/src/fd.cpp:12-40 | the inline loop agrees with `glob_to_regex` exactly on lines without `.`: it copies `.` unescaped |
| Fd.RulesOfAppend | fd/src/fd.cpp:32-42 | loading stops at the first failing line; before that the rules of two parts of a file come one after the other |
| Fd.RulesOfSucceedsIff | fd/src/fd.cpp:32-42 | loading succeeds iff the translation of every line that is not skipped compiles |
| Fd.RulesOfMembership | fd/src/fd.cpp:32-42 | when loading succeeds, a rule is exactly the inline translation of a line that is not skipped |
| Fd.LoadRules | fd/src/fd.cpp:26-44 | no ignore file gives no rules; otherwise the loop yields `RulesOf(lines)`, failing with the regex whose construction throws |
| Fd.IsIgnored | fd/src/fd.cpp:47-63 | true iff some rule matches the whole path (`regex_match`); false with no rules |
| Fd.Search | fd/src/fd.cpp:67-94 | `fd_search` with full matching for ignores and `regex_search` for names outputs the filtered pre-order enumeration, entry paths built by `fs::path`'s `/` |
| SortSpec.RangeMultiset | sort/main.cpp:43-49 | a permutation that leaves everything outside a range alone permutes that range |
| SortSpec.ValueFromRange | sort/main.cpp:43-49 | in such a permutation, every value inside the range came from inside it |
| SortSpec.SwapMultiset | sort/main.cpp:30 | a swap permutes the sequence |
| SortSpec.Swap | sort/main.cpp:30 | `swap(arr[i], arr[j])` exchanges the two slots, keeps the others and the multiset |
| QuickSort.Partition | sort/main.cpp:23-35 | `low <= p <= high`; `arr[p]` is the old `arr[high]`; everything in `[low, p)` is smaller and everything in `(p, high]` at least as large; nothing outside the range changes; a permutation |
| QuickSort.SortedAroundPivot | sort/main.cpp:44-48 | sorting both sides of a partition sorts the whole range |
| QuickSort.QuickSort | sort/main.cpp:43-49 | `arr[low..high]` ends ascending, a permutation of the input, indices outside the range unchanged |
| MergeSort.Merged | sort/main.cpp:71-84 | the merge of two runs is as long as both together |
| MergeSort.MergedMultiset | sort/main.cpp:71-84 | a merge holds exactly the elements of its two inputs |
| MergeSort.MergedAtLeast | sort/main.cpp:71-84 | a lower bound of both runs bounds their merge |
| MergeSort.MergedSorted | sort/main.cpp:71-84 | the merge of two ascending runs is ascending |
| MergeSort.MergeFromIsMerged | sort/main.cpp:70-84 | the index-based merge agrees with `Merged` on the remaining slices |
| MergeSort.CopyRest | sort/main.cpp:79-84 | the tail loop appends what is left of one run |
| MergeSort.MergeRuns | sort/main.cpp:69-84 | the three loops of `merge` fill the buffer with exactly `Merged` of the two runs |
| MergeSort.Store | sort/main.cpp:85-88 | the copy-back loop writes the buffer over the range and nothing else |
| MergeSort.ReplaceRange | sort/main.cpp:85-88 | replacing a range by a permutation of it permutes the whole vector |
| MergeSort.MergeBack | sort/main.cpp:68-89 | copying the merge back gives a permutation, ascending on the range when both runs were |
| MergeSort.Merge | sort/main.cpp:68-89 | `arr[low..high]` becomes the merge of `arr[low..mid]` and `arr[mid+1..high]`: an ascending permutation of them when both were ascending; nothing outside changes |
| MergeSort.SortedBetweenFrame | sort/main.cpp:196-199 | a sorted range stays sorted when only other slots change |
| MergeSort.MergeHelper | sort/main.cpp:193-200 | `arr[low..high]` ends ascending, a permutation, the rest unchanged |
| MergeSort.MergeSort | sort/main.cpp:201-203 | the whole vector ends ascending and a permutation of its input, including an empty one |
| MergeSort.SingletonRuns | sort/main.cpp:97 | before the first pass every run of width 1 is ascending |
| MergeSort.OneRun | sort/main.cpp:97 | once the width covers the vector, its single run is the whole vector |
| MergeSort.HalvesSorted | sort/main.cpp:99-101 | the two halves merged for a block are runs of the previous width |
| MergeSort.PassStep | sort/main.cpp:139-155 | one merge of a pass extends the ascending runs of the doubled width by one block |
| MergeSort.PassPrefix | sort/main.cpp:139-155 | one merge of a pass keeps the processed prefix a permutation of the input prefix |
| MergeSort.PassBlock | sort/main.cpp:139-155 | both facts together, plus the position of the next block |
| MergeSort.InPlaceBlock | sort/main.cpp:99-130 | one in-place merge of `mergeSortIterativeDS` keeps the pass state |
| MergeSort.InPlaceTail | sort/main.cpp:99 | after the last merge of a pass, every run of the doubled width is ascending |
| MergeSort.MergeThroughTemp | sort/main.cpp:108-130 | copying to `temp` and merging back writes `Merged` of the two runs (equal heads taken from the left) over the range and nothing else |
| MergeSort.InPlaceStep | sort/main.cpp:99-131 | one iteration of the `left` loop advances the pass state by one block |
| MergeSort.InPlacePass | sort/main.cpp:99-131 | one pass turns ascending runs of width `size` into ascending runs of width `2 * size`, a permutation |
| MergeSort.MergeSortIterativeDS | sort/main.cpp:92-133 | the whole vector ends ascending and a permutation of its input |
| MergeSort.MergePass | sort/main.cpp:139-155 | one pass writes into `tmp` the ascending runs of width `step`, a permutation of `arr` |
| MergeSort.MergeBottomModifyByAI | sort/main.cpp:134-159 | the whole vector ends ascending and a permutation of its input |
| HeapSort.DescTrans | sort/main.cpp:244-258 | the subtree relation is transitive |
| HeapSort.DescChild | sort/main.cpp:245-246 | a slot strictly below `i` lies below one of the children `2i+1`, `2i+2` |
| HeapSort.SiblingsDisjoint | sort/main.cpp:245-246 | the subtrees of two siblings are disjoint |
| HeapSort.HeapTop | sort/main.cpp:244-258 | the top of a heap subtree may sit above every slot in it |
| HeapSort.SubHeapJoin | sort/main.cpp:248-254 | a slot above both children whose subtrees are heaps tops a heap |
| HeapSort.LeafHeap | sort/main.cpp:248-251 | a slot without children inside the first `n` slots tops a heap |
| HeapSort.SiftFrame | sort/main.cpp:254-256 | swapping with a child and sifting below it changes nothing outside the subtree below `i` |
| HeapSort.SiftOrigin | sort/main.cpp:254-256 | every value in that subtree afterwards came from it |
| HeapSort.SiblingUntouched | sort/main.cpp:254-256 | the sift below one child leaves the heap below its sibling alone |
| HeapSort.NewTopAbove | sort/main.cpp:254-256 | after the swap and the sift-down, the new value at `i` is above the one at the child |
| HeapSort.SiftHeap | sort/main.cpp:244-258 | when both subtrees below `i` were heaps, the subtree below `i` is one after the swap and the recursive sift |
| HeapSort.SiftDown | sort/main.cpp:244-274 | if the subtrees at `2i+1` and `2i+2` within the first `n` slots are heaps, the subtree at `i` becomes one; nothing outside it changes; every value in it came from it; a permutation |
| HeapSort.Heapify | sort/main.cpp:244-258 | the same for the min-heap sift-down |
| HeapSort.Heapify2 | sort/main.cpp:260-274 | the same for the max-heap sift-down |
| HeapSort.RootTop | sort/main.cpp:282-285 | the root of a heap may sit above every value in it |
| HeapSort.RootLeast | sort/main.cpp:276-288 | the root of a min-heap holds its least value |
| HeapSort.LeavesHeaps | sort/main.cpp:278 | the slots from `n/2` on are heaps before the build loop |
| HeapSort.BuildStep | sort/main.cpp:278-280 | one `heapify` of the build loop extends the heaps down to `i` |
| HeapSort.ExtractChildren | sort/main.cpp:285 | swapping the root with the last heap slot leaves heaps below both children |
| HeapSort.ExtractStep | sort/main.cpp:283-288 | one extraction keeps the first slots a heap and the tail in extraction order, each tail value able to sit above every value left in the heap |
| HeapSort.SortByHeap | sort/main.cpp:276-288 | the build and extraction loops over a heap of either order leave each value able to sit above every earlier one, and permute the vector |
| HeapSort.HeapSort | sort/main.cpp:276-291 | `heapSort` as written, on the min-heap `heapify`: the vector ends non-increasing and a permutation of its input |
| HeapSort.HeapSortReversesPair | sort/main.cpp:276-288 | the only non-increasing arrangement of `{1, 2}` is `{2, 1}`, which is not ascending |
| HeapSort.HeapSortMax | sort/main.cpp:260-288 | with the max-heap `heapify2`, as the comments at lines 282 and 284 describe, the vector ends ascending and a permutation of its input |
| InsertionSort.UpperBound | sort/main.cpp:297-301 | the right-to-left scan stops after the last element not above `key`: everything from the slot on is larger |
| InsertionSort.UpperBoundAt | sort/main.cpp:298 | the slot is determined by those two facts |
| InsertionSort.InsertedMultiset | sort/main.cpp:296-302 | insertion adds exactly one `key` |
| InsertionSort.InsertedSorted | sort/main.cpp:296-302 | insertion into an ascending prefix keeps it ascending |
| InsertionSort.InsertedFirst | sort/main.cpp:345-355 | inserting behind an element not above `key` keeps the first element |
| InsertionSort.ScanInsert | sort/main.cpp:296-302 | one step of `insertionSort` turns the array into the prefix with `key` inserted, the rest unchanged |
| InsertionSort.Placed | sort/main.cpp:298-302 | the array after shifting and storing `key` is the inserted prefix followed by the rest |
| InsertionSort.StepSorted | sort/main.cpp:295-303 | a step leaves the first `i + 1` slots ascending and the elements as they were |
| InsertionSort.ScanSortInPlace | sort/main.cpp:295-303 | the outer loop sorts its vector, a permutation |
| InsertionSort.InsertionSort | sort/main.cpp:293-304 | the function's own copy ends ascending and a permutation of the argument |
| InsertionSort.CallInsertionSort | sort/main.cpp:293 | the vector is taken by value: the caller's vector is unchanged |
| InsertionSort.UpperBoundSearch | sort/main.cpp:313-321 | the binary search finds the same slot as the right-to-left scan |
| InsertionSort.BinaryInsert | sort/main.cpp:310-329 | one step of `insertionSortBinary` inserts `key` into the ascending prefix |
| InsertionSort.InsertionSortBinary | sort/main.cpp:306-331 | the vector ends ascending and a permutation of its input |
| InsertionSort.MinIndex | sort/main.cpp:337-342 | the first index of a least element |
| InsertionSort.SentinelInsert | sort/main.cpp:347-355 | with `arr[0] <= key` the scan without `j >= 0` stays in bounds and inserts `key` into the prefix |
| InsertionSort.AtLeastPermutation | sort/main.cpp:343-345 | a lower bound of all elements survives a permutation |
| InsertionSort.SentinelStep | sort/main.cpp:345-355 | a sentinel step keeps the least element at slot 0, so `j` never drops below 0 |
| InsertionSort.InsertionSortWithSentinel | sort/main.cpp:332-357 | the vector ends ascending and a permutation of its input |
| Vectors.Grown | datastructure/myvector.cpp:184-188 | growth without an argument always increases the capacity, by at most `cap/2 + 1` |
| Vectors.GrownSteps | datastructure/myvector.cpp:185-187 | 0 grows to 1, otherwise to `max(cap*3/2, cap+1)`; from 2 on the factor alone suffices |
| Vectors.ShrinkEmptyGrows | datastructure/myvector.cpp:134-138 | on an empty vector with a buffer the written `shrink_to_fit` grows the capacity |
| Vectors.CopyPrefix | datastructure/myvector.cpp:25 | `std::copy` writes the first `n` elements and nothing else |
| Vectors.Fill | datastructure/myvector.cpp:111-113 | the `resize` loop stores `value` in the new slots and nothing else |
| Vectors.MyVector.constructor | datastructure/myvector.cpp:16 | a new vector has size 0, capacity 0 and satisfies `size <= capacity` |
| Vectors.MyVector.CopyOf | datastructure/myvector.cpp:22-28 | the copy has the same size, capacity and elements in a new buffer |
| Vectors.MyVector.MovedFrom | datastructure/myvector.cpp:30-34 | the new vector takes over the buffer; the source is left with size 0 and capacity 0 |
| Vectors.MyVector.CopyAssign | datastructure/myvector.cpp:36-48 | self-assignment changes nothing; otherwise size, capacity and elements of `other` in a new buffer |
| Vectors.MyVector.MoveAssign | datastructure/myvector.cpp:60-72 | self-assignment changes nothing; otherwise takes over `other`'s buffer and leaves it with size 0 and capacity 0 |
| Vectors.MyVector.Reallocate | datastructure/myvector.cpp:183-204 | moves the elements into a new buffer of the requested capacity (grown when 0) |
| Vectors.MyVector.PushBack | datastructure/myvector.cpp:74-99 | the elements become the old ones followed by `value`; the buffer grows only when full |
| Vectors.MyVector.Reserve | datastructure/myvector.cpp:101-104 | reallocates to exactly `n` only when `n > capacity`; the elements are kept |
| Vectors.MyVector.Resize | datastructure/myvector.cpp:106-120 | size becomes `n`, capacity at least `n`; the kept prefix is unchanged and each new slot holds `value` |
| Vectors.MyVector.PopBack | datastructure/myvector.cpp:122-127 | no-op when empty; otherwise drops the last element, capacity unchanged |
| Vectors.MyVector.Clear | datastructure/myvector.cpp:128-133 | no elements; the capacity and buffer stay |
| Vectors.MyVector.ShrinkToFitAsWritten | datastructure/myvector.cpp:134-138 | with `1 <= size < capacity` the capacity becomes the size; on an empty vector with a buffer the capacity grows |
| Vectors.MyVector.ShrinkToFit | datastructure/myvector.cpp:134-138 | corrected `shrink_to_fit`: capacity equals size, the elements are kept |
| Vectors.MyVector.AtAsWritten | datastructure/myvector.cpp:142-145 | `at` throws exactly when `idx > size`: `idx == size` is accepted, reading past the buffer when the vector is full |
| Vectors.MyVector.At | datastructure/myvector.cpp:142-145 | corrected `at`: throws exactly when `idx >= size`; otherwise the element |
| Vectors.MyVector.Get | datastructure/myvector.cpp:140-141 | `operator[]` below `size` returns the element |
| Vectors.MyVector.Empty | datastructure/myvector.cpp:148 | `empty()` holds iff there are no elements |
| Vectors.MyVector.Swap | datastructure/myvector.cpp:160-164 | exchanges sizes, capacities and buffers |
| Vectors.PushTrace | datastructure/myvector.cpp:234-262 | eleven `push_back`s give the elements 0..9, 1 with size 11 and capacity 13, and `shrink_to_fit` brings the capacity to 11 |
| MemPool.ChunkSize | mempool/fixedsizepool.cpp:115-116 | the stride is the larger of the object size and the link size |
| MemPool.ChunksDisjoint | mempool/fixedsizepool.cpp:105-111 | chunks at offsets `i * stride` of different slots do not overlap |
| MemPool.ChunkInBlock | mempool/fixedsizepool.cpp:86-111 | every chunk of a block lies inside its `BLOCK_SIZE * chunk_size_` bytes |
| MemPool.Carved | mempool/fixedsizepool.cpp:106-111 | carving `n` chunks links `n` chunks in front of the free list |
| MemPool.CarvedAt | mempool/fixedsizepool.cpp:106-111 | after carving, position `k` of the list holds slot `n - 1 - k`: the last slot carved is the head |
| MemPool.CarvedStep | mempool/fixedsizepool.cpp:107-109 | one carving step links the next slot in front |
| MemPool.MemoryPool.constructor | mempool/fixedsizepool.cpp:20 | a new pool has no blocks, an empty free list and a count of 0 |
| MemPool.MemoryPool.AllocateBlock | mempool/fixedsizepool.cpp:84-112 | adds one block and links its 64 chunks in front of the free list; the pool invariant holds |
| MemPool.MemoryPool.Carve | mempool/fixedsizepool.cpp:105-111 | the loop links exactly the carved chunks, with `current` at offset `i * stride` |
| MemPool.MemoryPool.CarvedValid | mempool/fixedsizepool.cpp:84-112 | the free list after carving keeps the pool invariant: free-list length + count = 64 × blocks |
| MemPool.MemoryPool.Allocate | mempool/fixedsizepool.cpp:41-54 | returns the free-list head, carving a block first when the list is empty; the chunk is new among the outstanding ones; the count rises by 1 |
| MemPool.MemoryPool.Deallocate | mempool/fixedsizepool.cpp:67-77 | null changes nothing; otherwise the chunk goes to the head of the free list and the count drops by 1 |
| MemPool.MemoryPool.Construct | mempool/fixedsizepool.cpp:33-38 | an `allocate` whose chunk then holds the object |
| MemPool.MemoryPool.Destroy | mempool/fixedsizepool.cpp:57-64 | null changes nothing; otherwise a `deallocate` |
| MemPool.MemoryPool.AllocatedCount | mempool/fixedsizepool.cpp:80 | the count is the number of outstanding chunks, 64 × blocks minus the free-list length |
| MemPool.DeallocateThenAllocate | mempool/fixedsizepool.cpp:71-75 | LIFO reuse: a chunk given back is the next one handed out, the pool otherwise as before |
| MemPool.SimpleTest | mempool/fixedsizepool.cpp:216-232 | two constructs give two distinct chunks and count 2; two destroys give 0 |
| MemPool.ConstructMany | mempool/fixedsizepool.cpp:154-163 | `n <= 64` constructs on a new pool give `n` distinct chunks from one block |
| MemPool.DestroyAll | mempool/fixedsizepool.cpp:171-173 | destroying every outstanding chunk brings the count to 0 |
| MemPool.TestMemoryPool | mempool/fixedsizepool.cpp:147-178 | ten constructs give ten distinct chunks from one block, and the final count is 0 |
| MemPool.ReuseLoop | mempool/fixedsizepool.cpp:189-192 | construct right after destroy reuses the same chunk every round, with a single block |
| JumpGame.MaxReachIsMax | 1/jump.cpp:14-21 | `MaxReach(m)` bounds `j + nums[j]` for every `j <= m` and is attained by one of them |
| JumpGame.FarMonotone | 1/jump.cpp:11-26 | the frontier never moves back |
| JumpGame.ReachBelowFar | 1/jump.cpp:8-28 | every index reachable within `s` jumps lies at or before `Far(s)` |
| JumpGame.FarIsReached | 1/jump.cpp:8-28 | every index at or before `Far(s)` is reachable within `s` jumps |
| JumpGame.ReachInIffFar | 1/jump.cpp:8-28 | reachability within `s` jumps is exactly the interval `[0, Far(s)]` |
| JumpGame.StuckForever | 1/jump.cpp:12-25 | once the frontier stops moving it never moves again |
| JumpGame.FrontierAdvances | 1/jump.cpp:11-25 | while the last index is out of reach but reachable eventually, the frontier advances |
| JumpGame.NoFewerJumps | 1/jump.cpp:11-27 | when `Far(s)` falls short of the last index, no count up to `s` reaches it |
| JumpGame.FinalJump | 1/jump.cpp:15-16 | when a jump from `i` can land on the last index, `jumps + 1` is the least number of jumps |
| JumpGame.GreedyStep | 1/jump.cpp:14-25 | when no jump from `i` lands on the last index, the index reaching furthest carries the frontier exactly one jump further, it can jump again (`nums[idx] >= 1`), and the count stays below any count that reaches the end |
| JumpGame.FurthestNext | 1/jump.cpp:14-23 | the inner loop reports a landing on the last index exactly when `i + nums[i]` reaches it, and otherwise picks the index that reaches furthest, never reading past `size - 1` |
| JumpGame.Jump | 1/jump.cpp:8-28 | the result reaches the last index and no smaller count does: the minimum number of jumps |
| JumpGame.ShortCases | 1/jump.cpp:11-16 | one element needs no jump; when `nums[0]` spans the sequence one jump suffices |
| JumpGame.UnreachableExample | 1/jump.cpp:11-25 | for `[0, 1]` the last index is never reachable, which is the input on which the loop does not terminate |
| JumpGame.TwoJumps | 1/jump.cpp:11-27 | a frontier short of the end after one jump and past it after two means exactly two jumps |
| JumpGame.DemoReachability | 1/jump.cpp:33-35 | each demonstration input needs two jumps and not one |
| JumpGame.Demo | 1/jump.cpp:31-45 | `jump` returns 2 on `{2,1,3,4}`, `{2,3,0,1,4}` and `{2,3,1,1,4}` |

## Left out

- Output and I/O: standard output, `printVector`, the `Error accessing` text, and file and directory access. The finders return their output as a list of `Report`s. An ignore file is its list of lines, or `None` when it cannot be opened. A directory listing is part of the `Node` tree value.
- RE2 and `std::regex` semantics: an `Engine` value gives whether a pattern compiles and how it matches. The model does not define what a regular expression matches.
- `Fd.LoadRules`: `std::regex`'s constructor throws `regex_error` on an invalid rule and nothing in `fd/src/fd.cpp` catches it. This is modelled as a `Failure` carrying that regex. The program's termination is not modelled.
- Concurrency: the thread-pool finders, the networking code and the other non-core files are not part of this model.
- Fixed-width integers: `int`/`size_t` arithmetic is unbounded here.
  - Not modelled: overflow of `n * 2` in `mergeBottomModifyByAI`, of `size *= 2` in `mergeSortIterativeDS`, and of `i + k` in `jump`.
  - `arr.size() - 1` on an empty vector in `mergeSort` is taken as `-1`, which is what the conversion back to `int` gives.
- `Vectors.Grown`: `static_cast<size_t>(capacity_ * 1.5)` is modelled as `cap * 3 / 2`. These are equal wherever the double product is exact.
- `Vectors.MyVector.Reallocate`: requires a non-zero request to hold the elements. Every caller in the source meets this. A smaller request would copy past the new buffer.
- Element lifetimes in `MyVector`: destructors, placement-new, `operator new`/`delete` and `bad_alloc` are not modelled. Two consequences:
  - the `delete[]` of memory from `operator new` in the copy assignment (datastructure/myvector.cpp:38) is not observable;
  - `pop_back` destroying `data[size_-1]` after the decrement (datastructure/myvector.cpp:125) is not observable either. `Vectors.MyVector.PopBack` models only the size change.
- `MyVector`'s iterators (`begin`, `end`, `rbegin`, `rend`) and the destructor are not modelled: they add no logic to the vector's state.
- `Vectors.MyVector.PushBack`: this one method stands for `push_back(const T&)`, `push_back(T&&)` and `emplace_back(args...)`. In a value model they differ only in how the element is built.
- `MemPool.MemoryPool.Deallocate`, `MemPool.MemoryPool.Destroy`: require the argument to be null or a chunk this pool handed out and has not taken back. The source does not check this. A double free or a chunk of another pool would corrupt the free list, and the pool invariant (free-list length + count = 64 × blocks) holds only for correct callers.
- Memory pool details:
  - not modelled: addresses, alignment, `aligned_alloc`, the `bad_alloc` on failure, the destructor freeing the blocks, and the timing in `performance_comparison`;
  - a chunk is the pair (block, slot), and its byte offset is `slot * chunk_size_`;
  - `MemoryPool2` is not part of this model.
- `MemPool.ReuseLoop`: models the pool half of `performance_comparison`, for any number of rounds. The `new`/`delete` half and the clock are not modelled.
- `JumpGame.Jump`: requires non-negative entries and a reachable last index. With an unreachable end the source loops forever: `idx` stays 0 and `i` returns to 0. `JumpGame.UnreachableExample` exhibits such an input.
- `Fd2.IsIgnored`, `Fd.IsIgnored`: both bind `std::string_view path_view = path.string();` (1/fd2.cpp:59, fd/src/fd.cpp:55). This views a temporary `std::string` that is destroyed at the end of that declaration, so every later match reads freed storage, which is undefined behaviour. The dangling view is not modelled. The model matches the path string itself, which is evidently what was intended.
- Sort variants that do not work as written are not part of this model: `partitonHoare`/`quickSortH`, and `mergeBottom`, which uses a floating-point `ceil`.
- `fd_search`'s default arguments and `main` (command-line parsing, exit codes) are not modelled. The search takes `max_depth` and `current_depth` explicitly, with `-1` for unlimited depth.

## Findings

| source | as written | input that shows it | evidently intended | confidence | as-written member | corrected member |
|---|---|---|---|---|---|---|
| datastructure/myvector.cpp:142-145 | `at` throws only when `idx > size_` | `at(size)` on a full vector reads one slot past the buffer; on any vector it returns an element that is not stored | throw `out_of_range` whenever `idx >= size_` | high, not executed | Vectors.MyVector.AtAsWritten | Vectors.MyVector.At |
| datastructure/myvector.cpp:134-138 | on an empty vector with spare capacity, `shrink_to_fit` calls `reallocate(0)`, whose 0 means "grow" (datastructure/myvector.cpp:184-188) | `reserve(4); shrink_to_fit();` leaves capacity 6 instead of 0 | capacity becomes `size_`, releasing the buffer when empty | high, not executed | Vectors.MyVector.ShrinkToFitAsWritten | Vectors.MyVector.ShrinkToFit |
| sort/main.cpp:276-288 | `heapSort` builds and restores its heap with the min-heap `heapify`, while its comments at lines 282 and 284 describe extracting the maximum | `{1, 2}` ends as `{2, 1}`: `HeapSort.HeapSort` ends non-increasing and `HeapSort.HeapSortReversesPair` shows that is `{2, 1}` | extract the maximum with the max-heap `heapify2`, sorting ascending | medium, not executed | HeapSort.HeapSort | HeapSort.HeapSortMax |
