# Rotator, digit solver, sparse array and word statistics in Dafny

This project models four small sequential programs of one repository and
proves their behaviour against independent reference definitions.

- **The windowed one-bit file rotator** (`rotate/rotate.c`).
  - `ByteRotate`: the two byte macros.
  - `RotateStep`: `rotate_left` and `rotate_right`, each rewriting one window in place and reporting a certified write-back range.
  - `RotateDriver`: the windowing loop of `rotate()`.
  - `RotateMain`: the argument and empty-file guards of `main`.
  - The reference is `GlobalRotation`, which reads the whole file as one bit string (byte 0 first, most significant bit first) and rotates it circularly by one bit.
  - The model proves that the streamed output equals that global rotation for every window size of at least two. It also proves that the written ranges tile the file exactly once.
- **The largest multiple of three from a list of digits** (`please-pass-the-coded-messages/Solution.java`).
  - `Digits`: `highest` and the number theory it relies on.
  - `CodedMessages`: the residue partition and the removal switch of `solution`.
  - `CodedSolution`: correctness and optimality. The result is a multiple of three, spelled by digits of the input, and no sub-multiset of the input spells a larger multiple of three.
- **The sparse array** (`wc++/sparse_array*.{c,h}`), a 4-level, 256-way trie indexed by a 32-bit `sparse_index_t`.
  - `SparseKeys`: the `SA_*` constants and the split of an index into four 8-bit keys.
  - `SparseArray`: the trie as a datatype, with the lazy `sparse_get_addr` and the traversal `sparse_iter`.
  - The model proves that the trie behaves like a total map from indices to counts. It also proves that the traversal reports exactly the non-zero entries, once each, in strictly ascending index order.
- **The word-statistics scanner of `wc++`** (`wc++/main.c`).
  - `WordStats`: `create_statistics` and `create_statistics_cb`. The locale classifiers `iswspace`, `iswalpha` and `toupper` are parameters.
  - `WcReport`: `compare_count`, the most-common-letter selection of `report_statistics_letters`, and the option handling and report defaulting of `main`.

`Results` holds the `Option` and `Result` types that the error paths return.

Two facts about the write side of `rotate()` shape the model:
- `rotate()` appends each certified range with `write()` on the output descriptor (rotate/rotate.c:107-119). It never seeks, so the output is the concatenation of the certified ranges in window order, and the model appends too.
- After a short write, the retry loop (rotate/rotate.c:110-119) offers the same start of the buffer again (see Findings).

## Model

| member | source | states |
|---|---|---|
| ByteRotate.RotateLeftByte | rotate/rotate.c:15 | ROTATE_LEFT stored in a byte is `2e mod 256 + n/128`: bits 0..6 are bits 1..7 of `e`, and bit 7 is the top bit of `n` |
| ByteRotate.RotateRightByte | rotate/rotate.c:14 | ROTATE_RIGHT stored in a byte is `(n mod 2)·128 + e/2`: bit 0 is the low bit of `n`, and bits 1..7 are bits 0..6 of `e` |
| ByteRotate.RotateByteInverse | rotate/rotate.c:14-15 | a byte rotated left is recovered by rotating right with its rotated predecessor, and the other way round |
| RotateStep.RotateLeftStep | rotate/rotate.c:23-44 | every byte but the last combines with its unmodified right neighbour; the write offset is 0; the whole window is certified exactly when it ends the file, the last byte then wrapping onto file byte 0; a failed one-byte pread is the only error |
| RotateStep.RotateRightStep | rotate/rotate.c:48-70 | every byte but the first combines with its unmodified left neighbour; a window at offset 0 wraps byte 0 onto the last file byte and certifies `[0, len)`; any other window certifies `[1, len)`; a failed pread is the only error |
| RotateDriver.NextOffset | rotate/rotate.c:121-124 | the loop stops exactly when the window reaches the end of the file; otherwise the next window starts on the last byte read (one byte of overlap), strictly further on when bufsize ≥ 2 and at the same place when bufsize = 1 |
| RotateDriver.ReadWindow | rotate/rotate.c:92-105 | the read loop succeeds exactly when the requested bytes exist in the file and then returns exactly those bytes; a read that returns nothing is fatal |
| RotateDriver.Accepted | rotate/rotate.c:113 | one `write()` call takes at most the bytes offered; a call that returns 0 takes nothing and is repeated; once the kernel's choices are exhausted a call takes everything offered |
| RotateDriver.WriteLoopAsWritten | rotate/rotate.c:110-119 | the write loop as written emits exactly `wremaining` bytes, each call restarting at the unchanged buffer offset |
| RotateDriver.ShortWriteRepeatsBytes | rotate/rotate.c:113 | one short write of a single byte makes the loop as written emit 01 01 02 instead of 01 02 03 |
| RotateDriver.AsWrittenComplete | rotate/rotate.c:110-119 | when the first `write()` takes the whole count, the loop as written emits exactly the certified range, so the global-rotation result of `Rotate` covers the code as written for complete writes |
| RotateDriver.ZeroWriteRetries | rotate/rotate.c:110-119 | a `write()` that returns 0 leaves `wremaining` unchanged, and the loop continues as if that call had not happened |
| RotateDriver.WriteRange | rotate/rotate.c:110-119 | with the offset advanced past each short write, the loop emits exactly the certified range, whatever byte counts the kernel accepts |
| RotateDriver.LeftWindowCertified | rotate/rotate.c:28-43 | the bytes rotate_left certifies are the matching bytes of the whole-file left rotation |
| RotateDriver.RightWindowCertified | rotate/rotate.c:53-69 | the bytes rotate_right certifies are the matching bytes of the whole-file right rotation, and the certified range reaches the end of the window |
| RotateDriver.CertifiedRangesContiguous | rotate/rotate.c:121-124 | each window's certified range is non-empty, starts where the output produced so far ends, and ends where the next window's range starts, or at the end of the file |
| RotateDriver.TilesAppend | rotate/rotate.c:107-124 | appending a range that starts where the tiling ends extends the tiling |
| RotateDriver.TilesDisjoint | rotate/rotate.c:107-124 | tiled ranges lie inside the file, in increasing order, and never overlap |
| RotateDriver.LeftWindow | rotate/rotate.c:107-119 | one left iteration writes exactly the bytes of the global left rotation at the certified file offsets |
| RotateDriver.RightWindow | rotate/rotate.c:107-119 | one right iteration writes exactly the bytes of the global right rotation at the certified file offsets |
| RotateDriver.ProcessWindow | rotate/rotate.c:92-119 | one iteration reads the window, rotates it, and writes the global rotation's bytes over its certified range; it fails only when the file is shorter than its claimed size |
| RotateDriver.Rotate | rotate/rotate.c:80-126 | for every bufsize ≥ 2 the output is the whole-file rotation in the chosen direction, and the ranges written tile `[0, filesize)` exactly once; a file shorter than claimed is an error |
| RotateMain.SelectRotator | rotate/rotate.c:146-154 | exactly three arguments with the token `left` or `right` select that direction; anything else selects nothing |
| RotateMain.RunRotate | rotate/rotate.c:182-185 | a usage error yields no output; otherwise the output is the rotation of the input, and empty for an empty input |
| GlobalRotation.LeftBitAt | rotate/rotate.c:14-15 | bit p of the byte-wise left rotation is bit p+1 (mod 8N) of the input |
| GlobalRotation.RightBitAt | rotate/rotate.c:14-15 | bit p of the byte-wise right rotation is bit p−1 (mod 8N) of the input |
| GlobalRotation.RotateLeftAllIsBitRotation | rotate/rotate.c:72-79 | combining each byte with its circular successor is exactly a left rotation of the file's bit string by one |
| GlobalRotation.RotateRightAllIsBitRotation | rotate/rotate.c:72-79 | combining each byte with its circular predecessor is exactly a right rotation of the file's bit string by one |
| GlobalRotation.RotateLeftThenRight | rotate/rotate.c:14-15 | rotating left and then right, or right and then left, restores the file |
| GlobalRotation.SingleByteExample | rotate/rotate.c:31-40 | a one-byte file is its own neighbour on both sides: 0x01 becomes 0x02 leftwards and 0x80 rightwards |
| GlobalRotation.ThreeByteExample | rotate/rotate.c:14-15 | 81 01 00 rotated left is 02 02 01, and rotating that right gives back 81 01 00 |
| Digits.Sort | please-pass-the-coded-messages/Solution.java:14 | the sort yields an ascending permutation of its input |
| Digits.Highest | please-pass-the-coded-messages/Solution.java:8-24 | the column-weighted loop computes the number spelled by all digits of the three lists, largest first |
| Digits.HighestOfArrangement | please-pass-the-coded-messages/Solution.java:14-21 | any non-increasing arrangement of the digits spells the number `highest` returns |
| Digits.HighestOfPermutation | please-pass-the-coded-messages/Solution.java:10-14 | `highest` depends only on the multiset of digits, not on their order or on how they are split into lists |
| Digits.HighestOfUnits | please-pass-the-coded-messages/Solution.java:14-21 | the units digit of the result is the smallest input digit |
| Digits.ArrangementAtMostHighest | please-pass-the-coded-messages/Solution.java:47-48 | no arrangement of the digits spells a larger number than the descending one |
| Digits.NumberMod3 | please-pass-the-coded-messages/Solution.java:26-35 | a number and its digit sum leave the same remainder mod 3 |
| Digits.DropLargerIsWorse | please-pass-the-coded-messages/Solution.java:38-41 | removing a smaller digit instead of a larger one never gives a smaller result |
| Digits.HighestOfMonotone | please-pass-the-coded-messages/Solution.java:47-48 | adding digits never makes the largest spelled number smaller |
| Digits.HighestOfLonger | please-pass-the-coded-messages/Solution.java:47-48 | a longer list of digits containing a non-zero digit always spells a larger number than a shorter list |
| CodedMessages.Partition | please-pass-the-coded-messages/Solution.java:54-68 | every digit lands in exactly the list of its residue, and `dr` is the digit sum |
| CodedMessages.PartitionStep | please-pass-the-coded-messages/Solution.java:57-67 | adding one digit to the list of its residue keeps the partition exact for the longer prefix |
| CodedMessages.PartitionCounts | please-pass-the-coded-messages/Solution.java:54-68 | R1 and R2 hold exactly as many elements as the input has digits of residue 1 and 2 |
| CodedMessages.ResidueArithmetic | please-pass-the-coded-messages/Solution.java:76-95 | when `dr` leaves remainder 1 and R1 is empty, R2 has at least two elements, and symmetrically for remainder 2 |
| CodedMessages.KeepNeverGivesUp | please-pass-the-coded-messages/Solution.java:82-94 | neither `return 0` is reachable: the removal switch always succeeds |
| CodedMessages.Drop | please-pass-the-coded-messages/Solution.java:73-96 | the switch gives up (returns 0) exactly when the remainder is non-zero, its own residue list is empty and the other list has fewer than two digits; otherwise R0 is untouched, R1 and R2 lose only digits from their fronts, and at most two digits go, none when the remainder is 0 |
| CodedMessages.Keep | please-pass-the-coded-messages/Solution.java:69-96 | after sorting and the switch, the three lists are still sorted and hold only digits of the original residue lists |
| CodedMessages.ResidueListsComplete | please-pass-the-coded-messages/Solution.java:54-68 | every input digit of residue 1 is in R1 and every one of residue 2 is in R2 |
| CodedMessages.SortedResidueHead | please-pass-the-coded-messages/Solution.java:69-71 | after sorting, the head of a residue list is the smallest input digit of that residue |
| CodedMessages.DropKeepsAll | please-pass-the-coded-messages/Solution.java:73-75 | when the digit sum is a multiple of three, nothing is removed |
| CodedMessages.DropOneOfOnes | please-pass-the-coded-messages/Solution.java:76-78 | for remainder 1 with R1 non-empty, exactly the smallest digit of residue 1 is removed |
| CodedMessages.DropPairOfTwos | please-pass-the-coded-messages/Solution.java:79-81 | for remainder 1 with R1 empty, exactly the two smallest digits of residue 2 are removed |
| CodedMessages.DropOneOfTwos | please-pass-the-coded-messages/Solution.java:86-88 | for remainder 2 with R2 non-empty, exactly the smallest digit of residue 2 is removed |
| CodedMessages.DropPairOfOnes | please-pass-the-coded-messages/Solution.java:89-91 | for remainder 2 with R2 empty, exactly the two smallest digits of residue 1 are removed |
| CodedMessages.UsedKeepsAll | please-pass-the-coded-messages/Solution.java:73-98 | with a digit sum divisible by three, the digits passed to `highest` are the whole input |
| CodedMessages.UsedDropsSmallest | please-pass-the-coded-messages/Solution.java:76-95 | when a digit of the sum's residue exists, the digits used are the input less the smallest such digit |
| CodedMessages.UsedDropsSmallestPair | please-pass-the-coded-messages/Solution.java:76-95 | otherwise the digits used are the input less the two smallest digits of the other non-zero residue |
| CodedSolution.UsedDigitsFormable | please-pass-the-coded-messages/Solution.java:73-98 | the digits used are a sub-multiset of the input with at most two removed, and their sum is a multiple of three |
| CodedSolution.LeftOutPair | please-pass-the-coded-messages/Solution.java:37-45 | a multiple of three that leaves out no digit of the sum's residue leaves out at least two of the other residue |
| CodedSolution.OptimalDropOne | please-pass-the-coded-messages/Solution.java:38-41 | removing the smallest digit of the sum's residue beats every formable multiple of three |
| CodedSolution.OptimalDropPair | please-pass-the-coded-messages/Solution.java:41-45 | when no such digit exists, removing the two smallest of the other residue beats every formable multiple of three |
| CodedSolution.SolutionOptimal | please-pass-the-coded-messages/Solution.java:26-48 | no number spelled by a sub-multiset of the input and divisible by three exceeds the number `solution` assembles |
| CodedSolution.Solution | please-pass-the-coded-messages/Solution.java:49-99 | the result is a multiple of three spelled by a sub-multiset of the input, and it is at least every such multiple of three |
| SparseKeys.HeaderConstants | wc++/sparse_array_impl.h:42-49 | key width 8 = 2^3; 256 keys; 4 levels of 8 bits cover the 32-bit index; the mask shift is 24 and the mask is 0xFF000000 |
| SparseKeys.JoinAddress | wc++/sparse_array_impl.h:20-27 | joining the four keys of an index, most significant first, gives back the index |
| SparseKeys.AddressJoin | wc++/sparse_array_impl.h:20-27 | any four keys are the path of exactly the index they join to |
| SparseKeys.AddressInjective | wc++/sparse_array_impl.h:20-27 | distinct indices have distinct paths, so each index has its own slot |
| SparseKeys.DeadBeef | wc++/sparse_array_impl.h:23-27 | index 0xdeadbeef follows keys de, ad, be, ef |
| SparseKeys.KeysOfNumber | wc++/sparse_array_impl.h:20-27 | the index built from four keys lies below 2^32 and splits back into those keys |
| SparseKeys.AddressStep | wc++/sparse_array.c:25-26 | the masked top key followed by the keys of the index shifted left by 8 is the index's path, level by level |
| SparseKeys.KeyOf | wc++/sparse_array.c:25 | the masked and shifted key is the top byte of the index: the index lies in that key's block of 2^24 indices |
| SparseKeys.Shift | wc++/sparse_array.c:26 | `index <<= SA_KEY_BITS` on a 32-bit index leaves the low key clear and moves the low three keys up by one place; the top key falls off |
| SparseKeys.ShiftKeys | wc++/sparse_array.c:26 | shifting the index left by 8 moves each lower key up one level |
| SparseKeys.Decompose | wc++/sparse_array.c:40-47 | the next-level prefix `index * 256 + key` of an index holds exactly when its prefix at this level is `index` and its key here is `key` |
| SparseKeys.KeyOrder | wc++/sparse_array.c:41-47 | two indices with a common prefix are ordered by their first differing key |
| SparseArray.Calloc | wc++/sparse_array.c:19-24 | a freshly allocated node is valid and holds zero in every slot beneath it |
| SparseArray.GetAddrFrom | wc++/sparse_array.c:18-28 | the descent follows the index's keys, creates missing nodes on the way, reaches the leaf slot, and changes no element |
| SparseArray.GetAddr | wc++/sparse_array.c:11-31 | after the call the root is non-NULL, the returned path is the index's address, it reaches a slot, and every element is unchanged |
| SparseArray.GrowKeepsElements | wc++/sparse_array.c:19-24 | replacing a branch by one holding the same elements keeps every element of the tree |
| SparseArray.Store | wc++/sparse_array.c:30 | writing through a reached slot changes that slot only |
| SparseArray.StoreThroughAddr | wc++/sparse_array.c:11-31 | writing through the returned address updates exactly `element[index]`: map-update semantics |
| SparseArray.GetAddrIdempotent | wc++/sparse_array.c:11-31 | a second call with the same index creates nothing and returns the same slot |
| SparseArray.GetAddrTotal | wc++/sparse_array.c:19-24 | creating the path leaves the sum of all elements unchanged |
| SparseArray.StoreTotal | wc++/sparse_array.c:30 | writing v over a slot holding u changes the sum of elements by v − u |
| SparseArray.IterRSound | wc++/sparse_array.c:33-49 | every index the recursive traversal reports carries the prefix it was called with and a non-zero element value |
| SparseArray.IterR | wc++/sparse_array.c:33-49 | the recursive traversal never hands the callback a NULL element |
| SparseArray.IterKeys | wc++/sparse_array.c:41-48 | the loop over a node's keys never hands the callback a NULL element |
| SparseArray.Visit | wc++/sparse_array.c:42-47 | a NULL branch is skipped; at the last level one pass makes at most one callback, never with a NULL element |
| SparseArray.Iter | wc++/sparse_array.c:51-56 | an empty array gets no callback, and no callback receives a NULL element |
| SparseArray.IterRComplete | wc++/sparse_array.c:33-49 | every non-zero element under the node is reported with its index |
| SparseArray.IterRAscending | wc++/sparse_array.c:41-47 | the reports come in strictly ascending index order |
| SparseArray.IterExact | wc++/sparse_array.h:17-19 | `sparse_iter` reports every non-zero entry with its value and no zero entry, in strictly ascending index order |
| SparseArray.IterCount | wc++/sparse_array.c:41-47 | exactly one report per non-zero element |
| SparseArray.IterSum | wc++/sparse_array.c:51-56 | the values reported add up to the sum of all elements |
| SparseArray.EmptyArray | wc++/sparse_array.h:13-15 | a NULL root is a valid array whose elements are all zero, and iterating it reports nothing |
| WordStats.PrefixStep | wc++/main.c:166-194 | reading one more character adds its position to the line, word-start, letter and per-letter sets exactly when it is a newline, starts a word, or is a letter |
| WordStats.SeenStep | wc++/main.c:184-187 | the set of distinct upper-cased letters grows by the character's upper case exactly when it is a letter |
| WordStats.SeenOccurrences | wc++/main.c:184-187 | a key is among the seen letters exactly when some letter of the input maps to it |
| WordStats.CountStep | wc++/main.c:166-194 | each counter and each letter's tally rises by one exactly when the new character falls into its set |
| WordStats.SeenCountStep | wc++/main.c:186-187 | the number of distinct letters rises by one exactly when a letter's slot was zero before the increment |
| WordStats.Tally | wc++/main.c:184-187 | `(*countp)++` on the slot of the letter's key raises that element by one and no other; the old value was zero exactly when the key was new; the total rises by one |
| WordStats.TallyCounts | wc++/main.c:184-186 | the value read through the fresh address is the letter's old count, and the write raises only that slot |
| WordStats.TallyTotal | wc++/main.c:184-189 | the increment through the address raises the sum of all counts by one |
| WordStats.Fill | wc++/main.c:137-143 | each callback stores its letter at the cursor and advances it: after a run of calls, the k-th reported entry sits in the k-th bin from where the cursor started, and the bins before and after are untouched |
| WordStats.ToLetters | wc++/main.c:208-216 | with the cursor starting at the first bin of an array of one bin per reported entry, bin k holds the letter and count of the k-th report |
| WordStats.ToLettersSum | wc++/main.c:208-216 | the bins' counts add up to the values reported |
| WordStats.HistogramExact | wc++/main.c:208-216 | the histogram has exactly histogram_size bins in ascending key order; each bin is a seen letter with its exact count, every seen letter has its bin, and the counts sum to the tree total |
| WordStats.CreateStatistics | wc++/main.c:150-220 | lines count newlines; words count non-space characters that are first or follow a space; letters count alphabetic non-space characters; the histogram holds each distinct upper-cased letter once with its count, in ascending order, summing to the letter count |
| WordStats.ScanChar | wc++/main.c:166-194 | one pass of the scanning loop: a newline adds a line, a non-space after a space adds a word, a letter adds a letter and one to the count of its upper-case value, and the number of distinct values grows exactly when that count was zero |
| WcReport.ToInt | wc++/main.c:48-49 | the int conversion yields a value in [−2^31, 2^31) congruent to the count mod 2^32, and keeps every count below 2^31 |
| WcReport.CompareCountOrder | wc++/main.c:45-52 | the comparison puts larger counts first, returns 0 exactly for equal counts, and is antisymmetric |
| WcReport.CompareCountAsWritten | wc++/main.c:45-52 | the comparison as written is 0 exactly when the two counts agree after truncation to `int`, and negative exactly when the first truncated count is larger |
| WcReport.CompareCountAgrees | wc++/main.c:45-52 | for counts below 2^31 the comparison as written and the corrected one agree |
| WcReport.CountSortedByCompareCount | wc++/main.c:82 | a histogram sorted by count, descending, is exactly one that qsort with compare_count can return |
| WcReport.InsertByCount | wc++/main.c:82 | inserting a bin into a histogram sorted by descending count keeps it sorted and adds exactly that bin |
| WcReport.SortByCount | wc++/main.c:82 | the sort yields a permutation of the histogram in descending count order |
| WcReport.WithCountPermutation | wc++/main.c:82-89 | the bins with a given count are the same, as a multiset, in any permutation of the histogram |
| WcReport.TopRun | wc++/main.c:84-87 | the selection loop stops at the first bin whose count differs from the first, or at the end |
| WcReport.FrontRun | wc++/main.c:84-87 | when the run ends where counts drop, the bins carrying the top count are exactly the run |
| WcReport.TopMembers | wc++/main.c:82-87 | a bin is in the selected run exactly when it is in the histogram and no bin has a larger count |
| WcReport.TopIsMostCommon | wc++/main.c:82-87 | for ANY descending order qsort may return, the run is exactly the most common letters, each as often as in the histogram |
| WcReport.MostCommon | wc++/main.c:69-89 | an empty histogram selects nothing; otherwise the selection is non-empty and is, as a multiset, exactly the bins with the maximal count |
| WcReport.WrappedCountMisorders | wc++/main.c:48-49 | with counts 1 and 2^31, compare_count as written sorts the count-1 letter first although it is not most common |
| WcReport.OptionStep | wc++/main.c:241-262 | the options stay well formed after one more option exactly when it is one of w, l, a, L and has not been seen |
| WcReport.ParseCommandLine | wc++/main.c:241-281 | a usage error occurs exactly on an unknown or repeated option or a missing operand; otherwise the operand names the file and no option enables all four reports, while any options enable exactly the named reports |

## Left out

- File and process plumbing is not modelled: `open`, `fstat`, the regular-file check, creation with `O_EXCL`, `close`, `perror`, `exit` and the usage text (rotate/rotate.c:128-191; wc++/main.c:235-239, 273-276). The input file is a byte sequence, the output is the returned sequence, and every fatal exit is an `Err` value.
- `pread` is a complete transfer of the bytes that exist. The model has no device that returns fewer bytes than are present.
- `write` takes a kernel-chosen byte count from a parameter sequence. Write failures (`-1`) are not modelled.
- RotateDriver.Accepted: once the parameter sequence is exhausted every `write()` takes everything offered. A kernel that returns 0 forever, which makes the source loop forever, is therefore not modelled.
- RotateDriver.Rotate: takes the window size as a parameter of at least 2 instead of the fixed BUFFER_SIZE of 3. With a window of 1 the cursor never advances (NextOffset states this), so the source loops forever.
- RotateStep.RotateLeftStep: requires a non-empty window. The `bufsize - 1` underflow of an empty window cannot arise, because `rotate()` never passes one.
- RotateStep.RotateRightStep: requires a non-empty window, for the same reason.
- RotateDriver.Rotate: uses the corrected write loop WriteRange, not the loop as written (see Findings).
- The `off_t`/`size_t` mixing in the rotator uses unbounded naturals. Files are finite sequences.
- Digits.Highest: computes with unbounded naturals. Java `int` overflow beyond nine digits, and digits outside 0..9, are not modelled.
- `Collections.sort` in Solution.java is modelled by the insertion sort `Digits.Sort`. Its stability and algorithm do not matter here.
- The locale is not modelled. `setlocale`, `iswspace`, `iswalpha` and `toupper` are fields of a `Locale` parameter, and `toupper`'s result is given directly as a sparse index.
- Wide-character input is not modelled. `getwc`, `WEOF` and `ferror` are replaced by a finite sequence of wide characters.
- `compare_letter` and the second `qsort` that orders the selected letters by `wcscoll` (wc++/main.c:33-42, 89) are left out, because locale collation is opaque. So is the printing of the selected letters (wc++/main.c:91-95). WcReport.MostCommon states which letters are selected, not their print order.
- `qsort` itself is not modelled. It is foreign code; WcReport.SortByCount is one conforming order, and WcReport.TopIsMostCommon covers every order a sort by compare_count may return.
- `report_statistics_average` (floating point), `report_statistics_lines` and `report_statistics_words` (printing only) are left out.
- Memory management is left out: `calloc`/`malloc` failure, `bcopy`, `free`, `sparse_destroy` and `destroy_statistics` (wc++/sparse_array.c:58-78; wc++/main.c:125-131).
- The signed `int index` of `sparse_iter_r` (wc++/sparse_array.c:34-35) is modelled as an unsigned 32-bit index. In C, shifting a top key of 0x80 or more into an `int` overflows.
- The `unsigned int` loop counter of `report_statistics_letters` is unbounded. It cannot wrap below 2^32 bins.
- WordStats counters (`size_t`) are unbounded naturals.
- The bit operations of the sparse array (`&`, `<<`, masks) are written as arithmetic on integers below 2^32. HeaderConstants and SparseKeys state the equivalence.
- `getopt` is not modelled. ParseCommandLine takes the option characters `getopt` returns, in order, and the first operand if there is one.

## Findings

| source | as written | input that shows it | evidently intended | confidence | as-written member | corrected member |
|---|---|---|---|---|---|---|
| rotate/rotate.c:113 | after a short write the loop subtracts the bytes written from `wremaining` but writes again from the same `buffer + woffset` | a certified range 01 02 03 whose first `write()` takes one byte: the output is 01 01 02 | advance `woffset` by `nwritten` so the next call continues where the last stopped | not executed | RotateDriver.ShortWriteRepeatsBytes | RotateDriver.WriteRange |
| wc++/main.c:48-49 | `compare_count` converts the `size_t` counts to `int` before comparing | a histogram with one letter seen once and another seen 2^31 times: the larger count becomes negative, so the first letter sorts first and is reported as most common | compare the counts as unsigned `size_t` values | not executed | WcReport.WrappedCountMisorders | WcReport.MostCommon |
