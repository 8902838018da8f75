# The binary diff of `delta-tool`, verified

`delta-tool` makes firmware updates small: `bsdiff` compares an old and a new
file and writes a patch, `bspatch` rebuilds the new file on the device from the
old one and the patch.  This project models both ends and proves that they fit
together.

`dafny verify dfyconfig.toml` checks everything.

## How it is organised

| file | what it holds |
|---|---|
| `SuffixOrder.dfy`, `SuffixArrays.dfy` | the order of suffixes, what a suffix array is, an insertion sort that builds it, and its uniqueness |
| `Refinement.dfy` | the invariant of prefix doubling: groups in order, members of a group agreeing on h bytes |
| `Partition.dfy` | the selection and the three-way partition inside `split`, on the array `I` |
| `SplitState.dfy`, `SuffixSort.dfy` | the contract of `split` on snapshots of the two arrays, and `split` itself |
| `Buckets.dfy`, `Doubling.dfy`, `Qsufsort.dfy` | the bucket sort, the doubling passes with their sorted runs, and `qsufsort` |
| `Search.dfy` | `matchlen` and `search`, and exactly when the match found is the longest |
| `Scan.dfy`, `Extension.dfy`, `Records.dfy` | the diff scan, the two extensions and their overlap, and the records of a whole run |
| `Varint.dfy`, `VarintDecoding.dfy` | the encoders and decoders of `varint.c` |
| `Compression.dfy`, `Framing.dfy`, `Header.dfy` | the contract of LZ4, the framing of buffers, the header numbers |
| `Applier.dfy`, `RoundTrip.dfy` | the patch applier of `bspatch.c`, the patch as a function of its inputs, and the round trip |
| `LongJump.dfy`, `SameFile.dfy` | the records of two families of inputs: a jump of any length, and a file compared with itself |
| `AnyPatch.dfy`, `Streaming.dfy` | what the applier does with patches from anywhere, and with the front of a patch |
| `BsDiff.dfy` | `bsdiff_internal`, `bsdiff` and the patch file handling of `main` |

The code that works in place is imperative here too: `I`, `V` and the buckets
are arrays, the scan is a loop over counters, the encoders fill buffers and the
patch file is an object.  Each such method is proved against a specification
function of its inputs (`SuffixArray`, `StopFrom`, `RecordsFrom`, `Uleb`,
`Frames`, `PatchFor`), and the lemmas are about those functions.  A method of
the model may be one block of a longer C function: `split` is `Split`,
`SplitShort`, `SplitAround` and the methods they call, and the outer loop of
`bsdiff_internal` is `Diff`, `Iterate` and `WriteRecord`.  The ghost sequence
`t` that the sort methods carry lists all suffixes by position; `I` loses the
entries it overwrites by negative numbers.  `old` and `new` are reserved words
of Dafny, so the two files are called `src` and `dst`.

## What is proved

* **The sort.**  For every byte string the arrays end as the suffix array, the
  one an insertion sort by lexicographic order builds.  The doubling loop
  terminates, and every key `V[I[k] + h]` it reads exists.  Every `split`
  changes only its own segment and keeps groups in order and in agreement while
  it renumbers the very keys it sorts by.
* **The search.**  It returns a match that cannot be extended and returns 0
  exactly if the first byte of the query is not in the old file.  It does *not*
  always return a longest match: for "abx" against "aba" it finds one byte.  It
  does if and only if it is not *misled*, that is, if it never compares the
  query with a suffix that ends inside it while the old file holds a longer
  match.  Such a suffix compares equal and sends the search left
  (`bsdiff.c:219-222`).  The match comes from two neighbours in the suffix array,
  a tie going to the right, after a number of probes that is logarithmic in the
  size of the old file.
* **The records.**  Every record reads inside the old file, leaves the cursor
  inside it, and produces the next bytes of the new file; the lengths add up to
  its size.  Extensions and overlap splits are the best ones, ties going to the
  shortest.  The old score is the number of positions at which the previous
  offset agrees, so it is never negative; a record is left out exactly if the
  scan stopped short of the end with a match as long as that score.  A file
  compared with itself gives one record of zero differences.
* **The round trip.**  A patch that could be written (no call of the compressor
  failed) turns the old file into the new one if and only if the new file is not
  empty, the frame size is at least 64, the applier has room for two frames, and
  no record jumps 2^48 bytes or more.  The error is `CorruptedPatch` for a small
  frame size and for a long jump, `OutOfMemory` for the lack of room, and
  `ReadPatchFailed` for the empty file.  The limit on jumps is sharp: an old file
  of n zeros followed by the one byte wanted makes a record that jumps n bytes,
  for every n > 0.
* **Any patch.**  A patch that is applied, whoever wrote it, gives a file of at
  least the size its header promises, and of exactly that size if and only if no
  part's frames hold more bytes than the part still needs.
* **Interrupted and overlong patches.**  The applier's verdict on the front of a
  patch is final: whatever follows, it stays the same, unless the front made it
  ask for more (`ReadPatchFailed`).  On every proper front of a patch that it
  would apply, as the writer made it, it asks for more.

Where the code differs from what its names and comments suggest, the model
follows the code:

* A patch for an empty new file is never applied: `isPatchingDone` wants a
  non-zero size (`bspatch.c:463-469`), so the applier asks for a record that was
  never written.
* The applier rejects a number of eight bytes even if the eighth completes it
  (`bspatch.c:734`), while the writer's asserts allow eight
  (`bsdiff.c:427-435`).
* The applier takes both buffer sizes from the second header field
  (`bspatch.c:415,422`); the third field, which `main` goes back to fill in, is
  never read, and overwriting it changes nothing.  This is harmless since no
  frame is longer than the frame size.
* The applier reads the frames of a part while it has fewer bytes than it needs
  (`bspatch.c:650,692`) and never compares a frame with what is missing.  A patch
  that promises one byte can so write two.  Patches of the writer do not: by the
  round trip they give exactly the new file.
* A frame of one byte has room for an LZ4 token but for no literal: with
  `max_frame_size` 1, `LZ4_compress_destSize` writes the token, reads nothing and
  does not report a failure (`source/lz4.c:977-1005`), so the loop of
  `writedeCompressBuffer` would not end.  Only `main` insists on 64.  The results
  on framing ask of the compressor that it makes progress at the frame size used.
* The marking of one-suffix buckets leaves out byte 0 (`bsdiff.c:161-163`); the
  first pass of the doubling loop makes up for it.
* The signed encoding restores a value if and only if its magnitude is below
  2^62; beyond that the doubling overflows, which the model takes to wrap around.

## Model

| member | source | states |
|---|---|---|
| SuffixOrder.Lcp | delta-tool/bsdiff/bsdiff.c:189-198 | the common prefix length: that many bytes agree and the next pair does not |
| SuffixOrder.LessTransitive | delta-tool/bsdiff/bsdiff.c:189-224 | the order of suffixes is transitive and the outer pair agrees as far as the weaker inner pair |
| SuffixOrder.LcpShift | delta-tool/bsdiff/bsdiff.c:57-63 | suffixes that agree on h bytes compare as the suffixes h further on do, the fact behind sorting by `V[I[k] + h]` |
| SuffixArrays.PositionOf | delta-tool/bsdiff/bsdiff.c:185-186 | a permutation of the suffixes misses none of them, so every suffix has a position |
| SuffixArrays.SuffixArrayIsOne | delta-tool/bsdiff/bsdiff.c:140-187 | the reference sort gives a permutation of 0..oldsize with strictly ascending suffixes |
| SuffixArrays.SuffixArrayUnique | delta-tool/bsdiff/bsdiff.c:140-187 | a file has only one suffix array |
| Refinement.KeyOrdersGroup | delta-tool/bsdiff/bsdiff.c:57-63 | within a group, a smaller key means a smaller suffix and an equal key means agreement on 2h bytes |
| Refinement.NumbersOrder | delta-tool/bsdiff/bsdiff.c:50-138 | smaller group number means smaller suffix, equal numbers mean agreement on h bytes |
| Refinement.ShuffleKeepsRefined | delta-tool/bsdiff/bsdiff.c:94-122 | rearranging members of one group keeps the whole refinement invariant |
| Refinement.CloseKeepsRefined | delta-tool/bsdiff/bsdiff.c:70-75 | renumbering the front of a group keeps the invariant when the front is smaller than the rest |
| Partition.Exchange | delta-tool/bsdiff/bsdiff.c:101-103 | exchanges two entries and keeps the segment a rearrangement of itself |
| Partition.SelectSmallest | delta-tool/bsdiff/bsdiff.c:55-69 | brings all entries with the smallest key to the front and only permutes the segment |
| Partition.CountBlock | delta-tool/bsdiff/bsdiff.c:80-92 | a full block of one kind leaves no such entry elsewhere, which keeps the partition's exchanges in bounds |
| Partition.SortingHasRoom | delta-tool/bsdiff/bsdiff.c:94-122 | an entry outside its part always finds a free place at that part's end |
| Partition.CountKeys | delta-tool/bsdiff/bsdiff.c:81-92 | counts the keys below and equal to the pivot |
| Partition.PlaceBelow | delta-tool/bsdiff/bsdiff.c:94-111 | the first partition loop terminates inside the segment and leaves only smaller keys in the first part |
| Partition.PlaceEqual | delta-tool/bsdiff/bsdiff.c:113-122 | the second partition loop completes the three parts |
| Partition.PartitionAround | delta-tool/bsdiff/bsdiff.c:80-122 | the segment is permuted into keys below, equal to and above the pivot, and the middle part is not empty |
| SplitState.StretchCut | delta-tool/bsdiff/bsdiff.c:94-122 | parts separated by key are smaller and larger stretches of the same group |
| SplitState.EqualKeysAgree | delta-tool/bsdiff/bsdiff.c:63-75 | members with equal keys agree on 2h bytes |
| SplitState.GroupIsClosed | delta-tool/bsdiff/bsdiff.c:70-75 | renumbering and marking a part keeps the invariant and touches no other position |
| SplitState.StretchKept | delta-tool/bsdiff/bsdiff.c:124-137 | splitting an earlier part does not disturb a later one, although it rewrites keys |
| SplitState.SplittingAdvances | delta-tool/bsdiff/bsdiff.c:55-76 | splitting one part after another splits the segment |
| SplitState.SplitNumbersInside | delta-tool/bsdiff/bsdiff.c:124-137 | after a split the segment holds the same suffixes and its new numbers lie inside it |
| SuffixSort.Renumber | delta-tool/bsdiff/bsdiff.c:128-130 | writes the group number to exactly the listed suffixes |
| SuffixSort.CloseGroup | delta-tool/bsdiff/bsdiff.c:128-133 | a part becomes a group of its own, marked if it has one member |
| SuffixSort.SplitShort | delta-tool/bsdiff/bsdiff.c:54-78 | the short form of split meets the contract of split |
| SuffixSort.SplitAround | delta-tool/bsdiff/bsdiff.c:80-122 | after the pivot partition every part is a stretch and the recursions get strictly shorter ones |
| SuffixSort.Split | delta-tool/bsdiff/bsdiff.c:50-138 | split refines its segment to agreement on 2h bytes, keeps the invariant, and changes nothing else in I and V |
| Buckets.BucketStarts | delta-tool/bsdiff/bsdiff.c:142-153 | each bucket starts after the suffixes with smaller first bytes |
| Buckets.SlotOrder | delta-tool/bsdiff/bsdiff.c:155-156 | slots are ordered by first byte and then by position |
| Buckets.SlotFilled | delta-tool/bsdiff/bsdiff.c:155-156 | no slot stays empty |
| Buckets.FillBuckets | delta-tool/bsdiff/bsdiff.c:155-156 | every suffix lands in its slot and every counter ends at its bucket's last position |
| Buckets.BucketsAreRefined | delta-tool/bsdiff/bsdiff.c:155-160 | after the bucket sort the invariant holds with h = 1 |
| Buckets.BucketsStartDoubling | delta-tool/bsdiff/bsdiff.c:157-164 | the marked state is one the doubling loop may start from |
| Doubling.PassSkipsRun | delta-tool/bsdiff/bsdiff.c:169-171 | stepping over a sorted run keeps the pass invariant |
| Doubling.PassFindsGroup | delta-tool/bsdiff/bsdiff.c:172-176 | an entry that is not negative heads a group whose entries are all there and whose keys exist |
| Doubling.PassSplitsGroup | delta-tool/bsdiff/bsdiff.c:175-178 | splitting a group takes the pass past it and keeps all runs |
| Doubling.MemberIsLong | delta-tool/bsdiff/bsdiff.c:166-176 | no member of an unsorted group ends within the bytes the group agrees on |
| Doubling.PassEnds | delta-tool/bsdiff/bsdiff.c:166-183 | a complete pass doubles the agreement within every group |
| Doubling.WriteRun | delta-tool/bsdiff/bsdiff.c:173-174 | writing a run's length keeps the pass invariant and changes no later entry |
| Doubling.Pass | delta-tool/bsdiff/bsdiff.c:167-182 | one pass doubles h; if it met an unsorted group then h is at most oldsize, and otherwise one run covers the array |
| Doubling.DoublePasses | delta-tool/bsdiff/bsdiff.c:166-183 | the doubling loop terminates with every suffix alone in its group, in ascending order |
| Doubling.OneRunIsSorted | delta-tool/bsdiff/bsdiff.c:166 | one run over the whole array is a suffix array, with V its inverse |
| Qsufsort.NumberBuckets | delta-tool/bsdiff/bsdiff.c:157-164 | numbering and marking the buckets establishes the doubling invariant |
| Qsufsort.Invert | delta-tool/bsdiff/bsdiff.c:185-186 | I becomes the inverse of V |
| Qsufsort.SortSuffixes | delta-tool/bsdiff/bsdiff.c:140-187 | for every file, I ends as its suffix array |
| Search.MatchLength | delta-tool/bsdiff/bsdiff.c:189-198 | computes the length of the common prefix |
| Search.BinarySearch | delta-tool/bsdiff/bsdiff.c:200-224 | the binary search computes the match that the specification function defines, in a logarithmic number of probes |
| Search.FindsNeighbour | delta-tool/bsdiff/bsdiff.c:205-224 | the search puts the query between two neighbours in the suffix array and returns the better match of the two, the right one if they are equal |
| Search.TieGoesRight | delta-tool/bsdiff/bsdiff.c:209-215 | if the suffix returned compares below the query, the next one in the array agrees less far |
| Search.AgreementFallsOff | delta-tool/bsdiff/bsdiff.c:218-223 | along the suffix array the agreement with a query falls off on both sides of its place |
| Search.FindMatch | delta-tool/bsdiff/bsdiff.c:200-224 | the position is inside the old file and the length is that of the whole common prefix there |
| Search.FindsLongestUnlessMisled | delta-tool/bsdiff/bsdiff.c:200-224 | the match is a longest one if and only if no probe is a suffix ending inside the query that old extends |
| Search.FindsLongest | delta-tool/bsdiff/bsdiff.c:200-224 | if no non-empty suffix of old is a proper prefix of the query, the match is a longest one |
| Search.SearchCanMissTheLongest | delta-tool/bsdiff/bsdiff.c:219-222 | for "aba" and "abx" the search returns 1 although 2 bytes match |
| Search.FindsNothing | delta-tool/bsdiff/bsdiff.c:200-224 | the search returns 0 if and only if the query's first byte does not occur in old |
| Scan.ScoreIsCardinality | delta-tool/bsdiff/bsdiff.c:361-363 | the score is the number of positions where the shifted old file agrees |
| Scan.ReachIsFarthest | delta-tool/bsdiff/bsdiff.c:358-361 | no match found since the scan began ends farther than scsc is counted to, and one of them ends there |
| Scan.CountingDone | delta-tool/bsdiff/bsdiff.c:361-363 | after counting, scsc is the farthest end of the matches found: it bounds all of them and one attains it |
| Scan.CountedNext | delta-tool/bsdiff/bsdiff.c:368-369 | taking a position off the count never makes it negative and keeps it exact |
| Scan.StopFrom | delta-tool/bsdiff/bsdiff.c:358-370 | the first position at which the break condition holds, or the end |
| Scan.StopsExactly | delta-tool/bsdiff/bsdiff.c:361-366 | the break condition in terms of the files: the match is as long as the number of agreeing positions, and not empty, or longer by more than 8 |
| Scan.ScanAhead | delta-tool/bsdiff/bsdiff.c:356-370 | the inner loop ends at that position with its match and its exact old score |
| Extension.ForwardIsBest | delta-tool/bsdiff/bsdiff.c:373-384 | the forward length is the shortest that maximises 2*matches - length |
| Extension.BackwardIsBest | delta-tool/bsdiff/bsdiff.c:386-398 | the backward length is the shortest that maximises 2*matches - length |
| Bytes.MatchesIsCardinality | delta-tool/bsdiff/bsdiff.c:376-378 | the count the extensions maximise is the number of matching positions |
| Extension.ExtendForward | delta-tool/bsdiff/bsdiff.c:373-384 | the loop computes that length |
| Extension.ExtendBackward | delta-tool/bsdiff/bsdiff.c:386-398 | the loop computes that length |
| Extension.SplitOverlap | delta-tool/bsdiff/bsdiff.c:400-414 | the loop finds the leftmost split of the overlap with most matching bytes |
| Records.OverlapAbuts | delta-tool/bsdiff/bsdiff.c:400-418 | at any stop and at the end, extensions that do not overlap are kept; overlapping ones end up abutting, both lengths within bounds, at the leftmost best split |
| Records.LastExtentIsBest | delta-tool/bsdiff/bsdiff.c:372-387 | at the end of the new file nothing is extended backward and the forward length is still the shortest best one |
| Records.ChooseExtents | delta-tool/bsdiff/bsdiff.c:373-418 | the lengths chosen are those of the specification |
| Records.DifferenceRoundTrip | delta-tool/bsdiff/bsdiff.c:445-447 | the differences stored are new less old mod 256, and adding them to old gives the new bytes |
| Records.SubtractBorrows | delta-tool/bsdiff/bsdiff.c:445-447 | a difference of bytes borrows 256 when it is negative |
| Records.Next | delta-tool/bsdiff/bsdiff.c:355-465 | an iteration of the outer loop keeps all bounds and makes progress |
| Records.ScanResumes | delta-tool/bsdiff/bsdiff.c:358-370 | the scan resumes behind the last match and ends at the first position that meets the break condition |
| Records.LastMatchHeld | delta-tool/bsdiff/bsdiff.c:358-370 | the match held is that of the last position searched, or the old one if nothing was left to scan |
| Records.NothingEmitted | delta-tool/bsdiff/bsdiff.c:372 | no record is written if and only if the scan stopped short of the end and the match is as long as the number of agreeing positions |
| Records.RecordTakesExtents | delta-tool/bsdiff/bsdiff.c:420-464 | the record's lengths are those of the extensions and the next record starts with the backward one |
| Records.OffsetMatches | delta-tool/bsdiff/bsdiff.c:365-372 | the match is kept for the next round; after a record the offset is that of the match found; with no record due the old offset agrees at as many positions |
| Records.RecordsChain | delta-tool/bsdiff/bsdiff.c:355-465 | from any state of the run, the records still to come fit both files and rebuild the rest of the new one |
| Records.AllRecordsChain | delta-tool/bsdiff/bsdiff.c:349-467 | the records of a run fit both files from their start |
| Records.ChainCoversNewFile | delta-tool/bsdiff/bsdiff.c:349-467 | the lengths add up to newsize, and there is a record if newsize > 0 |
| SameFile.OneRecordOfZeros | delta-tool/bsdiff/bsdiff.c:349-467 | equal files that are not empty give one record, all of it zero differences |
| Varint.UlebLength | delta-tool/source/varint.c:66-84 | an encoding has at most n bytes if and only if the value is below 2^(7n) |
| Varint.EncodeUnsigned | delta-tool/source/varint.c:66-84 | succeeds exactly below 2^(7n), writes the encoding there and touches nothing else |
| Varint.EncodeSigned | delta-tool/source/varint.c:86-113 | writes the groups of the folded value, or fails when the buffer is too small |
| Varint.OrBits | delta-tool/source/varint.c:55 | bitwise or, bit by bit |
| VarintDecoding.MergeAdds | delta-tool/source/varint.c:50-55 | shifting a group and or-ing it in adds it at its place |
| VarintDecoding.ShiftedBits | delta-tool/source/varint.c:52-54 | the repeated shift moves each bit up by seven a step and drops what leaves the 64-bit word |
| VarintDecoding.MergeBits | delta-tool/source/varint.c:43-55 | every bit of the value after one more byte: the first byte clears what was there, later ones are or-ed in |
| VarintDecoding.SignedMergeKeepsBits | delta-tool/source/varint.c:123-148 | the signed decoder builds the same 64-bit pattern and unfolds it at the last byte |
| VarintDecoding.FirstByteClears | delta-tool/source/varint.c:43-45 | decoding does not depend on the number decoded before |
| VarintDecoding.TooManyBytes | delta-tool/source/varint.c:39-41 | an eleventh byte is an error |
| VarintDecoding.DecodeUnsigned | delta-tool/source/varint.c:35-64 | one call merges one group and reports whether more follow |
| VarintDecoding.DecodeSigned | delta-tool/source/varint.c:115-151 | one call merges one group and unfolds the sign at the end |
| VarintDecoding.UnsignedRoundTrip | delta-tool/source/varint.c:35-84 | every uint64 comes back, whatever was decoded before it, with the rest of the stream untouched |
| VarintDecoding.OnlyLastCompletes | delta-tool/source/varint.c:57-61 | only the last byte of an encoding reports completion |
| VarintDecoding.UlebPrefixFree | delta-tool/source/varint.c:66-84 | no encoding is a proper prefix of another |
| VarintDecoding.ConcatenationUnique | delta-tool/source/varint.c:66-84 | a concatenation of encodings has one parse |
| VarintDecoding.NoShorterEncoding | delta-tool/source/varint.c:66-84 | no shorter string of bytes decodes to the same value |
| VarintDecoding.UlebIsLeb128 | delta-tool/source/varint.c:66-84 | the unsigned form is unsigned LEB128 |
| VarintDecoding.SlebIsSignLast | delta-tool/source/varint.c:90-96 | the signed form is the unsigned one of twice the magnitude, plus one if negative |
| VarintDecoding.SlebOverflows | delta-tool/source/varint.c:90-111 | from 2^62 on only the low seven bits of that number are written |
| VarintDecoding.SignedRoundTrip | delta-tool/source/varint.c:86-151 | a signed value below 2^62 in magnitude comes back, whatever was decoded before it |
| VarintDecoding.SignedRoundTripExactly | delta-tool/source/varint.c:86-151 | and no other int64 does |
| Compression.StoredMeetsContract | delta-tool/include/lz4.h:189-202 | the contract asked of the compressor at a frame size can be met, whatever that size |
| Compression.NoProgressInOneByte | delta-tool/source/lz4.c:977-1005 | a compressor that turns nothing into a token when the target is one byte does not meet the contract there |
| Framing.WriteFrames | delta-tool/bsdiff/bsdiff.c:267-313 | terminates; on success the file grows by exactly the frames of the buffer and the running maximum is updated |
| Framing.FramesAreCalls | delta-tool/bsdiff/bsdiff.c:280-303 | the frames are what successive calls of the compressor make of the buffer, each offered what is left, up to max_frame_size |
| Framing.StoredFrames | delta-tool/bsdiff/bsdiff.c:280-309 | a compressor that stores bytes makes as few frames of max_frame_size as hold the buffer |
| Framing.StoredFrameAt | delta-tool/bsdiff/bsdiff.c:280-303 | and frame k is the part of the buffer from k * max_frame_size on |
| Framing.FramesFit | delta-tool/bsdiff/bsdiff.c:283-288 | every frame has between 1 and max_frame_size bytes |
| RoundTrip.FramesParseUniquely | delta-tool/bsdiff/bsdiff.c:267-313 | frames determine the buffer, given its length, and where they end |
| Header.Offtout | delta-tool/bsdiff/bsdiff.c:226-260 | fills eight bytes with the sign-magnitude form and nothing else |
| Header.OfftDigits | delta-tool/bsdiff/bsdiff.c:226-260 | the bytes are the base-256 digits of the magnitude, least significant first, with the sign in the top bit |
| Header.MagicSpells | delta-tool/include/bspatch_private.h:30 | the magic is "PELION/BSDIFF001" |
| Header.OffRoundTrip | delta-tool/source/bspatch.c:171-195 | that form is invertible for every magnitude below 2^63 |
| Header.HeaderRewritten | delta-tool/bsdiff/bsdiff.c:583-586 | rewriting offset 32 changes the last header field only |
| RoundTrip.PatchHeader | delta-tool/bsdiff/bsdiff.c:569-586 | the header of a patch decodes to newsize, max_frame_size and the length of the longest frame in it |
| RoundTrip.LongestIsLargest | delta-tool/bsdiff/bsdiff.c:305-307 | the running maximum over all calls is the longest frame written |
| RoundTrip.LongestFits | delta-tool/bsdiff/bsdiff.c:305-307 | it never exceeds max_frame_size |
| RoundTrip.ReadsFrame | delta-tool/source/bspatch.c:593-619 | a frame behind its length is read as what it decompresses to, leaving what follows it, and rejected if it is too long or decompresses to nothing |
| RoundTrip.ReadsUnsignedBelow | delta-tool/source/bspatch.c:723-748 | the applier reads a number back if and only if it takes at most seven bytes |
| RoundTrip.ReadsSignedBelow | delta-tool/source/bspatch.c:723-748 | likewise for signed numbers, below 2^48 in magnitude |
| RoundTrip.AppliesExtra | delta-tool/source/bspatch.c:657-697 | literal frames give the buffer back |
| RoundTrip.AppliesDiff | delta-tool/source/bspatch.c:587-656 | difference frames give the buffer added to the old file at the cursor |
| RoundTrip.ReadsRecord | delta-tool/source/bspatch.c:538-703 | a record is read back in full, leaving what follows it |
| RoundTrip.DiffRunsOut | delta-tool/source/bspatch.c:619-633 | difference frames that reach beyond the old file fail to read it |
| RoundTrip.RecordStep | delta-tool/source/bspatch.c:538-710 | what a written record does to any old file and any state of the applier, with every error case |
| RoundTrip.WrittenUnlessCompressorFails | delta-tool/bsdiff/bsdiff.c:447-459 | the records can be written if and only if the compressor succeeds on every buffer |
| RoundTrip.AppliesChain | delta-tool/source/bspatch.c:538-710 | a chain of records is applied in full if every jump can be read, and is rejected otherwise |
| RoundTrip.PatchRoundTrip | delta-tool/source/bspatch.c:400-435 | the outcome of applying any patch that could be written: the new file, or which error |
| RoundTrip.StoredRoundTrip | delta-tool/source/bspatch.c:511-721 | with a compressor that only stores, every patch can be written and rebuilds every non-empty new file |
| LongJump.JumpsFar | delta-tool/bsdiff/bsdiff.c:349-467 | for an old file of n zeros and a one, and the new file with that one byte, the only record jumps n bytes |
| LongJump.FarJumpIsRejected | delta-tool/source/bspatch.c:723-748 | the patch for these files is applied if and only if n is below 2^48 |
| AnyPatch.ExtraSize | delta-tool/source/bspatch.c:674-697 | a part yields at least the bytes it needs, and just those if and only if no frame holds more than is missing |
| AnyPatch.AppliedSize | delta-tool/source/bspatch.c:587-710 | any patch that is applied gives at least newsize bytes, and exactly those if and only if every part fits its frames |
| AnyPatch.SizeCanBeExceeded | delta-tool/source/bspatch.c:692 | a patch with newsize 1 whose application writes two bytes |
| AnyPatch.EmptyIsNeverDone | delta-tool/source/bspatch.c:463-469 | no patch for an empty new file is ever finished |
| AnyPatch.HeaderDecides | delta-tool/source/bspatch.c:291-435 | which headers are rejected and with which error: sizes beyond 32 bits, frames below 64 bytes, two frames that do not fit the memory |
| AnyPatch.ThirdFieldUnread | delta-tool/source/bspatch.c:415-427 | the outcome does not depend on the third header field |
| Streaming.OutcomeIsFinal | delta-tool/source/bspatch.c:511-721 | for any patch, what the applier decides on a front stays, whatever follows, unless it asked for more |
| Streaming.FrontOfPatch | delta-tool/source/bspatch.c:511-721 | on every proper front of a written patch that can be applied it asks for more |
| RoundTrip.SmallFilesReadable | delta-tool/bsdiff/bsdiff.c:422 | with an old file below 2^48 bytes every jump can be read |
| RoundTrip.RecordsWithinFiles | delta-tool/bsdiff/bsdiff.c:420-422 | every number in a record is bounded by the size of a file |
| BsDiff.UnsignedFits | delta-tool/bsdiff/bsdiff.c:425-432 | eight bytes hold an unsigned control word if and only if it is below 2^56 |
| BsDiff.SignedFits | delta-tool/bsdiff/bsdiff.c:434-435 | eight bytes hold a signed control word if and only if its magnitude is below 2^55 |
| BsDiff.ControlWordsFit | delta-tool/bsdiff/bsdiff.c:425-436 | the asserts on control words hold for all files below 2^55 bytes |
| BsDiff.WriteControl | delta-tool/bsdiff/bsdiff.c:424-442 | writes the three control words after one another |
| BsDiff.WriteRecord | delta-tool/bsdiff/bsdiff.c:372-459 | writes the record of a stop, or fails if the compressor does |
| BsDiff.Iterate | delta-tool/bsdiff/bsdiff.c:355-465 | an iteration of the outer loop takes the state and the file where the specification says |
| BsDiff.Diff | delta-tool/bsdiff/bsdiff.c:325-497 | writes exactly the records of the run and returns the longest frame |
| BsDiff.RewriteLargest | delta-tool/bsdiff/bsdiff.c:583-586 | fills in the last header field and leaves the rest of the patch alone |
| BsDiff.MakePatch | delta-tool/bsdiff/bsdiff.c:514-605 | the patch file ends as the specified patch, which the applier turns into the new file |

## Left out

- LZ4 itself: the compressor and decompressor are any pair of functions that meet the contract of `Compression.MeetsContract` at the frame size in use (a call reads between 1 and the offered bytes, fits the target, and is undone by decompression into a buffer of that size, or fails). That the LZ4 of this repository meets it is not part of this model; at a frame size of 1 it does not.
- The events of `bspatch.c`: the applier is modelled with every callback completing at once; suspending and resuming on asynchronous reads, writes and seeks, and the resulting event checks, are not modelled.
- Failing calls of the environment: `malloc`, `open`, `read`, `fwrite` and `fseek` succeed; the return value of `stream->write` is ignored by the code as well.
- Memory layout of the applier: the compiled-in buffer space is a number of bytes; alignment inside the structure is not modelled.
- Integer widths of `bsdiff.c`: mathematical integers, for files and frames whose lengths fit the C `int` that `writedeCompressBuffer` keeps them in (below 2^31), and old files below 2^55 bytes as the control-word asserts require.
- Applier.ApplyDiff: does not model that a piece longer than the buffer for old bytes is read and written in several portions, because the resulting files are the same.
- `main` beyond the patch file: arguments, default frame size and messages.
- `delta-tool.py`, the ASN.1 description and the rest of the firmware: glue around libraries, with no algorithm of this kind.
